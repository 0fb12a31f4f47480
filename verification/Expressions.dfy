/** Planned expressions and their evaluation: three-valued logic, numeric
    widening, checked integer arithmetic. */
module Expressions {
  import opened Common
  import opened Bytes
  import opened Entries
  import opened Values

  datatype CompareOp = Eq | NotEq | LessThan | LessThanOrEqual | GreaterThan | GreaterThanOrEqual

  datatype Expr = Expr(returnType: SqlType, kind: Kind)

  datatype Kind =
    | ColumnValue(tupleIdx: nat, colIdx: nat)
    | ConstantValue(value: Value)
    | Comparison(left: Expr, op: CompareOp, right: Expr)
    | Arithmetic(left: Expr, plus: bool, right: Expr)
    | Logic(left: Expr, and: bool, right: Expr)
    | Not(expr: Expr)
    | Negate(expr: Expr)
    | NullCheck(expr: Expr, wantNull: bool)

  /** `NoSuchColumn` stands for the panics on a column or row that is not there. */
  datatype Error = NumericOutOfRange | ExpectedBoolean | ExpectedNumeric | ComparisonTypeMismatch | NoSuchColumn

  datatype Result<T> = Ok(value: T) | Err(error: Error)

  type Row = seq<Value>

  /** The operations of binary64 hardware that round. */
  datatype FloatOps = FloatOps(add: (Bits64, Bits64) -> Bits64, sub: (Bits64, Bits64) -> Bits64, ofInt: int -> Bits64)

  // ---- comparison --------------------------------------------------------------------------

  predicate Numeric(t: SqlType) {
    t.SmallInt? || t.Integer? || t.BigInt? || t.Decimal?
  }

  /** The type both operands are widened to. */
  function Wider(a: SqlType, b: SqlType): (t: SqlType)
    requires Numeric(a) && Numeric(b)
    ensures t == a || t == b
    ensures t.Decimal? || (a.IntBound() <= t.IntBound() && b.IntBound() <= t.IntBound())
  {
    if a.Decimal? || b.Decimal? then Decimal
    else if a.BigInt? || b.BigInt? then BigInt
    else if a.Integer? || b.Integer? then Integer
    else SmallInt
  }

  /** What an operator says of operands that compare this way; for NaN all three
      are false. */
  predicate OpHolds(op: CompareOp, less: bool, equal: bool, greater: bool) {
    match op
    case Eq => equal
    case NotEq => !equal
    case LessThan => less
    case LessThanOrEqual => less || equal
    case GreaterThan => greater
    case GreaterThanOrEqual => greater || equal
  }

  function AsFloat(fp: FloatOps, v: Value): Bits64
    requires v.Int? || v.Float?
  {
    if v.Float? then v.bits else fp.ofInt(v.i)
  }

  function CompareValues(fp: FloatOps, a: Value, op: CompareOp, b: Value): Result<Value> {
    if Numeric(a.Type()) && Numeric(b.Type()) then
      if a.Null? || b.Null? then Ok(Null(Boolean))
      else if Wider(a.Type(), b.Type()).Decimal? then
        if !(a.Int? || a.Float?) || !(b.Int? || b.Float?) then Err(ExpectedNumeric)
        else
          var x, y := AsFloat(fp, a), AsFloat(fp, b);
          Ok(Bool(OpHolds(op, FloatLess(x, y), FloatEqual(x, y), FloatLess(y, x))))
      else if a.Int? && b.Int? then Ok(Bool(OpHolds(op, a.i < b.i, a.i == b.i, a.i > b.i)))
      else Err(ExpectedNumeric)
    else if a.Null? || b.Null? then
      if a.Type() == b.Type() then Ok(Null(Boolean)) else Err(ComparisonTypeMismatch)
    else if a.Bool? && b.Bool? then Ok(Bool(OpHolds(op, !a.b && b.b, a.b == b.b, a.b && !b.b)))
    else if a.Text? && b.Text? then
      var c := CompareBytes(a.s, b.s);
      Ok(Bool(OpHolds(op, c.Less?, c.Equal?, c.Greater?)))
    else Err(ComparisonTypeMismatch)
  }

  // ---- logic ----------------------------------------------------------------------------------

  datatype Truth = True | False | Unknown

  function AsTruth(v: Value): Result<Truth> {
    match v
    case Bool(b) => Ok(if b then True else False)
    case Null(_) => Ok(Unknown)
    case _ => Err(ExpectedBoolean)
  }

  function OfTruth(t: Truth): Value {
    match t
    case True => Bool(true)
    case False => Bool(false)
    case Unknown => Null(Boolean)
  }

  function TruthAnd(a: Truth, b: Truth): Truth {
    if a.False? || b.False? then False else if a.True? && b.True? then True else Unknown
  }

  function TruthOr(a: Truth, b: Truth): Truth {
    if a.True? || b.True? then True else if a.False? && b.False? then False else Unknown
  }

  function TruthNot(a: Truth): Truth {
    match a
    case True => False
    case False => True
    case Unknown => Unknown
  }

  // ---- arithmetic -------------------------------------------------------------------------------

  /** An integer result, if it fits its type. */
  function Checked(t: SqlType, i: int): Result<Value> {
    if -t.IntBound() <= i < t.IntBound() then Ok(Int(t, i)) else Err(NumericOutOfRange)
  }

  function Arith(fp: FloatOps, plus: bool, a: Value, b: Value): Result<Value> {
    if !Numeric(a.Type()) || !Numeric(b.Type()) then Err(ExpectedNumeric)
    else
      var t := Wider(a.Type(), b.Type());
      if a.Null? || b.Null? then Ok(Null(t))
      else if !(a.Int? || a.Float?) || !(b.Int? || b.Float?) then Err(ExpectedNumeric)
      else if t.Decimal? then
        var x, y := AsFloat(fp, a), AsFloat(fp, b);
        Ok(Float(if plus then fp.add(x, y) else fp.sub(x, y)))
      else if a.Int? && b.Int? then Checked(t, if plus then a.i + b.i else a.i - b.i)
      else Err(ExpectedNumeric)
  }

  function Negated(v: Value): Result<Value> {
    match v
    case Int(t, i) => Checked(t, -i)
    case Float(bits) => Ok(Float(if bits < SIGN then bits + SIGN else bits - SIGN))
    case Null(t) => if Numeric(t) then Ok(v) else Err(ExpectedNumeric)
    case _ => Err(ExpectedNumeric)
  }

  // ---- evaluation ---------------------------------------------------------------------------------

  /** Evaluates over the rows an expression can name: one row, or the left and
      right row of a join. */
  function Evaluate(fp: FloatOps, e: Expr, rows: seq<Row>): Result<Value>
    decreases e, 0
  {
    match e.kind
    case ColumnValue(t, c) => if t < |rows| && c < |rows[t]| then Ok(rows[t][c]) else Err(NoSuchColumn)
    case ConstantValue(v) => Ok(v)
    case Comparison(l, op, r) =>
      var a, b := Evaluate(fp, l, rows), Evaluate(fp, r, rows);
      if a.Err? then a else if b.Err? then b else CompareValues(fp, a.value, op, b.value)
    case Arithmetic(l, plus, r) =>
      var a, b := Evaluate(fp, l, rows), Evaluate(fp, r, rows);
      if a.Err? then a else if b.Err? then b else Arith(fp, plus, a.value, b.value)
    case Logic(l, and, r) =>
      var a := EvaluateTruth(fp, l, rows);
      if a.Err? then Err(a.error)
      else
        var b := EvaluateTruth(fp, r, rows);
        if b.Err? then Err(b.error)
        else Ok(OfTruth(if and then TruthAnd(a.value, b.value) else TruthOr(a.value, b.value)))
    case Not(x) =>
      var a := EvaluateTruth(fp, x, rows);
      if a.Err? then Err(a.error) else Ok(OfTruth(TruthNot(a.value)))
    case Negate(x) =>
      var a := Evaluate(fp, x, rows);
      if a.Err? then a else Negated(a.value)
    case NullCheck(x, wantNull) =>
      var a := Evaluate(fp, x, rows);
      if a.Err? then a else Ok(Bool(a.value.Null? == wantNull))
  }

  function EvaluateTruth(fp: FloatOps, e: Expr, rows: seq<Row>): Result<Truth>
    decreases e, 1
  {
    var v := Evaluate(fp, e, rows);
    if v.Err? then Err(v.error) else AsTruth(v.value)
  }

  /** Whether a predicate keeps the row: unknown counts as no. */
  function Keep(fp: FloatOps, e: Expr, rows: seq<Row>): Result<bool> {
    var t := EvaluateTruth(fp, e, rows);
    if t.Err? then Err(t.error) else Ok(t.value.True?)
  }

  /** All expressions of a list, failing as the first that fails. */
  function EvaluateAll(fp: FloatOps, es: seq<Expr>, rows: seq<Row>): (r: Result<Row>)
    ensures r.Ok? ==> |r.value| == |es| && forall i :: 0 <= i < |es| ==> Evaluate(fp, es[i], rows) == Ok(r.value[i])
    ensures (forall i :: 0 <= i < |es| ==> Evaluate(fp, es[i], rows).Ok?) ==> r.Ok?
  {
    if es == [] then Ok([])
    else
      var head := Evaluate(fp, es[0], rows);
      if head.Err? then Err(head.error)
      else
        var tail := EvaluateAll(fp, es[1..], rows);
        if tail.Err? then tail else Ok([head.value] + tail.value)
  }

  // ---- laws -----------------------------------------------------------------------------------------

  function Degree(t: Truth): nat {
    match t
    case False => 0
    case Unknown => 1
    case True => 2
  }

  /** And is the minimum, or the maximum of false < unknown < true, and not turns
      the order around. */
  lemma KleeneLattice(a: Truth, b: Truth)
    ensures Degree(TruthAnd(a, b)) == if Degree(a) <= Degree(b) then Degree(a) else Degree(b)
    ensures Degree(TruthOr(a, b)) == if Degree(a) <= Degree(b) then Degree(b) else Degree(a)
    ensures Degree(TruthNot(a)) == 2 - Degree(a)
    ensures TruthNot(TruthAnd(a, b)) == TruthOr(TruthNot(a), TruthNot(b))
  {
  }

  predicate RowsOk(rows: seq<Row>) {
    forall r, c :: 0 <= r < |rows| && 0 <= c < |rows[r]| ==> rows[r][c].Ok()
  }

  predicate ConstantsOk(e: Expr) {
    match e.kind
    case ColumnValue(_, _) => true
    case ConstantValue(v) => v.Ok()
    case Comparison(l, _, r) => ConstantsOk(l) && ConstantsOk(r)
    case Arithmetic(l, _, r) => ConstantsOk(l) && ConstantsOk(r)
    case Logic(l, _, r) => ConstantsOk(l) && ConstantsOk(r)
    case Not(x) => ConstantsOk(x)
    case Negate(x) => ConstantsOk(x)
    case NullCheck(x, _) => ConstantsOk(x)
  }

  /** Evaluation never leaves the range of a type: an overflow is an error, not a
      wrapped value. */
  lemma {:induction false} EvaluateStaysInRange(fp: FloatOps, e: Expr, rows: seq<Row>)
    requires RowsOk(rows) && ConstantsOk(e)
    ensures Evaluate(fp, e, rows).Ok? ==> Evaluate(fp, e, rows).value.Ok()
    decreases e
  {
    match e.kind
    case ColumnValue(_, _) =>
    case ConstantValue(_) =>
    case Comparison(l, _, r) =>
    case Arithmetic(l, _, r) =>
      EvaluateStaysInRange(fp, l, rows);
      EvaluateStaysInRange(fp, r, rows);
    case Logic(l, _, r) =>
    case Not(x) =>
    case Negate(x) =>
      EvaluateStaysInRange(fp, x, rows);
    case NullCheck(x, _) =>
  }

  // ---- equi-join predicates ---------------------------------------------------------------------------

  /** The column pairs of a conjunction of equalities between a column of the
      left and a column of the right row. */
  function ExtractKeys(p: Expr): (keys: Option<(seq<nat>, seq<nat>)>)
    ensures keys.Some? ==> |keys.value.0| == |keys.value.1|
  {
    match p.kind
    case Comparison(l, Eq, r) =>
      (match (l.kind, r.kind)
       case (ColumnValue(lt, lc), ColumnValue(rt, rc)) =>
         if lt == 0 && rt == 1 then Some(([lc], [rc]))
         else if lt == 1 && rt == 0 then Some(([rc], [lc]))
         else None
       case _ => None)
    case Logic(l, true, r) =>
      var a, b := ExtractKeys(l), ExtractKeys(r);
      if a.Some? && b.Some? then Some((a.value.0 + b.value.0, a.value.1 + b.value.1)) else None
    case _ => None
  }

  predicate InRange(cols: seq<nat>, row: Row) {
    forall k :: 0 <= k < |cols| ==> cols[k] < |row|
  }

  function Pick(cols: seq<nat>, row: Row): (key: Row)
    requires InRange(cols, row)
    ensures |key| == |cols| && forall k :: 0 <= k < |cols| ==> key[k] == row[cols[k]]
  {
    seq(|cols|, k requires 0 <= k < |cols| => row[cols[k]])
  }

  predicate NoNulls(row: Row) {
    forall k :: 0 <= k < |row| ==> !row[k].Null?
  }

  /** The pairs have one type each. */
  predicate KeyTypes(a: Row, b: Row) {
    |a| == |b| && forall k :: 0 <= k < |a| ==> a[k].Type() == b[k].Type() && a[k].Ok() && b[k].Ok()
  }

  /** Equal as SQL sees it: NaN equals nothing, and the two zeros are equal. */
  predicate SameSql(a: Value, b: Value) {
    if a.Float? && b.Float? then FloatEqual(a.bits, b.bits) else a == b
  }

  predicate KeysEqual(a: Row, b: Row) {
    |a| == |b| && forall k :: 0 <= k < |a| ==> SameSql(a[k], b[k])
  }

  lemma PickConcat(xs: seq<nat>, ys: seq<nat>, row: Row)
    requires InRange(xs + ys, row)
    ensures InRange(xs, row) && InRange(ys, row) && Pick(xs + ys, row) == Pick(xs, row) + Pick(ys, row)
  {
    assert forall k :: 0 <= k < |xs| ==> (xs + ys)[k] == xs[k];
    assert forall k :: 0 <= k < |ys| ==> (xs + ys)[|xs| + k] == ys[k];
  }

  lemma KeyConcat(a1: Row, a2: Row, b1: Row, b2: Row)
    requires |a1| == |b1| && KeyTypes(a1 + a2, b1 + b2)
    ensures KeyTypes(a1, b1) && KeyTypes(a2, b2)
    ensures NoNulls(a1 + a2) && KeysEqual(a1 + a2, b1 + b2) <==>
      (NoNulls(a1) && KeysEqual(a1, b1)) && NoNulls(a2) && KeysEqual(a2, b2)
  {
    var a, b := a1 + a2, b1 + b2;
    assert forall k :: 0 <= k < |a1| ==> a[k] == a1[k] && b[k] == b1[k];
    assert forall k :: 0 <= k < |a2| ==> a[|a1| + k] == a2[k] && b[|a1| + k] == b2[k];
  }

  /** Such a predicate holds of two rows exactly if their keys are equal as SQL
      sees it and have no nulls. */
  lemma {:induction false} EquiJoinMeaning(fp: FloatOps, p: Expr, left: Row, right: Row)
    requires ExtractKeys(p).Some?
    requires InRange(ExtractKeys(p).value.0, left) && InRange(ExtractKeys(p).value.1, right)
    requires KeyTypes(Pick(ExtractKeys(p).value.0, left), Pick(ExtractKeys(p).value.1, right))
    ensures var a, b := Pick(ExtractKeys(p).value.0, left), Pick(ExtractKeys(p).value.1, right);
      Keep(fp, p, [left, right]) == Ok(NoNulls(a) && KeysEqual(a, b))
    decreases p
  {
    hide CompareValues, Value.Type, KeyTypes;
    if p.kind.Comparison? {
      EqualityMeaning(fp, p, left, right);
    } else {
      var (l1, r1) := ExtractKeys(p.kind.left).value;
      var (l2, r2) := ExtractKeys(p.kind.right).value;
      PickConcat(l1, l2, left);
      PickConcat(r1, r2, right);
      KeyConcat(Pick(l1, left), Pick(l2, left), Pick(r1, right), Pick(r2, right));
      EquiJoinMeaning(fp, p.kind.left, left, right);
      EquiJoinMeaning(fp, p.kind.right, left, right);
      var x, y := EvaluateTruth(fp, p.kind.left, [left, right]), EvaluateTruth(fp, p.kind.right, [left, right]);
      assert Evaluate(fp, p, [left, right]) == Ok(OfTruth(TruthAnd(x.value, y.value)));
    }
  }

  lemma EqualityMeaning(fp: FloatOps, p: Expr, left: Row, right: Row)
    requires ExtractKeys(p).Some? && p.kind.Comparison?
    requires InRange(ExtractKeys(p).value.0, left) && InRange(ExtractKeys(p).value.1, right)
    requires KeyTypes(Pick(ExtractKeys(p).value.0, left), Pick(ExtractKeys(p).value.1, right))
    ensures var a, b := Pick(ExtractKeys(p).value.0, left), Pick(ExtractKeys(p).value.1, right);
      Keep(fp, p, [left, right]) == Ok(NoNulls(a) && KeysEqual(a, b))
  {
    var a, b := Pick(ExtractKeys(p).value.0, left), Pick(ExtractKeys(p).value.1, right);
    assert a == [a[0]] && b == [b[0]];
    CompareSame(fp, a[0], b[0]);
    CompareSame(fp, b[0], a[0]);
    var x, y := Evaluate(fp, p.kind.left, [left, right]), Evaluate(fp, p.kind.right, [left, right]);
    assert x.Ok? && y.Ok? && {x.value, y.value} == {a[0], b[0]};
    assert Evaluate(fp, p, [left, right]) == CompareValues(fp, x.value, Eq, y.value);
  }

  lemma CompareSame(fp: FloatOps, a: Value, b: Value)
    requires a.Type() == b.Type() && a.Ok() && b.Ok()
    ensures CompareValues(fp, a, Eq, b) == Ok(if a.Null? || b.Null? then Null(Boolean) else Bool(SameSql(a, b)))
  {
    if a.Text? && b.Text? {
      CompareBytesOrder(a.s, b.s);
    }
  }

  /** Keys that are neither NaN nor the negative zero. */
  predicate PlainKey(key: Row) {
    forall k :: 0 <= k < |key| && key[k].Float? ==> !IsNan(key[k].bits) && key[k].bits != SIGN
  }

  /** Between plain keys SQL equality is equality. */
  lemma PlainKeysEqual(a: Row, b: Row)
    requires |a| == |b| && PlainKey(a) && PlainKey(b)
    ensures KeysEqual(a, b) <==> a == b
  {
    forall k | 0 <= k < |a|
      ensures SameSql(a[k], b[k]) <==> a[k] == b[k]
    {
    }
  }
}
