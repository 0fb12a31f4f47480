/** What expressions compute, said of `Evaluate` alone: arithmetic on numbers,
    the order comparisons follow, three-valued logic, null checks. */
module ExpressionLaws {
  import opened Common
  import opened Bytes
  import opened Values
  import opened Expressions

  function Plus(t: SqlType, a: Expr, b: Expr): Expr { Expr(t, Arithmetic(a, true, b)) }

  function Minus(t: SqlType, a: Expr, b: Expr): Expr { Expr(t, Arithmetic(a, false, b)) }

  function Opposite(t: SqlType, a: Expr): Expr { Expr(t, Negate(a)) }

  function Compare(a: Expr, op: CompareOp, b: Expr): Expr { Expr(Boolean, Comparison(a, op, b)) }

  function Constant(v: Value): Expr { Expr(v.Type(), ConstantValue(v)) }

  // ---- leaves and errors ------------------------------------------------------------------

  /** Constants are themselves; a column is that column of that row, and fails
      exactly if there is none. */
  lemma Leaves(fp: FloatOps, t: SqlType, v: Value, row: nat, col: nat, rows: seq<Row>)
    ensures Evaluate(fp, Constant(v), rows) == Ok(v)
    ensures row < |rows| && col < |rows[row]| ==> Evaluate(fp, Expr(t, ColumnValue(row, col)), rows) == Ok(rows[row][col])
    ensures Evaluate(fp, Expr(t, ColumnValue(row, col)), rows).Err? <==> !(row < |rows| && col < |rows[row]|)
  {
  }

  /** An operand that fails makes the expression fail alike, the left one first. */
  lemma FailingOperand(fp: FloatOps, t: SqlType, l: Expr, r: Expr, plus: bool, op: CompareOp, and: bool, rows: seq<Row>)
    requires Evaluate(fp, l, rows).Err? || Evaluate(fp, r, rows).Err?
    ensures var e := if Evaluate(fp, l, rows).Err? then Evaluate(fp, l, rows) else Evaluate(fp, r, rows);
      && Evaluate(fp, Expr(t, Arithmetic(l, plus, r)), rows) == e
      && Evaluate(fp, Expr(t, Comparison(l, op, r)), rows) == e
      && (Evaluate(fp, l, rows).Err? || DegreeOf(Evaluate(fp, l, rows).value).Some? ==>
            Evaluate(fp, Expr(t, Logic(l, and, r)), rows) == e)
    ensures Evaluate(fp, l, rows).Err? ==>
      && Evaluate(fp, Expr(t, Not(l)), rows) == Evaluate(fp, l, rows)
      && Evaluate(fp, Expr(t, Negate(l)), rows) == Evaluate(fp, l, rows)
      && Evaluate(fp, Expr(t, NullCheck(l, and)), rows) == Evaluate(fp, l, rows)
  {
  }

  // ---- integers -----------------------------------------------------------------------------

  predicate IsInt(r: Result<Value>) {
    r.Ok? && r.value.Int? && r.value.Ok()
  }

  /** The larger of two integer types. */
  function Larger(a: SqlType, b: SqlType): (t: SqlType)
    ensures t.IntBound() >= a.IntBound() && t.IntBound() >= b.IntBound()
  {
    if a.IntBound() >= b.IntBound() then a else b
  }

  /** A number as a value of an integer type, if it fits. */
  function Fitting(t: SqlType, i: int): Result<Value> {
    if -t.IntBound() <= i < t.IntBound() then Ok(Int(t, i)) else Err(NumericOutOfRange)
  }

  /** Arithmetic on expressions is arithmetic on their values. */
  lemma OnValues(fp: FloatOps, t: SqlType, a: Expr, b: Expr, rows: seq<Row>)
    requires Evaluate(fp, a, rows).Ok? && Evaluate(fp, b, rows).Ok?
    ensures var x, y := Evaluate(fp, a, rows).value, Evaluate(fp, b, rows).value;
      && Evaluate(fp, Plus(t, a, b), rows) == Arith(fp, true, x, y)
      && Evaluate(fp, Minus(t, a, b), rows) == Arith(fp, false, x, y)
      && Evaluate(fp, Opposite(t, a), rows) == Negated(x)
  {
    hide Arith, Negated;
  }

  /** Sums, differences and opposites are those of numbers, in the larger type;
      what does not fit it is an error. */
  lemma IntegerArithmetic(fp: FloatOps, t: SqlType, a: Expr, b: Expr, rows: seq<Row>)
    requires IsInt(Evaluate(fp, a, rows)) && IsInt(Evaluate(fp, b, rows))
    ensures var x, y := Evaluate(fp, a, rows).value, Evaluate(fp, b, rows).value;
      var w := Larger(x.width, y.width);
      && Evaluate(fp, Plus(t, a, b), rows) == Fitting(w, x.i + y.i)
      && Evaluate(fp, Minus(t, a, b), rows) == Fitting(w, x.i - y.i)
      && Evaluate(fp, Opposite(t, a), rows) == Fitting(x.width, -x.i)
  {
    hide Evaluate, Arith, Negated, Fitting, Larger, Value.Ok, SqlType.IntBound, Plus, Minus, Opposite;
    OnValues(fp, t, a, b, rows);
    IntegerValues(fp, Evaluate(fp, a, rows).value, Evaluate(fp, b, rows).value);
  }

  lemma IntegerValues(fp: FloatOps, x: Value, y: Value)
    requires x.Int? && x.Ok() && y.Int? && y.Ok()
    ensures Arith(fp, true, x, y) == Fitting(Larger(x.width, y.width), x.i + y.i)
    ensures Arith(fp, false, x, y) == Fitting(Larger(x.width, y.width), x.i - y.i)
    ensures Negated(x) == Fitting(x.width, -x.i)
  {
    WiderIsLarger(x.width, y.width);
  }

  lemma WiderIsLarger(a: SqlType, b: SqlType)
    requires Numeric(a) && Numeric(b) && !a.Decimal? && !b.Decimal?
    ensures Wider(a, b) == Larger(a, b) && !Wider(a, b).Decimal?
  {
  }

  /** The last number of each integer type: there is no next one, and the number
      below the first has no opposite. */
  lemma Overflows(fp: FloatOps, rows: seq<Row>)
    ensures forall t: SqlType, last :: (t, last) in {(SmallInt, 32767), (Integer, 2147483647), (BigInt, 9223372036854775807)} ==>
      && Evaluate(fp, Plus(t, Constant(Int(t, last - 1)), Constant(Int(t, 1))), rows) == Ok(Int(t, last))
      && Evaluate(fp, Plus(t, Constant(Int(t, last)), Constant(Int(t, 1))), rows) == Err(NumericOutOfRange)
      && Evaluate(fp, Minus(t, Constant(Int(t, -last)), Constant(Int(t, 1))), rows) == Ok(Int(t, -last - 1))
      && Evaluate(fp, Opposite(t, Constant(Int(t, -last - 1))), rows) == Err(NumericOutOfRange)
  {
    hide Evaluate;
    forall t: SqlType, last | (t, last) in {(SmallInt, 32767), (Integer, 2147483647), (BigInt, 9223372036854775807)}
      ensures
        && Evaluate(fp, Plus(t, Constant(Int(t, last - 1)), Constant(Int(t, 1))), rows) == Ok(Int(t, last))
        && Evaluate(fp, Plus(t, Constant(Int(t, last)), Constant(Int(t, 1))), rows) == Err(NumericOutOfRange)
        && Evaluate(fp, Minus(t, Constant(Int(t, -last)), Constant(Int(t, 1))), rows) == Ok(Int(t, -last - 1))
        && Evaluate(fp, Opposite(t, Constant(Int(t, -last - 1))), rows) == Err(NumericOutOfRange)
    {
      OverflowOf(fp, t, last, rows);
    }
  }

  lemma OverflowOf(fp: FloatOps, t: SqlType, last: int, rows: seq<Row>)
    requires (t.SmallInt? || t.Integer? || t.BigInt?) && last == t.IntBound() - 1
    ensures Evaluate(fp, Plus(t, Constant(Int(t, last - 1)), Constant(Int(t, 1))), rows) == Ok(Int(t, last))
    ensures Evaluate(fp, Plus(t, Constant(Int(t, last)), Constant(Int(t, 1))), rows) == Err(NumericOutOfRange)
    ensures Evaluate(fp, Minus(t, Constant(Int(t, -last)), Constant(Int(t, 1))), rows) == Ok(Int(t, -last - 1))
    ensures Evaluate(fp, Opposite(t, Constant(Int(t, -last - 1))), rows) == Err(NumericOutOfRange)
  {
    hide Evaluate;
    forall i
      ensures Evaluate(fp, Constant(Int(t, i)), rows) == Ok(Int(t, i))
    {
      Leaves(fp, t, Int(t, i), 0, 0, rows);
    }
    IntegerArithmetic(fp, t, Constant(Int(t, last - 1)), Constant(Int(t, 1)), rows);
    IntegerArithmetic(fp, t, Constant(Int(t, last)), Constant(Int(t, 1)), rows);
    IntegerArithmetic(fp, t, Constant(Int(t, -last)), Constant(Int(t, 1)), rows);
    IntegerArithmetic(fp, t, Constant(Int(t, -last - 1)), Constant(Int(t, 1)), rows);
  }

  lemma SubtractItself(fp: FloatOps, t: SqlType, a: Expr, rows: seq<Row>)
    requires IsInt(Evaluate(fp, a, rows))
    ensures Evaluate(fp, Minus(t, a, a), rows) == Ok(Int(Evaluate(fp, a, rows).value.width, 0))
  {
    hide Evaluate;
    IntegerArithmetic(fp, t, a, a, rows);
  }

  lemma LargerAgain(x: Value, y: Value)
    requires x.Int? && x.Ok() && y.Int? && y.Ok()
    ensures var w := Larger(x.width, y.width);
      && Larger(w, y.width) == w && Fitting(w, x.i - y.i + y.i) == Ok(Int(w, x.i))
      && (Fitting(w, x.i - y.i).Ok? ==> Fitting(w, x.i - y.i) == Ok(Int(w, x.i - y.i)) && Int(w, x.i - y.i).Ok())
  {
  }

  /** Adding back what was subtracted gives the number again. */
  lemma AddBack(fp: FloatOps, t: SqlType, a: Expr, b: Expr, rows: seq<Row>)
    requires IsInt(Evaluate(fp, a, rows)) && IsInt(Evaluate(fp, b, rows)) && Evaluate(fp, Minus(t, a, b), rows).Ok?
    ensures var x, y := Evaluate(fp, a, rows).value, Evaluate(fp, b, rows).value;
      Evaluate(fp, Plus(t, Minus(t, a, b), b), rows) == Ok(Int(Larger(x.width, y.width), x.i))
  {
    hide Evaluate, Plus, Minus, Opposite, SqlType.IntBound, Larger, Fitting, Value.Ok;
    var x, y := Evaluate(fp, a, rows).value, Evaluate(fp, b, rows).value;
    var w := Larger(x.width, y.width);
    LargerAgain(x, y);
    IntegerArithmetic(fp, t, a, b, rows);
    assert Evaluate(fp, Minus(t, a, b), rows) == Ok(Int(w, x.i - y.i));
    IntegerArithmetic(fp, t, Minus(t, a, b), b, rows);
  }

  lemma AddOpposite(fp: FloatOps, t: SqlType, a: Expr, rows: seq<Row>)
    requires IsInt(Evaluate(fp, a, rows)) && Evaluate(fp, Opposite(t, a), rows).Ok?
    ensures Evaluate(fp, Plus(t, a, Opposite(t, a)), rows) == Ok(Int(Evaluate(fp, a, rows).value.width, 0))
    ensures Evaluate(fp, Opposite(t, Opposite(t, a)), rows) == Evaluate(fp, a, rows)
  {
    hide Evaluate;
    IntegerArithmetic(fp, t, a, a, rows);
    IntegerArithmetic(fp, t, a, Opposite(t, a), rows);
    IntegerArithmetic(fp, t, Opposite(t, a), a, rows);
  }

  /** A number is smaller than the next one, if there is a next one. */
  lemma LessThanNext(fp: FloatOps, t: SqlType, a: Expr, rows: seq<Row>)
    requires IsInt(Evaluate(fp, a, rows)) && Evaluate(fp, Plus(t, a, Constant(Int(SmallInt, 1))), rows).Ok?
    ensures Evaluate(fp, Compare(a, LessThan, Plus(t, a, Constant(Int(SmallInt, 1)))), rows) == Ok(Bool(true))
    ensures Evaluate(fp, Compare(a, GreaterThan, Plus(t, a, Constant(Int(SmallInt, 1)))), rows) == Ok(Bool(false))
  {
    hide Evaluate;
    var one := Constant(Int(SmallInt, 1));
    Leaves(fp, t, Int(SmallInt, 1), 0, 0, rows);
    IntegerArithmetic(fp, t, a, one, rows);
    ComparisonFollowsOrder(fp, a, LessThan, Plus(t, a, one), rows);
    ComparisonFollowsOrder(fp, a, GreaterThan, Plus(t, a, one), rows);
  }

  // ---- decimals, nulls and other types in arithmetic ------------------------------------------

  /** The value as a binary64. */
  predicate IsFloatOf(fp: FloatOps, v: Value, bits: Bits64) {
    v == Float(bits) || (v.Int? && v.Ok() && bits == fp.ofInt(v.i))
  }

  /** With a decimal on either side, both are taken as decimals. */
  lemma DecimalArithmetic(fp: FloatOps, t: SqlType, a: Expr, b: Expr, x: Bits64, y: Bits64, rows: seq<Row>)
    requires Evaluate(fp, a, rows).Ok? && Evaluate(fp, b, rows).Ok?
    requires IsFloatOf(fp, Evaluate(fp, a, rows).value, x) && IsFloatOf(fp, Evaluate(fp, b, rows).value, y)
    requires Evaluate(fp, a, rows).value.Float? || Evaluate(fp, b, rows).value.Float?
    ensures Evaluate(fp, Plus(t, a, b), rows) == Ok(Float(fp.add(x, y)))
    ensures Evaluate(fp, Minus(t, a, b), rows) == Ok(Float(fp.sub(x, y)))
  {
    hide Evaluate;
    OnValues(fp, t, a, b, rows);
  }

  /** The opposite of a decimal differs in the sign bit alone. */
  lemma DecimalOpposite(fp: FloatOps, t: SqlType, a: Expr, rows: seq<Row>)
    requires Evaluate(fp, a, rows).Ok? && Evaluate(fp, a, rows).value.Float?
    ensures var r := Evaluate(fp, Opposite(t, a), rows);
      && r.Ok? && r.value.Float? && r.value.bits % SIGN == Evaluate(fp, a, rows).value.bits % SIGN
      && (r.value.bits < SIGN <==> Evaluate(fp, a, rows).value.bits >= SIGN)
    ensures Evaluate(fp, Opposite(t, Opposite(t, a)), rows) == Evaluate(fp, a, rows)
  {
    hide Evaluate;
    OnValues(fp, t, a, a, rows);
    OnValues(fp, t, Opposite(t, a), a, rows);
  }

  predicate IsNull(r: Result<Value>, t: SqlType) {
    r == Ok(Null(t))
  }

  /** Operands that are not numbers are an error; a null among numbers makes the
      result null, in the type the result would have. */
  lemma OtherArithmetic(fp: FloatOps, t: SqlType, a: Expr, plus: bool, b: Expr, rows: seq<Row>)
    requires Evaluate(fp, a, rows).Ok? && Evaluate(fp, b, rows).Ok?
    requires Evaluate(fp, a, rows).value.Ok() && Evaluate(fp, b, rows).value.Ok()
    ensures var x, y := Evaluate(fp, a, rows).value, Evaluate(fp, b, rows).value;
      var r := Evaluate(fp, Expr(t, Arithmetic(a, plus, b)), rows);
      if !Numeric(x.Type()) || !Numeric(y.Type()) then r == Err(ExpectedNumeric)
      else x.Null? || y.Null? ==> IsNull(r, if x.Type().Decimal? || y.Type().Decimal? then Decimal else Larger(x.Type(), y.Type()))
    ensures var x, r := Evaluate(fp, a, rows).value, Evaluate(fp, Opposite(t, a), rows);
      if !Numeric(x.Type()) then r == Err(ExpectedNumeric) else x.Null? ==> IsNull(r, x.Type())
  {
    hide Evaluate;
    OnValues(fp, t, a, b, rows);
    assert Expr(t, Arithmetic(a, plus, b)) == if plus then Plus(t, a, b) else Minus(t, a, b);
  }

  // ---- the order of values --------------------------------------------------------------------

  /** The strings part at `i`, and `a` ends there or has the smaller byte. */
  predicate PartsAt(a: seq<Byte>, b: seq<Byte>, i: nat) {
    i <= |a| && i < |b| && a[..i] == b[..i] && (i == |a| || a[i] < b[i])
  }

  ghost predicate TextBelow(a: seq<Byte>, b: seq<Byte>) {
    exists i: nat :: PartsAt(a, b, i)
  }

  /** NaN has all exponent bits set and a fraction, section 3.4 of IEEE 754-2008. */
  lemma NanIs(bits: Bits64)
    ensures IsNan(bits) <==> bits / 0x10_0000_0000_0000 % 0x800 == 0x7ff && bits % 0x10_0000_0000_0000 != 0
  {
    var fraction, exponent := bits % 0x10_0000_0000_0000, bits / 0x10_0000_0000_0000 % 0x800;
    var sign := bits / 0x10_0000_0000_0000 / 0x800;
    assert bits == (sign * 0x800 + exponent) * 0x10_0000_0000_0000 + fraction;
    assert bits % SIGN == exponent * 0x10_0000_0000_0000 + fraction;
  }

  /** Sign and magnitude, section 3.4 of IEEE 754-2008; the two zeros are equal. */
  predicate FloatBelow(x: Bits64, y: Bits64) {
    if x < SIGN && y < SIGN then x < y
    else if x >= SIGN && y >= SIGN then y < x
    else x >= SIGN && !(x == SIGN && y == 0)
  }

  /** `a` is below `b`: as numbers, as truth values, or byte by byte. */
  ghost predicate Below(fp: FloatOps, a: Value, b: Value) {
    match (a, b)
    case (Int(_, x), Int(_, y)) => x < y
    case (Int(_, x), Float(y)) => FloatBelow(fp.ofInt(x), y)
    case (Float(x), Int(_, y)) => FloatBelow(x, fp.ofInt(y))
    case (Float(x), Float(y)) => FloatBelow(x, y)
    case (Bool(x), Bool(y)) => !x && y
    case (Text(x), Text(y)) => TextBelow(x, y)
    case _ => false
  }

  predicate SameKind(a: SqlType, b: SqlType) {
    (Numeric(a) && Numeric(b)) || a == b
  }

  /** Compared as decimals, one of them is NaN. */
  predicate NanAmong(fp: FloatOps, a: Value, b: Value) {
    match (a, b)
    case (Int(_, x), Float(y)) => IsNan(fp.ofInt(x)) || IsNan(y)
    case (Float(x), Int(_, y)) => IsNan(x) || IsNan(fp.ofInt(y))
    case (Float(x), Float(y)) => IsNan(x) || IsNan(y)
    case _ => false
  }

  ghost predicate Holds(fp: FloatOps, a: Value, op: CompareOp, b: Value) {
    match op
    case Eq => !Below(fp, a, b) && !Below(fp, b, a)
    case NotEq => Below(fp, a, b) || Below(fp, b, a)
    case LessThan => Below(fp, a, b)
    case LessThanOrEqual => !Below(fp, b, a)
    case GreaterThan => Below(fp, b, a)
    case GreaterThanOrEqual => !Below(fp, a, b)
  }

  lemma FloatOrder(x: Bits64, y: Bits64)
    requires !IsNan(x) && !IsNan(y)
    ensures FloatBelow(x, y) <==> FloatLess(x, y)
  {
  }

  lemma {:induction false} PartsDecide(a: seq<Byte>, b: seq<Byte>, i: nat)
    requires PartsAt(a, b, i)
    ensures CompareBytes(a, b).Less?
  {
    if i > 0 {
      assert a[0] == a[..i][0] == b[..i][0] == b[0];
      assert a[1..][..i - 1] == a[..i][1..] && b[1..][..i - 1] == b[..i][1..];
      PartsDecide(a[1..], b[1..], i - 1);
    }
  }

  lemma {:induction false} LessParts(a: seq<Byte>, b: seq<Byte>)
    requires CompareBytes(a, b).Less?
    ensures TextBelow(a, b)
  {
    if a == [] || a[0] != b[0] {
      assert PartsAt(a, b, 0);
    } else {
      LessParts(a[1..], b[1..]);
      var i: nat :| PartsAt(a[1..], b[1..], i);
      assert a[..i + 1] == [a[0]] + a[1..][..i] && b[..i + 1] == [b[0]] + b[1..][..i];
      assert PartsAt(a, b, i + 1);
    }
  }

  lemma TextOrder(a: seq<Byte>, b: seq<Byte>)
    ensures TextBelow(a, b) <==> CompareBytes(a, b).Less?
  {
    if CompareBytes(a, b).Less? {
      LessParts(a, b);
    }
    if TextBelow(a, b) {
      var i: nat :| PartsAt(a, b, i);
      PartsDecide(a, b, i);
    }
  }

  /** A comparison of two values that are there says what the order of values
      says; with NaN, equality and order fail, and only "not equal" holds. */
  lemma ComparisonFollowsOrder(fp: FloatOps, a: Expr, op: CompareOp, b: Expr, rows: seq<Row>)
    requires Evaluate(fp, a, rows).Ok? && Evaluate(fp, b, rows).Ok?
    requires Evaluate(fp, a, rows).value.Ok() && Evaluate(fp, b, rows).value.Ok()
    requires SameKind(Evaluate(fp, a, rows).value.Type(), Evaluate(fp, b, rows).value.Type())
    requires !Evaluate(fp, a, rows).value.Null? && !Evaluate(fp, b, rows).value.Null?
    ensures var x, y := Evaluate(fp, a, rows).value, Evaluate(fp, b, rows).value;
      Evaluate(fp, Compare(a, op, b), rows) == Ok(Bool(if NanAmong(fp, x, y) then op.NotEq? else Holds(fp, x, op, y)))
  {
    var x, y := Evaluate(fp, a, rows).value, Evaluate(fp, b, rows).value;
    assert Evaluate(fp, Compare(a, op, b), rows) == CompareValues(fp, x, op, y);
    ValuesFollowOrder(fp, x, op, y);
  }

  lemma ValuesFollowOrder(fp: FloatOps, x: Value, op: CompareOp, y: Value)
    requires x.Ok() && y.Ok() && SameKind(x.Type(), y.Type()) && !x.Null? && !y.Null?
    ensures CompareValues(fp, x, op, y) == Ok(Bool(if NanAmong(fp, x, y) then op.NotEq? else Holds(fp, x, op, y)))
  {
    match (x, y)
    case (Text(s), Text(t)) =>
      TextOrder(s, t);
      TextOrder(t, s);
      CompareBytesOrder(s, t);
      CompareBytesOrder(t, s);
    case (Int(_, i), Float(f)) =>
      if !NanAmong(fp, x, y) {
        FloatOrder(fp.ofInt(i), f);
        FloatOrder(f, fp.ofInt(i));
      }
    case (Float(f), Int(_, i)) =>
      if !NanAmong(fp, x, y) {
        FloatOrder(f, fp.ofInt(i));
        FloatOrder(fp.ofInt(i), f);
      }
    case (Float(f), Float(g)) =>
      if !NanAmong(fp, x, y) {
        FloatOrder(f, g);
        FloatOrder(g, f);
      }
    case _ =>
  }

  /** Exactly one of less, equal and greater holds, and the other operators are
      made of these; swapping the operands swaps less and greater. */
  lemma Trichotomy(fp: FloatOps, a: Expr, b: Expr, rows: seq<Row>)
    requires Evaluate(fp, a, rows).Ok? && Evaluate(fp, b, rows).Ok?
    requires Evaluate(fp, a, rows).value.Ok() && Evaluate(fp, b, rows).value.Ok()
    requires SameKind(Evaluate(fp, a, rows).value.Type(), Evaluate(fp, b, rows).value.Type())
    requires !Evaluate(fp, a, rows).value.Null? && !Evaluate(fp, b, rows).value.Null?
    requires !NanAmong(fp, Evaluate(fp, a, rows).value, Evaluate(fp, b, rows).value)
    ensures multiset{Evaluate(fp, Compare(a, LessThan, b), rows), Evaluate(fp, Compare(a, Eq, b), rows),
                     Evaluate(fp, Compare(a, GreaterThan, b), rows)}
      == multiset{Ok(Bool(true)), Ok(Bool(false)), Ok(Bool(false))}
    ensures Evaluate(fp, Compare(a, GreaterThan, b), rows) == Evaluate(fp, Compare(b, LessThan, a), rows)
    ensures Evaluate(fp, Compare(a, LessThanOrEqual, b), rows) == Ok(Bool(Evaluate(fp, Compare(a, GreaterThan, b), rows) == Ok(Bool(false))))
    ensures Evaluate(fp, Compare(a, GreaterThanOrEqual, b), rows) == Ok(Bool(Evaluate(fp, Compare(a, LessThan, b), rows) == Ok(Bool(false))))
    ensures Evaluate(fp, Compare(a, NotEq, b), rows) == Ok(Bool(Evaluate(fp, Compare(a, Eq, b), rows) == Ok(Bool(false))))
  {
    hide Evaluate, Below, Compare, Value.Ok, Value.Type;
    var x, y := Evaluate(fp, a, rows).value, Evaluate(fp, b, rows).value;
    forall op: CompareOp
      ensures Evaluate(fp, Compare(a, op, b), rows) == Ok(Bool(Holds(fp, x, op, y)))
      ensures Evaluate(fp, Compare(b, op, a), rows) == Ok(Bool(Holds(fp, y, op, x)))
    {
      ComparisonFollowsOrder(fp, a, op, b, rows);
      ComparisonFollowsOrder(fp, b, op, a, rows);
    }
    OneWay(fp, x, y);
  }

  lemma OneWay(fp: FloatOps, x: Value, y: Value)
    ensures !(Below(fp, x, y) && Below(fp, y, x))
  {
    if x.Text? && y.Text? {
      TextOrder(x.s, y.s);
      TextOrder(y.s, x.s);
      CompareBytesOrder(x.s, y.s);
    }
  }

  /** Other operands: an error for types of different kinds, unknown for a null. */
  lemma OtherComparisons(fp: FloatOps, a: Expr, op: CompareOp, b: Expr, rows: seq<Row>)
    requires Evaluate(fp, a, rows).Ok? && Evaluate(fp, b, rows).Ok?
    requires Evaluate(fp, a, rows).value.Ok() && Evaluate(fp, b, rows).value.Ok()
    ensures var x, y := Evaluate(fp, a, rows).value, Evaluate(fp, b, rows).value;
      var r := Evaluate(fp, Compare(a, op, b), rows);
      && (r.Err? <==> !SameKind(x.Type(), y.Type())) && (r.Err? ==> r == Err(ComparisonTypeMismatch))
      && (r.Ok? && r.value.Null? <==> SameKind(x.Type(), y.Type()) && (x.Null? || y.Null?))
      && (r.Ok? ==> r.value.Type().Boolean?)
  {
    var x, y := Evaluate(fp, a, rows).value, Evaluate(fp, b, rows).value;
    assert Evaluate(fp, Compare(a, op, b), rows) == CompareValues(fp, x, op, y);
  }

  // ---- logic ------------------------------------------------------------------------------------

  /** How true a value is: false, unknown, true. */
  function DegreeOf(v: Value): Option<nat> {
    match v
    case Bool(b) => Some(if b then 2 else 0)
    case Null(_) => Some(1)
    case _ => None
  }

  predicate HasDegree(r: Result<Value>, d: int) {
    r.Ok? && r.value.Type().Boolean? && DegreeOf(r.value).Some? && DegreeOf(r.value).value == d
  }

  lemma TruthHasDegree(v: Value)
    ensures if DegreeOf(v).Some? then AsTruth(v).Ok? && DegreeOf(v).value == Degree(AsTruth(v).value) else AsTruth(v) == Err(ExpectedBoolean)
  {
  }

  lemma TruthAsValue(t: Truth)
    ensures HasDegree(Ok(OfTruth(t)), Degree(t))
  {
  }

  /** AND is the smaller, OR the larger of the two degrees, NOT the complement;
      both operands are evaluated, and what is not a truth value is an error. */
  lemma LogicIsDegrees(fp: FloatOps, t: SqlType, l: Expr, r: Expr, rows: seq<Row>)
    requires Evaluate(fp, l, rows).Ok? && Evaluate(fp, r, rows).Ok?
    ensures var a, b := DegreeOf(Evaluate(fp, l, rows).value), DegreeOf(Evaluate(fp, r, rows).value);
      var and, or := Evaluate(fp, Expr(t, Logic(l, true, r)), rows), Evaluate(fp, Expr(t, Logic(l, false, r)), rows);
      if a.Some? && b.Some? then
        && HasDegree(and, if a.value <= b.value then a.value else b.value)
        && HasDegree(or, if a.value <= b.value then b.value else a.value)
      else and == or == Err(ExpectedBoolean)
    ensures var a, not := DegreeOf(Evaluate(fp, l, rows).value), Evaluate(fp, Expr(t, Not(l)), rows);
      if a.Some? then HasDegree(not, 2 - a.value) else not == Err(ExpectedBoolean)
  {
    hide CompareValues, Arith, Negated, TruthAnd, TruthOr, TruthNot, AsTruth, OfTruth, Degree, DegreeOf, HasDegree;
    var x, y := Evaluate(fp, l, rows).value, Evaluate(fp, r, rows).value;
    TruthHasDegree(x);
    TruthHasDegree(y);
    var a, b := if AsTruth(x).Ok? then AsTruth(x).value else Unknown, if AsTruth(y).Ok? then AsTruth(y).value else Unknown;
    KleeneLattice(a, b);
    TruthAsValue(TruthAnd(a, b));
    TruthAsValue(TruthOr(a, b));
    TruthAsValue(TruthNot(a));
  }

  /** A predicate keeps a row exactly if it is true of it. */
  lemma KeptIsTrue(fp: FloatOps, e: Expr, rows: seq<Row>)
    ensures Keep(fp, e, rows) == Ok(true) <==> HasDegree(Evaluate(fp, e, rows), 2)
    ensures Keep(fp, e, rows).Err? <==> Evaluate(fp, e, rows).Err? || DegreeOf(Evaluate(fp, e, rows).value).None?
  {
  }

  /** IS NULL is true exactly of a null, IS NOT NULL exactly of anything else. */
  lemma NullChecks(fp: FloatOps, t: SqlType, x: Expr, rows: seq<Row>)
    requires Evaluate(fp, x, rows).Ok?
    ensures var isNull, isNot := Evaluate(fp, Expr(t, NullCheck(x, true)), rows), Evaluate(fp, Expr(t, NullCheck(x, false)), rows);
      && HasDegree(isNull, if Evaluate(fp, x, rows).value.Null? then 2 else 0)
      && HasDegree(isNot, if Evaluate(fp, x, rows).value.Null? then 0 else 2)
  {
  }
}
