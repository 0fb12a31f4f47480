/** What the rows of a plan are, said of `Meaning` alone: which rows come out of
    scans, filters, projections and limits, in which order, and when there are any. */
module PlanLaws {
  import opened Common
  import opened Values
  import opened Expressions
  import opened Plans
  import opened SortOrder
  import opened ExpressionLaws

  // ---- picking rows -------------------------------------------------------------------------

  /** Ascending positions, exactly those of the true flags. */
  ghost predicate Picks(js: seq<nat>, flags: seq<bool>) {
    && (forall a, b :: 0 <= a < b < |js| ==> js[a] < js[b])
    && (forall a {:trigger js[a]} :: 0 <= a < |js| ==> js[a] < |flags| && flags[js[a]])
    && (forall j :: 0 <= j < |flags| && flags[j] ==> j in js)
  }

  function Shifted(flag: bool, js: seq<nat>): (r: seq<nat>) {
    (if flag then [0] else []) + seq(|js|, a requires 0 <= a < |js| => js[a] + 1)
  }

  lemma ShiftedPicks(flag: bool, js: seq<nat>, flags: seq<bool>)
    requires Picks(js, flags)
    ensures Picks(Shifted(flag, js), [flag] + flags)
  {
    hide Shifted;
    var r, all := Shifted(flag, js), [flag] + flags;
    forall a | 0 <= a < |r|
      ensures r[a] < |all| && all[r[a]] && forall b :: a < b < |r| ==> r[a] < r[b]
    {
      ShiftedAt(flag, js, flags, a);
    }
    forall j | 0 <= j < |all| && all[j]
      ensures j in r
    {
      ShiftedHas(flag, js, flags, j);
    }
  }

  lemma ShiftedAt(flag: bool, js: seq<nat>, flags: seq<bool>, a: nat)
    requires Picks(js, flags) && a < |Shifted(flag, js)|
    ensures var r, all := Shifted(flag, js), [flag] + flags;
      r[a] < |all| && all[r[a]] && forall b :: a < b < |r| ==> r[a] < r[b]
  {
    var r, one := Shifted(flag, js), if flag then 1 else 0;
    assert forall b :: one <= b < |r| ==> r[b] == js[b - one] + 1;
    if a >= one {
      assert flags[js[a - one]];
    }
  }

  lemma ShiftedHas(flag: bool, js: seq<nat>, flags: seq<bool>, j: nat)
    requires Picks(js, flags) && j < |[flag] + flags| && ([flag] + flags)[j]
    ensures j in Shifted(flag, js)
  {
    var r := Shifted(flag, js);
    if j == 0 {
      assert r[0] == 0;
    } else {
      assert flags[j - 1];
      var a :| 0 <= a < |js| && js[a] == j - 1;
      assert r[a + if flag then 1 else 0] == j;
    }
  }

  /** The rows at these positions. */
  predicate Taken(out: seq<Row>, rows: seq<Row>, js: seq<nat>) {
    |out| == |js| && forall m :: 0 <= m < |js| ==> js[m] < |rows| && out[m] == rows[js[m]]
  }

  lemma NonePicked()
    ensures Picks([], []) && Taken([], [], [])
  {
  }

  lemma PickStep(flag: bool, head: Row, out: seq<Row>, rows: seq<Row>, js: seq<nat>, flags: seq<bool>)
    requires Picks(js, flags) && Taken(out, rows, js)
    ensures Picks(Shifted(flag, js), [flag] + flags)
    ensures Taken((if flag then [head] else []) + out, [head] + rows, Shifted(flag, js))
  {
    hide Picks;
    ShiftedPicks(flag, js, flags);
  }

  predicate Kept(fp: FloatOps, p: Option<Expr>, rows: seq<Row>) {
    p.None? || HasDegree(Evaluate(fp, p.value, rows), 2)
  }

  lemma KeptIsKeeps(fp: FloatOps, p: Option<Expr>, rows: seq<Row>)
    ensures Keeps(fp, p, rows) == Kept(fp, p, rows)
  {
    if p.Some? {
      KeptIsTrue(fp, p.value, rows);
    }
  }

  // ---- scans, filters, projections ------------------------------------------------------------

  /** The flags of the rows a predicate is true of. */
  function TrueOf(fp: FloatOps, p: Option<Expr>, rows: seq<Row>): (flags: seq<bool>)
    ensures |flags| == |rows| && forall i :: 0 <= i < |rows| ==> flags[i] == Kept(fp, p, [rows[i]])
  {
    seq(|rows|, i requires 0 <= i < |rows| => Kept(fp, p, [rows[i]]))
  }

  lemma {:induction false} FilterPicks(fp: FloatOps, p: Option<Expr>, rows: seq<Row>) returns (js: seq<nat>)
    ensures Picks(js, TrueOf(fp, p, rows)) && Taken(FilterRows(fp, p, rows), rows, js)
  {
    hide Kept, Picks, Shifted, Taken, Keeps;
    if rows == [] {
      assert TrueOf(fp, p, rows) == [];
      js := [];
      NonePicked();
    } else {
      var flag := Kept(fp, p, [rows[0]]);
      var rest := FilterPicks(fp, p, rows[1..]);
      js := Shifted(flag, rest);
      PickStep(flag, rows[0], FilterRows(fp, p, rows[1..]), rows[1..], rest, TrueOf(fp, p, rows[1..]));
      FilterUnfolds(fp, p, rows);
    }
  }

  lemma FilterUnfolds(fp: FloatOps, p: Option<Expr>, rows: seq<Row>)
    requires rows != []
    ensures var flag := Kept(fp, p, [rows[0]]);
      && FilterRows(fp, p, rows) == (if flag then [rows[0]] else []) + FilterRows(fp, p, rows[1..])
      && TrueOf(fp, p, rows) == [flag] + TrueOf(fp, p, rows[1..]) && rows == [rows[0]] + rows[1..]
  {
    hide Kept;
    KeptIsKeeps(fp, p, [rows[0]]);
  }

  /** A filter gives the child's rows its condition is true of, in their order. */
  lemma FilterGives(db: Db, p: Plan) returns (js: seq<nat>)
    requires p.node.Filter? && Meaning(db, p).Some?
    ensures Meaning(db, p.node.child).Some?
    ensures var rows, out := Meaning(db, p.node.child).value, Meaning(db, p).value;
      Picks(js, TrueOf(db.fp, Some(p.node.condition), rows)) && Taken(out, rows, js)
  {
    js := FilterPicks(db.fp, Some(p.node.condition), Meaning(db, p.node.child).value);
  }

  /** A row that is not deleted and that the filter is true of. */
  predicate Shows(fp: FloatOps, p: Option<Expr>, row: HeapRow) {
    !row.deleted && Kept(fp, p, [row.values])
  }

  function Scanned(fp: FloatOps, p: Option<Expr>, heap: seq<HeapRow>): (flags: seq<bool>)
    ensures |flags| == |heap|
    ensures forall i :: 0 <= i < |heap| ==> flags[i] == Shows(fp, p, heap[i])
  {
    seq(|heap|, i requires 0 <= i < |heap| => Shows(fp, p, heap[i]))
  }

  function ValuesOf(heap: seq<HeapRow>): (rows: seq<Row>)
    ensures |rows| == |heap| && forall i :: 0 <= i < |heap| ==> rows[i] == heap[i].values
  {
    seq(|heap|, i requires 0 <= i < |heap| => heap[i].values)
  }

  lemma {:induction false} ScanPicks(fp: FloatOps, p: Option<Expr>, heap: seq<HeapRow>) returns (js: seq<nat>)
    ensures Picks(js, Scanned(fp, p, heap)) && Taken(FilterRows(fp, p, LiveRows(heap)), ValuesOf(heap), js)
  {
    hide Shows, Picks, Shifted, Taken;
    if heap == [] {
      assert Scanned(fp, p, heap) == [] && ValuesOf(heap) == [];
      js := [];
      NonePicked();
    } else {
      var flag := Shows(fp, p, heap[0]);
      var rest := ScanPicks(fp, p, heap[1..]);
      js := Shifted(flag, rest);
      PickStep(flag, heap[0].values, FilterRows(fp, p, LiveRows(heap[1..])), ValuesOf(heap[1..]), rest, Scanned(fp, p, heap[1..]));
      ScanUnfolds(fp, p, heap);
      ScannedUnfolds(fp, p, heap);
    }
  }

  lemma ScanUnfolds(fp: FloatOps, p: Option<Expr>, heap: seq<HeapRow>)
    requires heap != []
    ensures FilterRows(fp, p, LiveRows(heap))
      == (if Shows(fp, p, heap[0]) then [heap[0].values] else []) + FilterRows(fp, p, LiveRows(heap[1..]))
  {
    hide Kept, FilterRows;
    if heap[0].deleted {
      assert LiveRows(heap) == LiveRows(heap[1..]);
    } else {
      assert LiveRows(heap)[1..] == LiveRows(heap[1..]);
      FilterUnfolds(fp, p, LiveRows(heap));
    }
  }

  lemma ScannedUnfolds(fp: FloatOps, p: Option<Expr>, heap: seq<HeapRow>)
    requires heap != []
    ensures Scanned(fp, p, heap) == [Shows(fp, p, heap[0])] + Scanned(fp, p, heap[1..])
    ensures ValuesOf(heap) == [heap[0].values] + ValuesOf(heap[1..])
  {
    hide Shows;
    var a, b := Scanned(fp, p, heap), [Shows(fp, p, heap[0])] + Scanned(fp, p, heap[1..]);
    forall i | 0 <= i < |heap|
      ensures a[i] == b[i]
    {
      assert i > 0 ==> heap[1..][i - 1] == heap[i];
    }
  }

  /** A scan gives the live rows its filter is true of, in heap order. */
  lemma ScanGives(db: Db, p: Plan) returns (js: seq<nat>)
    requires p.node.SeqScan? && Meaning(db, p).Some?
    ensures p.node.table < |db.tables|
    ensures var heap, out := db.tables[p.node.table].heap, Meaning(db, p).value;
      Picks(js, Scanned(db.fp, p.node.filter, heap)) && Taken(out, ValuesOf(heap), js)
  {
    js := ScanPicks(db.fp, p.node.filter, db.tables[p.node.table].heap);
  }

  predicate IsRowOf(fp: FloatOps, es: seq<Expr>, row: Row, out: Row) {
    |out| == |es| && forall c :: 0 <= c < |es| ==> Evaluate(fp, es[c], [row]) == Ok(out[c])
  }

  /** A projection gives one row for each, with the values of its expressions; so
      does VALUES, over no row. */
  lemma ProjectionGives(db: Db, p: Plan)
    requires p.node.Projection? && Meaning(db, p).Some?
    ensures Meaning(db, p.node.child).Some? && |Meaning(db, p).value| == |Meaning(db, p.node.child).value|
    ensures forall i :: 0 <= i < |Meaning(db, p).value| ==>
      IsRowOf(db.fp, p.node.exprs, Meaning(db, p.node.child).value[i], Meaning(db, p).value[i])
  {
    var rows, out := Meaning(db, p.node.child).value, Meaning(db, p).value;
    forall i | 0 <= i < |out|
      ensures IsRowOf(db.fp, p.node.exprs, rows[i], out[i])
    {
      assert EvaluateAll(db.fp, p.node.exprs, [rows[i]]).Ok?;
    }
  }

  lemma ValuesGive(db: Db, p: Plan)
    requires p.node.ValueRows? && Meaning(db, p).Some?
    ensures |Meaning(db, p).value| == |p.node.rows|
    ensures forall i :: 0 <= i < |p.node.rows| ==> IsRowOf(db.fp, p.node.rows[i], [], Meaning(db, p).value[i])
  {
    var out := Meaning(db, p).value;
    forall i | 0 <= i < |out|
      ensures IsRowOf(db.fp, p.node.rows[i], [], out[i])
    {
      assert EvaluateAll(db.fp, p.node.rows[i], [[]]).Ok?;
    }
  }

  /** VALUES (1 + 2) is one row with 3 in it. */
  lemma OnePlusTwo(db: Db, p: Plan)
    requires p.node == ValueRows([[Plus(Integer, Constant(Int(Integer, 1)), Constant(Int(Integer, 2)))]])
    ensures Meaning(db, p) == Some([[Int(Integer, 3)]])
  {
    var one, two := Constant(Int(Integer, 1)), Constant(Int(Integer, 2));
    var e := Plus(Integer, one, two);
    Leaves(db.fp, Integer, Int(Integer, 1), 0, 0, [[]]);
    Leaves(db.fp, Integer, Int(Integer, 2), 0, 0, [[]]);
    IntegerArithmetic(db.fp, Integer, one, two, [[]]);
    assert Evaluate(db.fp, [e][0], [[]]).Ok?;
    assert EvaluateAll(db.fp, [e], [[]]).Ok?;
    ValuesGive(db, p);
    var out := Meaning(db, p).value;
    assert IsRowOf(db.fp, p.node.rows[0], [], out[0]);
    assert out == [out[0]] && out[0] == [out[0][0]];
    assert Evaluate(db.fp, e, [[]]) == Ok(out[0][0]);
  }

  // ---- limits -----------------------------------------------------------------------------------

  /** The first n rows, or all if there are fewer; all for a null; anything else
      is an error. */
  lemma LimitGives(db: Db, p: Plan)
    requires p.node.Limit? && Meaning(db, p.node.child).Some?
    ensures var rows, out, n := Meaning(db, p.node.child).value, Meaning(db, p), Evaluate(db.fp, p.node.limit, [[]]);
      if n.Ok? && n.value.Null? then out == Some(rows)
      else if n.Ok? && n.value.Int? && n.value.i >= 0 then
        out.Some? && out.value <= rows && |out.value| == if n.value.i <= |rows| then n.value.i else |rows|
      else out.None?
  {
  }

  // ---- which plans have rows ---------------------------------------------------------------------------

  /** The expression is true, false or unknown of the rows. */
  predicate IsTruth(fp: FloatOps, e: Expr, rows: seq<Row>) {
    var v := Evaluate(fp, e, rows);
    v.Ok? && DegreeOf(v.value).Some?
  }

  lemma TruthIsKeep(fp: FloatOps, e: Expr, rows: seq<Row>)
    ensures IsTruth(fp, e, rows) <==> Keep(fp, e, rows).Ok?
  {
    KeptIsTrue(fp, e, rows);
  }

  predicate AllEvaluate(fp: FloatOps, es: seq<Expr>, row: Row) {
    forall c :: 0 <= c < |es| ==> Evaluate(fp, es[c], [row]).Ok?
  }

  lemma AllEvaluateIff(fp: FloatOps, es: seq<Expr>, row: Row)
    ensures AllEvaluate(fp, es, row) <==> EvaluateAll(fp, es, [row]).Ok?
  {
  }

  predicate TruthOfLive(fp: FloatOps, e: Expr, heap: seq<HeapRow>) {
    forall i :: 0 <= i < |heap| && !heap[i].deleted ==> IsTruth(fp, e, [heap[i].values])
  }

  /** A scan has rows exactly if the table is there and its filter is a truth
      value of every live row. */
  lemma ScanHasRows(db: Db, p: Plan)
    requires p.node.SeqScan?
    ensures Meaning(db, p).Some? <==>
      && p.node.table < |db.tables| && p.schema == db.tables[p.node.table].types
      && (p.node.filter.Some? ==> TruthOfLive(db.fp, p.node.filter.value, db.tables[p.node.table].heap))
  {
    if p.node.table < |db.tables| && p.node.filter.Some? {
      DecidesLive(db.fp, p.node.filter.value, db.tables[p.node.table].heap);
    }
  }

  lemma {:induction false} DecidesLive(fp: FloatOps, e: Expr, heap: seq<HeapRow>)
    ensures Decides(fp, Some(e), LiveRows(heap)) <==> TruthOfLive(fp, e, heap)
  {
    hide IsTruth, Keep;
    if heap != [] {
      DecidesLive(fp, e, heap[1..]);
      DecidesOne(fp, e, heap[0].values);
      var first: seq<Row> := if heap[0].deleted then [] else [heap[0].values];
      assert LiveRows(heap) == first + LiveRows(heap[1..]);
      DecidesParts(fp, e, first, LiveRows(heap[1..]));
      AfterFirst(fp, e, heap);
    } else {
      assert LiveRows(heap) == [];
    }
  }

  lemma DecidesOne(fp: FloatOps, e: Expr, row: Row)
    ensures Decides(fp, Some(e), [row]) <==> IsTruth(fp, e, [row])
  {
    hide IsTruth, Keep;
    TruthIsKeep(fp, e, [row]);
    assert Decides(fp, Some(e), [row]) ==> Keep(fp, e, [[row][0]]).Ok?;
  }

  lemma AfterFirst(fp: FloatOps, e: Expr, heap: seq<HeapRow>)
    requires heap != []
    ensures TruthOfLive(fp, e, heap) <==>
      (!heap[0].deleted ==> IsTruth(fp, e, [heap[0].values])) && TruthOfLive(fp, e, heap[1..])
  {
    hide IsTruth;
    if TruthOfLive(fp, e, heap[1..]) {
      forall i | 1 <= i < |heap| && !heap[i].deleted
        ensures IsTruth(fp, e, [heap[i].values])
      {
        assert heap[1..][i - 1] == heap[i];
      }
    }
  }

  lemma DecidesParts(fp: FloatOps, e: Expr, a: seq<Row>, b: seq<Row>)
    ensures Decides(fp, Some(e), a + b) <==> Decides(fp, Some(e), a) && Decides(fp, Some(e), b)
  {
    hide Keep;
    var s := a + b;
    if Decides(fp, Some(e), s) {
      forall i | 0 <= i < |a|
        ensures Keep(fp, e, [a[i]]).Ok?
      {
        assert s[i] == a[i];
      }
      forall i | 0 <= i < |b|
        ensures Keep(fp, e, [b[i]]).Ok?
      {
        assert s[|a| + i] == b[i];
      }
    }
  }

  /** A filter has rows exactly if the child has and the condition is a truth
      value of each of them. */
  lemma FilterHasRows(db: Db, p: Plan)
    requires p.node.Filter?
    ensures Meaning(db, p).Some? <==>
      && Meaning(db, p.node.child).Some?
      && forall i :: 0 <= i < |Meaning(db, p.node.child).value| ==>
           IsTruth(db.fp, p.node.condition, [Meaning(db, p.node.child).value[i]])
  {
    hide IsTruth, Keep;
    if Meaning(db, p.node.child).Some? {
      var rows := Meaning(db, p.node.child).value;
      forall i | 0 <= i < |rows|
        ensures IsTruth(db.fp, p.node.condition, [rows[i]]) <==> Keep(db.fp, p.node.condition, [rows[i]]).Ok?
      {
        TruthIsKeep(db.fp, p.node.condition, [rows[i]]);
      }
    }
  }

  /** A projection has rows exactly if every expression has a value for every row
      of the child; VALUES exactly if every expression has a value. */
  lemma ProjectionHasRows(db: Db, p: Plan)
    requires p.node.Projection?
    ensures Meaning(db, p).Some? <==>
      && Meaning(db, p.node.child).Some?
      && forall i :: 0 <= i < |Meaning(db, p.node.child).value| ==>
           AllEvaluate(db.fp, p.node.exprs, Meaning(db, p.node.child).value[i])
  {
    hide AllEvaluate;
    if Meaning(db, p.node.child).Some? {
      var rows := Meaning(db, p.node.child).value;
      forall i | 0 <= i < |rows|
        ensures AllEvaluate(db.fp, p.node.exprs, rows[i]) <==> EvaluateAll(db.fp, p.node.exprs, [rows[i]]).Ok?
      {
        AllEvaluateIff(db.fp, p.node.exprs, rows[i]);
      }
    }
  }

  lemma ValuesHaveRows(db: Db, p: Plan)
    requires p.node.ValueRows?
    ensures Meaning(db, p).Some? <==> forall i :: 0 <= i < |p.node.rows| ==> AllEvaluate(db.fp, p.node.rows[i], [])
  {
    hide AllEvaluate;
    forall i | 0 <= i < |p.node.rows|
      ensures AllEvaluate(db.fp, p.node.rows[i], []) <==> EvaluateAll(db.fp, p.node.rows[i], [[]]).Ok?
    {
      AllEvaluateIff(db.fp, p.node.rows[i], []);
    }
  }

  /** The row can be sorted: it fits its schema and a page, and every key has a
      value of its type that is not NaN. */
  ghost predicate CanSort(fp: FloatOps, os: seq<OrderBy>, schema: seq<SqlType>, row: Row) {
    && RowMatches(row, schema) && FitsPage(row, schema)
    && forall c {:trigger os[c]} :: 0 <= c < |os| ==> IsSortKey(Evaluate(fp, os[c].expression, [row]), os[c].expression.returnType)
  }

  predicate IsSortKey(r: Result<Value>, t: SqlType) {
    r.Ok? && r.value.Type() == t && r.value.Ok() && (r.value.Float? ==> !IsNan(r.value.bits))
  }

  lemma SortHasRows(db: Db, p: Plan)
    requires p.node.Sort?
    ensures Meaning(db, p).Some? <==>
      && Meaning(db, p.node.child).Some? && p.schema == p.node.child.schema
      && forall i :: 0 <= i < |Meaning(db, p.node.child).value| ==>
           CanSort(db.fp, p.node.orderBys, p.node.child.schema, Meaning(db, p.node.child).value[i])
  {
    hide CanSort, RowMatches, FitsPage, KeyFits;
    if Meaning(db, p.node.child).Some? {
      var rows, os, schema := Meaning(db, p.node.child).value, p.node.orderBys, p.node.child.schema;
      forall i | 0 <= i < |rows|
        ensures CanSort(db.fp, os, schema, rows[i]) <==>
          && EvaluateAll(db.fp, OrderExprs(os), [rows[i]]).Ok? && RowMatches(rows[i], schema) && FitsPage(rows[i], schema)
          && KeyFits(ProjectRow(db.fp, OrderExprs(os), rows[i]), SortTypes(os))
      {
        CanSortIff(db.fp, os, schema, rows[i]);
      }
    }
  }

  lemma CanSortEvaluates(fp: FloatOps, os: seq<OrderBy>, schema: seq<SqlType>, row: Row)
    requires CanSort(fp, os, schema, row)
    ensures AllEvaluate(fp, OrderExprs(os), row)
  {
    forall c | 0 <= c < |os|
      ensures Evaluate(fp, OrderExprs(os)[c], [row]).Ok?
    {
      assert IsSortKey(Evaluate(fp, os[c].expression, [row]), os[c].expression.returnType);
    }
  }

  lemma CanSortIff(fp: FloatOps, os: seq<OrderBy>, schema: seq<SqlType>, row: Row)
    ensures CanSort(fp, os, schema, row) <==>
      && EvaluateAll(fp, OrderExprs(os), [row]).Ok? && RowMatches(row, schema) && FitsPage(row, schema)
      && KeyFits(ProjectRow(fp, OrderExprs(os), row), SortTypes(os))
  {
    hide RowMatches, FitsPage;
    var es, ts := OrderExprs(os), SortTypes(os);
    AllEvaluateIff(fp, es, row);
    if CanSort(fp, os, schema, row) {
      CanSortEvaluates(fp, os, schema, row);
    }
    assert forall c :: 0 <= c < |os| ==> es[c] == os[c].expression && ts[c] == os[c].expression.returnType;
    if EvaluateAll(fp, es, [row]).Ok? {
      var key := ProjectRow(fp, es, row);
      forall c | 0 <= c < |os|
        ensures IsSortKey(Evaluate(fp, os[c].expression, [row]), os[c].expression.returnType) <==> Comparable(key[c], ts[c])
      {
        assert Evaluate(fp, es[c], [row]) == Ok(key[c]);
      }
    }
  }
}
