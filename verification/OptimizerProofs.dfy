/** Optimizing keeps the rows of a plan and their order. */
module OptimizerProofs {
  import opened Common
  import opened Values
  import opened Expressions
  import opened KeyEncoder
  import opened SortOrder
  import opened Plans
  import opened IndexLookup
  import opened Optimizer

  // ---- widths ------------------------------------------------------------------------------------

  ghost predicate AllWide(rows: seq<Row>, n: nat) {
    forall i {:trigger rows[i]} :: 0 <= i < |rows| ==> |rows[i]| == n
  }

  lemma {:induction false} FilterWide(fp: FloatOps, p: Option<Expr>, rows: seq<Row>, n: nat)
    requires AllWide(rows, n)
    ensures AllWide(FilterRows(fp, p, rows), n)
  {
    if rows != [] {
      FilterWide(fp, p, rows[1..], n);
    }
  }

  lemma {:induction false} LiveWide(heap: seq<HeapRow>, types: seq<SqlType>)
    requires forall i {:trigger heap[i]} :: 0 <= i < |heap| ==> RowMatches(heap[i].values, types)
    ensures forall i {:trigger LiveRows(heap)[i]} :: 0 <= i < |LiveRows(heap)| ==> RowMatches(LiveRows(heap)[i], types)
  {
    if heap != [] {
      LiveWide(heap[1..], types);
    }
  }

  lemma {:induction false} MatchWide(fp: FloatOps, p: Option<Expr>, left: Row, rights: seq<Row>, n: nat)
    requires AllWide(rights, n)
    ensures AllWide(MatchRows(fp, p, left, rights), |left| + n)
  {
    if rights != [] {
      MatchWide(fp, p, left, rights[1..], n);
    }
  }

  lemma {:induction false} JoinWide(fp: FloatOps, schema: seq<SqlType>, t: JoinType, p: Option<Expr>, lefts: seq<Row>, rights: seq<Row>, m: nat, n: nat)
    requires AllWide(lefts, m) && AllWide(rights, n) && |schema| == m + n
    ensures AllWide(JoinRows(fp, schema, t, p, lefts, rights), m + n)
  {
    if lefts != [] {
      MatchWide(fp, p, lefts[0], rights, n);
      JoinWide(fp, schema, t, p, lefts[1..], rights, m, n);
    }
  }

  lemma {:induction false} FetchWide(table: Table, rids: seq<Entries.Rid>)
    requires forall i {:trigger table.heap[i]} :: 0 <= i < |table.heap| ==> RowMatches(table.heap[i].values, table.types)
    ensures AllWide(FetchRows(table.heap, rids), |table.types|)
  {
    if rids != [] {
      FetchWide(table, rids[1..]);
      RowAtMember(table.heap, rids[0]);
    }
  }

  lemma {:induction false} RowAtMember(heap: seq<HeapRow>, rid: Entries.Rid)
    ensures RowAt(heap, rid).Some? ==> RowAt(heap, rid).value in heap
  {
    if heap != [] {
      RowAtMember(heap[1..], rid);
    }
  }

  lemma {:induction false} IndexJoinWide(fp: FloatOps, schema: seq<SqlType>, t: JoinType, table: Table, index: Index, es: seq<Expr>,
                                         keyTypes: seq<SqlType>, childSchema: seq<SqlType>, outers: seq<Row>)
    requires forall i {:trigger table.heap[i]} :: 0 <= i < |table.heap| ==> RowMatches(table.heap[i].values, table.types)
    requires AllWide(outers, |childSchema|) && schema == childSchema + table.types
    ensures AllWide(IndexJoinRows(fp, schema, t, table, index, es, keyTypes, childSchema, outers), |schema|)
  {
    if outers != [] {
      var key := KeyOrEmpty(OuterKey(fp, es, keyTypes, childSchema, outers[0]));
      FetchWide(table, LookupRids(index, key));
      IndexJoinWide(fp, schema, t, table, index, es, keyTypes, childSchema, outers[1..]);
    }
  }

  lemma SortWide(fp: FloatOps, os: seq<OrderBy>, rows: seq<Row>, n: nat)
    requires AllWide(rows, n)
    ensures AllWide(SortRows(fp, os, rows), n)
  {
    var c, entries := Comparator(fp, SortTypes(os), os), WithKeys(fp, os, rows);
    if c.FitAll(entries) {
      var sorted := c.StableSort(entries);
      forall i | 0 <= i < |sorted|
        ensures |sorted[i].row| == n
      {
        assert sorted[i] in multiset(sorted);
        assert sorted[i] in entries;
      }
    }
  }

  /** Every row of a plan has as many columns as its schema. */
  lemma {:induction false} RowWidth(db: Db, p: Plan)
    requires DbOk(db) && Typed(db, p)
    ensures Meaning(db, p).Some? ==> AllWide(Meaning(db, p).value, |p.schema|)
    decreases p
  {
    forall i | 0 <= i < |Children(p)|
      ensures Meaning(db, Children(p)[i]).Some? ==> AllWide(Meaning(db, Children(p)[i]).value, |Children(p)[i].schema|)
    {
      RowWidth(db, Children(p)[i]);
    }
    if Meaning(db, p).Some? {
      NodeWidth(db, p);
    }
  }

  lemma NodeWidth(db: Db, p: Plan)
    requires DbOk(db) && Typed(db, p) && Meaning(db, p).Some?
    requires forall i :: 0 <= i < |Children(p)| && Meaning(db, Children(p)[i]).Some? ==>
      AllWide(Meaning(db, Children(p)[i]).value, |Children(p)[i].schema|)
    ensures AllWide(Meaning(db, p).value, |p.schema|)
  {
    match p.node
    case SeqScan(t, f) =>
      LiveWide(db.tables[t].heap, db.tables[t].types);
      FilterWide(db.fp, f, LiveRows(db.tables[t].heap), |p.schema|);
    case Filter(f, c) =>
      assert c == Children(p)[0];
      FilterWide(db.fp, Some(f), Meaning(db, c).value, |p.schema|);
    case Projection(es, c) =>
    case Sort(os, c) =>
      assert c == Children(p)[0];
      SortWide(db.fp, os, Meaning(db, c).value, |p.schema|);
    case Limit(_, c) =>
      assert c == Children(p)[0];
    case ValueRows(rows) =>
    case NestedLoopJoin(l, r, t, on) =>
      assert l == Children(p)[0] && r == Children(p)[1];
      JoinWide(db.fp, p.schema, t, Condition(t, on), Meaning(db, l).value, Meaning(db, r).value, |l.schema|, |r.schema|);
    case NestedIndexJoin(c, es, t, oid, _, jt) =>
      assert c == Children(p)[0];
      var table, index := db.tables[t], FindIndex(db.tables[t].indexes, oid).value;
      IndexJoinWide(db.fp, p.schema, jt, table, index, es, KeyTypesOf(table.types, index.keyAttrs).value, c.schema, Meaning(db, c).value);
  }

  // ---- replacing children ---------------------------------------------------------------------------

  /** A node means the same over children that mean the same. */
  lemma Congruence(db: Db, p: Plan, cs: seq<Plan>)
    requires |cs| == |Children(p)| && forall i :: 0 <= i < |cs| ==> Same(db, Children(p)[i], cs[i])
    ensures Same(db, p, WithChildren(p, cs)) && Children(WithChildren(p, cs)) == cs
    ensures NodeTyped(db, p) ==> NodeTyped(db, WithChildren(p, cs))
  {
    if |cs| > 0 {
      assert Same(db, Children(p)[0], cs[0]);
    }
    if |cs| > 1 {
      assert Same(db, Children(p)[1], cs[1]);
    }
  }

  // ---- dropping projections ----------------------------------------------------------------------------

  lemma {:induction false} EvaluateColumns(fp: FloatOps, es: seq<Expr>, row: Row, from: nat)
    requires |row| == from + |es| && forall i :: 0 <= i < |es| ==> es[i].kind == ColumnValue(0, from + i)
    ensures EvaluateAll(fp, es, [row]) == Ok(row[from..])
  {
    if es == [] {
      assert row[from..] == [];
    } else {
      EvaluateColumns(fp, es[1..], row, from + 1);
      assert Evaluate(fp, es[0], [row]) == Ok(row[from]);
      assert row[from..] == [row[from]] + row[from + 1..];
    }
  }

  lemma MergeProjectionSame(db: Db, p: Plan)
    requires DbOk(db) && Typed(db, p)
    ensures Same(db, p, MergeProjection(p)) && Typed(db, MergeProjection(p))
    ensures NoScanFilters(p) ==> NoScanFilters(MergeProjection(p))
  {
    if MergeProjection(p) != p {
      var es, c := p.node.exprs, p.node.child;
      assert c == Children(p)[0];
      assert MergeProjection(p) == c by { assert p.schema == c.schema; }
      if Meaning(db, p).Some? {
        RowWidth(db, c);
        var rows := Meaning(db, c).value;
        forall i | 0 <= i < |rows|
          ensures ProjectRow(db.fp, es, rows[i]) == rows[i]
        {
          EvaluateColumns(db.fp, es, rows[i], 0);
        }
        assert ProjectRows(db.fp, es, rows) == rows;
      }
    }
  }

  lemma {:induction false} MergeProjectionsSame(db: Db, p: Plan)
    requires DbOk(db) && Typed(db, p)
    ensures Same(db, p, MergeProjections(p)) && Typed(db, MergeProjections(p))
    ensures NoScanFilters(p) ==> NoScanFilters(MergeProjections(p))
    decreases p
  {
    var rule, cs := (q: Plan) => MergeProjection(q), Children(p);
    var cs' := seq(|cs|, i requires 0 <= i < |cs| => Rewrite(rule, cs[i]));
    forall i | 0 <= i < |cs|
      ensures Same(db, cs[i], cs'[i]) && Typed(db, cs'[i]) && (NoScanFilters(cs[i]) ==> NoScanFilters(cs'[i]))
    {
      MergeProjectionsSame(db, cs[i]);
    }
    Congruence(db, p, cs');
    MergeProjectionSame(db, WithChildren(p, cs'));
  }

  // ---- pushing filters into scans --------------------------------------------------------------------------

  lemma {:induction false} FilterNone(fp: FloatOps, rows: seq<Row>)
    ensures FilterRows(fp, None, rows) == rows
  {
    if rows != [] {
      FilterNone(fp, rows[1..]);
    }
  }

  lemma FilterIntoScanSame(db: Db, p: Plan)
    requires Typed(db, p)
    ensures Same(db, p, FilterIntoScan(p)) && Typed(db, FilterIntoScan(p))
  {
    if FilterIntoScan(p) != p {
      var c := p.node.child;
      assert c == Children(p)[0];
      assert Typed(db, c);
      FilterNone(db.fp, LiveRows(db.tables[c.node.table].heap));
    }
  }

  lemma {:induction false} FiltersIntoScansSame(db: Db, p: Plan)
    requires Typed(db, p)
    ensures Same(db, p, FiltersIntoScans(p)) && Typed(db, FiltersIntoScans(p))
    decreases p
  {
    var rule, cs := (q: Plan) => FilterIntoScan(q), Children(p);
    var cs' := seq(|cs|, i requires 0 <= i < |cs| => Rewrite(rule, cs[i]));
    forall i | 0 <= i < |cs|
      ensures Same(db, cs[i], cs'[i]) && Typed(db, cs'[i])
    {
      FiltersIntoScansSame(db, cs[i]);
    }
    Congruence(db, p, cs');
    FilterIntoScanSame(db, WithChildren(p, cs'));
  }

  // ---- index joins ---------------------------------------------------------------------------------------------

  /** Columns of rows that fit a schema have the schema's types. */
  lemma PickTypes(row: Row, schema: seq<SqlType>, cols: seq<nat>)
    requires RowMatches(row, schema) && forall k :: 0 <= k < |cols| ==> cols[k] < |schema|
    ensures InRange(cols, row) && forall k :: 0 <= k < |cols| ==> Pick(cols, row)[k].Ok() && Pick(cols, row)[k].Type() == schema[cols[k]]
  {
  }

  lemma {:induction false} EvaluateIndexExprs(fp: FloatOps, es: seq<Expr>, cols: seq<nat>, row: Row)
    requires |es| == |cols| && InRange(cols, row) && forall k :: 0 <= k < |cols| ==> es[k].kind == ColumnValue(0, cols[k])
    ensures EvaluateAll(fp, es, [row]) == Ok(Pick(cols, row))
  {
    if es == [] {
      assert Pick(cols, row) == [];
    } else {
      EvaluateIndexExprs(fp, es[1..], cols[1..], row);
      assert Evaluate(fp, es[0], [row]) == Ok(row[cols[0]]);
      assert Pick(cols, row) == [row[cols[0]]] + Pick(cols[1..], row);
    }
  }

  ghost predicate ReadsColumns(es: seq<Expr>, cols: seq<nat>) {
    |es| == |cols| && forall k :: 0 <= k < |es| ==> es[k].kind == ColumnValue(0, cols[k])
  }

  /** The columns of a key that a join on `on` pairs have one type. */
  ghost predicate OnAlike(on: Expr, leftTypes: seq<SqlType>, rightTypes: seq<SqlType>)
    requires ExtractKeys(on).Some?
  {
    TypesAlike(ExtractKeys(on).value.0, leftTypes, ExtractKeys(on).value.1, rightTypes)
  }

  /** The rows whose key SQL calls equal to `key`. */
  function WhereSql(rows: seq<Row>, attrs: seq<nat>, key: Row): seq<Row> {
    if rows == [] then []
    else (if InRange(attrs, rows[0]) && KeysEqual(key, Pick(attrs, rows[0])) then [rows[0]] else []) + WhereSql(rows[1..], attrs, key)
  }

  /** The right rows that join a left row: with the same key bits, or with keys
      SQL calls equal. */
  function JoinedBy(bits: bool, ls: seq<nat>, left: Row, rs: seq<nat>, rights: seq<Row>): seq<Row> {
    if InRange(ls, left) && NoNulls(Pick(ls, left)) then
      if bits then WhereKey(rights, rs, Pick(ls, left)) else WhereSql(rights, rs, Pick(ls, left))
    else []
  }

  /** A join by keys. */
  function KeyJoin(bits: bool, schema: seq<SqlType>, t: JoinType, lefts: seq<Row>, ls: seq<nat>, rights: seq<Row>, rs: seq<nat>): seq<Row> {
    if lefts == [] then []
    else
      Padded(schema, t, lefts[0], Pair(lefts[0], JoinedBy(bits, ls, lefts[0], rs, rights)))
      + KeyJoin(bits, schema, t, lefts[1..], ls, rights, rs)
  }

  /** Filtering the right rows by the join predicate is filtering them by key. */
  lemma {:induction false} MatchIsWhereSql(fp: FloatOps, on: Expr, left: Row, rights: seq<Row>, leftTypes: seq<SqlType>, rightTypes: seq<SqlType>)
    requires ExtractKeys(on).Some? && OnAlike(on, leftTypes, rightTypes) && RowMatches(left, leftTypes)
    requires forall i {:trigger rights[i]} :: 0 <= i < |rights| ==> RowMatches(rights[i], rightTypes)
    ensures var (ls, rs) := ExtractKeys(on).value;
      MatchRows(fp, Some(on), left, rights) == Pair(left, JoinedBy(false, ls, left, rs, rights))
  {
    var (ls, rs) := ExtractKeys(on).value;
    PickTypes(left, leftTypes, ls);
    if rights != [] {
      var key, right := Pick(ls, left), rights[0];
      MatchIsWhereSql(fp, on, left, rights[1..], leftTypes, rightTypes);
      PickTypes(right, rightTypes, rs);
      EquiJoinMeaning(fp, on, left, right);
      PairWhere(left, rights, rs, key);
      assert Keeps(fp, Some(on), [left, right]) <==> NoNulls(key) && KeysEqual(key, Pick(rs, right));
    }
  }

  lemma PairWhere(left: Row, rights: seq<Row>, rs: seq<nat>, key: Row)
    requires rights != [] && InRange(rs, rights[0])
    ensures Pair(left, WhereSql(rights, rs, key))
      == (if KeysEqual(key, Pick(rs, rights[0])) then [left + rights[0]] else []) + Pair(left, WhereSql(rights[1..], rs, key))
  {
    var rest := WhereSql(rights[1..], rs, key);
    assert Pair(left, [rights[0]] + rest) == [left + rights[0]] + Pair(left, rest);
  }

  /** The nested-loop join compares keys as SQL does. */
  lemma {:induction false} LoopIsKeyJoin(fp: FloatOps, schema: seq<SqlType>, t: JoinType, on: Expr, lefts: seq<Row>, leftTypes: seq<SqlType>,
                                         rights: seq<Row>, rightTypes: seq<SqlType>)
    requires ExtractKeys(on).Some? && OnAlike(on, leftTypes, rightTypes)
    requires forall i {:trigger lefts[i]} :: 0 <= i < |lefts| ==> RowMatches(lefts[i], leftTypes)
    requires forall i {:trigger rights[i]} :: 0 <= i < |rights| ==> RowMatches(rights[i], rightTypes)
    ensures JoinRows(fp, schema, t, Some(on), lefts, rights)
      == KeyJoin(false, schema, t, lefts, ExtractKeys(on).value.0, rights, ExtractKeys(on).value.1)
  {
    if lefts != [] {
      MatchIsWhereSql(fp, on, lefts[0], rights, leftTypes, rightTypes);
      LoopIsKeyJoin(fp, schema, t, on, lefts[1..], leftTypes, rights, rightTypes);
    }
  }

  /** The key the index join builds is the left row's columns. */
  lemma OuterKeyIs(fp: FloatOps, on: Expr, left: Row, leftTypes: seq<SqlType>, table: Table, index: Index, es: seq<Expr>)
    requires TableOk(table) && index in table.indexes && ExtractKeys(on).Some? && index.keyAttrs == ExtractKeys(on).value.1
    requires RowMatches(left, leftTypes) && OnAlike(on, leftTypes, table.types) && ReadsColumns(es, ExtractKeys(on).value.0)
    ensures KeyTypesOf(table.types, index.keyAttrs).Some? && InRange(ExtractKeys(on).value.0, left)
    ensures var key := Pick(ExtractKeys(on).value.0, left);
      && OuterKey(fp, es, KeyTypesOf(table.types, index.keyAttrs).value, leftTypes, left) == Some(key)
      && (NoNulls(key) ==> KeyOk(key) && OneTyped(table.heap, index.keyAttrs, key))
  {
    var ls, rs := ExtractKeys(on).value.0, ExtractKeys(on).value.1;
    PickTypes(left, leftTypes, ls);
    EvaluateIndexExprs(fp, es, ls, left);
    var i :| 0 <= i < |table.indexes| && table.indexes[i] == index;
    forall j | 0 <= j < |table.heap| && !table.heap[j].deleted
      ensures InRange(rs, table.heap[j].values) && SameTypes(Pick(rs, table.heap[j].values), Pick(ls, left))
    {
      PickTypes(table.heap[j].values, table.types, rs);
    }
  }

  /** What the index finds for one left row: the rows with the same key bits. */
  lemma IndexMatchesAre(ls: seq<nat>, left: Row, table: Table, index: Index)
    requires TableOk(table) && index in table.indexes && InRange(ls, left)
    requires NoNulls(Pick(ls, left)) ==> KeyOk(Pick(ls, left)) && OneTyped(table.heap, index.keyAttrs, Pick(ls, left))
    ensures IndexMatches(table, index, left, Pick(ls, left)) == Pair(left, JoinedBy(true, ls, left, index.keyAttrs, LiveRows(table.heap)))
  {
    var key := Pick(ls, left);
    if NoNulls(key) {
      assert exists i :: 0 <= i < |table.indexes| && table.indexes[i] == index;
      LookupIsFilteredScan(table.heap, index, key);
    } else {
      assert FetchRows(table.heap, LookupRids(index, key)) == [];
    }
  }

  /** The index join compares the bits of keys. */
  lemma {:induction false} IndexIsKeyJoin(fp: FloatOps, schema: seq<SqlType>, t: JoinType, on: Expr, lefts: seq<Row>, leftTypes: seq<SqlType>,
                                          table: Table, index: Index, es: seq<Expr>)
    requires TableOk(table) && index in table.indexes && ExtractKeys(on).Some? && index.keyAttrs == ExtractKeys(on).value.1
    requires forall i {:trigger lefts[i]} :: 0 <= i < |lefts| ==> RowMatches(lefts[i], leftTypes)
    requires OnAlike(on, leftTypes, table.types) && ReadsColumns(es, ExtractKeys(on).value.0)
    requires KeyTypesOf(table.types, index.keyAttrs).Some?
    ensures var keyTypes := KeyTypesOf(table.types, index.keyAttrs).value;
      && KeysBuild(fp, es, keyTypes, leftTypes, lefts)
      && IndexJoinRows(fp, schema, t, table, index, es, keyTypes, leftTypes, lefts)
         == KeyJoin(true, schema, t, lefts, ExtractKeys(on).value.0, LiveRows(table.heap), index.keyAttrs)
  {
    if lefts != [] {
      OuterKeyIs(fp, on, lefts[0], leftTypes, table, index, es);
      IndexMatchesAre(ExtractKeys(on).value.0, lefts[0], table, index);
      IndexIsKeyJoin(fp, schema, t, on, lefts[1..], leftTypes, table, index, es);
      forall i | 0 <= i < |lefts|
        ensures OuterKey(fp, es, KeyTypesOf(table.types, index.keyAttrs).value, leftTypes, lefts[i]).Some?
      {
        OuterKeyIs(fp, on, lefts[i], leftTypes, table, index, es);
      }
    }
  }

  // ---- when joining by bits is joining by SQL equality ------------------------------------------------------------

  lemma {:induction false} WhereMember(rows: seq<Row>, attrs: seq<nat>, key: Row, row: Row)
    ensures row in WhereKey(rows, attrs, key) <==> row in rows && InRange(attrs, row) && Pick(attrs, row) == key
    ensures row in WhereSql(rows, attrs, key) <==> row in rows && InRange(attrs, row) && KeysEqual(key, Pick(attrs, row))
  {
    if rows != [] {
      WhereMember(rows[1..], attrs, key, row);
      assert rows == [rows[0]] + rows[1..];
    }
  }

  lemma {:induction false} WhereSame(rows: seq<Row>, ls: seq<nat>, left: Row, rs: seq<nat>)
    requires InRange(ls, left) && NoNulls(Pick(ls, left))
    requires forall j {:trigger rows[j]} :: 0 <= j < |rows| ==> InRange(rs, rows[j]) && Faithful(left, ls, rows[j], rs)
    ensures WhereKey(rows, rs, Pick(ls, left)) == WhereSql(rows, rs, Pick(ls, left))
  {
    if rows != [] {
      WhereSame(rows[1..], ls, left, rs);
    }
  }

  lemma {:induction false} KeyJoinSame(schema: seq<SqlType>, t: JoinType, lefts: seq<Row>, ls: seq<nat>, rights: seq<Row>, rs: seq<nat>)
    requires AllFaithful(lefts, ls, rights, rs) && forall j {:trigger rights[j]} :: 0 <= j < |rights| ==> InRange(rs, rights[j])
    ensures KeyJoin(true, schema, t, lefts, ls, rights, rs) == KeyJoin(false, schema, t, lefts, ls, rights, rs)
  {
    if lefts != [] {
      assert AllFaithful(lefts[1..], ls, rights, rs) by {
        forall i, j | 0 <= i < |lefts[1..]| && 0 <= j < |rights|
          ensures Faithful(lefts[1..][i], ls, rights[j], rs)
        {
          assert lefts[1..][i] == lefts[i + 1];
        }
      }
      KeyJoinSame(schema, t, lefts[1..], ls, rights, rs);
      if InRange(ls, lefts[0]) && NoNulls(Pick(ls, lefts[0])) {
        WhereSame(rights, ls, lefts[0], rs);
      }
    }
  }

  /** A pair of rows that joins is among the joined rows. */
  lemma {:induction false} KeyJoinHas(bits: bool, schema: seq<SqlType>, t: JoinType, lefts: seq<Row>, ls: seq<nat>, rights: seq<Row>, rs: seq<nat>, i: nat, right: Row)
    requires i < |lefts| && right in JoinedBy(bits, ls, lefts[i], rs, rights)
    ensures lefts[i] + right in KeyJoin(bits, schema, t, lefts, ls, rights, rs)
  {
    hide JoinedBy;
    var matches := JoinedBy(bits, ls, lefts[0], rs, rights);
    if i == 0 {
      var k :| 0 <= k < |matches| && matches[k] == right;
      assert Pair(lefts[0], matches)[k] == lefts[0] + right;
    } else {
      KeyJoinHas(bits, schema, t, lefts[1..], ls, rights, rs, i - 1, right);
    }
  }

  /** A pair of rows that does not join is not among them, not even as a padded
      row, since its key has no nulls. */
  lemma {:induction false} KeyJoinLacks(bits: bool, schema: seq<SqlType>, t: JoinType, lefts: seq<Row>, ls: seq<nat>, rights: seq<Row>, rs: seq<nat>, left: Row, right: Row)
    requires forall i {:trigger lefts[i]} :: 0 <= i < |lefts| ==> |lefts[i]| == |left|
    requires right !in JoinedBy(bits, ls, left, rs, rights)
    requires rs != [] && InRange(rs, right) && NoNulls(Pick(rs, right)) && |left| + |right| == |schema|
    ensures left + right !in KeyJoin(bits, schema, t, lefts, ls, rights, rs)
  {
    if lefts != [] {
      KeyJoinLacks(bits, schema, t, lefts[1..], ls, rights, rs, left, right);
      NotAmong(left, right, lefts[0], JoinedBy(bits, ls, lefts[0], rs, rights));
      NotPadded(schema, left, right, lefts[0], rs);
    }
  }

  lemma NotAmong(left: Row, right: Row, other: Row, matches: seq<Row>)
    requires |other| == |left| && (other == left ==> right !in matches)
    ensures left + right !in Pair(other, matches)
  {
    forall k | 0 <= k < |matches|
      ensures other + matches[k] == left + right ==> other == left && matches[k] == right
    {
      SameParts(other, matches[k], left, right);
    }
  }

  lemma SameParts(a: Row, b: Row, c: Row, d: Row)
    requires |a| == |c|
    ensures a + b == c + d ==> a == c && b == d
  {
    assert (a + b)[..|a|] == a && (a + b)[|a|..] == b && (c + d)[..|a|] == c && (c + d)[|a|..] == d;
  }

  lemma NotPadded(schema: seq<SqlType>, left: Row, right: Row, other: Row, rs: seq<nat>)
    requires |other| == |left| && |left| + |right| == |schema| && rs != [] && InRange(rs, right) && NoNulls(Pick(rs, right))
    ensures left + right != PadRow(schema, other)
  {
    var k := |left| + rs[0];
    assert (left + right)[k] == right[rs[0]] == Pick(rs, right)[0];
    assert PadRow(schema, other)[k].Null?;
  }

  /** One unfaithful pair makes the two joins differ. */
  lemma KeyJoinDiffers(schema: seq<SqlType>, t: JoinType, lefts: seq<Row>, ls: seq<nat>, rights: seq<Row>, rs: seq<nat>, i: nat, j: nat)
    requires i < |lefts| && j < |rights| && !Faithful(lefts[i], ls, rights[j], rs) && |ls| == |rs| && ls != []
    requires forall k {:trigger lefts[k]} :: 0 <= k < |lefts| ==> |lefts[k]| == |lefts[i]|
    requires |lefts[i]| + |rights[j]| == |schema|
    ensures KeyJoin(true, schema, t, lefts, ls, rights, rs) != KeyJoin(false, schema, t, lefts, ls, rights, rs)
  {
    var left, right := lefts[i], rights[j];
    WhereMember(rights, rs, Pick(ls, left), right);
    var bits := Pick(ls, left) == Pick(rs, right);
    assert KeysEqual(Pick(ls, left), Pick(rs, right)) != bits;
    forall k | 0 <= k < |rs|
      ensures !Pick(rs, right)[k].Null?
    {
      assert !Pick(ls, left)[k].Null?;
    }
    KeyJoinHas(bits, schema, t, lefts, ls, rights, rs, i, right);
    KeyJoinLacks(!bits, schema, t, lefts, ls, rights, rs, left, right);
  }

  lemma {:induction false} FilterMembers(fp: FloatOps, p: Option<Expr>, rows: seq<Row>, types: seq<SqlType>)
    requires forall i {:trigger rows[i]} :: 0 <= i < |rows| ==> RowMatches(rows[i], types)
    ensures forall i {:trigger FilterRows(fp, p, rows)[i]} :: 0 <= i < |FilterRows(fp, p, rows)| ==> RowMatches(FilterRows(fp, p, rows)[i], types)
  {
    if rows != [] {
      FilterMembers(fp, p, rows[1..], types);
    }
  }

  lemma {:induction false} FindIndexFinds(indexes: seq<Index>, index: Index)
    requires index in indexes && forall i, j :: 0 <= i < j < |indexes| ==> indexes[i].oid != indexes[j].oid
    ensures FindIndex(indexes, index.oid) == Some(index)
  {
    if indexes[0] != index {
      var k :| 0 <= k < |indexes| && indexes[k] == index;
      assert indexes[0].oid != indexes[k].oid;
      assert indexes[1..][k - 1] == index;
      FindIndexFinds(indexes[1..], index);
    }
  }

  /** Where the rule fires on scans of tables. */
  lemma IndexJoinParts(db: Db, p: Plan)
    requires DbOk(db) && Typed(db, p) && NoScanFilters(p) && IndexFor(db, p).Some?
    ensures var l, r, index := p.node.left, p.node.right, IndexFor(db, p).value;
      && l.node.table < |db.tables| && l.schema == db.tables[l.node.table].types && TableOk(db.tables[l.node.table])
      && r.schema == db.tables[r.node.table].types && TableOk(db.tables[r.node.table]) && r.node.filter.None?
      && FindIndex(db.tables[r.node.table].indexes, index.oid) == Some(index)
  {
    var l, r := p.node.left, p.node.right;
    assert l == Children(p)[0] && r == Children(p)[1];
    assert Typed(db, l) && Typed(db, r) && NoScanFilters(r);
    assert TableOk(db.tables[l.node.table]) && TableOk(db.tables[r.node.table]);
    FindIndexFinds(db.tables[r.node.table].indexes, IndexFor(db, p).value);
  }

  lemma IndexJoinUnfolds(db: Db, p: Plan)
    requires DbOk(db) && Typed(db, p) && NoScanFilters(p) && IndexFor(db, p).Some? && Meaning(db, p.node.left).Some?
    ensures var l, r, index := p.node.left, p.node.right, IndexFor(db, p).value;
      r.node.table < |db.tables| && Meaning(db, IndexJoin(db, p)) ==
        IndexJoinMeaning(db.fp, p.schema, p.node.joinType, db.tables[r.node.table], Some(index),
                         BuildIndexExprs(l.schema, ExtractKeys(p.node.on.value).value.0), l.schema, Meaning(db, l).value)
  {
    IndexJoinParts(db, p);
  }

  /** Rows of a scan fit its schema. */
  lemma ScanMatches(db: Db, l: Plan)
    requires l.node.SeqScan? && l.node.table < |db.tables| && TableOk(db.tables[l.node.table]) && l.schema == db.tables[l.node.table].types
    ensures Meaning(db, l).Some? ==>
      forall i {:trigger Meaning(db, l).value[i]} :: 0 <= i < |Meaning(db, l).value| ==> RowMatches(Meaning(db, l).value[i], l.schema)
  {
    var table := db.tables[l.node.table];
    LiveWide(table.heap, table.types);
    FilterMembers(db.fp, l.node.filter, LiveRows(table.heap), table.types);
  }

  /** Both joins as joins by keys, where the key columns have one type. */
  lemma JoinsAreKeyJoins(db: Db, p: Plan)
    requires DbOk(db) && Typed(db, p) && NoScanFilters(p) && IndexFor(db, p).Some? && Meaning(db, p).Some?
    requires OnAlike(p.node.on.value, p.node.left.schema, p.node.right.schema)
    ensures p.node.left.node.table < |db.tables| && p.node.right.node.table < |db.tables|
    ensures var (ls, rs) := ExtractKeys(p.node.on.value).value;
      var lefts := LiveRows(db.tables[p.node.left.node.table].heap);
      var rights := LiveRows(db.tables[p.node.right.node.table].heap);
      && Meaning(db, p.node.left) == Some(lefts)
      && Meaning(db, p) == Some(KeyJoin(false, p.schema, p.node.joinType, lefts, ls, rights, rs))
      && Meaning(db, IndexJoin(db, p)) == Some(KeyJoin(true, p.schema, p.node.joinType, lefts, ls, rights, rs))
  {
    var l, r, t, on, index := p.node.left, p.node.right, p.node.joinType, p.node.on.value, IndexFor(db, p).value;
    assert l == Children(p)[0] && r == Children(p)[1];
    assert NoScanFilters(l);
    IndexJoinParts(db, p);
    IndexJoinUnfolds(db, p);
    var table, lefts := db.tables[r.node.table], LiveRows(db.tables[l.node.table].heap);
    FilterNone(db.fp, LiveRows(table.heap));
    FilterNone(db.fp, lefts);
    ScanMatches(db, l);
    ScanMatches(db, r);
    LoopIsKeyJoin(db.fp, p.schema, t, on, lefts, l.schema, LiveRows(table.heap), r.schema);
    IndexIsKeyJoin(db.fp, p.schema, t, on, lefts, l.schema, table, index, BuildIndexExprs(l.schema, ExtractKeys(on).value.0));
  }

  lemma RightRowsInRange(db: Db, p: Plan)
    requires DbOk(db) && Typed(db, p) && NoScanFilters(p) && IndexFor(db, p).Some?
    requires OnAlike(p.node.on.value, p.node.left.schema, p.node.right.schema)
    ensures p.node.right.node.table < |db.tables|
    ensures var rights := LiveRows(db.tables[p.node.right.node.table].heap);
      forall j {:trigger rights[j]} :: 0 <= j < |rights| ==> InRange(ExtractKeys(p.node.on.value).value.1, rights[j])
  {
    IndexJoinParts(db, p);
    LiveWide(db.tables[p.node.right.node.table].heap, p.node.right.schema);
  }

  lemma IndexJoinSame(db: Db, p: Plan)
    requires DbOk(db) && Typed(db, p) && NoScanFilters(p) && PairsAlike(db, p)
    ensures Same(db, p, IndexJoin(db, p)) && Typed(db, IndexJoin(db, p)) && NoScanFilters(IndexJoin(db, p))
  {
    var found := IndexFor(db, p);
    if found.Some? {
      var l, r := p.node.left, p.node.right;
      assert l == Children(p)[0] && r == Children(p)[1];
      assert Typed(db, l) && NoScanFilters(l);
      IndexJoinParts(db, p);
      assert Children(IndexJoin(db, p)) == [l];
      if Meaning(db, p).Some? {
        var (ls, rs) := ExtractKeys(p.node.on.value).value;
        JoinsAreKeyJoins(db, p);
        RightRowsInRange(db, p);
        KeyJoinSame(p.schema, p.node.joinType, LiveRows(db.tables[l.node.table].heap), ls, LiveRows(db.tables[r.node.table].heap), rs);
      }
    }
  }

  /** Rewriting the children does not change whether, and with which index, the
      rule fires. */
  lemma FiresTheSame(db: Db, p: Plan, cs: seq<Plan>)
    requires |cs| == |Children(p)| && forall i :: 0 <= i < |cs| ==> cs[i].schema == Children(p)[i].schema
    requires forall i :: 0 <= i < |cs| ==> (Children(p)[i].node.SeqScan? || cs[i].node.SeqScan? ==> cs[i] == Children(p)[i])
    requires PairsAlike(db, p)
    ensures PairsAlike(db, WithChildren(p, cs))
  {
    if p.node.NestedLoopJoin? {
      assert cs[0].schema == p.node.left.schema && cs[1].schema == p.node.right.schema;
      assert cs[0].node.SeqScan? ==> cs[0] == Children(p)[0];
      assert cs[1].node.SeqScan? ==> cs[1] == Children(p)[1];
    }
  }

  lemma {:induction false} IndexJoinsSame(db: Db, p: Plan)
    requires DbOk(db) && Typed(db, p) && NoScanFilters(p) && AllPairsAlike(db, p)
    ensures Same(db, p, IndexJoins(db, p)) && Typed(db, IndexJoins(db, p)) && NoScanFilters(IndexJoins(db, p))
    ensures p.node.SeqScan? || IndexJoins(db, p).node.SeqScan? ==> IndexJoins(db, p) == p
    decreases p
  {
    var rule, cs := (q: Plan) => IndexJoin(db, q), Children(p);
    var cs' := seq(|cs|, i requires 0 <= i < |cs| => Rewrite(rule, cs[i]));
    forall i | 0 <= i < |cs|
      ensures Same(db, cs[i], cs'[i]) && Typed(db, cs'[i]) && NoScanFilters(cs'[i])
      ensures cs[i].node.SeqScan? || cs'[i].node.SeqScan? ==> cs'[i] == cs[i]
    {
      IndexJoinsSame(db, cs[i]);
    }
    Congruence(db, p, cs');
    FiresTheSame(db, p, cs');
    IndexJoinSame(db, WithChildren(p, cs'));
  }

  // ---- the theorem ---------------------------------------------------------------------------------------------

  /** Optimizing a plan of the planner keeps its rows, their order and columns,
      given that no expression fails, indexes agree with their heaps, and columns
      that an index join would pair have one type and keys it can tell by bits. */
  lemma OptimizeSame(db: Db, p: Plan)
    requires DbOk(db) && Typed(db, p) && NoScanFilters(p) && AllPairsAlike(db, MergeProjections(p))
    requires Meaning(db, p).Some?
    ensures Meaning(db, Optimize(db, p)) == Meaning(db, p) && Optimize(db, p).schema == p.schema
  {
    MergeProjectionsSame(db, p);
    IndexJoinsSame(db, MergeProjections(p));
    FiltersIntoScansSame(db, IndexJoins(db, MergeProjections(p)));
  }

  // ---- where the index join rule is not sound ------------------------------------------------------------------

  function WithRightFilter(p: Plan, f: Option<Expr>): Plan
    requires p.node.NestedLoopJoin? && p.node.right.node.SeqScan?
  {
    var r := p.node.right;
    Plan(p.schema, NestedLoopJoin(p.node.left, Plan(r.schema, SeqScan(r.node.table, f)), p.node.joinType, p.node.on))
  }

  lemma {:induction false} JoinNothing(fp: FloatOps, schema: seq<SqlType>, p: Option<Expr>, lefts: seq<Row>)
    ensures JoinRows(fp, schema, Inner, p, lefts, []) == []
  {
    if lefts != [] {
      JoinNothing(fp, schema, p, lefts[1..]);
    }
  }

  lemma {:induction false} FilterFalse(fp: FloatOps, t: SqlType, rows: seq<Row>)
    ensures FilterRows(fp, Some(Expr(t, ConstantValue(Bool(false)))), rows) == []
  {
    if rows != [] {
      FilterFalse(fp, t, rows[1..]);
    }
  }

  /** The rule forgets a filter on the right scan, so it must run before filters
      are pushed into scans: a right filter that keeps nothing is undone whenever
      the join without it has a row. */
  lemma RightFilterIsForgotten(db: Db, p: Plan, t: SqlType)
    requires IndexFor(db, p).Some? && p.node.joinType.Inner? && p.node.right.node.filter == Some(Expr(t, ConstantValue(Bool(false))))
    requires DbOk(db) && Typed(db, WithRightFilter(p, None)) && NoScanFilters(WithRightFilter(p, None)) && PairsAlike(db, p)
    requires Meaning(db, WithRightFilter(p, None)).Some? && Meaning(db, WithRightFilter(p, None)).value != []
    ensures Meaning(db, p) == Some([]) && Meaning(db, IndexJoin(db, p)) == Meaning(db, WithRightFilter(p, None)) != Some([])
  {
    var q := WithRightFilter(p, None);
    assert IndexJoin(db, q) == IndexJoin(db, p);
    IndexJoinSame(db, q);
    IndexJoinParts(db, q);
    JoinUnderFalse(db, p, t);
  }

  lemma JoinUnderFalse(db: Db, p: Plan, t: SqlType)
    requires p.node.NestedLoopJoin? && p.node.joinType.Inner? && Meaning(db, p.node.left).Some?
    requires var r := p.node.right;
      && r.node.SeqScan? && r.node.table < |db.tables| && r.schema == db.tables[r.node.table].types
      && r.node.filter == Some(Expr(t, ConstantValue(Bool(false))))
    ensures Meaning(db, p) == Some([])
  {
    var heap := db.tables[p.node.right.node.table].heap;
    FilterFalse(db.fp, t, LiveRows(heap));
    JoinNothing(db.fp, p.schema, p.node.on, Meaning(db, p.node.left).value);
    assert Meaning(db, p.node.right) == Some([]);
  }

  /** Building a key from a column that is missing or of a different type panics
      on the first outer row. */
  lemma KeyOfOtherType(fp: FloatOps, es: seq<Expr>, cols: seq<nat>, keyTypes: seq<SqlType>, leftTypes: seq<SqlType>, left: Row, k: nat)
    requires RowMatches(left, leftTypes) && ReadsColumns(es, cols) && |keyTypes| == |cols| && k < |cols|
    requires cols[k] < |leftTypes| ==> leftTypes[cols[k]] != keyTypes[k]
    ensures OuterKey(fp, es, keyTypes, leftTypes, left).None?
  {
    if forall j :: 0 <= j < |cols| ==> cols[j] < |leftTypes| {
      PickTypes(left, leftTypes, cols);
      EvaluateIndexExprs(fp, es, cols, left);
      assert Pick(cols, left)[k].Type() != keyTypes[k];
    } else {
      var j :| 0 <= j < |cols| && cols[j] >= |leftTypes|;
      NoSuchColumn(fp, es, cols, left, j);
    }
  }

  lemma {:induction false} NoSuchColumn(fp: FloatOps, es: seq<Expr>, cols: seq<nat>, row: Row, j: nat)
    requires ReadsColumns(es, cols) && j < |cols| && cols[j] >= |row|
    ensures EvaluateAll(fp, es, [row]).Err?
  {
    assert es[0].kind == ColumnValue(0, cols[0]);
    if j > 0 {
      NoSuchColumn(fp, es[1..], cols[1..], row, j - 1);
    }
  }

  lemma MismatchPanics(db: Db, p: Plan, k: nat)
    requires DbOk(db) && Typed(db, p) && NoScanFilters(p) && IndexFor(db, p).Some? && Meaning(db, p).Some?
    requires k < |ExtractKeys(p.node.on.value).value.0| && ExtractKeys(p.node.on.value).value.1[k] < |p.node.right.schema|
    requires var (ls, rs) := ExtractKeys(p.node.on.value).value;
      ls[k] < |p.node.left.schema| ==> p.node.left.schema[ls[k]] != p.node.right.schema[rs[k]]
    requires Meaning(db, p.node.left) != Some([])
    ensures Meaning(db, IndexJoin(db, p)).None?
  {
    var l, r := p.node.left, p.node.right;
    var ls, rs := ExtractKeys(p.node.on.value).value.0, ExtractKeys(p.node.on.value).value.1;
    IndexJoinParts(db, p);
    KeyColumns(db, p);
    ScanMatches(db, l);
    IndexJoinUnfolds(db, p);
    KeyOfOtherType(db.fp, BuildIndexExprs(l.schema, ls), ls, KeyTypesOf(r.schema, rs).value, l.schema, Meaning(db, l).value[0], k);
  }

  /** An index has at least one column, and all its columns are in the table. */
  lemma KeyColumns(db: Db, p: Plan)
    requires DbOk(db) && Typed(db, p) && NoScanFilters(p) && IndexFor(db, p).Some?
    ensures var (ls, rs) := ExtractKeys(p.node.on.value).value;
      |ls| == |rs| && ls != [] && forall k :: 0 <= k < |rs| ==> rs[k] < |p.node.right.schema|
  {
    IndexJoinParts(db, p);
    var table, index := db.tables[p.node.right.node.table], IndexFor(db, p).value;
    var i :| 0 <= i < |table.indexes| && table.indexes[i] == index;
    SomeKey(p.node.on.value);
  }

  lemma {:induction false} SomeKey(on: Expr)
    requires ExtractKeys(on).Some?
    ensures ExtractKeys(on).value.0 != []
    decreases on
  {
    if on.kind.Logic? {
      SomeKey(on.kind.left);
    }
  }

  lemma EmptyLeftSame(db: Db, p: Plan)
    requires DbOk(db) && Typed(db, p) && NoScanFilters(p) && IndexFor(db, p).Some? && Meaning(db, p).Some?
    requires Meaning(db, p.node.left) == Some([])
    ensures Meaning(db, IndexJoin(db, p)) == Some([]) == Meaning(db, p)
  {
    IndexJoinParts(db, p);
    KeyColumns(db, p);
    IndexJoinUnfolds(db, p);
  }

  /** The rule keeps the rows of a join exactly if the left side has no rows, or
      the paired columns have one type and no live pair of keys has the same bits
      without being equal, or is equal with different bits. */
  lemma IndexJoinSameIff(db: Db, p: Plan)
    requires DbOk(db) && Typed(db, p) && NoScanFilters(p) && IndexFor(db, p).Some? && Meaning(db, p).Some?
    ensures Meaning(db, IndexJoin(db, p)) == Meaning(db, p) <==> Meaning(db, p.node.left) == Some([]) || PairsAlike(db, p)
  {
    var (ls, rs) := ExtractKeys(p.node.on.value).value;
    var l, r := p.node.left, p.node.right;
    IndexJoinParts(db, p);
    KeyColumns(db, p);
    if PairsAlike(db, p) {
      IndexJoinSame(db, p);
    } else if Meaning(db, l) == Some([]) {
      EmptyLeftSame(db, p);
    } else if TypesAlike(ls, l.schema, rs, r.schema) {
      JoinsAreKeyJoins(db, p);
      UnfaithfulDiffers(db, p);
    } else {
      var k :| 0 <= k < |ls| && (ls[k] < |l.schema| ==> l.schema[ls[k]] != r.schema[rs[k]]);
      MismatchPanics(db, p, k);
    }
  }

  lemma UnfaithfulDiffers(db: Db, p: Plan)
    requires DbOk(db) && Typed(db, p) && NoScanFilters(p) && IndexFor(db, p).Some? && !PairsAlike(db, p)
    requires OnAlike(p.node.on.value, p.node.left.schema, p.node.right.schema)
    ensures p.node.left.node.table < |db.tables| && p.node.right.node.table < |db.tables|
    ensures var (ls, rs) := ExtractKeys(p.node.on.value).value;
      var lefts := LiveRows(db.tables[p.node.left.node.table].heap);
      var rights := LiveRows(db.tables[p.node.right.node.table].heap);
      KeyJoin(true, p.schema, p.node.joinType, lefts, ls, rights, rs) != KeyJoin(false, p.schema, p.node.joinType, lefts, ls, rights, rs)
  {
    var (ls, rs) := ExtractKeys(p.node.on.value).value;
    IndexJoinParts(db, p);
    KeyColumns(db, p);
    var l, r := db.tables[p.node.left.node.table], db.tables[p.node.right.node.table];
    LiveWide(l.heap, l.types);
    LiveWide(r.heap, r.types);
    var lefts, rights := LiveRows(l.heap), LiveRows(r.heap);
    var i, j :| 0 <= i < |lefts| && 0 <= j < |rights| && !Faithful(lefts[i], ls, rights[j], rs);
    KeyJoinDiffers(p.schema, p.node.joinType, lefts, ls, rights, rs, i, j);
  }

  /** Columns without NaN and without the negative zero, such as all columns that
      are not Decimal, can be told by bits. */
  lemma PlainColumnsFaithful(lefts: seq<Row>, ls: seq<nat>, rights: seq<Row>, rs: seq<nat>)
    requires |ls| == |rs|
    requires forall i {:trigger lefts[i]} :: 0 <= i < |lefts| && InRange(ls, lefts[i]) ==> PlainKey(Pick(ls, lefts[i]))
    requires forall j {:trigger rights[j]} :: 0 <= j < |rights| && InRange(rs, rights[j]) ==> PlainKey(Pick(rs, rights[j]))
    ensures AllFaithful(lefts, ls, rights, rs)
  {
    forall i, j | 0 <= i < |lefts| && 0 <= j < |rights|
      ensures Faithful(lefts[i], ls, rights[j], rs)
    {
      if InRange(ls, lefts[i]) && InRange(rs, rights[j]) {
        PlainKeysEqual(Pick(ls, lefts[i]), Pick(rs, rights[j]));
      }
    }
  }
}
