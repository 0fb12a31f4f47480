/** What the rows of a join are, said of `Meaning` alone: which pairs come out, in
    which order, and what becomes of a left row without a partner. */
module JoinLaws {
  import opened Common
  import opened Values
  import opened Expressions
  import opened Plans
  import opened IndexLookup
  import opened KeyEncoder
  import opened Optimizer
  import opened PlanLaws
  import OptimizerProofs

  // ---- joins -------------------------------------------------------------------------------------

  function Flat(parts: seq<seq<Row>>): seq<Row> {
    if parts == [] then [] else parts[0] + Flat(parts[1..])
  }

  /** The left row, and nulls of the types of the columns that are left. */
  predicate LeftAlone(row: Row, left: Row, schema: seq<SqlType>) {
    && |row| == (if |left| <= |schema| then |schema| else |left|) && left <= row
    && forall k :: |left| <= k < |row| ==> row[k] == Null(schema[k])
  }

  function Beside(left: Row, rights: seq<Row>): (rows: seq<Row>)
    ensures |rows| == |rights| && forall j :: 0 <= j < |rights| ==> rows[j] == left + rights[j]
  {
    seq(|rights|, j requires 0 <= j < |rights| => left + rights[j])
  }

  /** What one left row gives, with the right rows it joins with. */
  predicate IsPart(part: seq<Row>, t: JoinType, schema: seq<SqlType>, left: Row, rights: seq<Row>, js: seq<nat>) {
    if t.Left? && js == [] then |part| == 1 && LeftAlone(part[0], left, schema)
    else Taken(part, Beside(left, rights), js)
  }

  /** The rows are what one left row after the other gives. */
  ghost predicate IsJoin(out: seq<Row>, t: JoinType, schema: seq<SqlType>, lefts: seq<Row>, rights: seq<Row>,
                         flags: seq<seq<bool>>, parts: seq<seq<Row>>, picks: seq<seq<nat>>) {
    && |parts| == |picks| == |flags| == |lefts| && out == Flat(parts)
    && forall i {:trigger parts[i]} :: 0 <= i < |lefts| ==>
         Picks(picks[i], flags[i]) && IsPart(parts[i], t, schema, lefts[i], rights, picks[i])
  }

  lemma JoinFirst(out: seq<Row>, t: JoinType, schema: seq<SqlType>, lefts: seq<Row>, rights: seq<Row>,
                  flags: seq<seq<bool>>, parts: seq<seq<Row>>, picks: seq<seq<nat>>, part: seq<Row>, js: seq<nat>)
    requires lefts != [] && |flags| == |lefts|
    requires IsJoin(out, t, schema, lefts[1..], rights, flags[1..], parts, picks)
    requires Picks(js, flags[0]) && IsPart(part, t, schema, lefts[0], rights, js)
    ensures IsJoin(part + out, t, schema, lefts, rights, flags, [part] + parts, [js] + picks)
  {
    hide Picks, IsPart;
    var parts', picks' := [part] + parts, [js] + picks;
    assert parts'[1..] == parts;
    forall i | 0 <= i < |lefts|
      ensures Picks(picks'[i], flags[i]) && IsPart(parts'[i], t, schema, lefts[i], rights, picks'[i])
    {
      if i > 0 {
        assert parts[i - 1] == parts'[i] && picks[i - 1] == picks'[i];
        assert flags[1..][i - 1] == flags[i] && lefts[1..][i - 1] == lefts[i];
      }
    }
  }

  /** The right rows the condition is true of, next to a left row; a cross join has none. */
  function Matching(fp: FloatOps, t: JoinType, on: Option<Expr>, left: Row, rights: seq<Row>): (flags: seq<bool>)
    ensures |flags| == |rights|
    ensures forall j :: 0 <= j < |rights| ==> flags[j] == (t.Cross? || Kept(fp, on, [left, rights[j]]))
  {
    seq(|rights|, j requires 0 <= j < |rights| => t.Cross? || Kept(fp, on, [left, rights[j]]))
  }

  function AllMatching(fp: FloatOps, t: JoinType, on: Option<Expr>, lefts: seq<Row>, rights: seq<Row>): (flags: seq<seq<bool>>)
    ensures |flags| == |lefts| && forall i :: 0 <= i < |lefts| ==> flags[i] == Matching(fp, t, on, lefts[i], rights)
  {
    seq(|lefts|, i requires 0 <= i < |lefts| => Matching(fp, t, on, lefts[i], rights))
  }

  lemma {:induction false} MatchPicks(fp: FloatOps, t: JoinType, on: Option<Expr>, left: Row, rights: seq<Row>) returns (js: seq<nat>)
    ensures Picks(js, Matching(fp, t, on, left, rights))
    ensures Taken(MatchRows(fp, Condition(t, on), left, rights), Beside(left, rights), js)
  {
    hide Kept, Picks, Shifted, Taken, Keeps, Condition;
    if rights == [] {
      assert Matching(fp, t, on, left, rights) == [] && Beside(left, rights) == [];
      js := [];
      NonePicked();
    } else {
      var flag := t.Cross? || Kept(fp, on, [left, rights[0]]);
      var rest := MatchPicks(fp, t, on, left, rights[1..]);
      js := Shifted(flag, rest);
      PickStep(flag, left + rights[0], MatchRows(fp, Condition(t, on), left, rights[1..]), Beside(left, rights[1..]), rest,
               Matching(fp, t, on, left, rights[1..]));
      MatchUnfolds(fp, t, on, left, rights);
      MatchingUnfolds(fp, t, on, left, rights);
    }
  }

  lemma MatchUnfolds(fp: FloatOps, t: JoinType, on: Option<Expr>, left: Row, rights: seq<Row>)
    requires rights != []
    ensures MatchRows(fp, Condition(t, on), left, rights)
      == (if t.Cross? || Kept(fp, on, [left, rights[0]]) then [left + rights[0]] else [])
        + MatchRows(fp, Condition(t, on), left, rights[1..])
  {
    hide Kept;
    KeptIsKeeps(fp, on, [left, rights[0]]);
  }

  lemma MatchingUnfolds(fp: FloatOps, t: JoinType, on: Option<Expr>, left: Row, rights: seq<Row>)
    requires rights != []
    ensures Matching(fp, t, on, left, rights) == [t.Cross? || Kept(fp, on, [left, rights[0]])] + Matching(fp, t, on, left, rights[1..])
    ensures Beside(left, rights) == [left + rights[0]] + Beside(left, rights[1..])
  {
    hide Kept;
    var a, b := Matching(fp, t, on, left, rights), [t.Cross? || Kept(fp, on, [left, rights[0]])] + Matching(fp, t, on, left, rights[1..]);
    forall j | 0 <= j < |rights|
      ensures a[j] == b[j]
    {
      assert j > 0 ==> rights[1..][j - 1] == rights[j];
    }
  }

  lemma PaddedIsPart(t: JoinType, schema: seq<SqlType>, left: Row, rights: seq<Row>, matches: seq<Row>, js: seq<nat>)
    requires Taken(matches, Beside(left, rights), js)
    ensures IsPart(Padded(schema, t, left, matches), t, schema, left, rights, js)
  {
  }

  lemma {:induction false} LoopParts(fp: FloatOps, schema: seq<SqlType>, t: JoinType, on: Option<Expr>, lefts: seq<Row>, rights: seq<Row>)
      returns (parts: seq<seq<Row>>, picks: seq<seq<nat>>)
    ensures IsJoin(JoinRows(fp, schema, t, Condition(t, on), lefts, rights), t, schema, lefts, rights,
                   AllMatching(fp, t, on, lefts, rights), parts, picks)
  {
    hide Picks, IsPart, Padded, Matching, Condition;
    if lefts == [] {
      parts, picks := [], [];
    } else {
      parts, picks := LoopParts(fp, schema, t, on, lefts[1..], rights);
      var js := MatchPicks(fp, t, on, lefts[0], rights);
      var matches := MatchRows(fp, Condition(t, on), lefts[0], rights);
      PaddedIsPart(t, schema, lefts[0], rights, matches, js);
      var flags := AllMatching(fp, t, on, lefts, rights);
      assert flags[1..] == AllMatching(fp, t, on, lefts[1..], rights);
      var part := Padded(schema, t, lefts[0], matches);
      JoinFirst(JoinRows(fp, schema, t, Condition(t, on), lefts[1..], rights), t, schema, lefts, rights, flags, parts, picks, part, js);
      parts, picks := [part] + parts, [js] + picks;
    }
  }

  /** A nested-loop join: for every left row in order, the right rows its
      condition is true of in order; in a left join, a left row without any comes
      once, with nulls. */
  lemma LoopJoinGives(db: Db, p: Plan) returns (parts: seq<seq<Row>>, picks: seq<seq<nat>>)
    requires p.node.NestedLoopJoin? && Meaning(db, p).Some?
    ensures Meaning(db, p.node.left).Some? && Meaning(db, p.node.right).Some?
    ensures var lefts, rights := Meaning(db, p.node.left).value, Meaning(db, p.node.right).value;
      IsJoin(Meaning(db, p).value, p.node.joinType, p.schema, lefts, rights,
             AllMatching(db.fp, p.node.joinType, p.node.on, lefts, rights), parts, picks)
  {
    hide IsJoin;
    parts, picks := LoopParts(db.fp, p.schema, p.node.joinType, p.node.on, Meaning(db, p.node.left).value, Meaning(db, p.node.right).value);
  }

  // ---- index joins ---------------------------------------------------------------------------------

  /** The live rows whose key columns are what the expressions give for a row. */
  function Keyed(fp: FloatOps, es: seq<Expr>, attrs: seq<nat>, outer: Row, rights: seq<Row>): (flags: seq<bool>)
    ensures |flags| == |rights|
    ensures forall j :: 0 <= j < |rights| ==> flags[j] == HasKey(fp, es, attrs, outer, rights[j])
  {
    seq(|rights|, j requires 0 <= j < |rights| => HasKey(fp, es, attrs, outer, rights[j]))
  }

  predicate HasKey(fp: FloatOps, es: seq<Expr>, attrs: seq<nat>, outer: Row, right: Row) {
    |attrs| == |es| && forall k :: 0 <= k < |es| ==>
      attrs[k] < |right| && !right[attrs[k]].Null? && Evaluate(fp, es[k], [outer]) == Ok(right[attrs[k]])
  }

  function AllKeyed(fp: FloatOps, es: seq<Expr>, attrs: seq<nat>, outers: seq<Row>, rights: seq<Row>): (flags: seq<seq<bool>>)
    ensures |flags| == |outers| && forall i :: 0 <= i < |outers| ==> flags[i] == Keyed(fp, es, attrs, outers[i], rights)
  {
    seq(|outers|, i requires 0 <= i < |outers| => Keyed(fp, es, attrs, outers[i], rights))
  }

  lemma {:induction false} WherePicks(rows: seq<Row>, attrs: seq<nat>, key: Row, flags: seq<bool>) returns (js: seq<nat>)
    requires |flags| == |rows|
    requires forall j :: 0 <= j < |rows| ==> flags[j] == (InRange(attrs, rows[j]) && Pick(attrs, rows[j]) == key)
    ensures Picks(js, flags) && Taken(WhereKey(rows, attrs, key), rows, js)
  {
    hide Picks, Shifted, Taken, InRange, Pick;
    if rows == [] {
      js := [];
      NonePicked();
    } else {
      var rest := WherePicks(rows[1..], attrs, key, flags[1..]);
      js := Shifted(flags[0], rest);
      PickStep(flags[0], rows[0], WhereKey(rows[1..], attrs, key), rows[1..], rest, flags[1..]);
      assert flags == [flags[0]] + flags[1..] && rows == [rows[0]] + rows[1..];
    }
  }

  lemma PairTaken(left: Row, out: seq<Row>, rights: seq<Row>, js: seq<nat>)
    requires Taken(out, rights, js)
    ensures Taken(Pair(left, out), Beside(left, rights), js)
  {
  }

  lemma {:induction false} LiveAreHeap(heap: seq<HeapRow>, types: seq<SqlType>)
    requires forall i {:trigger heap[i]} :: 0 <= i < |heap| ==> RowMatches(heap[i].values, types)
    ensures forall i {:trigger LiveRows(heap)[i]} :: 0 <= i < |LiveRows(heap)| ==> RowMatches(LiveRows(heap)[i], types)
  {
    hide RowMatches;
    if heap != [] {
      LiveAreHeap(heap[1..], types);
    }
  }

  /** A row has the key exactly if its key columns are the key, and no null is. */
  lemma KeyIsPicked(fp: FloatOps, es: seq<Expr>, attrs: seq<nat>, outer: Row, key: Row, right: Row)
    requires EvaluateAll(fp, es, [outer]) == Ok(key) && |attrs| == |es|
    ensures HasKey(fp, es, attrs, outer, right) <==> NoNulls(key) && InRange(attrs, right) && Pick(attrs, right) == key
  {
    forall k | 0 <= k < |es|
      ensures Evaluate(fp, es[k], [outer]) == Ok(key[k])
    {
    }
    if HasKey(fp, es, attrs, outer, right) {
      assert forall k :: 0 <= k < |es| ==> key[k] == right[attrs[k]];
    }
    if NoNulls(key) && InRange(attrs, right) && Pick(attrs, right) == key {
      assert forall k :: 0 <= k < |es| ==> right[attrs[k]] == Pick(attrs, right)[k];
    }
  }

  lemma KeyOneTyped(table: Table, index: Index, key: Row, keyTypes: seq<SqlType>)
    requires TableOk(table) && index in table.indexes
    requires KeyTypesOf(table.types, index.keyAttrs) == Some(keyTypes) && RowMatches(key, keyTypes)
    ensures HeapOrdered(table.heap) && IndexAgrees(table.heap, index) && OneTyped(table.heap, index.keyAttrs, key)
    ensures forall i {:trigger table.heap[i]} :: 0 <= i < |table.heap| ==> RowMatches(table.heap[i].values, table.types)
  {
    hide HeapOrdered, IndexAgrees;
    var attrs := index.keyAttrs;
    forall i | 0 <= i < |table.heap| && !table.heap[i].deleted
      ensures InRange(attrs, table.heap[i].values) && SameTypes(Pick(attrs, table.heap[i].values), key)
    {
      assert RowMatches(table.heap[i].values, table.types);
    }
  }

  /** What an index lookup finds for an outer row: the live rows with its key. */
  lemma LookupPicks(fp: FloatOps, table: Table, index: Index, es: seq<Expr>, keyTypes: seq<SqlType>, childSchema: seq<SqlType>, outer: Row)
      returns (js: seq<nat>)
    requires TableOk(table) && index in table.indexes && KeyTypesOf(table.types, index.keyAttrs) == Some(keyTypes)
    requires var key := OuterKey(fp, es, keyTypes, childSchema, outer); key.Some? && (NoNulls(key.value) ==> KeyOk(key.value))
    ensures var key, rights := OuterKey(fp, es, keyTypes, childSchema, outer).value, LiveRows(table.heap);
      && Picks(js, Keyed(fp, es, index.keyAttrs, outer, rights))
      && Taken(IndexMatches(table, index, outer, key), Beside(outer, rights), js)
  {
    hide Picks, Taken, TableOk, IndexAgrees, HeapOrdered, OneTyped, HasKey, ScanKey, FetchRows, LiveRows, NoNulls, KeyOk, RowMatches;
    var key, rights, attrs := OuterKey(fp, es, keyTypes, childSchema, outer).value, LiveRows(table.heap), index.keyAttrs;
    LengthMatches(key, keyTypes);
    KeyOneTyped(table, index, key, keyTypes);
    var flags := Keyed(fp, es, attrs, outer, rights);
    forall j | 0 <= j < |rights|
      ensures flags[j] == (NoNulls(key) && InRange(attrs, rights[j]) && Pick(attrs, rights[j]) == key)
    {
      KeyIsPicked(fp, es, attrs, outer, key, rights[j]);
    }
    if NoNulls(key) {
      LookupIsFilteredScan(table.heap, index, key);
      js := WherePicks(rights, attrs, key, flags);
      PairTaken(outer, WhereKey(rights, attrs, key), rights, js);
    } else {
      js := [];
      NothingFound(table.heap, flags, Beside(outer, rights));
    }
  }

  lemma LengthMatches(key: Row, keyTypes: seq<SqlType>)
    requires RowMatches(key, keyTypes)
    ensures |key| == |keyTypes|
  {
  }

  lemma NothingFound(heap: seq<HeapRow>, flags: seq<bool>, rows: seq<Row>)
    requires forall j :: 0 <= j < |flags| ==> !flags[j]
    ensures FetchRows(heap, []) == [] && Picks([], flags) && Taken([], rows, [])
  {
  }

  lemma {:induction false} ProbeParts(fp: FloatOps, schema: seq<SqlType>, t: JoinType, table: Table, index: Index, es: seq<Expr>,
                                      keyTypes: seq<SqlType>, childSchema: seq<SqlType>, outers: seq<Row>)
      returns (parts: seq<seq<Row>>, picks: seq<seq<nat>>)
    requires TableOk(table) && index in table.indexes && KeyTypesOf(table.types, index.keyAttrs) == Some(keyTypes)
    requires KeysBuild(fp, es, keyTypes, childSchema, outers)
    ensures IsJoin(IndexJoinRows(fp, schema, t, table, index, es, keyTypes, childSchema, outers), t, schema, outers, LiveRows(table.heap),
                   AllKeyed(fp, es, index.keyAttrs, outers, LiveRows(table.heap)), parts, picks)
  {
    hide Picks, IsPart, Padded, Keyed, TableOk, LiveRows, IndexMatches, OuterKey, NoNulls, KeyOk;
    if outers == [] {
      parts, picks := [], [];
    } else {
      assert outers[0] == outers[0];
      BuildRest(fp, es, keyTypes, childSchema, outers);
      parts, picks := ProbeParts(fp, schema, t, table, index, es, keyTypes, childSchema, outers[1..]);
      var rights := LiveRows(table.heap);
      var js := LookupPicks(fp, table, index, es, keyTypes, childSchema, outers[0]);
      var matches := IndexMatches(table, index, outers[0], OuterKey(fp, es, keyTypes, childSchema, outers[0]).value);
      PaddedIsPart(t, schema, outers[0], rights, matches, js);
      var flags := AllKeyed(fp, es, index.keyAttrs, outers, rights);
      assert flags[1..] == AllKeyed(fp, es, index.keyAttrs, outers[1..], rights);
      var part := Padded(schema, t, outers[0], matches);
      JoinFirst(IndexJoinRows(fp, schema, t, table, index, es, keyTypes, childSchema, outers[1..]), t, schema, outers, rights,
                flags, parts, picks, part, js);
      parts, picks := [part] + parts, [js] + picks;
    }
  }

  lemma BuildRest(fp: FloatOps, es: seq<Expr>, keyTypes: seq<SqlType>, childSchema: seq<SqlType>, outers: seq<Row>)
    requires outers != [] && KeysBuild(fp, es, keyTypes, childSchema, outers)
    ensures var key := OuterKey(fp, es, keyTypes, childSchema, outers[0]); key.Some? && (NoNulls(key.value) ==> KeyOk(key.value))
    ensures KeysBuild(fp, es, keyTypes, childSchema, outers[1..])
  {
    hide OuterKey, NoNulls, KeyOk;
    forall i | 0 <= i < |outers| - 1
      ensures var key := OuterKey(fp, es, keyTypes, childSchema, outers[1..][i]); key.Some? && (NoNulls(key.value) ==> KeyOk(key.value))
    {
      assert outers[1..][i] == outers[i + 1];
    }
  }

  lemma {:induction false} FoundIndex(indexes: seq<Index>, oid: nat)
    ensures FindIndex(indexes, oid).Some? ==> FindIndex(indexes, oid).value in indexes && FindIndex(indexes, oid).value.oid == oid
  {
    if indexes != [] && indexes[0].oid != oid {
      FoundIndex(indexes[1..], oid);
    }
  }

  /** An index join: for every outer row in order, the live rows whose key columns
      are its key in heap order; in a left join, an outer row without any comes
      once, with nulls. */
  lemma IndexJoinGives(db: Db, p: Plan) returns (index: Index, parts: seq<seq<Row>>, picks: seq<seq<nat>>)
    requires p.node.NestedIndexJoin? && Meaning(db, p).Some? && DbOk(db)
    ensures Meaning(db, p.node.child).Some? && p.node.table < |db.tables|
    ensures index in db.tables[p.node.table].indexes && index.oid == p.node.index
    ensures var outers, rights := Meaning(db, p.node.child).value, LiveRows(db.tables[p.node.table].heap);
      IsJoin(Meaning(db, p).value, p.node.joinType, p.schema, outers, rights,
             AllKeyed(db.fp, p.node.indexExprs, index.keyAttrs, outers, rights), parts, picks)
  {
    hide IsJoin, TableOk, KeysBuild;
    var table := db.tables[p.node.table];
    assert TableOk(table);
    FoundIndex(table.indexes, p.node.index);
    index := FindIndex(table.indexes, p.node.index).value;
    parts, picks := ProbeParts(db.fp, p.schema, p.node.joinType, table, index, p.node.indexExprs,
                               KeyTypesOf(table.types, index.keyAttrs).value, p.node.child.schema, Meaning(db, p.node.child).value);
  }

  // ---- left joins ------------------------------------------------------------------------------------

  lemma {:induction false} FlatHas(parts: seq<seq<Row>>, row: Row)
    ensures row in Flat(parts) <==> exists i :: 0 <= i < |parts| && row in parts[i]
  {
    if parts != [] {
      FlatHas(parts[1..], row);
      if row in Flat(parts) && row !in parts[0] {
        var i :| 0 <= i < |parts| - 1 && row in parts[1..][i];
        assert row in parts[i + 1];
      }
      if exists i :: 0 <= i < |parts| && row in parts[i] {
        var i :| 0 <= i < |parts| && row in parts[i];
        assert i > 0 ==> parts[1..][i - 1] == parts[i];
      }
    }
  }

  /** Whatever a left join joins with, every row of the result begins with a left
      row. */
  lemma RowsBeginLeft(out: seq<Row>, t: JoinType, schema: seq<SqlType>, lefts: seq<Row>, rights: seq<Row>,
                      flags: seq<seq<bool>>, parts: seq<seq<Row>>, picks: seq<seq<nat>>, row: Row) returns (i: nat)
    requires IsJoin(out, t, schema, lefts, rights, flags, parts, picks) && row in out
    ensures i < |lefts| && lefts[i] <= row
  {
    hide Picks, LeftAlone, IsPart;
    FlatHas(parts, row);
    i :| 0 <= i < |parts| && row in parts[i];
    PartBegins(parts[i], t, schema, lefts[i], rights, picks[i], row);
  }

  /** Every left row begins a row of a left join; without a partner it comes once,
      with nulls behind it. */
  lemma LeftRowsStay(out: seq<Row>, schema: seq<SqlType>, lefts: seq<Row>, rights: seq<Row>,
                     flags: seq<seq<bool>>, parts: seq<seq<Row>>, picks: seq<seq<nat>>, i: nat) returns (row: Row)
    requires IsJoin(out, Left, schema, lefts, rights, flags, parts, picks) && i < |lefts|
    ensures row in out && lefts[i] <= row
    ensures true !in flags[i] ==> parts[i] == [row] && LeftAlone(row, lefts[i], schema)
  {
    hide Picks, LeftAlone;
    assert IsPart(parts[i], Left, schema, lefts[i], rights, picks[i]);
    row := parts[i][0];
    assert row in parts[i];
    FlatHas(parts, row);
    PartBegins(parts[i], Left, schema, lefts[i], rights, picks[i], row);
    NoFlagNoPick(picks[i], flags[i]);
  }

  lemma NoFlagNoPick(js: seq<nat>, flags: seq<bool>)
    requires Picks(js, flags)
    ensures true !in flags ==> js == []
  {
    assert js != [] ==> flags[js[0]];
  }

  lemma PartBegins(part: seq<Row>, t: JoinType, schema: seq<SqlType>, left: Row, rights: seq<Row>, js: seq<nat>, row: Row)
    requires IsPart(part, t, schema, left, rights, js) && row in part
    ensures left <= row
  {
    var m :| 0 <= m < |part| && part[m] == row;
    if !(t.Left? && js == []) {
      assert row == left + rights[js[m]];
    }
  }

  // ---- which joins have rows ---------------------------------------------------------------------------

  /** A loop join has rows exactly if both sides have and its condition, if it is
      tested, is a truth value of every pair. */
  lemma LoopJoinHasRows(db: Db, p: Plan)
    requires p.node.NestedLoopJoin?
    ensures Meaning(db, p).Some? <==>
      && Meaning(db, p.node.left).Some? && Meaning(db, p.node.right).Some?
      && (p.node.joinType.Cross? || p.node.on.None? ||
        forall i, j :: 0 <= i < |Meaning(db, p.node.left).value| && 0 <= j < |Meaning(db, p.node.right).value| ==>
          IsTruth(db.fp, p.node.on.value, [Meaning(db, p.node.left).value[i], Meaning(db, p.node.right).value[j]]))
  {
    hide IsTruth, Keep;
    if Meaning(db, p.node.left).Some? && Meaning(db, p.node.right).Some? && p.node.on.Some? {
      var lefts, rights := Meaning(db, p.node.left).value, Meaning(db, p.node.right).value;
      forall i, j | 0 <= i < |lefts| && 0 <= j < |rights|
        ensures IsTruth(db.fp, p.node.on.value, [lefts[i], rights[j]]) <==> Keep(db.fp, p.node.on.value, [lefts[i], rights[j]]).Ok?
      {
        TruthIsKeep(db.fp, p.node.on.value, [lefts[i], rights[j]]);
      }
    }
  }

  /** An outer row can be looked up: it fits its schema, and every expression has a
      value of its key column's type. */
  ghost predicate CanProbe(fp: FloatOps, es: seq<Expr>, attrs: seq<nat>, types: seq<SqlType>, schema: seq<SqlType>, outer: Row) {
    && RowMatches(outer, schema) && |es| == |attrs|
    && (forall k {:trigger es[k]} :: 0 <= k < |es| ==>
          attrs[k] < |types| && IsOfType(Evaluate(fp, es[k], [outer]), types[attrs[k]]))
  }

  predicate IsOfType(r: Result<Value>, t: SqlType) {
    r.Ok? && r.value.Ok() && r.value.Type() == t
  }

  /** An index join has rows exactly if the outer side has, the inner table and the
      index are there, and every outer row can be looked up. */
  lemma IndexJoinHasRows(db: Db, p: Plan, index: Index)
    requires p.node.NestedIndexJoin? && DbOk(db)
    requires p.node.table < |db.tables| && index in db.tables[p.node.table].indexes && index.oid == p.node.index
    ensures var types := db.tables[p.node.table].types;
      Meaning(db, p).Some? <==>
        && Meaning(db, p.node.child).Some? && p.node.innerSchema == types
        && forall i :: 0 <= i < |Meaning(db, p.node.child).value| ==>
             CanProbe(db.fp, p.node.indexExprs, index.keyAttrs, types, p.node.child.schema, Meaning(db, p.node.child).value[i])
  {
    hide CanProbe, OuterKey, NoNulls, KeyOk;
    var table := db.tables[p.node.table];
    OnlyIndex(table, index);
    if Meaning(db, p.node.child).Some? {
      var outers, keyTypes := Meaning(db, p.node.child).value, KeyTypesOf(table.types, index.keyAttrs).value;
      forall i | 0 <= i < |outers|
        ensures CanProbe(db.fp, p.node.indexExprs, index.keyAttrs, table.types, p.node.child.schema, outers[i]) <==>
          var key := OuterKey(db.fp, p.node.indexExprs, keyTypes, p.node.child.schema, outers[i]);
          key.Some? && (NoNulls(key.value) ==> KeyOk(key.value))
      {
        CanProbeIff(db.fp, p.node.indexExprs, index.keyAttrs, table.types, keyTypes, p.node.child.schema, outers[i]);
      }
    }
  }

  lemma OnlyIndex(table: Table, index: Index)
    requires TableOk(table) && index in table.indexes
    ensures FindIndex(table.indexes, index.oid) == Some(index) && KeyTypesOf(table.types, index.keyAttrs).Some?
    ensures forall k :: 0 <= k < |index.keyAttrs| ==> index.keyAttrs[k] < |table.types| && Indexable(table.types[index.keyAttrs[k]])
  {
    OptimizerProofs.FindIndexFinds(table.indexes, index);
    var i :| 0 <= i < |table.indexes| && table.indexes[i] == index;
  }

  lemma CanProbeIff(fp: FloatOps, es: seq<Expr>, attrs: seq<nat>, types: seq<SqlType>, keyTypes: seq<SqlType>, schema: seq<SqlType>, outer: Row)
    requires KeyTypesOf(types, attrs) == Some(keyTypes)
    requires forall k :: 0 <= k < |attrs| ==> attrs[k] < |types| && Indexable(types[attrs[k]])
    ensures CanProbe(fp, es, attrs, types, schema, outer) <==>
      var key := OuterKey(fp, es, keyTypes, schema, outer);
      key.Some? && (NoNulls(key.value) ==> KeyOk(key.value))
  {
    AllEvaluateIff(fp, es, outer);
    var key := EvaluateAll(fp, es, [outer]);
    if key.Ok? {
      assert forall k :: 0 <= k < |es| ==> Evaluate(fp, es[k], [outer]) == Ok(key.value[k]);
      if CanProbe(fp, es, attrs, types, schema, outer) {
        forall k | 0 <= k < |es|
          ensures key.value[k].Ok() && key.value[k].Type() == keyTypes[k]
        {
          assert IsOfType(Evaluate(fp, es[k], [outer]), types[attrs[k]]);
        }
      }
    }
  }
}
