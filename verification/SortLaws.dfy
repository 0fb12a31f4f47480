/** What ORDER BY promises, said of the rows that come out: a permutation in the
    order of the key columns, nulls where they are asked for, ties as they came. */
module SortLaws {
  import opened Common
  import opened Values
  import opened Expressions
  import opened SortOrder
  import opened Plans
  import opened ExpressionLaws

  /** What an ORDER BY column says of a row. */
  function Key(fp: FloatOps, o: OrderBy, row: Row): Value {
    var r := Evaluate(fp, o.expression, [row]);
    if r.Ok? then r.value else Null(o.expression.returnType)
  }

  /** Nulls go to the end they are asked to, values by their order. */
  ghost predicate Precedes(fp: FloatOps, a: Value, b: Value, o: OrderBy) {
    if a.Null? && b.Null? then false
    else if a.Null? then o.nullsFirst
    else if b.Null? then !o.nullsFirst
    else if o.ascending then Below(fp, a, b)
    else Below(fp, b, a)
  }

  ghost predicate Tie(fp: FloatOps, a: Value, b: Value) {
    (a.Null? <==> b.Null?) && !Below(fp, a, b) && !Below(fp, b, a)
  }

  /** The first columns say nothing about which of the rows goes first. */
  ghost predicate TieUpTo(fp: FloatOps, os: seq<OrderBy>, n: nat, a: Row, b: Row)
    requires n <= |os|
  {
    forall k :: 0 <= k < n ==> Tie(fp, Key(fp, os[k], a), Key(fp, os[k], b))
  }

  /** The rows that tie with `row` in all columns, in order. */
  ghost function Ties(fp: FloatOps, os: seq<OrderBy>, rows: seq<Row>, row: Row): seq<Row> {
    if rows == [] then []
    else
      var n := |rows| - 1;
      Ties(fp, os, rows[..n], row) + if TieUpTo(fp, os, |os|, rows[n], row) then [rows[n]] else []
  }

  // ---- the comparator and the order of values ---------------------------------------------

  lemma ColumnPrecedes(fp: FloatOps, a: Value, b: Value, t: SqlType, o: OrderBy)
    requires Comparable(a, t) && Comparable(b, t)
    ensures CompareColumn(fp, a, b, o).Less? <==> Precedes(fp, a, b, o)
    ensures CompareColumn(fp, a, b, o).Greater? <==> Precedes(fp, b, a, o)
    ensures CompareColumn(fp, a, b, o).Equal? <==> Tie(fp, a, b)
  {
    hide CompareValues, Below;
    OneWay(fp, a, b);
    if !a.Null? && !b.Null? {
      ValuesFollowOrder(fp, a, Eq, b);
      ValuesFollowOrder(fp, a, LessThan, b);
      NoNanAmong(fp, a, b, t);
    } else {
      NullNotBelow(fp, a, b);
    }
  }

  lemma NoNanAmong(fp: FloatOps, a: Value, b: Value, t: SqlType)
    requires Comparable(a, t) && Comparable(b, t)
    ensures !NanAmong(fp, a, b)
  {
  }

  lemma NullNotBelow(fp: FloatOps, a: Value, b: Value)
    requires a.Null? || b.Null?
    ensures !Below(fp, a, b) && !Below(fp, b, a)
  {
  }

  lemma {:induction false} FirstColumnDecides(fp: FloatOps, a: Row, b: Row, types: seq<SqlType>, os: seq<OrderBy>, c: nat)
    requires KeyFits(a, types) && KeyFits(b, types) && |os| == |types| && c < |os|
    requires forall k :: 0 <= k < c ==> Tie(fp, a[k], b[k])
    requires !CompareKeys(fp, a, b, os).Greater?
    ensures !Precedes(fp, b[c], a[c], os[c])
  {
    hide CompareColumn, Precedes, Tie, Comparable;
    ColumnPrecedes(fp, a[0], b[0], types[0], os[0]);
    if c > 0 {
      assert Tie(fp, a[0], b[0]);
      forall k | 0 <= k < c - 1
        ensures Tie(fp, a[1..][k], b[1..][k])
      {
        assert Tie(fp, a[k + 1], b[k + 1]);
      }
      FirstColumnDecides(fp, a[1..], b[1..], types[1..], os[1..], c - 1);
    }
  }

  lemma {:induction false} EqualIsTie(fp: FloatOps, a: Row, b: Row, types: seq<SqlType>, os: seq<OrderBy>)
    requires KeyFits(a, types) && KeyFits(b, types) && |os| == |types|
    ensures CompareKeys(fp, a, b, os).Equal? <==> forall k :: 0 <= k < |os| ==> Tie(fp, a[k], b[k])
  {
    hide CompareColumn, Precedes, Tie, Comparable;
    if os != [] {
      ColumnPrecedes(fp, a[0], b[0], types[0], os[0]);
      EqualIsTie(fp, a[1..], b[1..], types[1..], os[1..]);
      if forall k :: 0 <= k < |os| - 1 ==> Tie(fp, a[1..][k], b[1..][k]) {
        forall k | 1 <= k < |os|
          ensures Tie(fp, a[k], b[k])
        {
          assert Tie(fp, a[1..][k - 1], b[1..][k - 1]);
        }
      }
      if forall k :: 0 <= k < |os| ==> Tie(fp, a[k], b[k]) {
        forall k | 0 <= k < |os| - 1
          ensures Tie(fp, a[1..][k], b[1..][k])
        {
          assert Tie(fp, a[k + 1], b[k + 1]);
        }
      }
    }
  }

  // ---- the rows that come out --------------------------------------------------------------

  /** An entry carries the key of its row. */
  ghost predicate Keyed(fp: FloatOps, os: seq<OrderBy>, e: SortEntry) {
    |e.key| == |os| && forall c :: 0 <= c < |os| ==> e.key[c] == Key(fp, os[c], e.row)
  }

  ghost predicate AllKeyed(fp: FloatOps, os: seq<OrderBy>, s: seq<SortEntry>) {
    forall i {:trigger s[i]} :: 0 <= i < |s| ==> Keyed(fp, os, s[i])
  }

  lemma KeysAreKeyed(fp: FloatOps, os: seq<OrderBy>, rows: seq<Row>)
    requires Evaluates(fp, OrderExprs(os), rows)
    ensures AllKeyed(fp, os, WithKeys(fp, os, rows))
  {
    var s := WithKeys(fp, os, rows);
    forall i | 0 <= i < |s|
      ensures Keyed(fp, os, s[i])
    {
      assert EvaluateAll(fp, OrderExprs(os), [rows[i]]).Ok?;
    }
  }

  /** The entries behind a sorted plan's rows. */
  lemma SortedEntries(db: Db, p: Plan) returns (c: Comparator, before: seq<SortEntry>)
    requires p.node.Sort? && Meaning(db, p).Some?
    ensures c == Comparator(db.fp, SortTypes(p.node.orderBys), p.node.orderBys) && c.FitAll(before)
    ensures Meaning(db, p.node.child).Some? && WithoutKeys(before) == Meaning(db, p.node.child).value
    ensures AllKeyed(db.fp, p.node.orderBys, before)
    ensures Meaning(db, p).value == WithoutKeys(c.StableSort(before))
  {
    hide Comparator.StableSort;
    var os, rows := p.node.orderBys, Meaning(db, p.node.child).value;
    c, before := Comparator(db.fp, SortTypes(os), os), WithKeys(db.fp, os, rows);
    KeysAreKeyed(db.fp, os, rows);
    assert Meaning(db, p) == Some(SortRows(db.fp, os, rows));
    forall i | 0 <= i < |before|
      ensures c.Fits(before[i])
    {
      assert rows[i] == before[i].row;
    }
  }

  lemma SortedKeyed(c: Comparator, s: seq<SortEntry>)
    requires c.Ok() && c.FitAll(s) && AllKeyed(c.fp, c.orderBys, s)
    ensures AllKeyed(c.fp, c.orderBys, c.StableSort(s))
  {
    hide Keyed;
    var r := c.StableSort(s);
    forall i | 0 <= i < |r|
      ensures Keyed(c.fp, c.orderBys, r[i])
    {
      assert r[i] in multiset(r);
      assert r[i] in s;
    }
  }

  /** A column decides between two rows wherever the columns before it do not. */
  lemma ColumnsInOrder(db: Db, p: Plan, i: nat, j: nat, c: nat)
    requires p.node.Sort? && Meaning(db, p).Some?
    requires i < j < |Meaning(db, p).value| && c < |p.node.orderBys|
    requires TieUpTo(db.fp, p.node.orderBys, c, Meaning(db, p).value[i], Meaning(db, p).value[j])
    ensures var rows, o := Meaning(db, p).value, p.node.orderBys[c];
      !Precedes(db.fp, Key(db.fp, o, rows[j]), Key(db.fp, o, rows[i]), o)
  {
    var cmp, before := SortedEntries(db, p);
    hide Meaning, Tie, Precedes, Comparator.StableSort;
    StableSortSorted(cmp, before);
    SortedKeyed(cmp, before);
    var s := cmp.StableSort(before);
    assert cmp.Le(s[i], s[j]);
    assert Keyed(db.fp, p.node.orderBys, s[i]) && Keyed(db.fp, p.node.orderBys, s[j]);
    FirstColumnDecides(db.fp, s[i].key, s[j].key, cmp.types, cmp.orderBys, c);
  }

  /** Among rows that tie in the columns before, those with a null in this column
      stand before those without exactly if nulls come first. */
  lemma NullsStandTogether(db: Db, p: Plan, i: nat, j: nat, c: nat)
    requires p.node.Sort? && Meaning(db, p).Some?
    requires i < |Meaning(db, p).value| && j < |Meaning(db, p).value| && c < |p.node.orderBys|
    requires TieUpTo(db.fp, p.node.orderBys, c, Meaning(db, p).value[i], Meaning(db, p).value[j])
    requires var o := p.node.orderBys[c];
      Key(db.fp, o, Meaning(db, p).value[i]).Null? && !Key(db.fp, o, Meaning(db, p).value[j]).Null?
    ensures i < j <==> p.node.orderBys[c].nullsFirst
  {
    hide Meaning, Key, Below;
    var os, rows := p.node.orderBys, Meaning(db, p).value;
    if i < j {
      ColumnsInOrder(db, p, i, j, c);
    } else {
      assert TieUpTo(db.fp, os, c, rows[j], rows[i]) by {
        forall k | 0 <= k < c
          ensures Tie(db.fp, Key(db.fp, os[k], rows[j]), Key(db.fp, os[k], rows[i]))
        {
          assert Tie(db.fp, Key(db.fp, os[k], rows[i]), Key(db.fp, os[k], rows[j]));
        }
      }
      ColumnsInOrder(db, p, j, i, c);
    }
  }

  // ---- ties and permutation ---------------------------------------------------------------

  lemma {:induction false} ClassIsTies(c: Comparator, s: seq<SortEntry>, k: SortEntry)
    requires c.Ok() && c.FitAll(s) && c.Fits(k) && AllKeyed(c.fp, c.orderBys, s) && Keyed(c.fp, c.orderBys, k)
    ensures WithoutKeys(c.Class(s, k)) == Ties(c.fp, c.orderBys, WithoutKeys(s), k.row)
  {
    if s != [] {
      var n := |s| - 1;
      ClassIsTies(c, s[..n], k);
      assert WithoutKeys(s)[..n] == WithoutKeys(s[..n]);
      KeyedTie(c, s[n], k);
      assert c.Class(s, k) == c.Class(s[..n], k) + if c.Compare(s[n], k).Equal? then [s[n]] else [];
    }
  }

  lemma KeyedTie(c: Comparator, a: SortEntry, b: SortEntry)
    requires c.Ok() && c.Fits(a) && c.Fits(b) && Keyed(c.fp, c.orderBys, a) && Keyed(c.fp, c.orderBys, b)
    ensures c.Compare(a, b).Equal? <==> TieUpTo(c.fp, c.orderBys, |c.orderBys|, a.row, b.row)
  {
    hide Tie, Key;
    EqualIsTie(c.fp, a.key, b.key, c.types, c.orderBys);
    if c.Compare(a, b).Equal? {
      forall k | 0 <= k < |c.orderBys|
        ensures Tie(c.fp, Key(c.fp, c.orderBys[k], a.row), Key(c.fp, c.orderBys[k], b.row))
      {
        assert Tie(c.fp, a.key[k], b.key[k]);
      }
    } else if TieUpTo(c.fp, c.orderBys, |c.orderBys|, a.row, b.row) {
      forall k | 0 <= k < |c.orderBys|
        ensures Tie(c.fp, a.key[k], b.key[k])
      {
        assert Tie(c.fp, Key(c.fp, c.orderBys[k], a.row), Key(c.fp, c.orderBys[k], b.row));
      }
    }
  }

  /** Rows that tie in all columns keep the order the child gave them in. */
  lemma TiesKeepOrder(db: Db, p: Plan, i: nat)
    requires p.node.Sort? && Meaning(db, p).Some? && Meaning(db, p.node.child).Some? && i < |Meaning(db, p.node.child).value|
    ensures var before, after := Meaning(db, p.node.child).value, Meaning(db, p).value;
      Ties(db.fp, p.node.orderBys, after, before[i]) == Ties(db.fp, p.node.orderBys, before, before[i])
  {
    var c, before := SortedEntries(db, p);
    hide Meaning, Ties, Comparator.StableSort, Comparator.Class;
    SortedKeyed(c, before);
    StableSortStable(c, before, before[i]);
    ClassIsTies(c, before, before[i]);
    ClassIsTies(c, c.StableSort(before), before[i]);
  }

  lemma {:induction false} InsertedRow(c: Comparator, s: seq<SortEntry>, e: SortEntry)
    requires c.Ok() && c.FitAll(s) && c.Fits(e)
    ensures multiset(WithoutKeys(c.InsertLast(s, e))) == multiset(WithoutKeys(s)) + multiset{e.row}
  {
    hide KeyFits, CompareKeys;
    var n := |s| - 1;
    if s == [] {
    } else if c.Le(s[n], e) {
      assert WithoutKeys(s + [e]) == WithoutKeys(s) + [e.row];
    } else {
      InsertedRow(c, s[..n], e);
      assert WithoutKeys(s) == WithoutKeys(s[..n]) + [s[n].row];
      assert WithoutKeys(c.InsertLast(s, e)) == WithoutKeys(c.InsertLast(s[..n], e)) + [s[n].row];
    }
  }

  lemma {:induction false} SortedSameRows(c: Comparator, s: seq<SortEntry>)
    requires c.Ok() && c.FitAll(s)
    ensures multiset(WithoutKeys(c.StableSort(s))) == multiset(WithoutKeys(s))
  {
    hide Comparator.InsertLast, KeyFits, CompareKeys;
    if s != [] {
      var n := |s| - 1;
      SortedSameRows(c, s[..n]);
      InsertedRow(c, c.StableSort(s[..n]), s[n]);
      assert WithoutKeys(s) == WithoutKeys(s[..n]) + [s[n].row];
    }
  }

  /** No row is lost or made up. */
  lemma SortPermutes(db: Db, p: Plan)
    requires p.node.Sort? && Meaning(db, p).Some?
    ensures Meaning(db, p.node.child).Some? && multiset(Meaning(db, p).value) == multiset(Meaning(db, p.node.child).value)
  {
    var c, before := SortedEntries(db, p);
    SortedSameRows(c, before);
  }
}
