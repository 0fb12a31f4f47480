/** The order of ORDER BY keys, and what a stable sort under it is. */
module SortOrder {
  import opened Bytes
  import opened Entries
  import opened Values
  import opened Expressions

  datatype OrderBy = OrderBy(expression: Expr, ascending: bool, nullsFirst: bool)

  predicate IsTrue(r: Result<Value>) {
    r == Ok(Bool(true))
  }

  /** How one column of two keys compares. */
  function CompareColumn(fp: FloatOps, a: Value, b: Value, o: OrderBy): Ordering {
    if a.Null? && b.Null? then Equal
    else if a.Null? then (if o.nullsFirst then Less else Greater)
    else if b.Null? then (if o.nullsFirst then Greater else Less)
    else if IsTrue(CompareValues(fp, a, Eq, b)) then Equal
    else if IsTrue(CompareValues(fp, a, LessThan, b)) == o.ascending then Less
    else Greater
  }

  /** The first column that differs decides. */
  function CompareKeys(fp: FloatOps, a: Row, b: Row, os: seq<OrderBy>): Ordering
    requires |a| == |b| == |os|
  {
    if os == [] then Equal
    else
      var c := CompareColumn(fp, a[0], b[0], os[0]);
      if c.Equal? then CompareKeys(fp, a[1..], b[1..], os[1..]) else c
  }

  predicate Comparable(v: Value, t: SqlType) {
    v.Type() == t && v.Ok() && (v.Float? ==> !IsNan(v.bits))
  }

  /** A key with one value of the right type per column, and no NaN. */
  predicate KeyFits(key: Row, types: seq<SqlType>) {
    |key| == |types| && forall k :: 0 <= k < |key| ==> Comparable(key[k], types[k])
  }

  /** How two values of one type that are not null compare. */
  function ValueOrder(a: Value, b: Value): Ordering
    requires a.Type() == b.Type() && !a.Null? && !b.Null?
  {
    match (a, b)
    case (Bool(x), Bool(y)) => CompareInt(if x then 1 else 0, if y then 1 else 0)
    case (Int(_, x), Int(_, y)) => CompareInt(x, y)
    case (Float(x), Float(y)) => CompareInt(Rank(x), Rank(y))
    case (Text(x), Text(y)) => CompareBytes(x, y)
    case _ => Equal
  }

  function Directed(c: Ordering, ascending: bool): Ordering {
    if ascending || c.Equal? then c else if c.Less? then Greater else Less
  }

  lemma ColumnIsDirected(fp: FloatOps, a: Value, b: Value, t: SqlType, o: OrderBy)
    requires Comparable(a, t) && Comparable(b, t) && !a.Null? && !b.Null?
    ensures CompareColumn(fp, a, b, o) == Directed(ValueOrder(a, b), o.ascending)
  {
  }

  lemma ValuePreorder(a: Value, b: Value, c: Value, t: SqlType)
    requires Comparable(a, t) && Comparable(b, t) && Comparable(c, t) && !a.Null? && !b.Null? && !c.Null?
    ensures ValueOrder(a, b).Less? <==> ValueOrder(b, a).Greater?
    ensures ValueOrder(a, b).Equal? ==> ValueOrder(a, c) == ValueOrder(b, c)
    ensures ValueOrder(a, b).Less? && !ValueOrder(b, c).Greater? ==> ValueOrder(a, c).Less?
  {
    if a.Text? {
      CompareBytesOrder(a.s, b.s);
      CompareBytesOrder(b.s, c.s);
      TextTransitive(a.s, b.s, c.s);
    }
  }

  lemma ColumnPreorder(fp: FloatOps, a: Value, b: Value, c: Value, t: SqlType, o: OrderBy)
    requires Comparable(a, t) && Comparable(b, t) && Comparable(c, t)
    ensures CompareColumn(fp, a, b, o).Less? <==> CompareColumn(fp, b, a, o).Greater?
    ensures CompareColumn(fp, a, b, o).Equal? ==> CompareColumn(fp, a, c, o) == CompareColumn(fp, b, c, o)
    ensures CompareColumn(fp, a, b, o).Less? && !CompareColumn(fp, b, c, o).Greater? ==> CompareColumn(fp, a, c, o).Less?
  {
    if !a.Null? && !b.Null? {
      ColumnIsDirected(fp, a, b, t, o);
      ColumnIsDirected(fp, b, a, t, o);
      ValuePreorder(a, b, b, t);
      ValuePreorder(b, a, a, t);
      if !c.Null? {
        ColumnIsDirected(fp, a, c, t, o);
        ColumnIsDirected(fp, b, c, t, o);
        ValuePreorder(a, b, c, t);
        ValuePreorder(b, c, a, t);
        ValuePreorder(c, b, a, t);
        ValuePreorder(a, c, b, t);
      }
    }
  }

  lemma TextTransitive(a: seq<Byte>, b: seq<Byte>, c: seq<Byte>)
    ensures CompareBytes(a, b).Less? && CompareBytes(b, c).Less? ==> CompareBytes(a, c).Less?
  {
    if CompareBytes(a, b).Less? && CompareBytes(b, c).Less? {
      CompareBytesTransitive(a, b, c);
    }
  }

  /** Keys of the same types compare as a total preorder. */
  lemma {:induction false} KeysPreorder(fp: FloatOps, a: Row, b: Row, c: Row, types: seq<SqlType>, os: seq<OrderBy>)
    requires KeyFits(a, types) && KeyFits(b, types) && KeyFits(c, types) && |os| == |types|
    ensures CompareKeys(fp, a, b, os).Less? <==> CompareKeys(fp, b, a, os).Greater?
    ensures CompareKeys(fp, a, b, os).Equal? ==> CompareKeys(fp, a, c, os) == CompareKeys(fp, b, c, os)
    ensures CompareKeys(fp, a, b, os).Less? && !CompareKeys(fp, b, c, os).Greater? ==> CompareKeys(fp, a, c, os).Less?
  {
    if os != [] {
      ColumnPreorder(fp, a[0], b[0], c[0], types[0], os[0]);
      ColumnPreorder(fp, b[0], c[0], a[0], types[0], os[0]);
      ColumnPreorder(fp, b[0], a[0], c[0], types[0], os[0]);
      KeysPreorder(fp, a[1..], b[1..], c[1..], types[1..], os[1..]);
    }
  }

  // ---- stable sorting ---------------------------------------------------------------------------

  /** A tuple with its sort key. */
  datatype SortEntry = SortEntry(key: Row, row: Row)

  datatype Comparator = Comparator(fp: FloatOps, types: seq<SqlType>, orderBys: seq<OrderBy>) {
    predicate Ok() { |types| == |orderBys| }

    function Compare(a: SortEntry, b: SortEntry): Ordering
      requires |a.key| == |b.key| == |orderBys|
    {
      CompareKeys(fp, a.key, b.key, orderBys)
    }

    predicate Fits(e: SortEntry) { KeyFits(e.key, types) }

    predicate FitAll(s: seq<SortEntry>) {
      forall i :: 0 <= i < |s| ==> Fits(s[i])
    }

    /** `a` may stand before `b`. */
    predicate Le(a: SortEntry, b: SortEntry)
      requires Ok() && Fits(a) && Fits(b)
    {
      !Compare(a, b).Greater?
    }

    ghost predicate Sorted(s: seq<SortEntry>)
      requires Ok() && FitAll(s)
    {
      forall i, j :: 0 <= i < j < |s| ==> Le(s[i], s[j])
    }

    lemma Preorder(a: SortEntry, b: SortEntry, c: SortEntry)
      requires Ok() && Fits(a) && Fits(b) && Fits(c)
      ensures Le(a, b) || Le(b, a)
      ensures Le(a, b) && Le(b, c) ==> Le(a, c)
    {
      KeysPreorder(fp, a.key, b.key, c.key, types, orderBys);
      KeysPreorder(fp, b.key, a.key, c.key, types, orderBys);
    }

    /** Puts `e`, which came later, behind everything that may stand before it. */
    function InsertLast(s: seq<SortEntry>, e: SortEntry): (r: seq<SortEntry>)
      requires Ok() && FitAll(s) && Fits(e)
      ensures FitAll(r) && |r| == |s| + 1 && multiset(r) == multiset(s) + multiset{e}
    {
      if s == [] then [e]
      else if Le(s[|s| - 1], e) then s + [e]
      else
        var n := |s| - 1;
        assert s == s[..n] + [s[n]];
        InsertLast(s[..n], e) + [s[n]]
    }

    /** The stable sort, as insertion one by one. */
    function StableSort(s: seq<SortEntry>): (r: seq<SortEntry>)
      requires Ok() && FitAll(s)
      ensures FitAll(r) && |r| == |s| && multiset(r) == multiset(s)
    {
      if s == [] then []
      else
        var n := |s| - 1;
        assert s == s[..n] + [s[n]];
        InsertLast(StableSort(s[..n]), s[n])
    }

    /** Takes from the first run unless the second's head is strictly smaller. */
    function Merge(a: seq<SortEntry>, b: seq<SortEntry>): (r: seq<SortEntry>)
      requires Ok() && FitAll(a) && FitAll(b)
      ensures |r| == |a| + |b|
    {
      if a == [] then b
      else if b == [] then a
      else if Le(a[0], b[0]) then [a[0]] + Merge(a[1..], b)
      else [b[0]] + Merge(a, b[1..])
    }

    /** The entries whose keys compare equal to `k`'s, in order. */
    function Class(s: seq<SortEntry>, k: SortEntry): seq<SortEntry>
      requires Ok() && FitAll(s) && Fits(k)
    {
      if s == [] then []
      else
        var n := |s| - 1;
        Class(s[..n], k) + if Compare(s[n], k).Equal? then [s[n]] else []
    }
  }

  lemma {:induction false} InsertLastSorted(c: Comparator, s: seq<SortEntry>, e: SortEntry)
    requires c.Ok() && c.FitAll(s) && c.Fits(e) && c.Sorted(s)
    ensures c.Sorted(c.InsertLast(s, e))
    ensures forall x :: x in c.InsertLast(s, e) ==> x in s || x == e
  {
    if s != [] {
      var n := |s| - 1;
      if c.Le(s[n], e) {
        forall i | 0 <= i < n
          ensures c.Le(s[i], e)
        {
          c.Preorder(s[i], s[n], e);
        }
      } else {
        InsertLastSorted(c, s[..n], e);
        c.Preorder(s[n], e, e);
        var r := c.InsertLast(s[..n], e);
        forall i | 0 <= i < |r|
          ensures c.Le(r[i], s[n])
        {
          assert r[i] in r;
        }
      }
    }
  }

  lemma {:induction false} StableSortSorted(c: Comparator, s: seq<SortEntry>)
    requires c.Ok() && c.FitAll(s)
    ensures c.Sorted(c.StableSort(s))
  {
    if s != [] {
      var n := |s| - 1;
      StableSortSorted(c, s[..n]);
      InsertLastSorted(c, c.StableSort(s[..n]), s[n]);
    }
  }

  lemma ClassAppend(c: Comparator, s: seq<SortEntry>, e: SortEntry, k: SortEntry)
    requires c.Ok() && c.FitAll(s + [e]) && c.FitAll(s) && c.Fits(e) && c.Fits(k)
    ensures c.Class(s + [e], k) == c.Class(s, k) + if c.Compare(e, k).Equal? then [e] else []
  {
    assert (s + [e])[..|s|] == s;
  }

  /** Entries that do not compare equal are not both in one class. */
  lemma OneClass(c: Comparator, a: SortEntry, b: SortEntry, k: SortEntry)
    requires c.Ok() && c.Fits(a) && c.Fits(b) && c.Fits(k) && !c.Le(a, b)
    ensures !(c.Compare(a, k).Equal? && c.Compare(b, k).Equal?)
  {
    KeysPreorder(c.fp, a.key, k.key, b.key, c.types, c.orderBys);
    KeysPreorder(c.fp, b.key, k.key, a.key, c.types, c.orderBys);
    KeysPreorder(c.fp, k.key, b.key, a.key, c.types, c.orderBys);
  }

  lemma {:induction false} InsertLastClass(c: Comparator, s: seq<SortEntry>, e: SortEntry, k: SortEntry)
    requires c.Ok() && c.FitAll(s) && c.Fits(e) && c.Fits(k)
    ensures c.Class(c.InsertLast(s, e), k) == c.Class(s, k) + if c.Compare(e, k).Equal? then [e] else []
  {
    hide CompareKeys, KeyFits, Comparator.Class;
    if s == [] {
      ClassAppend(c, [], e, k);
      assert [] + [e] == [e];
    } else {
      var n := |s| - 1;
      if c.Le(s[n], e) {
        ClassAppend(c, s, e, k);
      } else {
        InsertLastClass(c, s[..n], e, k);
        OneClass(c, s[n], e, k);
        assert s == s[..n] + [s[n]];
        InsertBefore(c, s[..n], c.InsertLast(s[..n], e), s[n], e, k);
      }
    }
  }

  lemma InsertBefore(c: Comparator, s: seq<SortEntry>, r: seq<SortEntry>, last: SortEntry, e: SortEntry, k: SortEntry)
    requires c.Ok() && c.FitAll(s) && c.FitAll(r) && c.Fits(last) && c.Fits(e) && c.Fits(k)
    requires c.Class(r, k) == c.Class(s, k) + if c.Compare(e, k).Equal? then [e] else []
    requires !(c.Compare(last, k).Equal? && c.Compare(e, k).Equal?)
    ensures c.Class(r + [last], k) == c.Class(s + [last], k) + if c.Compare(e, k).Equal? then [e] else []
  {
    ClassAppend(c, r, last, k);
    ClassAppend(c, s, last, k);
  }

  /** Entries with equal keys keep their order. */
  lemma {:induction false} StableSortStable(c: Comparator, s: seq<SortEntry>, k: SortEntry)
    requires c.Ok() && c.FitAll(s) && c.Fits(k)
    ensures c.Class(c.StableSort(s), k) == c.Class(s, k)
  {
    if s != [] {
      var n := |s| - 1;
      StableSortStable(c, s[..n], k);
      InsertLastClass(c, c.StableSort(s[..n]), s[n], k);
    }
  }
}
