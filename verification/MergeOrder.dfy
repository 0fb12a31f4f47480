/** Merging stably sorted runs, first run first on ties, is the stable sort of
    the runs together. */
module MergeOrder {
  import opened Common
  import opened Expressions
  import opened SortOrder

  lemma {:induction false} ClassConcat(c: Comparator, s: seq<SortEntry>, t: seq<SortEntry>, k: SortEntry)
    requires c.Ok() && c.FitAll(s) && c.FitAll(t) && c.Fits(k)
    ensures c.FitAll(s + t) && c.Class(s + t, k) == c.Class(s, k) + c.Class(t, k)
  {
    hide Comparator.Compare;
    if t == [] {
      assert s + t == s;
    } else {
      var n := |t| - 1;
      ClassConcat(c, s, t[..n], k);
      assert s + t == (s + t[..n]) + [t[n]] && t == t[..n] + [t[n]];
      ClassAppend(c, s + t[..n], t[n], k);
      ClassAppend(c, t[..n], t[n], k);
      Associate(c.Class(s, k), c.Class(t[..n], k), if c.Compare(t[n], k).Equal? then [t[n]] else []);
    }
  }

  lemma ClassCons(c: Comparator, x: SortEntry, s: seq<SortEntry>, k: SortEntry)
    requires c.Ok() && c.Fits(x) && c.FitAll(s) && c.Fits(k)
    ensures c.FitAll([x] + s) && c.Class([x] + s, k) == (if c.Compare(x, k).Equal? then [x] else []) + c.Class(s, k)
  {
    ClassConcat(c, [x], s, k);
    ClassAppend(c, [], x, k);
    assert [] + [x] == [x];
  }

  /** Nothing strictly behind `k` is in its class. */
  lemma {:induction false} ClassOfLarger(c: Comparator, s: seq<SortEntry>, k: SortEntry)
    requires c.Ok() && c.FitAll(s) && c.Fits(k) && forall i :: 0 <= i < |s| ==> c.Compare(s[i], k).Greater?
    ensures c.Class(s, k) == []
  {
    if s != [] {
      ClassOfLarger(c, s[..|s| - 1], k);
    }
  }

  lemma Facts(c: Comparator, a: SortEntry, b: SortEntry, k: SortEntry)
    requires c.Ok() && c.Fits(a) && c.Fits(b) && c.Fits(k)
    ensures c.Compare(a, b).Less? <==> c.Compare(b, a).Greater?
    ensures c.Compare(a, b).Equal? ==> c.Compare(b, a).Equal? && c.Compare(a, k) == c.Compare(b, k)
    ensures !c.Le(a, b) && c.Le(a, k) ==> c.Compare(k, b).Greater?
    ensures c.Le(a, b) && c.Le(b, k) ==> c.Le(a, k)
    ensures c.Compare(a, a).Equal?
  {
    KeysPreorder(c.fp, a.key, b.key, k.key, c.types, c.orderBys);
    KeysPreorder(c.fp, b.key, a.key, k.key, c.types, c.orderBys);
    KeysPreorder(c.fp, a.key, a.key, a.key, c.types, c.orderBys);
    KeysPreorder(c.fp, k.key, b.key, a.key, c.types, c.orderBys);
    KeysPreorder(c.fp, b.key, k.key, a.key, c.types, c.orderBys);
  }

  lemma {:induction false} MergeFits(c: Comparator, a: seq<SortEntry>, b: seq<SortEntry>)
    requires c.Ok() && c.FitAll(a) && c.FitAll(b)
    ensures forall x :: x in c.Merge(a, b) <==> x in a || x in b
    ensures c.FitAll(c.Merge(a, b))
  {
    if a != [] && b != [] {
      if c.Le(a[0], b[0]) {
        MergeFits(c, a[1..], b);
        assert a == [a[0]] + a[1..];
      } else {
        MergeFits(c, a, b[1..]);
        assert b == [b[0]] + b[1..];
      }
    }
    forall i | 0 <= i < |c.Merge(a, b)|
      ensures c.Fits(c.Merge(a, b)[i])
    {
      assert c.Merge(a, b)[i] in c.Merge(a, b);
    }
  }

  lemma {:induction false} MergeSorted(c: Comparator, a: seq<SortEntry>, b: seq<SortEntry>)
    requires c.Ok() && c.FitAll(a) && c.FitAll(b) && c.Sorted(a) && c.Sorted(b)
    ensures c.FitAll(c.Merge(a, b)) && c.Sorted(c.Merge(a, b))
  {
    MergeFits(c, a, b);
    if a != [] && b != [] {
      if c.Le(a[0], b[0]) {
        MergeSorted(c, a[1..], b);
        HeadFirst(c, a[0], a[1..], b);
      } else {
        MergeSorted(c, a, b[1..]);
        Facts(c, a[0], b[0], a[0]);
        HeadFirst(c, b[0], a, b[1..]);
      }
    }
  }

  /** What may stand before both heads may stand before the whole merge. */
  lemma HeadFirst(c: Comparator, x: SortEntry, a: seq<SortEntry>, b: seq<SortEntry>)
    requires c.Ok() && c.Fits(x) && c.FitAll(a) && c.FitAll(b) && c.Sorted(a) && c.Sorted(b)
    requires (a != [] ==> c.Le(x, a[0])) && (b != [] ==> c.Le(x, b[0]))
    requires c.FitAll(c.Merge(a, b)) && c.Sorted(c.Merge(a, b))
    ensures c.FitAll([x] + c.Merge(a, b)) && c.Sorted([x] + c.Merge(a, b))
  {
    hide Comparator.Compare;
    var m := c.Merge(a, b);
    MergeFits(c, a, b);
    forall j | 0 <= j < |m|
      ensures c.Le(x, m[j])
    {
      assert m[j] in m;
      if m[j] in a {
        var i :| 0 <= i < |a| && a[i] == m[j];
        Facts(c, x, a[0], a[i]);
        Facts(c, a[0], a[0], x);
      } else {
        var i :| 0 <= i < |b| && b[i] == m[j];
        Facts(c, x, b[0], b[i]);
        Facts(c, b[0], b[0], x);
      }
    }
  }

  /** A sorted run whose head is strictly behind `b` has nothing of `b`'s class. */
  lemma NothingOfClass(c: Comparator, a: seq<SortEntry>, b: SortEntry, k: SortEntry)
    requires c.Ok() && c.FitAll(a) && c.Sorted(a) && c.Fits(b) && c.Fits(k) && a != []
    requires !c.Le(a[0], b) && c.Compare(b, k).Equal?
    ensures c.Class(a, k) == []
  {
    forall i | 0 <= i < |a|
      ensures c.Compare(a[i], k).Greater?
    {
      Behind(c, a[0], a[i], b, k);
      if i > 0 {
        assert c.Le(a[0], a[i]);
      }
    }
    ClassOfLarger(c, a, k);
  }

  lemma Behind(c: Comparator, first: SortEntry, x: SortEntry, b: SortEntry, k: SortEntry)
    requires c.Ok() && c.Fits(first) && c.Fits(x) && c.Fits(b) && c.Fits(k)
    requires !c.Le(first, b) && c.Compare(b, k).Equal?
    ensures c.Le(first, x) ==> c.Compare(x, k).Greater?
    ensures first == x ==> c.Compare(x, k).Greater?
  {
    Facts(c, first, first, x);
    Facts(c, first, b, x);
    Facts(c, b, k, x);
    Facts(c, x, k, b);
    Facts(c, x, b, k);
  }

  /** Equal keys: first those of the first run, then those of the second. */
  lemma {:induction false} MergeClass(c: Comparator, a: seq<SortEntry>, b: seq<SortEntry>, k: SortEntry)
    requires c.Ok() && c.FitAll(a) && c.FitAll(b) && c.Sorted(a) && c.Fits(k)
    ensures c.FitAll(c.Merge(a, b)) && c.Class(c.Merge(a, b), k) == c.Class(a, k) + c.Class(b, k)
  {
    hide Comparator.Sorted, Comparator.Class;
    MergeFits(c, a, b);
    if a != [] && b != [] {
      TailSorted(c, a);
      if c.Le(a[0], b[0]) {
        MergeClass(c, a[1..], b, k);
        TakeFirst(c, a[0], a[1..], b, c.Merge(a[1..], b), k);
        assert a == [a[0]] + a[1..];
      } else {
        MergeClass(c, a, b[1..], k);
        if c.Compare(b[0], k).Equal? {
          NothingOfClass(c, a, b[0], k);
        }
        TakeSecond(c, b[0], a, b[1..], c.Merge(a, b[1..]), k);
        assert b == [b[0]] + b[1..];
      }
    } else {
      NoClass(c, k);
    }
  }

  lemma NoClass(c: Comparator, k: SortEntry)
    requires c.Ok() && c.Fits(k)
    ensures c.FitAll([]) && c.Class([], k) == []
  {
  }

  lemma TailSorted(c: Comparator, a: seq<SortEntry>)
    requires c.Ok() && c.FitAll(a) && c.Sorted(a) && a != []
    ensures c.FitAll(a[1..]) && c.Sorted(a[1..])
  {
  }

  lemma TakeFirst(c: Comparator, x: SortEntry, a: seq<SortEntry>, b: seq<SortEntry>, m: seq<SortEntry>, k: SortEntry)
    requires c.Ok() && c.Fits(x) && c.FitAll(a) && c.FitAll(b) && c.FitAll(m) && c.Fits(k)
    requires c.Class(m, k) == c.Class(a, k) + c.Class(b, k)
    ensures c.FitAll([x] + m) && c.FitAll([x] + a) && c.Class([x] + m, k) == c.Class([x] + a, k) + c.Class(b, k)
  {
    ClassCons(c, x, m, k);
    ClassCons(c, x, a, k);
    Associate(if c.Compare(x, k).Equal? then [x] else [], c.Class(a, k), c.Class(b, k));
  }

  lemma TakeSecond(c: Comparator, x: SortEntry, a: seq<SortEntry>, b: seq<SortEntry>, m: seq<SortEntry>, k: SortEntry)
    requires c.Ok() && c.Fits(x) && c.FitAll(a) && c.FitAll(b) && c.FitAll(m) && c.Fits(k)
    requires c.Class(m, k) == c.Class(a, k) + c.Class(b, k) && (c.Compare(x, k).Equal? ==> c.Class(a, k) == [])
    ensures c.FitAll([x] + m) && c.FitAll([x] + b) && c.Class([x] + m, k) == c.Class(a, k) + c.Class([x] + b, k)
  {
    ClassCons(c, x, m, k);
    ClassCons(c, x, b, k);
  }

  /** A sorted sequence is determined by its classes. */
  lemma {:induction false} SortedByClasses(c: Comparator, a: seq<SortEntry>, b: seq<SortEntry>)
    requires c.Ok() && c.FitAll(a) && c.FitAll(b) && c.Sorted(a) && c.Sorted(b) && |a| == |b|
    requires forall k {:trigger c.Class(a, k)} :: c.Fits(k) ==> c.Class(a, k) == c.Class(b, k)
    ensures a == b
  {
    if a != [] {
      SameHead(c, a, b);
      assert a == [a[0]] + a[1..] && b == [b[0]] + b[1..];
      forall k | c.Fits(k)
        ensures c.Class(a[1..], k) == c.Class(b[1..], k)
      {
        assert c.Class(a, k) == c.Class(b, k);
        SameTail(c, a[0], a[1..], b[1..], k);
      }
      SortedByClasses(c, a[1..], b[1..]);
    }
  }

  lemma SameTail(c: Comparator, x: SortEntry, a: seq<SortEntry>, b: seq<SortEntry>, k: SortEntry)
    requires c.Ok() && c.Fits(x) && c.FitAll(a) && c.FitAll(b) && c.Fits(k) && c.FitAll([x] + a) && c.FitAll([x] + b)
    requires c.Class([x] + a, k) == c.Class([x] + b, k)
    ensures c.Class(a, k) == c.Class(b, k)
  {
    ClassCons(c, x, a, k);
    ClassCons(c, x, b, k);
    var head := if c.Compare(x, k).Equal? then [x] else [];
    assert c.Class(a, k) == (head + c.Class(a, k))[|head|..];
    assert c.Class(b, k) == (head + c.Class(b, k))[|head|..];
  }

  /** If an element of the class stands anywhere, the class is not empty. */
  lemma {:induction false} ClassMembers(c: Comparator, s: seq<SortEntry>, k: SortEntry)
    requires c.Ok() && c.FitAll(s) && c.Fits(k)
    ensures forall x :: x in c.Class(s, k) ==> x in s && c.Compare(x, k).Equal?
  {
    if s != [] {
      ClassMembers(c, s[..|s| - 1], k);
    }
  }

  lemma SameHead(c: Comparator, a: seq<SortEntry>, b: seq<SortEntry>)
    requires c.Ok() && c.FitAll(a) && c.FitAll(b) && c.Sorted(a) && c.Sorted(b) && |a| == |b| && a != []
    requires forall k {:trigger c.Class(a, k)} :: c.Fits(k) ==> c.Class(a, k) == c.Class(b, k)
    ensures a[0] == b[0]
  {
    assert c.Class(a, a[0]) == c.Class(b, a[0]) && c.Class(a, b[0]) == c.Class(b, b[0]);
    HeadInClass(c, a);
    HeadInClass(c, b);
    HeadNotLater(c, a, b[0]);
    HeadNotLater(c, b, a[0]);
    Facts(c, a[0], b[0], a[0]);
    assert b == [b[0]] + b[1..];
    ClassCons(c, b[0], b[1..], a[0]);
  }

  /** The head of a sorted sequence may stand before everything whose class it meets. */
  lemma HeadNotLater(c: Comparator, s: seq<SortEntry>, k: SortEntry)
    requires c.Ok() && c.FitAll(s) && c.Sorted(s) && s != [] && c.Fits(k) && c.Class(s, k) != []
    ensures c.Le(s[0], k)
  {
    ClassMembers(c, s, k);
    var x := c.Class(s, k)[0];
    assert x in c.Class(s, k);
    var i :| 0 <= i < |s| && s[i] == x;
    Facts(c, s[0], x, k);
    Facts(c, s[0], s[0], k);
  }

  lemma HeadInClass(c: Comparator, s: seq<SortEntry>)
    requires c.Ok() && c.FitAll(s) && s != []
    ensures c.Class(s, s[0]) != [] && c.Class(s, s[0])[0] == s[0]
  {
    assert s == [s[0]] + s[1..];
    ClassCons(c, s[0], s[1..], s[0]);
    Facts(c, s[0], s[0], s[0]);
  }

  /** Merging the stable sorts of two inputs is the stable sort of both together. */
  lemma MergeIsStable(c: Comparator, a: seq<SortEntry>, b: seq<SortEntry>)
    requires c.Ok() && c.FitAll(a) && c.FitAll(b)
    ensures c.FitAll(a + b) && c.Merge(c.StableSort(a), c.StableSort(b)) == c.StableSort(a + b)
  {
    var x, y := c.StableSort(a), c.StableSort(b);
    StableSortSorted(c, a);
    StableSortSorted(c, b);
    StableSortSorted(c, a + b);
    MergeSorted(c, x, y);
    forall k | c.Fits(k)
      ensures c.Class(c.Merge(x, y), k) == c.Class(c.StableSort(a + b), k)
    {
      MergeClass(c, x, y, k);
      StableSortStable(c, a, k);
      StableSortStable(c, b, k);
      StableSortStable(c, a + b, k);
      ClassConcat(c, a, b, k);
    }
    SortedByClasses(c, c.Merge(x, y), c.StableSort(a + b));
  }
}
