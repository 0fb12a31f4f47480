/** Trees that take their pairs in ascending order, up to one more than a leaf
    has places for. Such a tree is one deletion away from a full leaf. */
module AscendingKeys {
  import opened Common
  import opened Entries
  import opened TreeShape
  import opened TreeSteps
  import opened TreeContents
  import opened TreeLeaves
  import opened RemoveSteps
  import opened TreeRoom

  ghost predicate One(a: LeafMap, es: seq<Entry>) {
    exists p :: p in a && a == map[p := es]
  }

  ghost predicate Two(a: LeafMap, xs: seq<Entry>, ys: seq<Entry>) {
    exists p, q :: p in a && q in a && p != q && a == map[p := xs, q := ys]
  }

  /** The leaves that hold `es`, entered in this order. */
  ghost predicate Ascended(caps: Caps, a: LeafMap, es: seq<Entry>) {
    var m := caps.MinLeaf();
    && caps.leaf >= 4 && |es| <= caps.leaf + 1 && Sorted(es)
    && if es == [] then a == map[]
       else if |es| < caps.leaf then One(a, es)
       else Two(a, es[..m], es[m..])
  }

  /** The greatest pair yet goes to the end of the last leaf. */
  lemma AscendStep(caps: Caps, v: Store, s: Shape, root: PageId, a: LeafMap, es: seq<Entry>, e: Entry)
    requires WF(v, s, root) && Ascended(caps, a, es) && |es| <= caps.leaf
    requires (forall x :: x in es ==> Lt(x, e)) && InsertStep(caps, a, e, Leaves(v))
    ensures Ascended(caps, Leaves(v), es + [e])
  {
    var b := Leaves(v);
    Appended(es, e);
    if es == [] {
      var id :| b == map[id := [e]];
      assert id in b && [] + [e] == [e];
    } else if |es| < caps.leaf {
      AscendOne(caps, a, es, e, b);
    } else {
      AscendTwo(caps, v, s, root, a, es, e);
    }
  }

  lemma NotEmptied(caps: Caps, a: LeafMap, e: Entry, b: LeafMap)
    requires InsertStep(caps, a, e, b)
    ensures b != map[]
  {
    if a == map[] {
      var id :| b == map[id := [e]];
      assert id in b;
    } else {
      var id, pos: nat :| id in a && IsLowerBound(a[id], e, pos) && Grown(caps, a, id, a[id][..pos] + [e] + a[id][pos..], b);
      assert id in b;
    }
  }

  lemma Appended(es: seq<Entry>, e: Entry)
    requires Sorted(es) && forall x :: x in es ==> Lt(x, e)
    ensures Sorted(es + [e])
  {
    assert forall i :: 0 <= i < |es| ==> es[i] in es;
  }

  lemma AtEnd(es: seq<Entry>, e: Entry, pos: nat)
    requires IsLowerBound(es, e, pos) && forall x :: x in es ==> Lt(x, e)
    ensures pos == |es| && es[..pos] + [e] + es[pos..] == es + [e]
  {
    if es != [] {
      var last := |es| - 1;
      assert es[last] in es;
      assert last < pos;
    }
  }

  lemma AscendOne(caps: Caps, a: LeafMap, es: seq<Entry>, e: Entry, b: LeafMap)
    requires caps.leaf >= 4 && One(a, es) && InsertStep(caps, a, e, b) && |es| < caps.leaf
    requires forall x :: x in es ==> Lt(x, e)
    ensures var m, all := caps.MinLeaf(), es + [e];
      if |all| < caps.leaf then One(b, all) else Two(b, all[..m], all[m..])
  {
    var m, all := caps.MinLeaf(), es + [e];
    var id, pos: nat :| id in a && IsLowerBound(a[id], e, pos) && Grown(caps, a, id, a[id][..pos] + [e] + a[id][pos..], b);
    AtEnd(es, e, pos);
    if |all| < caps.leaf {
      assert b == map[id := all] && id in b;
    } else {
      var q :| q !in a && b == a[id := all[..m]][q := all[m..]];
      assert b == map[id := all[..m], q := all[m..]] && id in b && q in b;
    }
  }

  lemma AscendTwo(caps: Caps, v: Store, s: Shape, root: PageId, a: LeafMap, es: seq<Entry>, e: Entry)
    requires WF(v, s, root) && caps.leaf >= 4 && |es| == caps.leaf && Sorted(es)
    requires Two(a, es[..caps.MinLeaf()], es[caps.MinLeaf()..]) && InsertStep(caps, a, e, Leaves(v))
    requires forall x :: x in es ==> Lt(x, e)
    ensures var m, all := caps.MinLeaf(), es + [e];
      Two(Leaves(v), all[..m], all[m..])
  {
    hide InsertStep, WF, IsLowerBound, Leaves;
    var m, b := caps.MinLeaf(), Leaves(v);
    var xs, ys := es[..m], es[m..];
    assert es == xs + ys;
    assert (es + [e])[..m] == xs && (es + [e])[m..] == ys + [e];
    var p, q :| p in a && q in a && p != q && a == map[p := xs, q := ys];
    assert ys[0] in es;
    var id := GrowsAtEnd(caps, a, es, e, b);
    if id == p {
      assert b[p] == xs + [e] && b[q] == ys;
      NotInFirst(v, s, root, p, q, xs, ys, e);
    }
    assert b == map[p := xs, q := ys + [e]] && p in b && q in b;
  }

  /** A leaf with room takes what is greater than all its pairs at its end. */
  lemma GrowsAtEnd(caps: Caps, a: LeafMap, es: seq<Entry>, e: Entry, b: LeafMap) returns (id: PageId)
    requires InsertStep(caps, a, e, b) && a != map[] && forall x :: x in es ==> Lt(x, e)
    requires forall k :: k in a ==> |a[k]| + 1 < caps.leaf && forall x :: x in a[k] ==> x in es
    ensures id in a && b == a[id := a[id] + [e]]
  {
    var k, pos: nat :| k in a && IsLowerBound(a[k], e, pos) && Grown(caps, a, k, a[k][..pos] + [e] + a[k][pos..], b);
    id := k;
    AtEnd(a[id], e, pos);
  }

  /** What is greater than the pairs of a later leaf is not in an earlier one. */
  lemma NotInFirst(v: Store, s: Shape, root: PageId, p: PageId, q: PageId, xs: seq<Entry>, ys: seq<Entry>, e: Entry)
    requires WF(v, s, root) && p != q && p in Leaves(v) && q in Leaves(v) && Leaves(v)[q] == ys && xs != [] && ys != []
    requires Sorted(xs + ys) && Lt(ys[0], e)
    ensures Leaves(v)[p] != xs + [e]
  {
    assert (xs + ys)[0] == xs[0] && (xs + ys)[|xs|] == ys[0] && Lt(xs[0], ys[0]);
    if Leaves(v)[p] == xs + [e] {
      assert (xs + [e])[0] == xs[0] && (xs + [e])[|xs|] == e;
      LeavesApart(v, s, root, p, q, xs[0], ys[0], e);
    }
  }

  lemma AscendedMembers(caps: Caps, v: Store, es: seq<Entry>)
    requires Ascended(caps, Leaves(v), es)
    ensures forall e :: e in Contents(v) <==> e in es
    ensures NoFullLeaf(caps, v)
  {
    var a, m := Leaves(v), caps.MinLeaf();
    if |es| >= caps.leaf {
      var p, q :| p in a && q in a && p != q && a == map[p := es[..m], q := es[m..]];
      assert es == es[..m] + es[m..];
      assert forall e :: e in es <==> e in a[p] || e in a[q];
    }
    forall id | id in v && v[id].LeafNode?
      ensures id in a && |a[id]| < caps.leaf && a[id] == v[id].leaf.entries
    {
    }
    forall e
      ensures e in Contents(v) <==> e in es
    {
      AmongLeaves(v, e);
    }
  }

  lemma AmongLeaves(v: Store, e: Entry)
    ensures e in Contents(v) <==> exists id :: id in Leaves(v) && e in Leaves(v)[id]
  {
    if id :| id in Leaves(v) && e in Leaves(v)[id] {
      assert e in v[id].leaf.entries;
    }
    if e in Contents(v) {
      var id :| id in v && v[id].LeafNode? && e in v[id].leaf.entries;
      assert e in Leaves(v)[id];
    }
  }

  /** With one pair more than a leaf has places for, taking out a pair of the first
      leaf merges both leaves into a full one, and no further pair finds room. */
  lemma FullOnMerge(caps: Caps, v: Store, s: Shape, root: PageId, es: seq<Entry>, d: Entry, e: Entry)
    requires WF(v, s, root) && Sized(caps, v, root, INVALID_PAGE_ID) && caps.inner >= 3
    requires Ascended(caps, Leaves(v), es) && |es| == caps.leaf + 1 && d == es[0]
    ensures e in BlockedWithout(caps, v, s, root, d)
  {
    hide Blocked, BlockedBeside, BlockedMerged, BlockedAfter;
    var a, m := Leaves(v), caps.MinLeaf();
    var p, q :| p in a && q in a && p != q && a == map[p := es[..m], q := es[m..]];
    assert PageOk(s, p, v[p]) && v[p].leaf.entries[0] == d;
    assert Routed(v, s, p, d);
    WithoutIs(caps, v, s, root, p, d);
    NeighbourMerges(caps, v, s, root, p, q, m - 1);
    var x := SomeLeafHolds(v, s, root, root, e);
    assert x in a;
    MergedTakesAll(caps, v, s, p, q, x, m - 1 + LeafSize(v, q), e);
    UnfoldMerge(caps, v, s, root, p, q, m - 1);
  }

  lemma UnfoldMerge(caps: Caps, v: Store, s: Shape, root: PageId, p: PageId, q: PageId, n: int)
    requires RepairOf(caps, v, s, root, p, n) == Merges(q)
    ensures BlockedAfter(caps, v, s, root, p, n) == BlockedMerged(caps, v, s, p, q, n + LeafSize(v, q))
  {
  }

  lemma MergedTakesAll(caps: Caps, v: Store, s: Shape, p: PageId, q: PageId, x: PageId, n: int, e: Entry)
    requires Routed(v, s, x, e) && (x == p || x == q) && n == caps.leaf
    ensures e in BlockedMerged(caps, v, s, p, q, n)
  {
    assert FullMerged(caps, v, s, p, q, n, e);
  }

  /** Of two leaves, one is the neighbour of the other. */
  lemma NeighbourMerges(caps: Caps, v: Store, s: Shape, root: PageId, p: PageId, q: PageId, n: int)
    requires WF(v, s, root) && Sized(caps, v, root, INVALID_PAGE_ID) && caps.inner >= 3
    requires p != q && p in Leaves(v) && q in Leaves(v) && Leaves(v).Keys == {p, q}
    requires n < caps.MinLeaf() && n + LeafSize(v, q) <= caps.leaf
    ensures RepairOf(caps, v, s, root, p, n) == Merges(q)
  {
    if p == root {
      RootLeafAlone(v, s, root);
    }
    var at := FindKid(v, s, root, p);
    var up := s[p].parent;
    var kids := v[up].inner.kids;
    RepairIs(caps, v, s, root, p, at - 1, n);
    assert SizeOk(caps, v[up], up == root) && PageOk(s, up, v[up]) && PageOk(s, p, v[p]);
    forall k | 0 <= k < |kids| && k != at - 1
      ensures kids[k] == q
    {
      KidsDistinct(v, s, root, up, if k < at - 1 then k else at - 1, if k < at - 1 then at - 1 else k);
      assert s[kids[k]] == KidInfo(s[up], up, v[up].inner, k) && s[p] == KidInfo(s[up], up, v[up].inner, at - 1);
      assert PageOk(s, kids[k], v[kids[k]]);
      assert kids[k] in Leaves(v);
    }
  }
}
