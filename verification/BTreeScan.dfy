/** Reading the index: point lookup, ordered iteration and lower-bound scans
    along the chain of leaves. */
module BTreeScans {
  import opened Common
  import opened Entries
  import opened LeafPages
  import opened InternalPages
  import opened TreeShape
  import opened TreeContents
  import opened BTrees

  // ---- where a scan stands ------------------------------------------------------

  /** `e` lies at or after position `idx` of leaf `id`. */
  ghost predicate Later(v: Store, s: Shape, id: PageId, idx: nat, e: Entry)
    requires id in v && id in s && v[id].LeafNode? && idx <= |v[id].leaf.entries|
  {
    e in v[id].leaf.entries[idx..] || !Under(e, s[id].hi)
  }

  /** `rest` lists, in order, the stored entries from position `idx` of leaf `id` on. */
  ghost predicate At(v: Store, s: Shape, id: PageId, idx: nat, rest: seq<Entry>) {
    && id in v && id in s && v[id].LeafNode? && idx <= |v[id].leaf.entries|
    && Sorted(rest)
    && (forall e {:trigger e in rest} :: e in rest <==> e in Contents(v) && Later(v, s, id, idx, e))
  }

  /** The entry at the cursor comes first. */
  lemma FirstOfRest(v: Store, s: Shape, root: PageId, id: PageId, idx: nat, rest: seq<Entry>)
    requires WF(v, s, root) && At(v, s, id, idx, rest) && idx < |v[id].leaf.entries|
    ensures rest != [] && rest[0] == v[id].leaf.entries[idx]
    ensures forall x :: x in rest[1..] <==> x in rest && x != rest[0]
  {
    var es := v[id].leaf.entries;
    assert PageOk(s, id, v[id]);
    var e := es[idx];
    assert es[idx..] == [e] + es[idx + 1..];
    ContentsMember(v, id, e);
    assert e in rest;
    forall x | x in rest && x != e
      ensures Lt(e, x)
    {
      if x in es[idx + 1..] {
        var i :| 0 <= i < |es[idx + 1..]| && es[idx + 1..][i] == x;
        assert es[idx + 1 + i] == x;
      } else {
        assert Holds(s[id], e) && !Under(x, s[id].hi);
      }
    }
    var k :| 0 <= k < |rest| && rest[k] == e;
    assert rest[0] in rest;
    assert k > 0 ==> Lt(rest[0], rest[k]);
    assert rest == [rest[0]] + rest[1..];
    forall x | x in rest[1..]
      ensures x != rest[0]
    {
      var i :| 0 <= i < |rest[1..]| && rest[1..][i] == x;
      assert Lt(rest[0], rest[i + 1]);
    }
  }

  /** Stepping over that entry leaves the others. */
  lemma StepOver(v: Store, s: Shape, root: PageId, id: PageId, idx: nat, rest: seq<Entry>)
    requires WF(v, s, root) && At(v, s, id, idx, rest) && idx < |v[id].leaf.entries|
    ensures rest != [] && rest[0] == v[id].leaf.entries[idx] && At(v, s, id, idx + 1, rest[1..])
  {
    FirstOfRest(v, s, root, id, idx, rest);
    var es := v[id].leaf.entries;
    assert PageOk(s, id, v[id]);
    var e := es[idx];
    assert es[idx..] == [e] + es[idx + 1..];
    assert Holds(s[id], e);
  }

  /** Past the last entry of a leaf the scan continues at the next leaf, or ends. */
  lemma StepAcross(v: Store, s: Shape, root: PageId, id: PageId, rest: seq<Entry>)
    requires WF(v, s, root) && id in v && v[id].LeafNode? && At(v, s, id, |v[id].leaf.entries|, rest)
    ensures var next := v[id].leaf.next;
      if next == INVALID_PAGE_ID then rest == [] else At(v, s, next, 0, rest) && next != root
  {
    assert PageOk(s, id, v[id]);
    var next := v[id].leaf.next;
    assert rest != [] ==> rest[0] in rest;
    if next != INVALID_PAGE_ID {
      assert PageOk(s, next, v[next]);
      forall e
        ensures e in rest <==> e in Contents(v) && Later(v, s, next, 0, e)
      {
        var es := v[next].leaf.entries;
        assert es[0..] == es;
        if e in es {
          var i :| 0 <= i < |es| && es[i] == e;
          assert Holds(s[next], e);
        }
        if Holds(s[next], e) {
          ContentsAt(v, s, root, next, e);
        }
      }
    }
  }

  /** A finite set of entries can be listed in order. */
  lemma {:induction false} ListInOrder(entries: set<Entry>) returns (s: seq<Entry>)
    ensures Sorted(s) && |s| == |entries| && forall e :: e in s <==> e in entries
    decreases |entries|
  {
    if entries == {} {
      s := [];
    } else {
      var m := Largest(entries);
      var t := ListInOrder(entries - {m});
      s := t + [m];
      forall i | 0 <= i < |t|
        ensures Lt(t[i], m)
      {
        assert t[i] in t;
        assert CompareEntry(t[i], m) != Equal;
      }
    }
  }

  lemma {:induction false} Largest(entries: set<Entry>) returns (m: Entry)
    requires entries != {}
    ensures m in entries && forall e :: e in entries ==> !Lt(m, e)
    decreases |entries|
  {
    var x :| x in entries;
    if entries == {x} {
      m := x;
    } else {
      var others := entries - {x};
      assert entries == others + {x};
      assert others != {};
      var y := Largest(others);
      m := if Lt(y, x) then x else y;
    }
  }

  /** Listing what lies from a position on. */
  lemma ListFrom(v: Store, s: Shape, id: PageId, idx: nat) returns (rest: seq<Entry>)
    requires id in v && id in s && v[id].LeafNode? && idx <= |v[id].leaf.entries|
    ensures At(v, s, id, idx, rest)
  {
    rest := ListInOrder(set e | e in Contents(v) && Later(v, s, id, idx, e));
  }

  // ---- iteration -------------------------------------------------------------------

  /** An iterator over the leaf chain; `rest` is what it has still to deliver. */
  class IndexIterator {
    const tree: BTree
    var leaf: Option<PageId>
    var idx: nat
    ghost var rest: seq<Entry>

    ghost predicate Valid()
      reads this, tree
    {
      && tree.Valid()
      && match leaf
         case None => rest == []
         case Some(id) => tree.rootPageId != INVALID_PAGE_ID && At(tree.pages, tree.shape, id, idx, rest)
    }

    constructor (tree: BTree, leaf: Option<PageId>, idx: nat, ghost rest: seq<Entry>)
      requires tree.Valid()
      requires leaf.None? ==> rest == []
      requires leaf.Some? ==> tree.rootPageId != INVALID_PAGE_ID && At(tree.pages, tree.shape, leaf.value, idx, rest)
      ensures Valid() && this.tree == tree && this.rest == rest
    {
      this.tree, this.leaf, this.idx, this.rest := tree, leaf, idx, rest;
    }

    /** Delivers the remaining entries one by one, in order. */
    method Next() returns (item: Option<Entry>)
      requires Valid()
      modifies this
      ensures Valid()
      ensures if old(rest) == [] then item == None && rest == []
              else item == Some(old(rest)[0]) && rest == old(rest)[1..]
    {
      while leaf.Some?
        invariant Valid() && rest == old(rest)
        invariant leaf.Some? ==> leaf.value in tree.pages
        decreases leaf.Some?, if leaf.Some? && idx < |tree.pages[leaf.value].leaf.entries| then 0 else 1
      {
        var page := tree.pages[leaf.value].leaf;
        if idx < |page.entries| {
          item := Some(page.entries[idx]);
          StepOver(tree.pages, tree.shape, tree.rootPageId, leaf.value, idx, rest);
          idx := idx + 1;
          rest := rest[1..];
          return;
        }
        StepAcross(tree.pages, tree.shape, tree.rootPageId, leaf.value, rest);
        if page.next == INVALID_PAGE_ID {
          leaf := None;
        } else {
          assert SizeOk(tree.Capacity(), tree.pages[page.next], false);
          leaf := Some(page.next);
          idx := 0;
        }
      }
      item := None;
    }
  }

  /** An iterator over all entries, in order. */
  method Iter(tree: BTree) returns (it: IndexIterator)
    requires tree.Valid()
    ensures fresh(it) && it.Valid() && it.tree == tree
    ensures Sorted(it.rest) && forall e :: e in it.rest <==> e in tree.Entries()
  {
    if tree.rootPageId == INVALID_PAGE_ID {
      it := new IndexIterator(tree, None, 0, []);
      return;
    }
    var v, root := tree.pages, tree.rootPageId;
    ghost var s := tree.shape;
    var id := root;
    while v[id].InnerNode?
      invariant id in v && id in s && s[id].lo == NegInf
      decreases s[id].level
    {
      assert PageOk(s, id, v[id]);
      var page := new InternalPage.FromData(tree.internalMax, v[id].inner);
      ghost var n := v[id].inner;
      assert s[n.kids[0]] == KidInfo(s[id], id, n, 0);
      assert page.values[0] == page.Data().kids[0];
      id := page.values[0];
    }
    ghost var rest := ListFrom(v, s, id, 0);
    assert PageOk(s, id, v[id]);
    assert v[id].leaf.entries[0..] == v[id].leaf.entries;
    forall e | e in Contents(v)
      ensures Later(v, s, id, 0, e)
    {
      if Under(e, s[id].hi) {
        ContentsAt(v, s, root, id, e);
      }
    }
    it := new IndexIterator(tree, Some(id), 0, rest);
  }

  /** The number of stored entries. */
  method Size(tree: BTree) returns (n: nat)
    requires tree.Valid()
    ensures n == |tree.Entries()|
  {
    var it := Iter(tree);
    ghost var all := it.rest;
    n := 0;
    var item := it.Next();
    while item.Some?
      invariant it.Valid() && it.tree == tree
      invariant n <= |all| && (item.Some? <==> n < |all|)
      invariant it.rest == if item.Some? then all[n + 1..] else []
      decreases |all| - n
    {
      n := n + 1;
      assert it.rest == all[n..];
      item := it.Next();
    }
    ghost var listed := ListInOrder(tree.Entries());
    SortedUnique(all, listed);
  }

  // ---- lookup ------------------------------------------------------------------------

  /** The position of the first entry whose key is at least `key`. */
  method FindLowerBound(tree: BTree, key: int) returns (id: PageId, idx: nat, ghost rest: seq<Entry>)
    requires tree.Valid() && tree.rootPageId != INVALID_PAGE_ID
    ensures At(tree.pages, tree.shape, id, idx, rest)
    ensures forall e :: e in rest <==> e in tree.Entries() && e.key >= key
  {
    var v, root := tree.pages, tree.rootPageId;
    ghost var s := tree.shape;
    id := root;
    while v[id].InnerNode?
      invariant id in v && id in s
      invariant s[id].lo == NegInf || (s[id].lo.Fin? && s[id].lo.e.key < key)
      invariant s[id].hi == PosInf || (s[id].hi.Fin? && s[id].hi.e.key >= key)
      decreases s[id].level
    {
      assert PageOk(s, id, v[id]);
      var page := new InternalPage.FromData(tree.internalMax, v[id].inner);
      ghost var n := v[id].inner;
      var k := page.FindChildIdx(key);
      assert s[n.kids[k]] == KidInfo(s[id], id, n, k);
      assert page.values[k] == page.Data().kids[k];
      id := page.values[k];
    }
    assert PageOk(s, id, v[id]);
    assert SizeOk(tree.Capacity(), v[id], id == root);
    var leaf := new LeafPage.FromData(tree.leafMax, 0, v[id].leaf);
    idx := leaf.FindPos(key);
    rest := ListFrom(v, s, id, idx);
    assert leaf.Data().entries == v[id].leaf.entries && leaf.size == |v[id].leaf.entries|;
    LowerBoundRest(v, s, root, id, idx, key, rest);
  }

  lemma LowerBoundRest(v: Store, s: Shape, root: PageId, id: PageId, idx: nat, key: int, rest: seq<Entry>)
    requires WF(v, s, root) && At(v, s, id, idx, rest)
    requires s[id].lo == NegInf || (s[id].lo.Fin? && s[id].lo.e.key < key)
    requires s[id].hi == PosInf || (s[id].hi.Fin? && s[id].hi.e.key >= key)
    requires forall i :: 0 <= i < idx ==> v[id].leaf.entries[i].key < key
    requires forall i :: idx <= i < |v[id].leaf.entries| ==> v[id].leaf.entries[i].key >= key
    ensures forall e :: e in rest <==> e in Contents(v) && e.key >= key
  {
    var es := v[id].leaf.entries;
    assert PageOk(s, id, v[id]);
    forall e
      ensures e in rest <==> e in Contents(v) && e.key >= key
    {
      if e in es[idx..] {
        var i :| 0 <= i < |es[idx..]| && es[idx..][i] == e;
        assert es[idx + i] == e;
      }
      if e in Contents(v) && e.key >= key && Under(e, s[id].hi) {
        ContentsAt(v, s, root, id, e);
        var i :| 0 <= i < |es| && es[i] == e;
        assert es[idx..][i - idx] == e;
      }
    }
  }

  /** An iterator over the entries with keys from `key` on, in order. */
  method LowerBound(tree: BTree, key: int) returns (it: IndexIterator)
    requires tree.Valid()
    ensures fresh(it) && it.Valid() && it.tree == tree
    ensures Sorted(it.rest) && forall e :: e in it.rest <==> e in tree.Entries() && e.key >= key
  {
    if tree.rootPageId == INVALID_PAGE_ID {
      it := new IndexIterator(tree, None, 0, []);
    } else {
      var id, idx, rest := FindLowerBound(tree, key);
      it := new IndexIterator(tree, Some(id), idx, rest);
    }
  }

  /** The entries with key `key` for the row identifiers `rids`. */
  ghost function Keyed(key: int, rids: seq<Rid>): seq<Entry> {
    seq(|rids|, i requires 0 <= i < |rids| => Entry(key, rids[i]))
  }

  /** All row identifiers stored under `key`, in order, however many leaves
      they span. */
  method GetValues(tree: BTree, key: int) returns (rids: seq<Rid>)
    requires tree.Valid()
    ensures Sorted(Keyed(key, rids))
    ensures forall r :: r in rids <==> Entry(key, r) in tree.Entries()
  {
    rids := [];
    if tree.rootPageId == INVALID_PAGE_ID {
      return;
    }
    var v := tree.pages;
    var id: PageId, idx: nat, rest: seq<Entry> := FindLowerBound(tree, key);
    while true
      invariant At(v, tree.shape, id, idx, rest)
      invariant Collected(tree.Entries(), key, rids, rest)
      decreases |rest|, if id in v && v[id].LeafNode? && idx < |v[id].leaf.entries| then 0 else 1
    {
      var page := v[id].leaf;
      if idx < |page.entries| {
        StepOver(v, tree.shape, tree.rootPageId, id, idx, rest);
        if CompareInt(page.entries[idx].key, key).Greater? {
          NoneLeft(tree.Entries(), key, rids, rest);
          return;
        }
        CollectOne(tree.Entries(), key, rids, rest);
        rids := rids + [page.entries[idx].rid];
        idx := idx + 1;
        rest := rest[1..];
      } else {
        StepAcross(v, tree.shape, tree.rootPageId, id, rest);
        if page.next == INVALID_PAGE_ID {
          assert Keyed(key, rids) + [] == Keyed(key, rids);
          return;
        }
        assert SizeOk(tree.Capacity(), v[page.next], false);
        id := page.next;
        idx := 0;
      }
    }
  }

  /** What is under `key` is either collected already or still to come. */
  ghost predicate Collected(all: set<Entry>, key: int, rids: seq<Rid>, rest: seq<Entry>) {
    && Sorted(Keyed(key, rids) + rest)
    && (forall e :: e in rest ==> e.key >= key && e in all)
    && (forall r :: Entry(key, r) in all <==> r in rids || Entry(key, r) in rest)
  }

  lemma CollectOne(all: set<Entry>, key: int, rids: seq<Rid>, rest: seq<Entry>)
    requires Collected(all, key, rids, rest) && rest != [] && rest[0].key <= key
    ensures Collected(all, key, rids + [rest[0].rid], rest[1..])
  {
    var more := rids + [rest[0].rid];
    assert rest[0] in rest;
    assert rest == [rest[0]] + rest[1..];
    assert Keyed(key, more) + rest[1..] == Keyed(key, rids) + rest;
  }

  lemma NoneLeft(all: set<Entry>, key: int, rids: seq<Rid>, rest: seq<Entry>)
    requires Collected(all, key, rids, rest) && rest != [] && rest[0].key > key
    ensures Sorted(Keyed(key, rids))
    ensures forall r :: r in rids <==> Entry(key, r) in all
  {
    var ks := Keyed(key, rids);
    assert forall i :: 0 <= i < |ks| ==> (ks + rest)[i] == ks[i];
    forall e | e in rest
      ensures e.key > key
    {
      var i :| 0 <= i < |rest| && rest[i] == e;
      assert (ks + rest)[|ks|] == rest[0] && (ks + rest)[|ks| + i] == rest[i];
    }
  }
}
