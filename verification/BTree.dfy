/** The B+ tree index with TOMB_CAP = 0, as production indexes use it: a header
    holding the root's page id, and pages reached through their ids. A latched
    page is a page object read from the store; releasing it writes it back. */
module BTrees {
  import opened Common
  import opened Entries
  import opened LeafPages
  import opened InternalPages
  import opened TreeShape
  import opened TreeSteps
  import opened TreeContents
  import opened TreeLeaves
  import opened InsertSteps
  import opened RemoveSteps
  import opened TreeRoom
  import LeafLive
  import LeafPairs
  import InternalPairs

  /** `Panicked`: the assertion at the head of the leaf's insert_at fails. */
  datatype InsertResult = Inserted | Duplicate | Panicked

  datatype RemoveResult = Removed | NotFound

  class BTree {
    const leafMax: nat
    const internalMax: nat
    var pages: Store
    var rootPageId: PageId
    var nextPageId: PageId
    ghost var shape: Shape

    ghost predicate Valid()
      reads this
    {
      && leafMax >= 2 && internalMax >= 3
      && nextPageId > INVALID_PAGE_ID && IdsBelow(pages, nextPageId)
      && if rootPageId == INVALID_PAGE_ID then pages == map[] && shape == map[]
         else WF(pages, shape, rootPageId) && Sized(Capacity(), pages, rootPageId, INVALID_PAGE_ID)
    }

    function Capacity(): Caps { Caps(leafMax, internalMax) }

    /** The set of stored pairs. */
    ghost function Entries(): set<Entry>
      reads this
    {
      Contents(pages)
    }

    constructor (leafMax: nat, internalMax: nat)
      requires leafMax >= 2 && internalMax >= 3
      ensures Valid() && Entries() == {} && this.leafMax == leafMax && this.internalMax == internalMax
      ensures pages == map[] && NoFullLeaf(Capacity(), pages)
    {
      this.leafMax, this.internalMax := leafMax, internalMax;
      pages, rootPageId, nextPageId, shape := map[], INVALID_PAGE_ID, INVALID_PAGE_ID + 1, map[];
    }

    method NewPage() returns (id: PageId)
      requires nextPageId > INVALID_PAGE_ID
      modifies this`nextPageId
      ensures id == old(nextPageId) && nextPageId == id + 1
    {
      id := nextPageId;
      nextPageId := nextPageId + 1;
    }

    // ---- insertion ------------------------------------------------------------

    method Insert(e: Entry) returns (r: InsertResult)
      requires Valid()
      modifies this
      ensures Valid()
      ensures r.Duplicate? <==> e in old(Entries())
      ensures r.Panicked? <==> e !in old(Entries()) && old(RoutedLeafFull(Capacity(), pages, shape, e))
      ensures Entries() == if r.Inserted? then old(Entries()) + {e} else old(Entries())
      ensures !r.Inserted? ==> pages == old(pages) && rootPageId == old(rootPageId) && shape == old(shape)
      ensures r.Inserted? ==> InsertStep(Capacity(), old(Leaves(pages)), e, Leaves(pages))
      ensures old(NoFullLeaf(Capacity(), pages)) ==> NoFullLeaf(Capacity(), pages)
    {
      ghost var before := pages;
      if rootPageId == INVALID_PAGE_ID {
        r := InsertPessimistic(e);
      } else {
        var id := DescendReadPath(e);
        var leaf, pos, present := Locate(id, e);
        if present {
          return Duplicate;
        }
        if leaf.IsInsertSafe() {
          InsertIntoLeaf(id, leaf, pos, e);
          r := Inserted;
        } else {
          r := InsertPessimistic(e);
        }
      }
      if r.Inserted? && NoFullLeaf(Capacity(), before) {
        NoFullLeafStep(Capacity(), before, e, pages);
      }
    }

    /** The leaf has room and stays below its capacity. */
    method InsertIntoLeaf(id: PageId, leaf: LeafPage, pos: nat, e: Entry)
      requires Valid() && rootPageId != INVALID_PAGE_ID
      requires id in pages && id in shape && pages[id].LeafNode? && Holds(shape[id], e)
      requires leaf.Valid() && leaf.maxSize == leafMax && leaf.tombCap == 0 && leaf.size + 1 < leafMax
      requires leaf.Data() == pages[id].leaf && leaf.size == |pages[id].leaf.entries|
      requires IsLowerBound(pages[id].leaf.entries, e, pos) && e !in pages[id].leaf.entries
      modifies this`pages, leaf`size, leaf.entries, leaf.tombs
      ensures Valid() && Entries() == old(Entries()) + {e}
      ensures InsertStep(Capacity(), old(Leaves(pages)), e, Leaves(pages))
    {
      InsertContents(pages, shape, rootPageId, id, pos, e);
      leaf.InsertAt(pos, e);
      SetLeaf(pages, id, leaf.Data());
      InsertSeen(pages, id, pos, e, pages[id := LeafNode(leaf.Data())], INVALID_PAGE_ID);
      pages := pages[id := LeafNode(leaf.Data())];
    }

    /** What became of the routed leaf, as a step of the leaves. */
    lemma InsertSeen(v: Store, id: PageId, pos: nat, e: Entry, w: Store, q: PageId)
      requires id in v && v[id].LeafNode? && IsLowerBound(v[id].leaf.entries, e, pos) && leafMax >= 2
      requires var es, m := v[id].leaf.entries[..pos] + [e] + v[id].leaf.entries[pos..], leafMax / 2;
        if |es| < leafMax then Leaves(w) == Leaves(v)[id := es]
        else |es| == leafMax && q !in v && Leaves(w) == Leaves(v)[id := es[..m]][q := es[m..]]
      ensures InsertStep(Capacity(), Leaves(v), e, Leaves(w))
    {
      var a := Leaves(v);
      assert id in a && a[id] == v[id].leaf.entries;
      var es := a[id][..pos] + [e] + a[id][pos..];
      assert |es| == leafMax ==> q !in a;
      assert Grown(Capacity(), a, id, es, Leaves(w));
    }

    /** Latches the leaf responsible for `e` and finds `e`'s position in it. */
    method Locate(id: PageId, e: Entry) returns (leaf: LeafPage, pos: nat, present: bool)
      requires Valid() && rootPageId != INVALID_PAGE_ID
      requires id in pages && id in shape && pages[id].LeafNode? && Holds(shape[id], e)
      ensures fresh(leaf) && fresh(leaf.entries) && fresh(leaf.tombs)
      ensures leaf.Valid() && leaf.maxSize == leafMax && leaf.tombCap == 0
      ensures leaf.Data() == pages[id].leaf && leaf.size == |pages[id].leaf.entries| && leaf.Data().tombs == []
      ensures IsLowerBound(pages[id].leaf.entries, e, pos)
      ensures present <==> e in Entries()
      ensures present ==> pos < leaf.size && pages[id].leaf.entries[pos] == e
      ensures !present ==> e !in pages[id].leaf.entries
      ensures RoutedLeafFull(Capacity(), pages, shape, e) <==> leaf.size == leafMax
    {
      assert PageOk(shape, id, pages[id]);
      leaf := new LeafPage.FromData(leafMax, 0, pages[id].leaf);
      pos := leaf.FindInsertPos(e);
      LeafAt(id, e, pos);
      assert forall i :: 0 <= i < leaf.size ==> leaf.entries[i] == pages[id].leaf.entries[i];
      present := pos < leaf.size && CompareEntry(leaf.entries[pos], e).Equal?;
    }

    /** What a lookup position in the routed leaf says about the whole tree. */
    lemma LeafAt(id: PageId, e: Entry, pos: nat)
      requires Valid() && id in pages && id in shape && pages[id].LeafNode? && Holds(shape[id], e)
      requires WF(pages, shape, rootPageId)
      requires IsLowerBound(pages[id].leaf.entries, e, pos)
      ensures e in Entries() <==> pos < |pages[id].leaf.entries| && pages[id].leaf.entries[pos] == e
      ensures RoutedLeafFull(Capacity(), pages, shape, e) <==> |pages[id].leaf.entries| == leafMax
      ensures e !in Entries() ==> e !in pages[id].leaf.entries
    {
      ContentsAt(pages, shape, rootPageId, id, e);
      assert PageOk(shape, id, pages[id]);
      var es := pages[id].leaf.entries;
      if e in es {
        var i :| 0 <= i < |es| && es[i] == e;
        assert i >= pos;
      }
      if RoutedLeafFull(Capacity(), pages, shape, e) {
        var b :| Routed(pages, shape, b, e) && |pages[b].leaf.entries| == leafMax;
        assert PageOk(shape, b, pages[b]);
        Unique(pages, shape, rootPageId, id, b, e);
      }
      assert Routed(pages, shape, id, e);
    }

    /** Follows the separators from the root to the leaf responsible for `e`. */
    method DescendReadPath(e: Entry) returns (id: PageId)
      requires Valid() && rootPageId != INVALID_PAGE_ID
      ensures id in pages && id in shape && pages[id].LeafNode? && Holds(shape[id], e)
      ensures |pages[id].leaf.entries| <= leafMax && pages[id].leaf.tombs == [] && Sorted(pages[id].leaf.entries)
    {
      id := rootPageId;
      while pages[id].InnerNode?
        invariant id in pages && id in shape && Holds(shape[id], e)
        decreases shape[id].level
      {
        assert PageOk(shape, id, pages[id]);
        var internal := new InternalPage.FromData(internalMax, pages[id].inner);
        var k := internal.FindChildIdxForInsert(e);
        DescendStep(pages, shape, rootPageId, id, k, e);
        assert internal.values[k] == internal.Data().kids[k];
        id := internal.values[k];
      }
      assert PageOk(shape, id, pages[id]);
    }

    /** Latches the path to the leaf responsible for `e`, letting go of all
        ancestors (and the header) below a page that no insertion can split. */
    method DescendWritePathForInsert(e: Entry) returns (writeSet: seq<PageId>, header: bool)
      requires Valid() && rootPageId != INVALID_PAGE_ID
      ensures Path(pages, shape, rootPageId, writeSet)
      ensures Retained(Capacity(), pages, rootPageId, writeSet)
      ensures header <==> writeSet[0] == rootPageId
      ensures var id := writeSet[|writeSet| - 1];
        pages[id].LeafNode? && Holds(shape[id], e)
    {
      writeSet, header := [rootPageId], true;
      var id := rootPageId;
      while pages[id].InnerNode?
        invariant Path(pages, shape, rootPageId, writeSet)
        invariant Retained(Capacity(), pages, rootPageId, writeSet)
        invariant header <==> writeSet[0] == rootPageId
        invariant id == writeSet[|writeSet| - 1] && id in shape && Holds(shape[id], e)
        decreases shape[id].level
      {
        assert PageOk(shape, id, pages[id]);
        var internal := new InternalPage.FromData(internalMax, pages[id].inner);
        var k := internal.FindChildIdxForInsert(e);
        DescendStep(pages, shape, rootPageId, id, k, e);
        assert internal.values[k] == internal.Data().kids[k];
        var child := internal.values[k];
        if InsertSafe(Capacity(), pages[child]) {
          writeSet, header := [child], false;
        } else {
          PathPush(pages, shape, rootPageId, writeSet, child);
          writeSet := writeSet + [child];
        }
        id := child;
      }
    }

    method InsertPessimistic(e: Entry) returns (r: InsertResult)
      requires Valid()
      modifies this
      ensures Valid()
      ensures r.Duplicate? <==> e in old(Entries())
      ensures r.Panicked? <==> e !in old(Entries()) && old(RoutedLeafFull(Capacity(), pages, shape, e))
      ensures Entries() == if r.Inserted? then old(Entries()) + {e} else old(Entries())
      ensures !r.Inserted? ==> pages == old(pages) && rootPageId == old(rootPageId) && shape == old(shape)
      ensures r.Inserted? ==> InsertStep(Capacity(), old(Leaves(pages)), e, Leaves(pages))
    {
      if rootPageId == INVALID_PAGE_ID {
        StartTree(e);
        return Inserted;
      }
      var writeSet, header := DescendWritePathForInsert(e);
      var leaf, pos, present := Locate(writeSet[|writeSet| - 1], e);
      if present {
        return Duplicate;
      }
      if leaf.size >= leafMax {
        return Panicked;
      }
      InsertInLeaf(writeSet, header, leaf, pos, e);
      r := Inserted;
    }

    method InsertInLeaf(writeSet: seq<PageId>, header: bool, leaf: LeafPage, pos: nat, e: Entry)
      requires Valid() && rootPageId != INVALID_PAGE_ID
      requires Path(pages, shape, rootPageId, writeSet) && Retained(Capacity(), pages, rootPageId, writeSet)
      requires header <==> writeSet[0] == rootPageId
      requires leaf.Valid() && leaf.maxSize == leafMax && leaf.tombCap == 0 && leaf.size < leafMax
      requires var id := writeSet[|writeSet| - 1];
        && pages[id] == LeafNode(leaf.Data()) && Holds(shape[id], e)
        && IsLowerBound(pages[id].leaf.entries, e, pos) && e !in pages[id].leaf.entries
      modifies this, leaf, leaf.entries, leaf.tombs
      ensures Valid() && Entries() == old(Entries()) + {e}
      ensures InsertStep(Capacity(), old(Leaves(pages)), e, Leaves(pages))
    {
      hide Contents, InsertStep;
      var id := writeSet[|writeSet| - 1];
      ghost var before := pages;
      InsertContents(pages, shape, rootPageId, id, pos, e);
      leaf.InsertAt(pos, e);
      assert leaf.size == |leaf.Data().entries|;
      if leaf.size == leafMax {
        RetainedAtFullLeaf(Capacity(), pages, shape, rootPageId, writeSet, leaf.Data());
        var siblingId := SplitLeaf(writeSet, header, leaf);
        InsertSeen(before, id, pos, e, pages, siblingId);
      } else {
        SetLeaf(pages, id, leaf.Data());
        pages := pages[id := LeafNode(leaf.Data())];
        InsertSeen(before, id, pos, e, pages, INVALID_PAGE_ID);
      }
    }

    /** The first entry of an empty tree: a root leaf. */
    method StartTree(e: Entry)
      requires Valid() && rootPageId == INVALID_PAGE_ID
      modifies this
      ensures Valid() && Entries() == {e} && InsertStep(Capacity(), map[], e, Leaves(pages))
    {
      hide WF, Sized, Contents, Leaves, InsertStep, Sorted;
      var id := NewPage();
      rootPageId := id;
      var leaf := new LeafPage.Init(leafMax, 0);
      leaf.InsertAt(0, e);
      pages := pages[id := LeafNode(leaf.Data())];
      shape := map[id := Info(NegInf, PosInf, 0, INVALID_PAGE_ID)];
      assert leaf.Data() == Leaf([e], [], INVALID_PAGE_ID);
      FirstLeaf(id, e);
    }

    lemma FirstLeaf(id: PageId, e: Entry)
      requires id != INVALID_PAGE_ID && leafMax >= 2
      ensures var v := map[id := LeafNode(Leaf([e], [], INVALID_PAGE_ID))];
        && WF(v, map[id := Info(NegInf, PosInf, 0, INVALID_PAGE_ID)], id) && Sized(Capacity(), v, id, INVALID_PAGE_ID)
        && Contents(v) == {e} && InsertStep(Capacity(), map[], e, Leaves(v))
    {
      var v := map[id := LeafNode(Leaf([e], [], INVALID_PAGE_ID))];
      assert Leaves(v) == map[id := [e]];
      ContentsMember(v, id, e);
    }

    /** Moves the upper half of the full leaf at the end of the path to a new
        sibling and hands the sibling to the parent. */
    method SplitLeaf(writeSet: seq<PageId>, header: bool, leaf: LeafPage) returns (siblingId: PageId)
      requires leafMax >= 2 && internalMax >= 3 && IdsBelow(pages, nextPageId) && nextPageId > INVALID_PAGE_ID
      requires leaf.Valid() && leaf.maxSize == leaf.size == leafMax && leaf.tombCap == 0
      requires writeSet != [] && writeSet[|writeSet| - 1] in pages
      requires var v := pages[writeSet[|writeSet| - 1] := LeafNode(leaf.Data())];
        && WF(v, shape, rootPageId) && Path(v, shape, rootPageId, writeSet)
        && Retained(Capacity(), v, rootPageId, writeSet)
        && Sized(Capacity(), v, rootPageId, writeSet[|writeSet| - 1])
      requires header <==> writeSet[0] == rootPageId
      modifies this, leaf`size, leaf`numTombs, leaf`next, leaf.tombs
      ensures Valid()
      ensures Entries() == old(Contents(pages[writeSet[|writeSet| - 1] := LeafNode(leaf.Data())]))
      ensures siblingId !in old(pages)
      ensures var id, es, m := writeSet[|writeSet| - 1], old(leaf.Data()).entries, leafMax / 2;
        Leaves(pages) == old(Leaves(pages))[id := es[..m]][siblingId := es[m..]]
    {
      var id := writeSet[|writeSet| - 1];
      ghost var v := pages[id := LeafNode(leaf.Data())];
      siblingId := NewPage();
      var sibling, separator := HalveLeaf(leaf, siblingId);
      SetLeaf(pages, id, leaf.Data());
      SetLeaf(pages[id := LeafNode(leaf.Data())], siblingId, sibling.Data());
      pages := pages[id := LeafNode(leaf.Data())][siblingId := LeafNode(sibling.Data())];
      LeafSplits(Capacity(), v, shape, rootPageId, writeSet, pages, siblingId);
      InsertIntoParent(writeSet, header, separator, siblingId, v);
    }

    /** Moves the upper half of a full leaf to a fresh page linked after it. */
    method HalveLeaf(leaf: LeafPage, siblingId: PageId) returns (sibling: LeafPage, separator: Entry)
      requires leaf.Valid() && leaf.maxSize == leaf.size == leafMax >= 2 && leaf.tombCap == 0
      modifies leaf`size, leaf`numTombs, leaf`next, leaf.tombs
      ensures leaf.Valid() && sibling.Valid() && fresh(sibling)
      ensures var es, m := old(leaf.Data()).entries, leafMax / 2;
        && leaf.Data() == Leaf(es[..m], [], siblingId)
        && sibling.Data() == Leaf(es[m..], [], old(leaf.next))
        && separator == es[m]
    {
      ghost var es := leaf.Data().entries;
      sibling := new LeafPage.Init(leafMax, 0);
      sibling.next := leaf.next;
      var splitIdx := leaf.MinSize();
      LeafLive.NoTombsLive(es, splitIdx, |es|);
      leaf.MoveSplitEntriesTo(sibling, splitIdx);
      leaf.next := siblingId;
      separator := sibling.entries[0];
      assert sibling.Data().entries[0] == separator;
    }

    /** Carries a split upward until a parent absorbs it or a new root is made. */
    method InsertIntoParent(writeSet: seq<PageId>, header: bool, splitKey: Entry, rightSibling: PageId, ghost v: Store)
      requires leafMax >= 2 && internalMax >= 3 && IdsBelow(pages, nextPageId)
      requires Pending(Capacity(), v, shape, rootPageId, pages, writeSet, splitKey, rightSibling)
      requires header <==> writeSet[0] == rootPageId
      modifies this
      ensures Valid() && Entries() == Contents(v)
      ensures Leaves(pages) == old(Leaves(pages))
    {
      var ws, key, right := writeSet, splitKey, rightSibling;
      ghost var cur := v;
      while true
        invariant IdsBelow(pages, nextPageId)
        invariant Pending(Capacity(), cur, shape, rootPageId, pages, ws, key, right)
        invariant header <==> ws[0] == rootPageId
        invariant Contents(cur) == Contents(v) && Leaves(pages) == old(Leaves(pages))
        decreases |ws|
      {
        var left := ws[|ws| - 1];
        if |ws| == 1 {
          // No ancestor is left, so the split page was the root and the header is still latched.
          assert left == rootPageId && header;
          AddRoot(left, key, right, cur);
          return;
        }
        ghost var at := PendingParent(Capacity(), cur, shape, rootPageId, pages, ws, key, right);
        if |pages[ws[|ws| - 2]].inner.kids| < internalMax {
          AbsorbSplit(ws, key, right, cur);
          return;
        }
        key, right, cur := SplitParent(ws, key, right, cur);
        ws := ws[..|ws| - 1];
      }
    }

    method AddRoot(left: PageId, key: Entry, right: PageId, ghost v: Store)
      requires leafMax >= 2 && internalMax >= 3 && IdsBelow(pages, nextPageId) && left == rootPageId
      requires Pending(Capacity(), v, shape, rootPageId, pages, [left], key, right)
      modifies this
      ensures Valid() && Entries() == Contents(v) && Leaves(pages) == old(Leaves(pages))
    {
      FreshId(Capacity(), v, shape, rootPageId, pages, [left], key, right, nextPageId);
      var newRoot := NewPage();
      var page := new InternalPage.Init(internalMax);
      page.values[0] := left;
      page.keys[1] := key;
      page.values[1] := right;
      page.size := 2;
      assert page.Data() == Inner([key], [left, right]);
      SplitReachesRoot(Capacity(), v, shape, rootPageId, pages, key, right, newRoot);
      ghost var c := Cutting(left, right, newRoot, 1, pages[left], key, pages[right]);
      shape := CutShape(GrowShape(shape, rootPageId, newRoot), c);
      SetInner(pages, newRoot, page.Data());
      pages := pages[newRoot := InnerNode(page.Data())];
      rootPageId := newRoot;
    }

    /** The parent has room for the new child. */
    method AbsorbSplit(ws: seq<PageId>, key: Entry, right: PageId, ghost v: Store)
      requires leafMax >= 2 && internalMax >= 3 && IdsBelow(pages, nextPageId)
      requires Pending(Capacity(), v, shape, rootPageId, pages, ws, key, right) && |ws| > 1
      requires var p := ws[|ws| - 2]; p in pages && pages[p].InnerNode? && |pages[p].inner.kids| < internalMax
      modifies this
      ensures Valid() && Entries() == Contents(v) && Leaves(pages) == old(Leaves(pages))
    {
      hide PageOk, Attached, InnerOk, LeafOk, Contents, WF;
      ghost var at := PendingParent(Capacity(), v, shape, rootPageId, pages, ws, key, right);
      var p := ws[|ws| - 2];
      var parent;
      parent, at := GrownParent(pages[p].inner, ws[|ws| - 1], key, right);
      HandToParent(Capacity(), v, shape, rootPageId, pages, ws, key, right, at);
      shape := CutShape(shape, ParentCut(pages, ws, at, key, right));
      SetInner(pages, p, parent);
      pages := pages[p := InnerNode(parent)];
    }

    /** Inserts `right` behind `left` into a page with room. */
    method GrownParent(d: Inner, left: PageId, key: Entry, right: PageId) returns (grown: Inner, ghost at: nat)
      requires d.Shaped() && |d.kids| < internalMax && left in d.kids
      ensures 1 <= at <= |d.kids| && d.kids[at - 1] == left && grown == d.Insert(at, key, right)
    {
      var parent := new InternalPage.FromData(internalMax, d);
      at := parent.InsertAfter(left, key, right);
      grown := parent.Data();
    }

    /** The parent is full: it splits, and its own split is pending. */
    method SplitParent(ws: seq<PageId>, key: Entry, right: PageId, ghost v: Store)
        returns (promoted: Entry, sibling: PageId, ghost w: Store)
      requires leafMax >= 2 && internalMax >= 3 && IdsBelow(pages, nextPageId)
      requires Pending(Capacity(), v, shape, rootPageId, pages, ws, key, right) && |ws| > 1
      requires var p := ws[|ws| - 2]; p in pages && pages[p].InnerNode? && |pages[p].inner.kids| >= internalMax
      modifies this
      ensures rootPageId == old(rootPageId) && IdsBelow(pages, nextPageId)
      ensures Pending(Capacity(), w, shape, rootPageId, pages, ws[..|ws| - 1], promoted, sibling)
      ensures Contents(w) == Contents(v) && Leaves(pages) == old(Leaves(pages))
    {
      hide WF, Leaves, Contents, PageOk, Attached, InnerOk, LeafOk, CutShape;
      ghost var at := PendingParent(Capacity(), v, shape, rootPageId, pages, ws, key, right);
      var p := ws[|ws| - 2];
      FreshId(Capacity(), v, shape, rootPageId, pages, ws, key, right, nextPageId);
      sibling := NewPage();
      var parent, parentSibling;
      parent, parentSibling, promoted, at := HalveParent(pages[p].inner, ws[|ws| - 1], key, right);
      HandToParent(Capacity(), v, shape, rootPageId, pages, ws, key, right, at);
      PathAbove(Capacity(), v, shape, rootPageId, pages, ws, key, right, at);
      w := CutStore(v, ParentCut(pages, ws, at, key, right));
      shape := CutShape(shape, ParentCut(pages, ws, at, key, right));
      SetInner(pages, p, parent);
      SetInner(pages[p := InnerNode(parent)], sibling, parentSibling);
      pages := pages[p := InnerNode(parent)][sibling := InnerNode(parentSibling)];
      SplitMovesUp(Capacity(), w, shape, rootPageId, ws[..|ws| - 1], pages, sibling);
    }

    /** Splits the full page `d` around the insertion of `right` after `left`. */
    method HalveParent(d: Inner, left: PageId, key: Entry, right: PageId)
        returns (lower: Inner, upper: Inner, promoted: Entry, ghost at: nat)
      requires d.Shaped() && |d.kids| == internalMax >= 3 && left in d.kids
      ensures 1 <= at <= |d.kids| && d.kids[at - 1] == left
      ensures var whole, m := d.Insert(at, key, right), (internalMax + 1) / 2;
        lower == whole.Take(m) && upper == whole.Drop(m) && promoted == whole.seps[m - 1]
    {
      var parent := new InternalPage.FromData(internalMax, d);
      var parentSibling := new InternalPage.Init(internalMax);
      promoted, at := parent.SplitInsertAfter(parentSibling, left, key, right);
      lower, upper := parent.Data(), parentSibling.Data();
    }


    // ---- deletion ---------------------------------------------------------------

    method Remove(e: Entry) returns (r: RemoveResult)
      requires Valid()
      modifies this
      ensures Valid()
      ensures r.Removed? <==> e in old(Entries())
      ensures Entries() == old(Entries()) - {e}
      ensures r.Removed? ==> RemoveStep(Capacity(), old(Leaves(pages)), e, Leaves(pages))
      ensures r.Removed? ==> Blocked(Capacity(), pages, shape) == old(BlockedWithout(Capacity(), pages, shape, rootPageId, e))
      ensures r.NotFound? ==> pages == old(pages) && rootPageId == old(rootPageId) && shape == old(shape)
    {
      if rootPageId == INVALID_PAGE_ID {
        return NotFound;
      }
      var id := DescendReadPath(e);
      var leaf, pos, present := Locate(id, e);
      if !present {
        return NotFound;
      }
      var safe := if id == rootPageId then leaf.size > 1 else leaf.IsDeleteSafe();
      if !safe {
        r := RemovePessimistic(e);
        return;
      }
      DeleteSafely(id, leaf, pos, e);
      r := Removed;
    }

    /** The leaf can spare the entry at `pos`. */
    method DeleteSafely(id: PageId, leaf: LeafPage, pos: nat, e: Entry)
      requires Valid() && rootPageId != INVALID_PAGE_ID
      requires id in pages && id in shape && pages[id].LeafNode? && Holds(shape[id], e)
      requires leaf.Valid() && leaf.tombCap == 0 && leaf.Data() == pages[id].leaf && leaf.size == |pages[id].leaf.entries|
      requires pos < leaf.size && pages[id].leaf.entries[pos] == e
      requires if id == rootPageId then leaf.size > 1 else leaf.size > Capacity().MinLeaf()
      modifies this`pages, leaf`size, leaf`numTombs, leaf.entries, leaf.tombs
      ensures Valid() && Entries() == old(Entries()) - {e}
      ensures RemoveStep(Capacity(), old(Leaves(pages)), e, Leaves(pages))
      ensures Blocked(Capacity(), pages, shape) == old(BlockedWithout(Capacity(), pages, shape, rootPageId, e))
    {
      hide Blocked, BlockedWithout, RemoveStep, WF, Leaves, Contents;
      ghost var before := pages;
      SizeAt(id);
      if id == rootPageId {
        RootLeafAlone(pages, shape, rootPageId);
      }
      DeleteFromLeaf(id, leaf, pos, e);
      SizedAll(Capacity(), pages, rootPageId, id);
      RemoveSeenSpared(before, id, pos, e, leaf.Data(), id == rootPageId);
      SparedRoom(Capacity(), before, shape, rootPageId, id, e, leaf.Data());
    }

    /** What became of the leaf that held `e`, as a step of the leaves. */
    lemma RemoveSeen(v: Store, id: PageId, pos: nat, e: Entry, w: Store)
      requires id in v && v[id].LeafNode? && pos < |v[id].leaf.entries| && v[id].leaf.entries[pos] == e
      requires var es := v[id].leaf.entries[..pos] + v[id].leaf.entries[pos + 1..];
        Shrunk(Capacity(), Leaves(v), id, es, Leaves(w))
      ensures RemoveStep(Capacity(), Leaves(v), e, Leaves(w))
    {
      var a := Leaves(v);
      assert id in a && a[id] == v[id].leaf.entries;
      assert Shrunk(Capacity(), a, id, a[id][..pos] + a[id][pos + 1..], Leaves(w));
    }

    lemma SizeAt(id: PageId)
      requires Valid() && rootPageId != INVALID_PAGE_ID && id in pages
      ensures SizeOk(Capacity(), pages[id], id == rootPageId)
    {
    }

    lemma RemoveSeenSpared(v: Store, id: PageId, pos: nat, e: Entry, l: Leaf, alone: bool)
      requires id in v && v[id].LeafNode? && pos < |v[id].leaf.entries| && v[id].leaf.entries[pos] == e
      requires l.entries == v[id].leaf.entries[..pos] + v[id].leaf.entries[pos + 1..] && l.entries != []
      requires if alone then v.Keys == {id} else |l.entries| >= Capacity().MinLeaf()
      ensures RemoveStep(Capacity(), Leaves(v), e, Leaves(v[id := LeafNode(l)]))
    {
      SetLeaf(v, id, l);
      RemoveSeen(v, id, pos, e, v[id := LeafNode(l)]);
    }

    lemma RemoveSeenAlone(v: Store, id: PageId, pos: nat, e: Entry, l: Leaf, w: Store)
      requires id in v && v[id].LeafNode? && pos < |v[id].leaf.entries| && v[id].leaf.entries[pos] == e
      requires l.entries == v[id].leaf.entries[..pos] + v[id].leaf.entries[pos + 1..] && v.Keys == {id}
      requires Leaves(w) == if l.entries == [] then map[] else Leaves(v[id := LeafNode(l)])
      ensures RemoveStep(Capacity(), Leaves(v), e, Leaves(w))
    {
      SetLeaf(v, id, l);
      RemoveSeen(v, id, pos, e, w);
    }

    lemma RemoveSeenHelped(v: Store, id: PageId, pos: nat, e: Entry, l: Leaf, w: Store)
      requires id in v && v[id].LeafNode? && pos < |v[id].leaf.entries| && v[id].leaf.entries[pos] == e
      requires l.entries == v[id].leaf.entries[..pos] + v[id].leaf.entries[pos + 1..]
      requires Leaves(v).Keys != {id} && |l.entries| < Capacity().MinLeaf()
      requires NeighbourHelps(Capacity(), Leaves(v[id := LeafNode(l)]), id, Leaves(w))
      ensures RemoveStep(Capacity(), Leaves(v), e, Leaves(w))
    {
      SetLeaf(v, id, l);
      RemoveSeen(v, id, pos, e, w);
    }

    /** Removes the entry at `pos`; only the leaf's size may now be too small. */
    method DeleteFromLeaf(id: PageId, leaf: LeafPage, pos: nat, e: Entry)
      requires Valid() && rootPageId != INVALID_PAGE_ID
      requires id in pages && id in shape && pages[id].LeafNode? && Holds(shape[id], e)
      requires leaf.Valid() && leaf.tombCap == 0 && leaf.Data() == pages[id].leaf
      requires pos < leaf.size && pages[id].leaf.entries[pos] == e
      modifies this`pages, leaf`size, leaf`numTombs, leaf.entries, leaf.tombs
      ensures leaf.Valid() && leaf.size == old(leaf.size) - 1
      ensures WF(pages, shape, rootPageId) && Sized(Capacity(), pages, rootPageId, id)
      ensures Entries() == old(Entries()) - {e}
      ensures leaf.size == |leaf.Data().entries| && pages == old(pages)[id := LeafNode(leaf.Data())]
      ensures leaf.Data().entries == old(leaf.Data()).entries[..pos] + old(leaf.Data()).entries[pos + 1..]
    {
      RemoveContents(pages, shape, rootPageId, id, pos, e);
      leaf.RemoveAt(pos);
      assert leaf.Data().tombs == [];
      pages := pages[id := LeafNode(leaf.Data())];
    }

    /** Latches the path to the leaf responsible for `e`, letting go of all
        ancestors (and the header) above a page that can spare an entry. */
    method DescendWritePathForDelete(e: Entry) returns (writeSet: seq<PageId>, header: bool)
      requires Valid() && rootPageId != INVALID_PAGE_ID
      ensures Path(pages, shape, rootPageId, writeSet)
      ensures RetainedForDelete(Capacity(), pages, rootPageId, writeSet)
      ensures header <==> writeSet[0] == rootPageId
      ensures var id := writeSet[|writeSet| - 1];
        pages[id].LeafNode? && Holds(shape[id], e)
    {
      writeSet, header := [rootPageId], true;
      var id := rootPageId;
      while pages[id].InnerNode?
        invariant Path(pages, shape, rootPageId, writeSet)
        invariant RetainedForDelete(Capacity(), pages, rootPageId, writeSet)
        invariant header <==> writeSet[0] == rootPageId
        invariant id == writeSet[|writeSet| - 1] && id in shape && Holds(shape[id], e)
        decreases shape[id].level
      {
        assert PageOk(shape, id, pages[id]);
        var internal := new InternalPage.FromData(internalMax, pages[id].inner);
        var k := internal.FindChildIdxForInsert(e);
        DescendStep(pages, shape, rootPageId, id, k, e);
        assert internal.values[k] == internal.Data().kids[k];
        var child := internal.values[k];
        if child == rootPageId || DeleteSafe(Capacity(), pages[child]) {
          writeSet, header := [child], false;
        } else {
          PathPush(pages, shape, rootPageId, writeSet, child);
          writeSet := writeSet + [child];
        }
        id := child;
      }
    }

    method RemovePessimistic(e: Entry) returns (r: RemoveResult)
      requires Valid() && rootPageId != INVALID_PAGE_ID
      modifies this
      ensures Valid()
      ensures r.Removed? <==> e in old(Entries())
      ensures Entries() == old(Entries()) - {e}
      ensures r.Removed? ==> RemoveStep(Capacity(), old(Leaves(pages)), e, Leaves(pages))
      ensures r.Removed? ==> Blocked(Capacity(), pages, shape) == old(BlockedWithout(Capacity(), pages, shape, rootPageId, e))
      ensures r.NotFound? ==> pages == old(pages) && rootPageId == old(rootPageId) && shape == old(shape)
    {
      var writeSet, header := DescendWritePathForDelete(e);
      var id := writeSet[|writeSet| - 1];
      var leaf, pos, present := Locate(id, e);
      if !present {
        return NotFound;
      }
      RemoveAtPath(writeSet, header, leaf, pos, e);
      r := Removed;
    }

    /** Deletes the entry at `pos` of the leaf at the end of the latched path
        and repairs the tree upward as far as needed. */
    method RemoveAtPath(writeSet: seq<PageId>, header: bool, leaf: LeafPage, pos: nat, e: Entry)
      requires Valid() && rootPageId != INVALID_PAGE_ID
      requires Path(pages, shape, rootPageId, writeSet)
      requires RetainedForDelete(Capacity(), pages, rootPageId, writeSet)
      requires header <==> writeSet[0] == rootPageId
      requires leaf.Valid() && leaf.tombCap == 0 && leaf.maxSize == leafMax
      requires var id := writeSet[|writeSet| - 1];
        && pages[id].LeafNode? && Holds(shape[id], e) && leaf.Data() == pages[id].leaf
        && leaf.size == |pages[id].leaf.entries|
        && pos < leaf.size && pages[id].leaf.entries[pos] == e
      modifies this, leaf`size, leaf`numTombs, leaf.entries, leaf.tombs
      ensures Valid() && Entries() == old(Entries()) - {e}
      ensures RemoveStep(Capacity(), old(Leaves(pages)), e, Leaves(pages))
      ensures Blocked(Capacity(), pages, shape) == old(BlockedWithout(Capacity(), pages, shape, rootPageId, e))
    {
      hide WF, Leaves, Sized, Contents, RemoveStep, Shrunk, NeighbourHelps, PageOk, Attached, Blocked, BlockedWithout, BlockedAfter, BlockedBeside;
      var id := writeSet[|writeSet| - 1];
      var isSafe := leaf.IsDeleteSafe();
      ghost var v := pages;
      SizeAt(id);
      if isSafe {
        DeleteSafely(id, leaf, pos, e);
        return;
      }
      OnPath(writeSet);
      WithoutIs(Capacity(), pages, shape, rootPageId, id, e);
      DeleteFromLeaf(id, leaf, pos, e);
      AfterReplaced(Capacity(), v, shape, rootPageId, id, leaf.Data(), leaf.size);
      PathLeafReplaced(v, shape, rootPageId, writeSet, leaf.Data());
      if |writeSet| == 1 {
        RootRoom(v, shape, id, leaf.size);
        DeleteFromRootLeaf(header);
        RemoveSeenAlone(v, id, pos, e, leaf.Data(), pages);
      } else {
        RebalanceLeaf(writeSet, header);
        RemoveSeenHelped(v, id, pos, e, leaf.Data(), pages);
      }
    }

    /** The last page of a latched path is the only leaf, or it has company. */
    lemma OnPath(ws: seq<PageId>)
      requires Valid() && rootPageId != INVALID_PAGE_ID
      requires Path(pages, shape, rootPageId, ws) && pages[ws[|ws| - 1]].LeafNode?
      ensures ws[|ws| - 1] == rootPageId ==> |ws| == 1 && pages.Keys == {rootPageId}
      ensures |ws| > 1 ==> Leaves(pages).Keys != {ws[|ws| - 1]} && ws[|ws| - 2] in pages && ws[|ws| - 2] != ws[|ws| - 1]
    {
      var id := ws[|ws| - 1];
      if id == rootPageId {
        RootLeafAlone(pages, shape, rootPageId);
      }
      if |ws| > 1 {
        var at := PathParent(pages, shape, rootPageId, ws);
        var p := ws[|ws| - 2];
        assert SizeOk(Capacity(), pages[p], p == rootPageId) && PathLink(pages, shape, rootPageId, ws, |ws| - 2);
        NotAlone(Capacity(), pages, shape, rootPageId, id, p);
      }
    }

    lemma RootRoom(v: Store, s: Shape, root: PageId, n: int)
      requires v.Keys == {root}
      ensures BlockedAfter(Capacity(), v, s, root, root, n) == iset{}
    {
      AloneRoom(Capacity(), v, s, root);
    }

    /** A root leaf may be small; when it is empty, so is the tree. */
    method DeleteFromRootLeaf(header: bool)
      requires WF(pages, shape, rootPageId) && Sized(Capacity(), pages, rootPageId, rootPageId)
      requires leafMax >= 2 && internalMax >= 3 && IdsBelow(pages, nextPageId) && nextPageId > INVALID_PAGE_ID
      requires pages[rootPageId].LeafNode? && |pages[rootPageId].leaf.entries| < leafMax && header
      modifies this
      ensures Valid() && Entries() == old(Entries())
      ensures Leaves(pages) == if old(pages[rootPageId].leaf.entries) == [] then map[] else old(Leaves(pages))
      ensures Blocked(Capacity(), pages, shape) == iset{}
    {
      RootLeafAlone(pages, shape, rootPageId);
      var root := rootPageId;
      if |pages[root].leaf.entries| == 0 {
        rootPageId := INVALID_PAGE_ID;
        pages := pages - {root};
        shape := map[];
      } else {
        SizedAll(Capacity(), pages, rootPageId, rootPageId);
      }
    }

    /** The leaf at the end of the path is one entry short: borrow from a
        sibling if the pair holds more than one page's worth, else merge. */
    method RebalanceLeaf(writeSet: seq<PageId>, header: bool)
      requires leafMax >= 2 && internalMax >= 3 && IdsBelow(pages, nextPageId) && nextPageId > INVALID_PAGE_ID
      requires WF(pages, shape, rootPageId) && Path(pages, shape, rootPageId, writeSet) && |writeSet| > 1
      requires RetainedForDelete(Capacity(), pages, rootPageId, writeSet[..|writeSet| - 1])
      requires header <==> writeSet[0] == rootPageId
      requires var id := writeSet[|writeSet| - 1];
        && Sized(Capacity(), pages, rootPageId, id)
        && pages[id].LeafNode? && |pages[id].leaf.entries| + 1 == Capacity().MinLeaf()
      modifies this
      ensures Valid() && Entries() == old(Entries())
      ensures NeighbourHelps(Capacity(), old(Leaves(pages)), writeSet[|writeSet| - 1], Leaves(pages))
      ensures Blocked(Capacity(), pages, shape) == old(BlockedAfter(Capacity(), pages, shape, rootPageId, writeSet[|writeSet| - 1],
                                                                    |pages[writeSet[|writeSet| - 1]].leaf.entries|))
    {
      hide Blocked, BlockedAfter, RepairAmong, NeighbourHelps, Leaves, Contents;
      var id, p := writeSet[|writeSet| - 1], writeSet[|writeSet| - 2];
      ghost var at := PathParent(pages, shape, rootPageId, writeSet);
      assert SizeOk(Capacity(), pages[p], p == rootPageId);
      var parent := new InternalPage.FromData(internalMax, pages[p].inner);
      var found, leafIdx := parent.ValueIdx(id);
      assert found by { assert parent.Data().kids[at - 1] == id; }
      assert pages[p].inner.kids[leafIdx] == id;
      assert shape[id].parent == p by { assert PathLink(pages, shape, rootPageId, writeSet, |writeSet| - 2); }
      RepairIs(Capacity(), pages, shape, rootPageId, id, leafIdx, |pages[id].leaf.entries|);
      ShareOrMerge(writeSet[..|writeSet| - 1], header, leafIdx, id);
    }

    /** The child at `leafIdx` of the last latched page is a leaf one entry short. */
    method ShareOrMerge(ws: seq<PageId>, header: bool, leafIdx: nat, id: PageId)
      requires IdsBelow(pages, nextPageId) && nextPageId > INVALID_PAGE_ID
      requires Path(pages, shape, rootPageId, ws) && RetainedForDelete(Capacity(), pages, rootPageId, ws)
      requires header <==> ws[0] == rootPageId
      requires ShortChild(ws[|ws| - 1], leafIdx, id)
      requires RepairOf(Capacity(), pages, shape, rootPageId, id, |pages[id].leaf.entries|)
        == RepairAmong(Capacity(), pages, pages[ws[|ws| - 1]].inner.kids, leafIdx, |pages[id].leaf.entries|)
      modifies this
      ensures Valid() && Entries() == old(Entries())
      ensures NeighbourHelps(Capacity(), old(Leaves(pages)), id, Leaves(pages))
      ensures Blocked(Capacity(), pages, shape)
        == old(BlockedAfter(Capacity(), pages, shape, rootPageId, id, |pages[id].leaf.entries|))
    {
      hide Blocked, BlockedBeside, BlockedMerged, NeighbourHelps, Contents, WF, Path, Sized, Leaves;
      var p := ws[|ws| - 1];
      ghost var kids := pages[p].inner.kids;
      if leafIdx >= 1 {
        EitherSide(pages, shape, kids[leafIdx - 1], id);
        var done := ShareLeafPair(p, leafIdx, id);
        if done {
          return;
        }
      }
      if leafIdx + 1 < |pages[p].inner.kids| {
        var done := ShareLeafPair(p, leafIdx + 1, id);
        if done {
          return;
        }
      }
      if leafIdx >= 1 {
        MergeLeaves(ws, header, leafIdx, id);
      } else {
        MergeLeaves(ws, header, leafIdx + 1, id);
      }
    }

    /** Child `k` of `p` is the leaf `short`, which lacks one entry and has a neighbour. */
    ghost predicate ShortChild(p: PageId, k: nat, short: PageId)
      reads this
    {
      && leafMax >= 2 && internalMax >= 3
      && WF(pages, shape, rootPageId) && Sized(Capacity(), pages, rootPageId, short)
      && p in pages && pages[p].InnerNode? && k < |pages[p].inner.kids| && 2 <= |pages[p].inner.kids| <= internalMax
      && short in pages && pages[short].LeafNode? && |pages[short].leaf.entries| + 1 == Capacity().MinLeaf()
      && pages[p].inner.kids[k] == short
    }

    lemma EitherSide(v: Store, s: Shape, l: PageId, r: PageId)
      ensures BlockedBeside(Capacity(), v, s, l, r) == BlockedBeside(Capacity(), v, s, r, l)
      ensures forall n :: BlockedMerged(Capacity(), v, s, l, r, n) == BlockedMerged(Capacity(), v, s, r, l, n)
    {
      BesideEither(Capacity(), v, s, l, r);
      forall n
        ensures BlockedMerged(Capacity(), v, s, l, r, n) == BlockedMerged(Capacity(), v, s, r, l, n)
      {
        MergedEither(Capacity(), v, s, l, r, n);
      }
    }

    /** One of the children `rightIdx - 1` and `rightIdx` of `p`, the leaf
        `short`, lacks one entry; all other pages have legal sizes. */
    ghost predicate ShortLeafPair(p: PageId, rightIdx: nat, short: PageId)
      reads this
    {
      && leafMax >= 2 && internalMax >= 3
      && WF(pages, shape, rootPageId) && Sized(Capacity(), pages, rootPageId, short)
      && p in pages && pages[p].InnerNode? && 1 <= rightIdx < |pages[p].inner.kids| <= internalMax
      && short in pages && pages[short].LeafNode? && |pages[short].leaf.entries| + 1 == Capacity().MinLeaf()
      && (short == pages[p].inner.kids[rightIdx - 1] || short == pages[p].inner.kids[rightIdx])
    }

    lemma ShortLeafPairFacts(p: PageId, rightIdx: nat, short: PageId)
      requires ShortLeafPair(p, rightIdx, short)
      ensures var l, r := pages[p].inner.kids[rightIdx - 1], pages[p].inner.kids[rightIdx];
        && l in pages && r in pages && pages[l].LeafNode? && pages[r].LeafNode?
        && CanJoin(pages, shape, rootPageId, LeafJoining(pages, p, rightIdx))
        && LeafPairs.OneShort(pages[l].leaf, pages[r].leaf, leafMax)
        && pages[l].leaf.Proper() && pages[r].leaf.Proper()
        && pages[l].leaf.Live() == pages[l].leaf.entries && pages[r].leaf.Live() == pages[r].leaf.entries
        && |pages[l].leaf.entries| <= leafMax && |pages[r].leaf.entries| <= leafMax
        && pages[l].leaf.tombs == [] && pages[r].leaf.tombs == []
        && pages[p].inner.Shaped() && l in shape && r in shape && p in shape && l != r && l != p && r != p
    {
      SiblingFacts(pages, shape, rootPageId, p, rightIdx);
      var l, r := pages[p].inner.kids[rightIdx - 1], pages[p].inner.kids[rightIdx];
      LeafLive.NoTombsLive(pages[l].leaf.entries, 0, |pages[l].leaf.entries|);
      LeafLive.NoTombsLive(pages[r].leaf.entries, 0, |pages[r].leaf.entries|);
    }

    /** Divides the entries of two sibling leaves anew if they are too many for one page. */
    method ShareLeafPair(p: PageId, rightIdx: nat, ghost short: PageId) returns (done: bool)
      requires ShortLeafPair(p, rightIdx, short) && IdsBelow(pages, nextPageId) && nextPageId > INVALID_PAGE_ID
      modifies this
      ensures done ==> Valid() && Entries() == old(Entries())
      ensures done ==> NeighbourHelps(Capacity(), old(Leaves(pages)), short, Leaves(pages))
      ensures !done ==> unchanged(this)
      ensures old(LeafPairAt(pages, p, rightIdx)) && (done <==> old(PairSize(pages, p, rightIdx)) > leafMax)
      ensures var kids := old(pages[p].inner.kids);
        done ==> Blocked(Capacity(), pages, shape) == old(BlockedBeside(Capacity(), pages, shape, kids[rightIdx - 1], kids[rightIdx]))
    {
      hide Blocked, BlockedBeside, NeighbourHelps, PageOk, Attached, InnerOk, LeafOk, Contents, Sorted, JoinShape, CutShape;
      ShortLeafPairFacts(p, rightIdx, short);
      ghost var j := LeafJoining(pages, p, rightIdx);
      var l, r := pages[p].inner.kids[rightIdx - 1], pages[p].inner.kids[rightIdx];
      var parent, left, right;
      done, parent, left, right := SharedLeaves(pages[p].inner, pages[l].leaf, pages[r].leaf, rightIdx);
      if done {
        ghost var sep := right.entries[0];
        ShareLeaves(pages, shape, rootPageId, j, left, right);
        ghost var before := pages;
        SiblingsSorted(pages, shape, rootPageId, j);
        SharedRoom(Capacity(), pages, shape, rootPageId, j, left, sep, right);
        StoreShared(j, p, l, r, parent, LeafNode(left), sep, LeafNode(right), short);
        SharedSeen(before, l, left, r, right, p, parent, short);
      }
    }

    ghost predicate LeafPairAt(v: Store, p: PageId, rightIdx: nat) {
      && p in v && v[p].InnerNode? && 1 <= rightIdx < |v[p].inner.kids|
      && var l, r := v[p].inner.kids[rightIdx - 1], v[p].inner.kids[rightIdx];
      && l in v && r in v && v[l].LeafNode? && v[r].LeafNode?
    }

    ghost function PairSize(v: Store, p: PageId, rightIdx: nat): nat
      requires LeafPairAt(v, p, rightIdx)
    {
      |v[v[p].inner.kids[rightIdx - 1]].leaf.entries| + |v[v[p].inner.kids[rightIdx]].leaf.entries|
    }

    lemma SharedSeen(v: Store, l: PageId, left: Leaf, r: PageId, right: Leaf, p: PageId, parent: Inner, short: PageId)
      requires l in v && r in v && p in v && v[l].LeafNode? && v[r].LeafNode? && v[p].InnerNode?
      requires l != r && (short == l || short == r) && Sorted(v[l].leaf.entries + v[r].leaf.entries)
      requires |v[l].leaf.entries| + |v[r].leaf.entries| > leafMax
      requires left.entries + right.entries == v[l].leaf.entries + v[r].leaf.entries
      requires leafMax / 2 <= |left.entries| < leafMax && leafMax / 2 <= |right.entries| < leafMax
      ensures var w := v[l := LeafNode(left)][r := LeafNode(right)][p := InnerNode(parent)];
        NeighbourHelps(Capacity(), Leaves(v), short, Leaves(w))
    {
      SetLeaf(v, l, left);
      SetLeaf(v[l := LeafNode(left)], r, right);
      SetInner(v[l := LeafNode(left)][r := LeafNode(right)], p, parent);
      var w := v[l := LeafNode(left)][r := LeafNode(right)][p := InnerNode(parent)];
      assert Rebalanced(Capacity(), Leaves(v), short, l, r, Leaves(w));
    }

    /** Redistributes the latched pages `l` and `r` if they are too full to merge. */
    method SharedLeaves(n: Inner, l: Leaf, r: Leaf, rightIdx: nat)
        returns (done: bool, parent: Inner, left: Leaf, right: Leaf)
      requires n.Shaped() && 1 <= rightIdx < |n.kids| <= internalMax
      requires l.tombs == [] && r.tombs == [] && |l.entries| <= leafMax && |r.entries| <= leafMax && leafMax >= 2
      requires l.Live() == l.entries && r.Live() == r.entries && LeafPairs.OneShort(l, r, leafMax)
      ensures done <==> |l.entries| + |r.entries| > leafMax
      ensures done ==>
        && left.tombs == [] && right.tombs == [] && left.entries + right.entries == l.entries + r.entries
        && left.next == l.next && right.next == r.next
        && leafMax / 2 <= |left.entries| < leafMax && leafMax / 2 <= |right.entries| < leafMax
        && right.entries != [] && parent == Inner(n.seps[rightIdx - 1 := right.entries[0]], n.kids)
    {
      hide Sorted;
      var parentPage := new InternalPage.FromData(internalMax, n);
      var leftPage := new LeafPage.FromData(leafMax, 0, l);
      var rightPage := new LeafPage.FromData(leafMax, 0, r);
      var action := LeafPairs.ChooseLeafPairAction(leftPage, rightPage);
      done := action.Redistribute?;
      if done {
        LeafPairs.RedistributeLeafPair(parentPage, leftPage, rightPage, rightIdx);
      }
      parent, left, right := parentPage.Data(), leftPage.Data(), rightPage.Data();
    }

    /** Writes back two siblings that divided their content anew, and their parent. */
    method StoreShared(ghost j: Joining, p: PageId, l: PageId, r: PageId, parent: Inner,
                       left: Page, ghost sep: Entry, right: Page, ghost short: PageId)
      requires j.p == p && j.l == l && j.r == r
      requires leafMax >= 2 && internalMax >= 3 && IdsBelow(pages, nextPageId) && nextPageId > INVALID_PAGE_ID
      requires CanJoin(pages, shape, rootPageId, j)
      requires j.l in shape && j.r in shape && j.p in shape && j.l != j.r && j.p != j.l && j.p != j.r
      requires Halves(j.whole, JoinedPlace(shape, j), left, sep, right, j.r)
      requires 1 <= j.at <= |pages[j.p].inner.seps|
      requires parent == Inner(pages[j.p].inner.seps[j.at - 1 := sep], pages[j.p].inner.kids)
      requires Sized(Capacity(), pages, rootPageId, short) && (short == j.l || short == j.r)
      requires SizeOk(Capacity(), left, false) && SizeOk(Capacity(), right, false)
      modifies this`pages, this`shape
      ensures Valid() && Entries() == old(Entries())
      ensures pages == old(pages)[l := left][r := right][p := InnerNode(parent)]
      ensures old(r in pages) && shape == old(ShareShape(pages, shape, j, left, sep, right))
    {
      hide WF, CutShape, JoinShape, Kids, Before, PageOk, Attached, InnerOk, LeafOk, Halves;
      JoinKeys(pages, shape, rootPageId, j);
      Share(pages, shape, rootPageId, j, left, sep, right);
      ghost var v := pages;
      shape := ShareShape(pages, shape, j, left, sep, right);
      pages := pages[l := left][r := right][p := InnerNode(parent)];
      forall id | id in pages
        ensures SizeOk(Capacity(), pages[id], id == rootPageId)
      {
        if id != j.l && id != j.r {
          assert SizeOk(Capacity(), v[id], id == rootPageId);
        }
      }
    }

    /** Merges two sibling leaves into the left one, frees the right one's page
        and lets the parent make up for the lost child. */
    method MergeLeaves(ws: seq<PageId>, header: bool, rightIdx: nat, ghost short: PageId)
      requires IdsBelow(pages, nextPageId) && nextPageId > INVALID_PAGE_ID
      requires Path(pages, shape, rootPageId, ws) && RetainedForDelete(Capacity(), pages, rootPageId, ws)
      requires header <==> ws[0] == rootPageId
      requires ShortLeafPair(ws[|ws| - 1], rightIdx, short)
      requires LeafPairAt(pages, ws[|ws| - 1], rightIdx) && PairSize(pages, ws[|ws| - 1], rightIdx) <= leafMax
      modifies this
      ensures Valid() && Entries() == old(Entries())
      ensures NeighbourHelps(Capacity(), old(Leaves(pages)), short, Leaves(pages))
      ensures var kids := old(pages[ws[|ws| - 1]].inner.kids);
        Blocked(Capacity(), pages, shape)
          == old(BlockedMerged(Capacity(), pages, shape, kids[rightIdx - 1], kids[rightIdx], PairSize(pages, ws[|ws| - 1], rightIdx)))
    {
      hide Blocked, BlockedMerged, NeighbourHelps, PageOk, Attached, InnerOk, LeafOk, Contents, Spans, Sorted, JoinShape, RetainedForDelete, Thinned;
      var p := ws[|ws| - 1];
      ShortLeafPairFacts(p, rightIdx, short);
      var l, r := pages[p].inner.kids[rightIdx - 1], pages[p].inner.kids[rightIdx];
      var parent, merged := MergedLeaves(pages[p].inner, pages[l].leaf, pages[r].leaf, rightIdx);
      ghost var j := LeafJoining(pages, p, rightIdx);
      assert LeafNode(merged) == j.whole;
      SiblingsSorted(pages, shape, rootPageId, j);
      MergedSeen(pages, l, r, merged, p, parent, short);
      MergedRoom(Capacity(), pages, shape, rootPageId, j);
      StoreMerged(ws, Joining(p, rightIdx, l, r, LeafNode(merged)), parent, short);
      ghost var v, s := pages, shape;
      PropagateParentUnderflow(ws, header);
      SameRoom(Capacity(), v, s, pages, shape);
    }

    lemma MergedSeen(v: Store, l: PageId, r: PageId, merged: Leaf, p: PageId, parent: Inner, short: PageId)
      requires l in v && r in v && p in v && v[l].LeafNode? && v[r].LeafNode? && v[p].InnerNode?
      requires l != r && (short == l || short == r) && Sorted(v[l].leaf.entries + v[r].leaf.entries)
      requires |v[l].leaf.entries| + |v[r].leaf.entries| <= leafMax
      requires merged.entries == v[l].leaf.entries + v[r].leaf.entries
      ensures var w := (v - {r})[l := LeafNode(merged)][p := InnerNode(parent)];
        NeighbourHelps(Capacity(), Leaves(v), short, Leaves(w))
    {
      DropPage(v, r);
      SetLeaf(v - {r}, l, merged);
      SetInner((v - {r})[l := LeafNode(merged)], p, parent);
      var w := (v - {r})[l := LeafNode(merged)][p := InnerNode(parent)];
      assert Rebalanced(Capacity(), Leaves(v), short, l, r, Leaves(w));
    }

    /** Merges the latched page `r` into `l`. */
    method MergedLeaves(n: Inner, l: Leaf, r: Leaf, rightIdx: nat) returns (parent: Inner, merged: Leaf)
      requires n.Shaped() && 1 <= rightIdx < |n.kids| <= internalMax
      requires l.tombs == [] && r.tombs == [] && |l.entries| <= leafMax && |r.entries| <= leafMax && leafMax >= 2
      requires l.Live() == l.entries && r.Live() == r.entries && LeafPairs.OneShort(l, r, leafMax)
      requires |l.entries| + |r.entries| <= leafMax
      ensures merged == Leaf(l.entries + r.entries, [], r.next)
      ensures parent == n.Remove(rightIdx)
    {
      var parentPage := new InternalPage.FromData(internalMax, n);
      var leftPage := new LeafPage.FromData(leafMax, 0, l);
      var rightPage := new LeafPage.FromData(leafMax, 0, r);
      LeafPairs.MergeLeafPair(parentPage, leftPage, rightPage, rightIdx);
      parent, merged := parentPage.Data(), leftPage.Data();
      assert merged.tombs == [];
      LeafLive.NoTombsLive(merged.entries, 0, |merged.entries|);
    }

    /** Writes back a merged page and its parent and frees the other page. */
    method StoreMerged(ws: seq<PageId>, j: Joining, parent: Inner, ghost short: PageId)
      requires leafMax >= 2 && internalMax >= 3 && IdsBelow(pages, nextPageId) && nextPageId > INVALID_PAGE_ID
      requires Path(pages, shape, rootPageId, ws) && RetainedForDelete(Capacity(), pages, rootPageId, ws)
      requires CanJoin(pages, shape, rootPageId, j) && ws[|ws| - 1] == j.p
      requires Sized(Capacity(), pages, rootPageId, short) && (short == j.l || short == j.r)
      requires SizeOk(Capacity(), j.whole, false)
      requires parent == pages[j.p].inner.Remove(j.at)
      modifies this`pages, this`shape
      ensures IdsBelow(pages, nextPageId) && Entries() == old(Entries())
      ensures pages == (old(pages) - {j.r})[j.l := j.whole][j.p := InnerNode(parent)]
      ensures old(j.r in pages && j.l in shape && j.r in shape) && shape == old(JoinShape(shape, j, Kids(pages[j.r])))
      ensures Thinned(Capacity(), pages, shape, rootPageId, ws)
    {
      JoinMovesUp(Capacity(), pages, shape, rootPageId, ws, j, short);
      shape := JoinShape(shape, j, Kids(pages[j.r]));
      pages := (pages - {j.r})[j.l := j.whole][j.p := InnerNode(parent)];
    }

    /** Walks up the latched path, rebalancing internal pages that lack a child. */
    method PropagateParentUnderflow(writeSet: seq<PageId>, header: bool)
      requires leafMax >= 2 && internalMax >= 3 && IdsBelow(pages, nextPageId) && nextPageId > INVALID_PAGE_ID
      requires Thinned(Capacity(), pages, shape, rootPageId, writeSet)
      requires header <==> writeSet[0] == rootPageId
      modifies this
      ensures Valid() && Entries() == old(Entries()) && Leaves(pages) == old(Leaves(pages)) && Spans(pages, shape) == old(Spans(pages, shape))
    {
      hide Spans;
      var ws := writeSet;
      while true
        invariant IdsBelow(pages, nextPageId) && nextPageId > INVALID_PAGE_ID
        invariant Thinned(Capacity(), pages, shape, rootPageId, ws)
        invariant header <==> ws[0] == rootPageId
        invariant Entries() == old(Entries()) && Leaves(pages) == old(Leaves(pages)) && Spans(pages, shape) == old(Spans(pages, shape))
        decreases |ws|
      {
        var u := ws[|ws| - 1];
        if u == rootPageId {
          if |pages[u].inner.kids| == 1 {
            assert header by {
              if |ws| > 1 { ghost var at := PathParent(pages, shape, rootPageId, ws); }
            }
            ShrinkRootPage(header);
          } else {
            SizedAll(Capacity(), pages, rootPageId, u);
          }
          return;
        }
        if |pages[u].inner.kids| >= Capacity().MinInner() {
          SizedAll(Capacity(), pages, rootPageId, u);
          return;
        }
        assert |ws| > 1;
        var done := RebalanceInternal(ws);
        if done {
          return;
        }
        ws := ws[..|ws| - 1];
      }
    }

    /** The last page of the path lacks a child: borrow one from a sibling, or
        merge with a sibling and pass the shortage to the parent. */
    method RebalanceInternal(ws: seq<PageId>) returns (done: bool)
      requires leafMax >= 2 && internalMax >= 3 && IdsBelow(pages, nextPageId) && nextPageId > INVALID_PAGE_ID
      requires Thinned(Capacity(), pages, shape, rootPageId, ws) && |ws| > 1
      requires ws[|ws| - 1] != rootPageId
      requires |pages[ws[|ws| - 1]].inner.kids| < Capacity().MinInner()
      modifies this
      ensures rootPageId == old(rootPageId)
      ensures done ==> Valid()
      ensures !done ==> IdsBelow(pages, nextPageId) && nextPageId > INVALID_PAGE_ID
      ensures !done ==> Thinned(Capacity(), pages, shape, rootPageId, ws[..|ws| - 1])
      ensures Entries() == old(Entries()) && Leaves(pages) == old(Leaves(pages)) && Spans(pages, shape) == old(Spans(pages, shape))
    {
      hide PageOk, Attached, InnerOk, LeafOk, Spans;
      var u, p := ws[|ws| - 1], ws[|ws| - 2];
      ghost var at := PathParent(pages, shape, rootPageId, ws);
      assert SizeOk(Capacity(), pages[p], p == rootPageId);
      var parent := new InternalPage.FromData(internalMax, pages[p].inner);
      var found, idx := parent.ValueIdx(u);
      assert found by { assert parent.Data().kids[at - 1] == u; }
      assert pages[p].inner.kids[idx] == u;
      if idx >= 1 {
        done := ShareInternalPair(p, idx, u);
        if done {
          return;
        }
      }
      if idx + 1 < parent.size {
        done := ShareInternalPair(p, idx + 1, u);
        if done {
          return;
        }
      }
      MergeInternal(ws[..|ws| - 1], if idx >= 1 then idx else idx + 1, u);
      done := false;
    }

    /** One of the children `rightIdx - 1` and `rightIdx` of `p`, the internal
        page `short`, lacks one child; all other pages have legal sizes. */
    ghost predicate ShortInternalPair(p: PageId, rightIdx: nat, short: PageId)
      reads this
    {
      && leafMax >= 2 && internalMax >= 3
      && WF(pages, shape, rootPageId) && Sized(Capacity(), pages, rootPageId, short)
      && p in pages && pages[p].InnerNode? && 1 <= rightIdx < |pages[p].inner.kids| <= internalMax
      && short in pages && pages[short].InnerNode? && |pages[short].inner.kids| + 1 == Capacity().MinInner()
      && (short == pages[p].inner.kids[rightIdx - 1] || short == pages[p].inner.kids[rightIdx])
    }

    lemma ShortInternalPairFacts(p: PageId, rightIdx: nat, short: PageId)
      requires ShortInternalPair(p, rightIdx, short)
      ensures pages[p].inner.Shaped()
      ensures var l, r := pages[p].inner.kids[rightIdx - 1], pages[p].inner.kids[rightIdx];
        && l in pages && r in pages && pages[l].InnerNode? && pages[r].InnerNode?
        && CanJoin(pages, shape, rootPageId, InnerJoining(pages, p, rightIdx))
        && pages[l].inner.Shaped() && pages[r].inner.Shaped()
        && |pages[l].inner.kids| <= internalMax && |pages[r].inner.kids| <= internalMax
        && 1 <= |pages[l].inner.kids| && 1 <= |pages[r].inner.kids|
        && l in shape && r in shape && p in shape && l != r && l != p && r != p
        && (l == short || |pages[l].inner.kids| >= Capacity().MinInner())
        && (r == short || |pages[r].inner.kids| >= Capacity().MinInner())
    {
      SiblingFacts(pages, shape, rootPageId, p, rightIdx);
    }

    /** Lends the short page a child if its sibling can spare one. */
    method ShareInternalPair(p: PageId, rightIdx: nat, ghost short: PageId) returns (done: bool)
      requires ShortInternalPair(p, rightIdx, short) && IdsBelow(pages, nextPageId) && nextPageId > INVALID_PAGE_ID
      modifies this
      ensures rootPageId == old(rootPageId)
      ensures done ==> Valid() && Entries() == old(Entries()) && Leaves(pages) == old(Leaves(pages)) && Spans(pages, shape) == old(Spans(pages, shape))
      ensures !done ==> unchanged(this)
      ensures !done ==> MergeFits(pages, p, rightIdx)
    {
      hide WF, Sized, Halves, Spans, PageOk, Attached, InnerOk, LeafOk, Contents, Leaves, CutShape, JoinShape;
      ShortInternalPairFacts(p, rightIdx, short);
      ghost var j := InnerJoining(pages, p, rightIdx);
      var l, r := pages[p].inner.kids[rightIdx - 1], pages[p].inner.kids[rightIdx];
      var parent, left, right;
      done, parent, left, right := SharedInner(pages[p].inner, pages[l].inner, pages[r].inner, rightIdx);
      if done {
        ghost var whole, m := j.whole.inner, |left.kids|;
        ShareInner(pages, shape, rootPageId, j, m);
        SetInner(pages, l, left);
        SetInner(pages[l := InnerNode(left)], r, right);
        SetInner(pages[l := InnerNode(left)][r := InnerNode(right)], p, parent);
        SharedInnerSpans(pages, shape, rootPageId, j, left, whole.seps[m - 1], right);
        StoreShared(j, p, l, r, parent, InnerNode(left), whole.seps[m - 1], InnerNode(right), short);
      }
    }

    /** Moves one child between the latched pages `l` and `r` if one lacks a
        child and the other can spare one. */
    method SharedInner(n: Inner, l: Inner, r: Inner, rightIdx: nat)
        returns (done: bool, parent: Inner, left: Inner, right: Inner)
      requires n.Shaped() && l.Shaped() && r.Shaped() && 1 <= rightIdx < |n.kids| <= internalMax
      requires |l.kids| <= internalMax && |r.kids| <= internalMax
      ensures var min := (internalMax + 1) / 2;
        done <==> (|l.kids| < min && |r.kids| > min) || (|r.kids| < min && |l.kids| > min)
      ensures done ==>
        var whole, m := l.Join(n.seps[rightIdx - 1], r), |left.kids|;
        && m == (if |l.kids| < (internalMax + 1) / 2 then |l.kids| + 1 else |l.kids| - 1)
        && 1 <= m < |whole.kids| && whole.Shaped() && left == whole.Take(m) && right == whole.Drop(m)
        && parent == Inner(n.seps[rightIdx - 1 := whole.seps[m - 1]], n.kids)
    {
      var parentPage := new InternalPage.FromData(internalMax, n);
      var leftPage := new InternalPage.FromData(internalMax, l);
      var rightPage := new InternalPage.FromData(internalMax, r);
      done := InternalPairs.TryRedistributeInternalPair(parentPage, leftPage, rightPage, rightIdx);
      parent, left, right := parentPage.Data(), leftPage.Data(), rightPage.Data();
    }

    ghost predicate MergeFits(v: Store, p: PageId, rightIdx: nat) {
      && p in v && v[p].InnerNode? && 1 <= rightIdx < |v[p].inner.kids|
      && var l, r := v[p].inner.kids[rightIdx - 1], v[p].inner.kids[rightIdx];
      && l in v && r in v && v[l].InnerNode? && v[r].InnerNode?
      && Capacity().MinInner() <= |v[l].inner.kids| + |v[r].inner.kids| <= internalMax
    }

    /** Merges two sibling internal pages into the left one and frees the other's page. */
    method MergeInternal(ws: seq<PageId>, rightIdx: nat, ghost short: PageId)
      requires IdsBelow(pages, nextPageId) && nextPageId > INVALID_PAGE_ID
      requires Path(pages, shape, rootPageId, ws) && RetainedForDelete(Capacity(), pages, rootPageId, ws)
      requires ShortInternalPair(ws[|ws| - 1], rightIdx, short)
      requires MergeFits(pages, ws[|ws| - 1], rightIdx)
      modifies this`pages, this`shape
      ensures IdsBelow(pages, nextPageId) && Entries() == old(Entries()) && Leaves(pages) == old(Leaves(pages))
      ensures Spans(pages, shape) == old(Spans(pages, shape))
      ensures Thinned(Capacity(), pages, shape, rootPageId, ws)
    {
      hide PageOk, Attached, InnerOk, LeafOk;
      var p := ws[|ws| - 1];
      ShortInternalPairFacts(p, rightIdx, short);
      var l, r := pages[p].inner.kids[rightIdx - 1], pages[p].inner.kids[rightIdx];
      var parent, left;
      parent, left := MergedInner(pages[p].inner, pages[l].inner, pages[r].inner, rightIdx);
      DropInner(pages, r);
      SetInner(pages - {r}, l, left);
      SetInner((pages - {r})[l := InnerNode(left)], p, parent);
      MergedInnerSpans(pages, shape, rootPageId, Joining(p, rightIdx, l, r, InnerNode(left)));
      StoreMerged(ws, Joining(p, rightIdx, l, r, InnerNode(left)), parent, short);
    }

    /** Merges the latched page `r` into `l`. */
    method MergedInner(n: Inner, l: Inner, r: Inner, rightIdx: nat) returns (parent: Inner, left: Inner)
      requires n.Shaped() && l.Shaped() && r.Shaped() && 1 <= rightIdx < |n.kids| <= internalMax
      requires 1 <= |l.kids| && 1 <= |r.kids| && |l.kids| + |r.kids| <= internalMax
      ensures left == l.Join(n.seps[rightIdx - 1], r) && parent == n.Remove(rightIdx)
    {
      var parentPage := new InternalPage.FromData(internalMax, n);
      var leftPage := new InternalPage.FromData(internalMax, l);
      var rightPage := new InternalPage.FromData(internalMax, r);
      InternalPairs.MergeInternalRightIntoLeft(parentPage, leftPage, rightPage, rightIdx);
      parent, left := parentPage.Data(), leftPage.Data();
    }

    /** A root with a single child gives way to it. */
    method ShrinkRootPage(header: bool)
      requires leafMax >= 2 && internalMax >= 3 && IdsBelow(pages, nextPageId) && nextPageId > INVALID_PAGE_ID
      requires WF(pages, shape, rootPageId) && Sized(Capacity(), pages, rootPageId, rootPageId)
      requires pages[rootPageId].InnerNode? && |pages[rootPageId].inner.kids| == 1 && header
      modifies this
      ensures Valid() && Entries() == old(Entries()) && Leaves(pages) == old(Leaves(pages)) && Spans(pages, shape) == old(Spans(pages, shape))
    {
      var root := rootPageId;
      assert PageOk(shape, root, pages[root]);
      var child := pages[root].inner.kids[0];
      assert shape[child] == KidInfo(shape[root], root, pages[root].inner, 0);
      var childIsEmptyLeaf := pages[child].LeafNode? && |pages[child].leaf.entries| == 0;
      // A child of the root has at least the minimum size, so it never is an empty leaf.
      assert !childIsEmptyLeaf;
      ShrinkRoot(pages, shape, root);
      ShrunkSpans(pages, shape, root);
      ghost var v := pages;
      shape := shape - {root};
      rootPageId := child;
      DropInner(pages, root);
      pages := pages - {root};
      assert Contents(pages) == Contents(v) by {
        forall e | e in Contents(v) ensures e in Contents(pages) {
          var id :| id in v && v[id].LeafNode? && e in v[id].leaf.entries;
          ContentsMember(pages, id, e);
        }
      }
      forall id | id in pages
        ensures SizeOk(Capacity(), pages[id], id == child)
      {
        assert SizeOk(Capacity(), v[id], false);
      }
    }
  }
}
