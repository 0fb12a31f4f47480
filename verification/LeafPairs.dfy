/** Rebalancing two sibling leaves, for any tombstone capacity. */
module LeafPairs {
  import opened Entries
  import opened LeafPages
  import opened InternalPages
  import opened LeafLive

  datatype LeafPairAction = Redistribute | Merge

  /** The pages a rebalancing works on: same capacities, no shared arrays. */
  ghost predicate Pair(left: LeafPage, right: LeafPage)
    reads left, right
  {
    && left.Valid() && right.Valid() && left != right
    && left.entries != right.entries && left.tombs != right.tombs
    && left.maxSize == right.maxSize >= 2 && left.tombCap == right.tombCap
  }

  /** One leaf is one entry short, the other has a legal size. */
  ghost predicate OneShort(l: Leaf, r: Leaf, maxSize: nat) {
    var min := maxSize / 2;
    || (|l.entries| + 1 == min && min <= |r.entries| <= maxSize)
    || (|r.entries| + 1 == min && min <= |l.entries| <= maxSize)
  }

  method ChooseLeafPairAction(left: LeafPage, right: LeafPage) returns (a: LeafPairAction)
    requires Pair(left, right) && left.Data().Proper() && right.Data().Proper()
    ensures a.Redistribute? <==> |left.Data().Live()| + |right.Data().Live()| > left.maxSize
  {
    LiveLength(left.Data());
    LiveLength(right.Data());
    a := if (left.size - left.numTombs) + (right.size - right.numTombs) > left.maxSize
         then Redistribute else Merge;
  }

  /** Drops all tombstones and lends the short leaf what it lacks. No live
      entry is lost or reordered, both leaves end with a legal size and the
      separator is the right leaf's first entry. */
  method RedistributeLeafPair(parent: InternalPage, left: LeafPage, right: LeafPage, rightIdx: nat)
    requires Pair(left, right) && left.Data().Proper() && right.Data().Proper()
    requires OneShort(left.Data(), right.Data(), left.maxSize)
    requires |left.Data().Live()| + |right.Data().Live()| > left.maxSize
    requires parent.Valid() && 1 <= rightIdx < parent.size
    requires parent.keys != left.entries && parent.keys != right.entries
    requires parent.values != left.tombs && parent.values != right.tombs
    modifies left`size, left`numTombs, left.entries, left.tombs
    modifies right`size, right`numTombs, right.entries, right.tombs
    modifies parent.keys
    ensures Pair(left, right) && parent.Valid()
    ensures left.Data().tombs == [] && right.Data().tombs == []
    ensures left.Data().entries + right.Data().entries == old(left.Data().Live()) + old(right.Data().Live())
    ensures left.maxSize / 2 <= left.size < left.maxSize && left.maxSize / 2 <= right.size < left.maxSize
    ensures right.size >= 1
      && parent.Data() == old(parent.Data()).(seps := old(parent.Data()).seps[rightIdx - 1 := right.Data().entries[0]])
  {
    CompactPair(left, right);
    if left.size < left.MinSize() {
      BorrowFromRight(left, right, left.MinSize() - left.size);
    } else {
      assert right.size < right.MinSize();
      BorrowFromLeft(left, right, right.MinSize() - right.size);
    }
    assert right.Data().entries[0] == right.entries[0];
    parent.SetIndexKeyAt(rightIdx, right.entries[0]);
  }

  /** Both leaves without their tombstones hold exactly their live entries. */
  method CompactPair(left: LeafPage, right: LeafPage)
    requires Pair(left, right) && left.Data().Proper() && right.Data().Proper()
    modifies left`size, left`numTombs, left.entries, left.tombs
    modifies right`size, right`numTombs, right.entries, right.tombs
    ensures Pair(left, right) && left.numTombs == right.numTombs == 0
    ensures left.Data().entries == old(left.Data().Live()) && right.Data().entries == old(right.Data().Live())
    ensures left.size == |old(left.Data().Live())| <= old(left.size)
    ensures right.size == |old(right.Data().Live())| <= old(right.size)
  {
    LiveLength(left.Data());
    LiveLength(right.Data());
    CompactLive(left.Data());
    CompactLive(right.Data());
    left.RemoveAllTombstones();
    right.RemoveAllTombstones();
    assert left.size == |left.Data().entries| && right.size == |right.Data().entries|;
    assert left.numTombs == |left.Data().tombs| && right.numTombs == |right.Data().tombs|;
  }

  method BorrowFromRight(left: LeafPage, right: LeafPage, count: nat)
    requires Pair(left, right) && left.numTombs == right.numTombs == 0
    requires left.size + count == left.MinSize() && right.size >= right.MinSize() + count
    modifies left`size, left`numTombs, left.entries, left.tombs
    modifies right`size, right`numTombs, right.entries, right.tombs
    ensures Pair(left, right) && left.numTombs == right.numTombs == 0
    ensures left.Data().entries + right.Data().entries == old(left.Data().entries + right.Data().entries)
    ensures left.size == left.MinSize() && right.size == old(right.size) - count
  {
    for i := 0 to count
      invariant Pair(left, right) && left.numTombs == right.numTombs == 0
      invariant left.size == old(left.size) + i && right.size == old(right.size) - i
      invariant left.Data().entries + right.Data().entries == old(left.Data().entries + right.Data().entries)
    {
      MoveFirstLeft(left, right);
    }
  }

  method MoveFirstLeft(left: LeafPage, right: LeafPage)
    requires Pair(left, right) && left.numTombs == right.numTombs == 0
    requires left.size < left.maxSize && right.size > 0
    modifies left`size, left`numTombs, left.entries, left.tombs
    modifies right`size, right`numTombs, right.entries, right.tombs
    ensures Pair(left, right) && left.numTombs == right.numTombs == 0
    ensures left.Data().entries + right.Data().entries == old(left.Data().entries + right.Data().entries)
    ensures left.size == old(left.size) + 1 && right.size == old(right.size) - 1
  {
    ghost var ls, rs := left.Data().entries, right.Data().entries;
    var borrowed := right.entries[0];
    assert borrowed == rs[0];
    Append(left, borrowed);
    DropFirst(right);
    MovedFirst(ls, rs);
  }

  lemma MovedFirst(ls: seq<Entry>, rs: seq<Entry>)
    requires rs != []
    ensures (ls + [rs[0]]) + rs[1..] == ls + rs
  {
    assert rs == [rs[0]] + rs[1..];
  }

  method Append(page: LeafPage, e: Entry)
    requires page.Valid() && page.numTombs == 0 && page.size < page.maxSize
    modifies page`size, page.entries, page.tombs
    ensures page.Valid() && page.size == old(page.size) + 1
    ensures page.Data().entries == old(page.Data().entries) + [e]
  {
    page.InsertAt(page.size, e);
    assert page.Data().entries == old(page.Data().entries) + [e];
  }

  method DropFirst(page: LeafPage)
    requires page.Valid() && page.numTombs == 0 && page.size > 0
    modifies page`size, page`numTombs, page.entries, page.tombs
    ensures page.Valid() && page.size == old(page.size) - 1 && page.numTombs == 0
    ensures page.Data().entries == old(page.Data().entries)[1..]
  {
    ghost var es := page.Data().entries;
    page.RemoveAt(0);
    assert page.Data().entries == es[1..];
    assert |page.Data().tombs| == 0;
  }

  method BorrowFromLeft(left: LeafPage, right: LeafPage, count: nat)
    requires Pair(left, right) && left.numTombs == right.numTombs == 0
    requires right.size + count == right.MinSize() && left.size >= left.MinSize() + count
    modifies left`size, left`numTombs, left.entries, left.tombs
    modifies right`size, right`numTombs, right.entries, right.tombs
    ensures Pair(left, right) && left.numTombs == right.numTombs == 0
    ensures left.Data().entries + right.Data().entries == old(left.Data().entries + right.Data().entries)
    ensures right.size == right.MinSize() && left.size == old(left.size) - count
  {
    for i := 0 to count
      invariant Pair(left, right) && left.numTombs == right.numTombs == 0
      invariant left.size == old(left.size) - i && right.size == old(right.size) + i
      invariant left.Data().entries + right.Data().entries == old(left.Data().entries + right.Data().entries)
    {
      MoveLastRight(left, right);
    }
  }

  method MoveLastRight(left: LeafPage, right: LeafPage)
    requires Pair(left, right) && left.numTombs == right.numTombs == 0
    requires left.size > 0 && right.size < right.maxSize
    modifies left`size, left`numTombs, left.entries, left.tombs
    modifies right`size, right`numTombs, right.entries, right.tombs
    ensures Pair(left, right) && left.numTombs == right.numTombs == 0
    ensures left.Data().entries + right.Data().entries == old(left.Data().entries + right.Data().entries)
    ensures left.size == old(left.size) - 1 && right.size == old(right.size) + 1
  {
    ghost var ls, rs := left.Data().entries, right.Data().entries;
    var last := left.size - 1;
    var borrowed := left.entries[last];
    right.InsertAt(0, borrowed);
    left.RemoveAt(last);
    assert left.Data().entries == ls[..last];
    assert right.Data().entries == [ls[last]] + rs;
    assert |left.Data().tombs| == 0 && |right.Data().tombs| == 0;
  }

  /** Moves everything to the left leaf, evicting as many tombstones as the
      merged leaf can do without. No live entry is lost or reordered, and the
      merged leaf has a legal size. */
  method MergeLeafPair(parent: InternalPage, left: LeafPage, right: LeafPage, rightIdx: nat)
    requires Pair(left, right) && left.Data().Proper() && right.Data().Proper()
    requires OneShort(left.Data(), right.Data(), left.maxSize)
    requires |left.Data().Live()| + |right.Data().Live()| <= left.maxSize
    requires parent.Valid() && 1 <= rightIdx < parent.size
    requires parent.keys != left.entries && parent.keys != right.entries
    requires parent.values != left.tombs && parent.values != right.tombs
    modifies left`size, left`numTombs, left`next, left.entries, left.tombs
    modifies right`size, right`numTombs, right.entries, right.tombs
    modifies parent`size, parent.keys, parent.values
    ensures left.Valid() && left.Data().Proper() && parent.Valid()
    ensures left.Data().Live() == old(left.Data().Live()) + old(right.Data().Live())
    ensures left.maxSize / 2 <= left.size <= left.maxSize
    ensures left.numTombs == if |left.Data().Live()| >= left.maxSize / 2 then 0
                             else left.maxSize / 2 - |left.Data().Live()|
    ensures left.next == old(right.next)
    ensures parent.size == old(parent.size) - 1 && parent.Data() == old(parent.Data()).Remove(rightIdx)
  {
    FillLeft(left, right);
    parent.RemoveAt(rightIdx);
    left.next := right.next;
  }

  /** The leaves' part of a merge: evicts, then moves everything to the left. */
  method FillLeft(left: LeafPage, right: LeafPage)
    requires Pair(left, right) && left.Data().Proper() && right.Data().Proper()
    requires OneShort(left.Data(), right.Data(), left.maxSize)
    requires |left.Data().Live()| + |right.Data().Live()| <= left.maxSize
    modifies left`size, left`numTombs, left.entries, left.tombs
    modifies right`size, right`numTombs, right.entries, right.tombs
    ensures left.Valid() && left.Data().Proper()
    ensures left.Data().Live() == old(left.Data().Live()) + old(right.Data().Live())
    ensures left.maxSize / 2 <= left.size <= left.maxSize
    ensures left.numTombs == if |left.Data().Live()| >= left.maxSize / 2 then 0
                             else left.maxSize / 2 - |left.Data().Live()|
  {
    var retained := EvictSpareTombstones(left, right);
    CoalesceLive(left.Data(), right.Data());
    left.CoalesceRightIntoPage(right);
    LiveLength(left.Data());
    assert left.size == |left.Data().entries| && left.numTombs == |left.Data().tombs|;
  }

  /** Evicts tombstones, the left leaf's first, until only as many are left as
      the merged leaf needs to reach its minimum size. */
  method EvictSpareTombstones(left: LeafPage, right: LeafPage) returns (retained: nat)
    requires Pair(left, right) && left.Data().Proper() && right.Data().Proper()
    requires OneShort(left.Data(), right.Data(), left.maxSize)
    requires |left.Data().Live()| + |right.Data().Live()| <= left.maxSize
    modifies left`size, left`numTombs, left.entries, left.tombs
    modifies right`size, right`numTombs, right.entries, right.tombs
    ensures Pair(left, right) && left.Data().Proper() && right.Data().Proper()
    ensures left.Data().Live() == old(left.Data().Live()) && right.Data().Live() == old(right.Data().Live())
    ensures var total := |left.Data().Live()| + |right.Data().Live()|;
      && retained == (if left.maxSize / 2 >= total then left.maxSize / 2 - total else 0)
      && left.numTombs + right.numTombs == retained <= left.tombCap
      && left.size + right.size == total + retained
  {
    CountLive(left);
    CountLive(right);
    var total := (left.size - left.numTombs) + (right.size - right.numTombs);
    retained := if left.MinSize() >= total then left.MinSize() - total else 0;
    var current := left.numTombs + right.numTombs;
    ghost var r := right.Data();
    current := EvictDownTo(left, current, retained);
    assert right.Data() == r;
    ghost var l := left.Data();
    current := EvictDownTo(right, current, retained);
    assert left.Data() == l;
  }

  lemma CountLive(page: LeafPage)
    requires page.Valid() && page.Data().Proper()
    ensures |page.Data().Live()| == page.size - page.numTombs
  {
    LiveLength(page.Data());
  }

  /** Evicts tombstones of `page` while more than `retained` of the `current`
      tombstones of the pair are left. */
  method EvictDownTo(page: LeafPage, current: nat, retained: nat) returns (left: nat)
    requires page.Valid() && page.Data().Proper() && page.numTombs <= current
    modifies page`size, page`numTombs, page.entries, page.tombs
    ensures page.Valid() && page.Data().Proper() && page.Data().Live() == old(page.Data().Live())
    ensures current - left == old(page.numTombs) - page.numTombs == old(page.size) - page.size >= 0
    ensures left <= retained || page.numTombs == 0
    ensures left >= retained || left == current
  {
    left := current;
    while left > retained && page.numTombs > 0
      invariant page.Valid() && page.Data().Proper() && page.Data().Live() == old(page.Data().Live())
      invariant page.numTombs <= left <= current
      invariant current - left == old(page.numTombs) - page.numTombs == old(page.size) - page.size
      invariant left >= retained || left == current
    {
      ghost var d := page.Data();
      assert d.tombs[0] in d.tombs;
      RemoveLive(d, d.tombs[0]);
      var _ := page.EvictOldestTombstone();
      assert |page.Data().tombs| == page.numTombs && |page.Data().entries| == page.size;
      left := left - 1;
    }
  }
}
