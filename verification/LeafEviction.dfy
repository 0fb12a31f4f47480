/** Deleting from a leaf whose tombstone list is full. The page evicts the
    oldest tombstone and then removes the entry at the same position once more,
    so a second entry goes with it. */
module LeafEvictions {
  import opened Common
  import opened Entries
  import opened LeafPages
  import opened LeafLive

  /** The page after evict_oldest_tombstone_and_append, or None when one of its
      assertions fails. */
  function EvictOldestAndAppend(l: Leaf, tombCap: nat, idx: nat): Option<Leaf>
    requires l.tombs != [] && l.tombs[0] < |l.entries| && idx < |l.entries|
  {
    var evicted := l.tombs[0];
    var once := l.RemoveAt(evicted);
    if evicted >= |once.entries| then None else
      var twice := once.RemoveAt(evicted);
      var at := if idx > evicted then idx - 1 else idx;
      if |twice.tombs| >= tombCap || at >= |twice.entries| then None
      else Some(twice.AddTombstone(at))
  }

  /** The class's method runs exactly this. */
  method EvictOldestTombstoneAndAppend(page: LeafPage, idx: nat) returns (ok: bool)
    requires page.Valid() && page.Data().Proper() && page.numTombs > 0
    requires idx < page.size && idx !in page.Data().tombs
    modifies page`size, page`numTombs, page.entries, page.tombs
    ensures page.Valid()
    ensures ok <==> EvictOldestAndAppend(old(page.Data()), page.tombCap, idx).Some?
    ensures ok ==> page.Data() == EvictOldestAndAppend(old(page.Data()), page.tombCap, idx).value
  {
    assert page.Data().tombs[0] < |page.Data().entries|;
    var evicted := page.EvictOldestTombstone();
    assert page.size == |page.Data().entries|;
    if evicted >= page.size {
      return false;
    }
    page.RemoveAt(evicted);
    assert page.size == |page.Data().entries| && page.numTombs == |page.Data().tombs|;
    var at := if idx > evicted then idx - 1 else idx;
    if page.numTombs >= page.tombCap || at >= page.size {
      return false;
    }
    page.AddTombstone(at);
    ok := true;
  }

  /** What a deletion should do: hide the entry at `idx` and no other. */
  ghost predicate DeletesOnly(l: Leaf, idx: nat, r: Option<Leaf>)
    requires idx < |l.entries|
  {
    r.Some? && r.value.Proper() && r.value.Live() == LiveAround(l, idx)
  }

  /** The deletion is right exactly when the entry after the evicted one is
      tombstoned as well and the deleted entry lies before them. */
  lemma EvictionCorrectIff(l: Leaf, tombCap: nat, idx: nat)
    requires l.Proper() && Sorted(l.entries) && l.tombs != [] && |l.tombs| <= tombCap
    requires idx < |l.entries| && idx !in l.tombs
    ensures l.tombs[0] < |l.entries|
    ensures DeletesOnly(l, idx, EvictOldestAndAppend(l, tombCap, idx))
       <==> idx < l.tombs[0] && l.tombs[0] + 1 in l.tombs
  {
    hide LiveIn;
    var n, x := |l.entries|, l.tombs[0];
    assert x in l.tombs;
    assert forall t :: t in l.tombs ==> t < n;
    if x + 1 < n {
      var once := l.RemoveAt(x);
      RemoveLive(l, x);
      DropTombMember(l.tombs, x, x);
      var twice := once.RemoveAt(x);
      RemoveLive(once, x);
      if x + 1 !in l.tombs {
        EvictionLosesEntry(l, tombCap, idx);
      } else if idx < x {
        EvictionBefore(l, tombCap, idx);
      } else {
        EvictionAfter(l, tombCap, idx);
      }
    }
  }

  /** The entry after the evicted one is live: it is lost. */
  lemma EvictionLosesEntry(l: Leaf, tombCap: nat, idx: nat)
    requires l.Proper() && l.tombs != [] && |l.tombs| <= tombCap && idx < |l.entries| && idx !in l.tombs
    requires l.tombs[0] + 1 < |l.entries| && l.tombs[0] + 1 !in l.tombs
    ensures !DeletesOnly(l, idx, EvictOldestAndAppend(l, tombCap, idx))
  {
    var x := l.tombs[0];
    var once := l.RemoveAt(x);
    RemoveLive(l, x);
    DropTombMember(l.tombs, x, x);
    RemoveLive(once, x);
    var r := EvictOldestAndAppend(l, tombCap, idx);
    if r.Some? && r.value.Proper() {
      LiveLength(r.value);
      LiveLength(l);
      LiveAt(l, idx);
    }
  }

  /** Position `k` of the page, for k past the two removed ones, moves to `k - 2`. */
  lemma TwiceRemoved(l: Leaf, x: nat, k: nat)
    requires l.Proper() && x in l.tombs && x + 1 in l.tombs && x + 1 < |l.entries|
    requires k < |l.entries| && k != x && k != x + 1
    ensures var twice := l.RemoveAt(x).RemoveAt(x);
      Same(l.entries, l.tombs, k, twice.entries, twice.tombs, if k < x then 0 else -2)
  {
    var once := l.RemoveAt(x);
    var j := if k < x then k else k - 2;
    DropTombMember(once.tombs, x, j);
    DropTombMember(l.tombs, x, if k < x then k else k - 1);
  }

  lemma TwiceRemovedProper(l: Leaf, x: nat)
    requires l.Proper() && x in l.tombs && x + 1 in l.tombs && x + 1 < |l.entries|
    ensures var twice := l.RemoveAt(x).RemoveAt(x);
      twice.Proper() && twice.Live() == l.Live()
      && |twice.tombs| == |l.tombs| - 2 && |twice.entries| == |l.entries| - 2
  {
    RemoveLive(l, x);
    DropTombMember(l.tombs, x, x);
    RemoveLive(l.RemoveAt(x), x);
  }

  lemma EvictionBefore(l: Leaf, tombCap: nat, idx: nat)
    requires l.Proper() && l.tombs != [] && |l.tombs| <= tombCap && idx < |l.entries| && idx !in l.tombs
    requires l.tombs[0] + 1 < |l.entries| && l.tombs[0] + 1 in l.tombs && idx < l.tombs[0]
    ensures DeletesOnly(l, idx, EvictOldestAndAppend(l, tombCap, idx))
  {
    var n, x := |l.entries|, l.tombs[0];
    assert x in l.tombs;
    var twice := l.RemoveAt(x).RemoveAt(x);
    TwiceRemovedProper(l, x);
    TwiceRemoved(l, x, idx);
    AddTombstoneLive(twice, idx);
    LiveAt(twice, idx);
    LiveAt(l, idx);
    forall k | 0 <= k < idx
      ensures Same(l.entries, l.tombs, k, twice.entries, twice.tombs, 0)
    {
      TwiceRemoved(l, x, k);
    }
    LiveShift(l.entries, l.tombs, 0, idx, twice.entries, twice.tombs, 0);
    AppendCancel(LiveIn(l.entries, l.tombs, 0, idx) + [l.entries[idx]],
                 LiveIn(l.entries, l.tombs, idx + 1, n), LiveIn(twice.entries, twice.tombs, idx + 1, n - 2));
  }

  lemma AppendCancel(a: seq<Entry>, b: seq<Entry>, c: seq<Entry>)
    requires a + b == a + c
    ensures b == c
  {
    assert b == (a + b)[|a|..] && c == (a + c)[|a|..];
  }

  /** The deleted entry lies after the evicted ones: its neighbour is hidden
      in its place. */
  lemma EvictionAfter(l: Leaf, tombCap: nat, idx: nat)
    requires l.Proper() && Sorted(l.entries) && l.tombs != [] && |l.tombs| <= tombCap
    requires idx < |l.entries| && idx !in l.tombs
    requires l.tombs[0] + 1 < |l.entries| && l.tombs[0] + 1 in l.tombs && idx > l.tombs[0] + 1
    ensures !DeletesOnly(l, idx, EvictOldestAndAppend(l, tombCap, idx))
  {
    var x := l.tombs[0];
    assert x in l.tombs;
    var twice := l.RemoveAt(x).RemoveAt(x);
    TwiceRemovedProper(l, x);
    TwiceRemoved(l, x, idx);
    var r := EvictOldestAndAppend(l, tombCap, idx);
    if r.Some? {
      // idx now sits at idx - 2, but idx - 1 is tombstoned
      var e := l.entries[idx];
      var m := twice.AddTombstone(idx - 1);
      assert m.entries[idx - 2] == e && idx - 2 !in m.tombs;
      LiveMember(m.entries, m.tombs, 0, |m.entries|, e);
      NotAround(l, idx);
    }
  }

  lemma NotAround(l: Leaf, idx: nat)
    requires Sorted(l.entries) && idx < |l.entries|
    ensures l.entries[idx] !in LiveAround(l, idx)
  {
    LiveMember(l.entries, l.tombs, 0, idx, l.entries[idx]);
    LiveMember(l.entries, l.tombs, idx + 1, |l.entries|, l.entries[idx]);
  }

  /** When a full leaf is split, its new sibling is empty, and has no first
      entry to serve as separator, iff all entries to be moved are tombstoned. */
  lemma SiblingEmptyIff(l: Leaf, start: nat)
    requires start <= |l.entries|
    ensures l.SplitRight(start) == [] <==> forall k :: start <= k < |l.entries| ==> k in l.tombs
  {
    var n := |l.entries|;
    var moved := l.SplitRight(start);
    if moved != [] {
      LiveMember(l.entries, l.tombs, start, n, moved[0]);
      assert moved[0] in moved;
    }
    forall k | start <= k < n && k !in l.tombs
      ensures moved != []
    {
      LiveMember(l.entries, l.tombs, start, n, l.entries[k]);
    }
  }
}
