/** Page operations act on the live view of a leaf (entries minus tombstones)
    as plain sequence operations. */
module LeafLive {
  import opened Common
  import opened Entries
  import opened LeafPages

  // ---- the live view by position ----------------------------------------

  lemma {:induction false} LiveSplit(es: seq<Entry>, ts: seq<nat>, lo: nat, mid: nat, hi: nat)
    requires lo <= mid <= hi <= |es|
    ensures LiveIn(es, ts, lo, hi) == LiveIn(es, ts, lo, mid) + LiveIn(es, ts, mid, hi)
    decreases hi
  {
    if mid < hi {
      LiveSplit(es, ts, lo, mid, hi - 1);
    }
  }

  /** Position `k` of one page and `k + d` of another: same entry, both live or both dead. */
  ghost predicate Same(es: seq<Entry>, ts: seq<nat>, k: nat, es': seq<Entry>, ts': seq<nat>, d: int) {
    k < |es| && 0 <= k + d < |es'| && es[k] == es'[k + d] && (k in ts <==> k + d in ts')
  }

  /** The same entries, `d` positions further, with the same ones dead. */
  lemma {:induction false} LiveShift(es: seq<Entry>, ts: seq<nat>, lo: nat, hi: nat,
                                     es': seq<Entry>, ts': seq<nat>, d: int)
    requires lo <= hi <= |es| && 0 <= lo + d && hi + d <= |es'|
    requires forall k :: lo <= k < hi ==> Same(es, ts, k, es', ts', d)
    ensures LiveIn(es', ts', lo + d, hi + d) == LiveIn(es, ts, lo, hi)
    decreases hi
  {
    hide Lt;
    if lo < hi {
      LiveShift(es, ts, lo, hi - 1, es', ts', d);
      assert Same(es, ts, hi - 1, es', ts', d);
    }
  }

  lemma {:induction false} LiveMember(es: seq<Entry>, ts: seq<nat>, lo: nat, hi: nat, e: Entry)
    requires hi <= |es|
    ensures e in LiveIn(es, ts, lo, hi) <==> exists k :: lo <= k < hi && k !in ts && es[k] == e
    decreases hi
  {
    if lo < hi {
      LiveMember(es, ts, lo, hi - 1, e);
    }
  }

  lemma {:induction false} LiveLength(l: Leaf)
    requires l.Proper()
    ensures |l.tombs| <= |l.entries|
    ensures |l.Live()| == |l.entries| - |l.tombs|
    decreases |l.entries|
  {
    var n := |l.entries|;
    assert l.tombs != [] ==> l.tombs[0] < n;
    if n > 0 {
      var m := Leaf(l.entries[..n - 1], DropTomb(l.tombs, n - 1), l.next);
      DropTombProper(l.tombs, n - 1, n);
      LiveLength(m);
      forall k: nat | k < n - 1
        ensures Same(l.entries, l.tombs, k, m.entries, m.tombs, 0)
      {
        DropTombMember(l.tombs, n - 1, k);
      }
      LiveShift(l.entries, l.tombs, 0, n - 1, m.entries, m.tombs, 0);
    }
  }

  // ---- tombstone lists as sets --------------------------------------------

  lemma {:induction false} DropTombMember(ts: seq<nat>, idx: nat, k: nat)
    ensures k in DropTomb(ts, idx) <==> if k < idx then k in ts else k + 1 in ts
  {
    if ts != [] {
      var n := |ts| - 1;
      DropTombMember(ts[..n], idx, k);
      assert ts == ts[..n] + [ts[n]];
    }
  }

  lemma ShiftUpMember(ts: seq<nat>, idx: nat, k: nat)
    ensures k in ShiftUp(ts, idx) <==> (k < idx && k in ts) || (k > idx && k - 1 in ts)
  {
    var us := ShiftUp(ts, idx);
    if k < idx && k in ts {
      var i :| 0 <= i < |ts| && ts[i] == k;
      assert us[i] == k;
    }
    if k > idx && k - 1 in ts {
      var i :| 0 <= i < |ts| && ts[i] == k - 1;
      assert us[i] == k;
    }
    if k in us {
      var i :| 0 <= i < |us| && us[i] == k;
      assert ts[i] in ts;
    }
  }

  lemma {:induction false} KeepBelowMember(ts: seq<nat>, bound: nat, k: nat)
    ensures k in KeepBelow(ts, bound) <==> k < bound && k in ts
  {
    if ts != [] {
      var n := |ts| - 1;
      KeepBelowMember(ts[..n], bound, k);
      assert ts == ts[..n] + [ts[n]];
    }
  }

  lemma {:induction false} WithoutMember(ts: seq<nat>, idx: nat, k: nat)
    ensures k in Without(ts, idx) <==> k != idx && k in ts
  {
    if ts != [] {
      var n := |ts| - 1;
      WithoutMember(ts[..n], idx, k);
      assert ts == ts[..n] + [ts[n]];
    }
  }

  lemma RaiseMember(ts: seq<nat>, d: nat, k: nat)
    ensures k in Raise(ts, d) <==> k >= d && k - d in ts
  {
    var us := Raise(ts, d);
    if k >= d && k - d in ts {
      var i :| 0 <= i < |ts| && ts[i] == k - d;
      assert us[i] == k;
    }
    if k in us {
      var i :| 0 <= i < |us| && us[i] == k;
      assert ts[i] in ts;
    }
  }

  lemma {:induction false} DropTombProper(ts: seq<nat>, idx: nat, n: nat)
    requires Distinct(ts) && idx < n && forall i :: 0 <= i < |ts| ==> ts[i] < n
    ensures Distinct(DropTomb(ts, idx))
    ensures |DropTomb(ts, idx)| == |ts| - if idx in ts then 1 else 0
    ensures forall i :: 0 <= i < |DropTomb(ts, idx)| ==> DropTomb(ts, idx)[i] < n - 1
  {
    if ts != [] {
      var m := |ts| - 1;
      var init := ts[..m];
      assert forall i :: 0 <= i < m ==> init[i] == ts[i];
      DropTombProper(init, idx, n);
      assert ts == init + [ts[m]];
      assert ts[m] !in init;
      var rest, t := DropTomb(init, idx), ts[m];
      if t != idx {
        var u := if t > idx then t - 1 else t;
        DropTombMember(init, idx, u);
        assert u !in rest;
      }
    }
  }

  lemma {:induction false} KeepBelowDistinct(ts: seq<nat>, bound: nat)
    requires Distinct(ts)
    ensures Distinct(KeepBelow(ts, bound)) && |KeepBelow(ts, bound)| <= |ts|
    ensures forall i :: 0 <= i < |KeepBelow(ts, bound)| ==> KeepBelow(ts, bound)[i] < bound
  {
    if ts != [] {
      var m := |ts| - 1;
      KeepBelowDistinct(ts[..m], bound);
      KeepBelowMember(ts[..m], bound, ts[m]);
      assert ts[m] !in ts[..m];
    }
  }

  lemma {:induction false} WithoutDistinct(ts: seq<nat>, idx: nat)
    requires Distinct(ts)
    ensures Distinct(Without(ts, idx))
  {
    if ts != [] {
      var m := |ts| - 1;
      WithoutDistinct(ts[..m], idx);
      WithoutMember(ts[..m], idx, ts[m]);
      assert ts[m] !in ts[..m];
    }
  }

  // ---- page operations on the live view -----------------------------------

  /** An inserted entry takes its place among the live ones; the tombstones keep
      naming the entries they named. */
  lemma InsertLive(l: Leaf, idx: nat, e: Entry)
    requires l.Proper() && idx <= |l.entries|
    ensures l.InsertAt(idx, e).Proper()
    ensures l.InsertAt(idx, e).Live() ==
      LiveIn(l.entries, l.tombs, 0, idx) + [e] + LiveIn(l.entries, l.tombs, idx, |l.entries|)
  {
    var n, m := |l.entries|, l.InsertAt(idx, e);
    forall k | 0 <= k < idx
      ensures Same(l.entries, l.tombs, k, m.entries, m.tombs, 0)
    {
      ShiftUpMember(l.tombs, idx, k);
    }
    forall k | idx <= k < n
      ensures Same(l.entries, l.tombs, k, m.entries, m.tombs, 1)
    {
      ShiftUpMember(l.tombs, idx, k + 1);
    }
    ShiftUpMember(l.tombs, idx, idx);
    LiveShift(l.entries, l.tombs, 0, idx, m.entries, m.tombs, 0);
    LiveShift(l.entries, l.tombs, idx, n, m.entries, m.tombs, 1);
    LiveAt(m, idx);
  }

  /** The live entries around position `idx`. */
  ghost function LiveAround(l: Leaf, idx: nat): seq<Entry>
    requires idx < |l.entries|
  {
    LiveIn(l.entries, l.tombs, 0, idx) + LiveIn(l.entries, l.tombs, idx + 1, |l.entries|)
  }

  lemma LiveAt(l: Leaf, idx: nat)
    requires idx < |l.entries|
    ensures l.Live() == LiveIn(l.entries, l.tombs, 0, idx)
      + (if idx in l.tombs then [] else [l.entries[idx]])
      + LiveIn(l.entries, l.tombs, idx + 1, |l.entries|)
  {
    LiveSplit(l.entries, l.tombs, 0, idx + 1, |l.entries|);
    assert LiveIn(l.entries, l.tombs, 0, idx + 1)
        == LiveIn(l.entries, l.tombs, 0, idx) + if idx in l.tombs then [] else [l.entries[idx]];
  }

  /** Removing a position removes its entry from the live ones; removing a
      tombstoned position (an eviction) changes none of them. */
  lemma RemoveLive(l: Leaf, idx: nat)
    requires l.Proper() && idx < |l.entries|
    ensures l.RemoveAt(idx).Proper()
    ensures |l.RemoveAt(idx).tombs| == |l.tombs| - if idx in l.tombs then 1 else 0
    ensures l.RemoveAt(idx).Live() == LiveAround(l, idx)
    ensures idx in l.tombs ==> l.RemoveAt(idx).Live() == l.Live()
  {
    hide LiveIn, DropTomb;
    var n, m := |l.entries|, l.RemoveAt(idx);
    DropTombProper(l.tombs, idx, n);
    forall k | 0 <= k < idx
      ensures Same(l.entries, l.tombs, k, m.entries, m.tombs, 0)
    {
      DropTombMember(l.tombs, idx, k);
    }
    forall k | idx < k < n
      ensures Same(l.entries, l.tombs, k, m.entries, m.tombs, -1)
    {
      DropTombMember(l.tombs, idx, k - 1);
    }
    LiveShift(l.entries, l.tombs, 0, idx, m.entries, m.tombs, 0);
    LiveShift(l.entries, l.tombs, idx + 1, n, m.entries, m.tombs, -1);
    LiveSplit(m.entries, m.tombs, 0, idx, n - 1);
    LiveAt(l, idx);
  }

  /** A tombstone hides exactly the entry it names, and lifting it shows it again. */
  lemma AddTombstoneLive(l: Leaf, idx: nat)
    requires l.Proper() && idx < |l.entries| && idx !in l.tombs
    ensures l.AddTombstone(idx).Proper()
    ensures l.AddTombstone(idx).Live() == LiveAround(l, idx)
    ensures l.AddTombstone(idx).RemoveTombstoneAt(idx).Live() == l.Live()
  {
    hide LiveIn, Without;
    var n, m := |l.entries|, l.AddTombstone(idx);
    forall k: nat | k < n && k != idx
      ensures Same(l.entries, l.tombs, k, m.entries, m.tombs, 0)
    {
    }
    LiveShift(l.entries, l.tombs, 0, idx, m.entries, m.tombs, 0);
    LiveShift(l.entries, l.tombs, idx + 1, n, m.entries, m.tombs, 0);
    LiveAt(m, idx);
    var u := m.RemoveTombstoneAt(idx);
    forall k: nat | k < n
      ensures Same(l.entries, l.tombs, k, u.entries, u.tombs, 0)
    {
      WithoutMember(m.tombs, idx, k);
    }
    LiveShift(l.entries, l.tombs, 0, n, u.entries, u.tombs, 0);
  }

  /** A split moves the live entries from `start` on and loses none. */
  lemma SplitLive(l: Leaf, start: nat)
    requires l.Proper() && start <= |l.entries|
    ensures l.SplitLeft(start).Proper()
    ensures |l.SplitLeft(start).tombs| <= |l.tombs|
    ensures l.SplitLeft(start).Live() + l.SplitRight(start) == l.Live()
  {
    var n, m := |l.entries|, l.SplitLeft(start);
    KeepBelowDistinct(l.tombs, start);
    forall k: nat | k < start
      ensures Same(l.entries, l.tombs, k, m.entries, m.tombs, 0)
    {
      KeepBelowMember(l.tombs, start, k);
    }
    LiveShift(l.entries, l.tombs, 0, start, m.entries, m.tombs, 0);
    LiveSplit(l.entries, l.tombs, 0, start, n);
  }

  lemma CompactLive(l: Leaf)
    requires l.Proper()
    ensures l.Compact().Proper() && l.Compact().tombs == []
    ensures l.Compact().Live() == l.Compact().entries == l.Live()
  {
    NoTombsLive(l.Compact().entries, 0, |l.Compact().entries|);
    if l.tombs == [] {
      NoTombsLive(l.entries, 0, |l.entries|);
    }
  }

  lemma {:induction false} NoTombsLive(es: seq<Entry>, lo: nat, hi: nat)
    requires lo <= hi <= |es|
    ensures LiveIn(es, [], lo, hi) == es[lo..hi]
    decreases hi
  {
    if lo < hi {
      NoTombsLive(es, lo, hi - 1);
    }
  }

  /** Coalescing concatenates the live entries of the two pages. */
  lemma CoalesceLive(l: Leaf, r: Leaf)
    requires l.Proper() && r.Proper()
    ensures l.Coalesce(r).Proper()
    ensures l.Coalesce(r).Live() == l.Live() + r.Live()
  {
    hide LiveIn, DropTomb, ShiftUp, KeepBelow, Without;
    var n, m := |l.entries|, l.Coalesce(r);
    forall k: nat | k < |m.entries|
      ensures k in m.tombs <==> if k < n then k in l.tombs else k - n in r.tombs
    {
      RaiseMember(r.tombs, n, k);
    }
    assert forall k: nat :: k < n ==> Same(l.entries, l.tombs, k, m.entries, m.tombs, 0);
    assert forall k: nat :: k < |r.entries| ==> Same(r.entries, r.tombs, k, m.entries, m.tombs, n);
    LiveShift(l.entries, l.tombs, 0, n, m.entries, m.tombs, 0);
    LiveShift(r.entries, r.tombs, 0, |r.entries|, m.entries, m.tombs, n);
    LiveSplit(m.entries, m.tombs, 0, n, |m.entries|);
  }

  /** A leaf whose entries are sorted keeps its live entries sorted. */
  lemma {:induction false} LiveSorted(es: seq<Entry>, ts: seq<nat>, lo: nat, hi: nat)
    requires Sorted(es) && hi <= |es|
    ensures Sorted(LiveIn(es, ts, lo, hi))
    decreases hi
  {
    if lo < hi {
      LiveSorted(es, ts, lo, hi - 1);
      var s := LiveIn(es, ts, lo, hi - 1);
      forall i | 0 <= i < |s|
        ensures Lt(s[i], es[hi - 1])
      {
        LiveMember(es, ts, lo, hi - 1, s[i]);
        assert s[i] in s;
      }
    }
  }
}
