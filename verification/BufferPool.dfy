/** The buffer pool: a cache of pages in a fixed set of frames that agrees with
    one flat store of pages, whatever is pinned, evicted or deleted. */
module BufferPools {
  import opened Common
  import opened DiskManagers
  import LruK = LruKReplacers

  datatype FrameMeta = FrameMeta(pageId: Option<PageId>, pinCount: nat, isDirty: bool)

  const RESET := FrameMeta(None, 0, false)

  /** A frame's reader-writer latch: how many read guards and whether a write
      guard hold it. */
  datatype Latch = Latch(readers: nat, writer: bool) {
    function Guards(): nat { readers + if writer then 1 else 0 }
  }

  /** The bookkeeping of the pool, as a value. */
  datatype State = State(frames: seq<Data>, metas: seq<FrameMeta>, table: map<PageId, nat>,
                         free: seq<nat>, latches: seq<Latch>)

  ghost predicate FrameOk(s: State, nodes: map<nat, LruK.Node>, disk: map<PageId, Data>, f: nat)
    requires f < |s.metas| == |s.frames| == |s.latches|
  {
    var m, l := s.metas[f], s.latches[f];
    && m.pinCount == l.Guards() && (l.writer ==> l.readers == 0)
    && |s.frames[f]| == PAGE_SIZE
    && match m.pageId
       case None => f in s.free && f !in nodes && m == RESET
       case Some(p) =>
         && p in s.table && s.table[p] == f && f !in s.free
         && f in nodes && (nodes[f].evictable <==> m.pinCount == 0)
         && p in disk && (!m.isDirty && !l.writer ==> s.frames[f] == disk[p])
  }

  /** A frame taken out of circulation while a page is loaded into it. */
  ghost predicate Detached(s: State, nodes: map<nat, LruK.Node>, f: nat) {
    && f < |s.metas| == |s.frames| == |s.latches|
    && s.metas[f] == RESET && s.latches[f] == Latch(0, false) && f !in s.free && f !in nodes
    && |s.frames[f]| == PAGE_SIZE
  }

  /** Page table, frames, free list and replacer are one consistent partition;
      a clean frame that nobody is writing holds what the disk holds. */
  ghost predicate Consistent(s: State, size: nat, nodes: map<nat, LruK.Node>, disk: map<PageId, Data>, except: Option<nat>) {
    && |s.metas| == |s.frames| == |s.latches| == size
    && (forall f {:trigger FrameOk(s, nodes, disk, f)} :: 0 <= f < size && except != Some(f) ==> FrameOk(s, nodes, disk, f))
    && (except.Some? ==> Detached(s, nodes, except.value))
    && (forall p {:trigger s.table[p]} :: p in s.table ==> s.table[p] < size && s.metas[s.table[p]].pageId == Some(p))
    && (forall j {:trigger s.free[j]} :: 0 <= j < |s.free| ==> s.free[j] < size)
    && (forall j, k :: 0 <= j < k < |s.free| ==> s.free[j] != s.free[k])
    && (forall f {:trigger nodes[f]} :: f in nodes ==> f < size)
  }

  /** The flat store the pool stands for: a loaded page's frame overrides the disk. */
  ghost function Flat(s: State, disk: map<PageId, Data>): map<PageId, Data>
  {
    map p | p in disk :: if p in s.table && s.table[p] < |s.frames| then s.frames[s.table[p]] else disk[p]
  }

  /** The guards that are held, by page. */
  ghost function Held(s: State): map<PageId, Latch> {
    map p | p in s.table && s.table[p] < |s.latches| && s.latches[s.table[p]].Guards() > 0 :: s.latches[s.table[p]]
  }

  /** The replacer looks at the last two accesses of a page. */
  const LRU_K: nat := 2

  /** What the pool keeps: for every loaded page the times it was asked for since
      it was loaded, and which of them a dropped write guard left dirty. */
  datatype Cache = Cache(trace: map<PageId, seq<nat>>, dirty: set<PageId>, now: nat) {
    /** Of the loaded pages without a guard, every other should outlive `v`. */
    ghost predicate GoesFirst(held: set<PageId>, v: PageId) {
      && v in trace && v !in held
      && forall q :: q in trace && q !in held && q != v ==> LruK.EvictBefore(trace[v], trace[q], LRU_K, now)
    }

    ghost function FirstToGo(held: set<PageId>): set<PageId> {
      set v | v in trace && GoesFirst(held, v)
    }

    ghost function Without(gone: set<PageId>): Cache {
      Cache(trace - gone, dirty - gone, now)
    }

    /** With a frame for one more page: if none is free, one page goes. */
    ghost function WithRoom(size: nat, held: set<PageId>): Cache {
      if |trace| < size then this else Without(FirstToGo(held))
    }

    /** After a request that got page `p`. */
    ghost function Accessed(size: nat, held: set<PageId>, p: PageId): Cache {
      if p in trace then Cache(trace[p := trace[p] + [now + 1]], dirty, now + 1)
      else
        var c := WithRoom(size, held);
        Cache(c.trace[p := [now + 1]], c.dirty, now + 1)
    }

    /** The page that would have to go is dirty and nothing is free. */
    ghost predicate MustWriteBack(size: nat, held: set<PageId>) {
      |trace| >= size && FirstToGo(held) * dirty != {}
    }

    /** After a failed write-back: the page stays, its history does not. */
    ghost function Restarted(held: set<PageId>): Cache {
      Cache(map p | p in trace :: if p in FirstToGo(held) then [now + 1] else trace[p], dirty, now + 1)
    }
  }

  /** The accesses of every loaded page. */
  ghost function Traced(table: map<PageId, nat>, accesses: map<nat, seq<nat>>): map<PageId, seq<nat>> {
    map p | p in table && table[p] in accesses :: accesses[table[p]]
  }

  ghost function DirtyPages(s: State): set<PageId> {
    set p | p in s.table && s.table[p] < |s.metas| && s.metas[s.table[p]].isDirty
  }

  ghost function CacheOf(s: State, accesses: map<nat, seq<nat>>, now: nat): Cache {
    Cache(Traced(s.table, accesses), DirtyPages(s), now)
  }

  // ---- what each step does to the partition -------------------------------------------

  /** Pinning a loaded page. */
  function Pinned(s: State, f: nat, latch: Latch): State
    requires f < |s.metas| == |s.latches|
  {
    s.(metas := s.metas[f := s.metas[f].(pinCount := s.metas[f].pinCount + 1)], latches := s.latches[f := latch])
  }

  lemma PinKeeps(s: State, size: nat, nodes: map<nat, LruK.Node>, disk: map<PageId, Data>, p: PageId,
                 nodes': map<nat, LruK.Node>, latch: Latch)
    requires Consistent(s, size, nodes, disk, None) && p in s.table
    requires var f := s.table[p];
      && f < |s.latches| && latch.Guards() == s.latches[f].Guards() + 1 && (latch.writer ==> latch.readers == 0)
      && (!latch.writer ==> !s.latches[f].writer)
      && f in nodes' && nodes' == nodes[f := nodes'[f]] && !nodes'[f].evictable
    ensures Consistent(Pinned(s, s.table[p], latch), size, nodes', disk, None)
    ensures Flat(Pinned(s, s.table[p], latch), disk) == Flat(s, disk)
  {
    var s' := Pinned(s, s.table[p], latch);
    forall g | 0 <= g < size
      ensures FrameOk(s', nodes', disk, g)
    {
      assert FrameOk(s, nodes, disk, g);
    }
  }

  /** Dropping a guard: one pin less, and dirty if it was a write guard. */
  function Unpinned(s: State, f: nat, dirty: bool, latch: Latch): State
    requires f < |s.metas| == |s.latches| && s.metas[f].pinCount > 0
  {
    var m := s.metas[f];
    s.(metas := s.metas[f := FrameMeta(m.pageId, m.pinCount - 1, m.isDirty || dirty)], latches := s.latches[f := latch])
  }

  lemma UnpinKeeps(s: State, size: nat, nodes: map<nat, LruK.Node>, disk: map<PageId, Data>, f: nat,
                   nodes': map<nat, LruK.Node>, latch: Latch)
    requires Consistent(s, size, nodes, disk, None) && f < size
    requires s.latches[f].Guards() == latch.Guards() + 1 && (latch.writer ==> latch.readers == 0)
    requires s.latches[f].writer == latch.writer || (s.latches[f].writer && latch == Latch(0, false))
    requires s.metas[f].pinCount > 0 && s.metas[f].pageId.Some?
    requires var m := s.metas[f];
      && f in nodes && nodes' == (if m.pinCount == 1 then nodes[f := nodes[f].(evictable := true)] else nodes)
    ensures var s' := Unpinned(s, f, s.latches[f].writer, latch);
      Consistent(s', size, nodes', disk, None) && Flat(s', disk) == Flat(s, disk)
  {
    var s' := Unpinned(s, f, s.latches[f].writer, latch);
    forall g | 0 <= g < size
      ensures FrameOk(s', nodes', disk, g)
    {
      assert FrameOk(s, nodes, disk, g);
    }
  }

  /** Taking a frame off the free list. */
  lemma PopFreeKeeps(s: State, size: nat, nodes: map<nat, LruK.Node>, disk: map<PageId, Data>)
    requires Consistent(s, size, nodes, disk, None) && s.free != []
    ensures var n := |s.free| - 1;
      var s' := s.(free := s.free[..n]);
      Consistent(s', size, nodes, disk, Some(s.free[n])) && Flat(s', disk) == Flat(s, disk)
  {
    var n := |s.free| - 1;
    var s' := s.(free := s.free[..n]);
    assert s.free[n] in s.free;
    assert FrameOk(s, nodes, disk, s.free[n]);
    forall g | 0 <= g < size && g != s.free[n]
      ensures FrameOk(s', nodes, disk, g)
    {
      assert FrameOk(s, nodes, disk, g);
      if g in s.free {
        var j :| 0 <= j < |s.free| && s.free[j] == g;
        assert s'.free[j] == g;
      }
    }
    assert s.free[n] !in s'.free;
    forall j | 0 <= j < n
      ensures s'.free[j] < size
    {
      assert s'.free[j] == s.free[j];
    }
  }

  /** Evicting an unpinned page, written to disk first if it is dirty. */
  lemma EvictKeeps(s: State, size: nat, nodes: map<nat, LruK.Node>, disk: map<PageId, Data>, f: nat, disk': map<PageId, Data>)
    requires Consistent(s, size, nodes, disk, None) && f in nodes && f < size && nodes[f].evictable
    requires s.metas[f].pageId.Some? ==> disk' == if s.metas[f].isDirty then disk[s.metas[f].pageId.value := s.frames[f]] else disk
    ensures s.metas[f].pageId.Some?
    ensures var p := s.metas[f].pageId.value;
      var s' := s.(table := s.table - {p}, metas := s.metas[f := RESET]);
      Consistent(s', size, nodes - {f}, disk', Some(f)) && Flat(s', disk') == Flat(s, disk)
  {
    assert FrameOk(s, nodes, disk, f);
    var p := s.metas[f].pageId.value;
    var s' := s.(table := s.table - {p}, metas := s.metas[f := RESET]);
    EvictedOthers(s, size, nodes, disk, f, p, disk');
    EvictedFlat(s, size, nodes, disk, f, p, disk');
    forall q | q in s'.table
      ensures s'.table[q] < size && s'.metas[s'.table[q]].pageId == Some(q)
    {
      assert s.table[q] == s'.table[q];
    }
  }

  lemma EvictedOthers(s: State, size: nat, nodes: map<nat, LruK.Node>, disk: map<PageId, Data>, f: nat, p: PageId, disk': map<PageId, Data>)
    requires Consistent(s, size, nodes, disk, None) && f < size && s.metas[f].pageId == Some(p)
    requires disk' == disk[p := s.frames[f]] || disk' == disk
    ensures var s' := s.(table := s.table - {p}, metas := s.metas[f := RESET]);
      forall g {:trigger FrameOk(s', nodes - {f}, disk', g)} :: 0 <= g < size && g != f ==> FrameOk(s', nodes - {f}, disk', g)
  {
    var s' := s.(table := s.table - {p}, metas := s.metas[f := RESET]);
    assert FrameOk(s, nodes, disk, f);
    forall g | 0 <= g < size && g != f
      ensures FrameOk(s', nodes - {f}, disk', g)
    {
      assert FrameOk(s, nodes, disk, g);
    }
  }

  lemma EvictedFlat(s: State, size: nat, nodes: map<nat, LruK.Node>, disk: map<PageId, Data>, f: nat, p: PageId, disk': map<PageId, Data>)
    requires Consistent(s, size, nodes, disk, None) && f in nodes && f < size && nodes[f].evictable && s.metas[f].pageId == Some(p)
    requires disk' == if s.metas[f].isDirty then disk[p := s.frames[f]] else disk
    ensures Flat(s.(table := s.table - {p}, metas := s.metas[f := RESET]), disk') == Flat(s, disk)
  {
    assert FrameOk(s, nodes, disk, f);
  }

  /** Publishing a page loaded from disk into a detached frame. */
  function Published(s: State, f: nat, p: PageId, data: Data, latch: Latch): State
    requires f < |s.metas| == |s.frames| == |s.latches|
  {
    s.(frames := s.frames[f := data], metas := s.metas[f := FrameMeta(Some(p), 1, false)],
       table := s.table[p := f], latches := s.latches[f := latch])
  }

  lemma PublishedFrame(s: State, size: nat, nodes: map<nat, LruK.Node>, disk: map<PageId, Data>, f: nat, p: PageId, data: Data,
                       nodes': map<nat, LruK.Node>, latch: Latch, g: nat)
    requires Consistent(s, size, nodes, disk, Some(f)) && p !in s.table && |data| == PAGE_SIZE && g < size
    requires p in disk ==> disk[p] == data
    requires latch.Guards() == 1
    requires f in nodes' && nodes' == nodes[f := nodes'[f]] && !nodes'[f].evictable
    ensures FrameOk(Published(s, f, p, data, latch), nodes', disk[p := data], g)
  {
    if g != f {
      assert FrameOk(s, nodes, disk, g);
    }
  }

  lemma PublishKeeps(s: State, size: nat, nodes: map<nat, LruK.Node>, disk: map<PageId, Data>, f: nat, p: PageId, data: Data,
                     nodes': map<nat, LruK.Node>, latch: Latch)
    requires Consistent(s, size, nodes, disk, Some(f)) && p !in s.table && |data| == PAGE_SIZE
    requires p in disk ==> disk[p] == data
    requires latch.Guards() == 1
    requires f in nodes' && nodes' == nodes[f := nodes'[f]] && !nodes'[f].evictable
    ensures Consistent(Published(s, f, p, data, latch), size, nodes', disk[p := data], None)
  {
    var s', d' := Published(s, f, p, data, latch), disk[p := data];
    forall q | q in s.table
      ensures s.table[q] != f
    {
      assert s.metas[s.table[q]].pageId == Some(q);
    }
    forall g | 0 <= g < size
      ensures FrameOk(s', nodes', d', g)
    {
      PublishedFrame(s, size, nodes, disk, f, p, data, nodes', latch, g);
    }
  }

  lemma PublishedFlat(s: State, size: nat, nodes: map<nat, LruK.Node>, disk: map<PageId, Data>, f: nat, p: PageId, data: Data, latch: Latch)
    requires Consistent(s, size, nodes, disk, Some(f)) && p !in s.table
    requires p in disk ==> disk[p] == data
    ensures Flat(Published(s, f, p, data, latch), disk[p := data]) == Flat(s, disk)[p := data]
    ensures p in Flat(s, disk) ==> Flat(s, disk)[p := data] == Flat(s, disk)
  {
    forall q | q in s.table
      ensures s.table[q] != f
    {
      assert s.metas[s.table[q]].pageId == Some(q);
    }
  }

  /** Deleting an unpinned page that is in a frame. */
  function Unloaded(s: State, p: PageId): State
    requires p in s.table && s.table[p] < |s.metas|
  {
    var f := s.table[p];
    s.(table := s.table - {p}, metas := s.metas[f := RESET], free := s.free + [f])
  }

  lemma UnloadedFrame(s: State, size: nat, nodes: map<nat, LruK.Node>, disk: map<PageId, Data>, p: PageId, g: nat)
    requires Consistent(s, size, nodes, disk, None) && p in s.table && s.table[p] < size && g < size
    requires s.metas[s.table[p]].pinCount == 0
    ensures FrameOk(Unloaded(s, p), nodes - {s.table[p]}, disk - {p}, g)
  {
    assert FrameOk(s, nodes, disk, g);
    assert Unloaded(s, p).free[|s.free|] == s.table[p];
  }

  lemma UnloadKeeps(s: State, size: nat, nodes: map<nat, LruK.Node>, disk: map<PageId, Data>, p: PageId)
    requires Consistent(s, size, nodes, disk, None) && p in s.table && s.table[p] < size
    requires s.metas[s.table[p]].pinCount == 0
    ensures s.table[p] in nodes && nodes[s.table[p]].evictable
    ensures Consistent(Unloaded(s, p), size, nodes - {s.table[p]}, disk - {p}, None)
    ensures Flat(Unloaded(s, p), disk - {p}) == Flat(s, disk) - {p}
  {
    var f, s' := s.table[p], Unloaded(s, p);
    assert FrameOk(s, nodes, disk, f);
    forall g | 0 <= g < size
      ensures FrameOk(s', nodes - {f}, disk - {p}, g)
    {
      UnloadedFrame(s, size, nodes, disk, p, g);
    }
    forall q | q in s'.table
      ensures s'.table[q] < size && s'.metas[s'.table[q]].pageId == Some(q)
    {
      assert s.table[q] == s'.table[q];
    }
    forall j | 0 <= j < |s'.free|
      ensures s'.free[j] < size && (j < |s.free| ==> s'.free[j] != f)
    {
      if j < |s.free| {
        assert s'.free[j] == s.free[j] && s.free[j] in s.free;
      }
    }
  }

  /** Deleting a page that is only on disk. */
  lemma DeleteKeeps(s: State, size: nat, nodes: map<nat, LruK.Node>, disk: map<PageId, Data>, p: PageId)
    requires Consistent(s, size, nodes, disk, None) && p !in s.table
    ensures Consistent(s, size, nodes, disk - {p}, None) && Flat(s, disk - {p}) == Flat(s, disk) - {p}
  {
    forall g | 0 <= g < size
      ensures FrameOk(s, nodes, disk - {p}, g)
    {
      assert FrameOk(s, nodes, disk, g);
    }
  }

  /** Writing through a write guard. */
  lemma PutKeeps(s: State, size: nat, nodes: map<nat, LruK.Node>, disk: map<PageId, Data>, p: PageId, data: Data)
    requires Consistent(s, size, nodes, disk, None) && p in s.table && s.table[p] < size && |data| == PAGE_SIZE
    requires s.latches[s.table[p]].writer
    ensures var s' := s.(frames := s.frames[s.table[p] := data]);
      Consistent(s', size, nodes, disk, None) && Flat(s', disk) == Flat(s, disk)[p := data]
  {
    var f := s.table[p];
    var s' := s.(frames := s.frames[f := data]);
    assert FrameOk(s, nodes, disk, f);
    forall g | 0 <= g < size
      ensures FrameOk(s', nodes, disk, g)
    {
      assert FrameOk(s, nodes, disk, g);
    }
    forall q | q in s.table && q != p
      ensures s.table[q] != f
    {
      assert s.metas[s.table[q]].pageId == Some(q);
    }
  }

  /** With no free frame and no evictable one, every frame is pinned; with
      either, some frame is not. */
  lemma NoneEvictableIffAllPinned(s: State, size: nat, nodes: map<nat, LruK.Node>, disk: map<PageId, Data>)
    requires Consistent(s, size, nodes, disk, None)
    ensures s.free == [] && LruK.Evictable(nodes) == {} <==> AllPinned(s)
  {
    forall f | 0 <= f < size
      ensures s.metas[f].pinCount == 0 ==> f in s.free || f in LruK.Evictable(nodes)
    {
      assert FrameOk(s, nodes, disk, f);
    }
    if s.free != [] {
      assert s.free[0] < size && s.free[0] in s.free;
      assert FrameOk(s, nodes, disk, s.free[0]);
      assert s.metas[s.free[0]].pinCount == 0;
    }
    forall f | f in LruK.Evictable(nodes)
      ensures f < size && s.metas[f].pinCount == 0
    {
      assert nodes[f].evictable && FrameOk(s, nodes, disk, f);
    }
    assert LruK.Evictable(nodes) != {} ==> exists f :: f in LruK.Evictable(nodes);
  }

  // ---- what each step does to the guards ---------------------------------------------------

  lemma LatchedHeld(s: State, s': State, size: nat, nodes: map<nat, LruK.Node>, disk: map<PageId, Data>, p: PageId, latch: Latch)
    requires Consistent(s, size, nodes, disk, None) && p in s.table && s.table[p] < size
    requires s'.table == s.table && s'.latches == s.latches[s.table[p] := latch]
    ensures Held(s') == if latch.Guards() > 0 then Held(s)[p := latch] else Held(s) - {p}
  {
    forall q | q in s.table && q != p
      ensures s.table[q] != s.table[p]
    {
      assert s.metas[s.table[q]].pageId == Some(q) && s.metas[s.table[p]].pageId == Some(p);
    }
  }

  lemma PublishedHeld(s: State, size: nat, nodes: map<nat, LruK.Node>, disk: map<PageId, Data>, f: nat, p: PageId, data: Data, latch: Latch)
    requires Consistent(s, size, nodes, disk, Some(f)) && p !in s.table && latch.Guards() > 0
    ensures Held(Published(s, f, p, data, latch)) == Held(s)[p := latch]
  {
    forall q | q in s.table
      ensures s.table[q] != f
    {
      assert s.metas[s.table[q]].pageId == Some(q);
    }
  }

  /** A page without guards leaves the table unnoticed. */
  lemma DroppedHeld(s: State, s': State, p: PageId)
    requires p in s.table && s.table[p] < |s.latches| && s.latches[s.table[p]].Guards() == 0
    requires s'.table == s.table - {p} && s'.latches == s.latches
    ensures Held(s') == Held(s)
  {
  }

  lemma PinnedIsHeld(s: State, size: nat, nodes: map<nat, LruK.Node>, disk: map<PageId, Data>, p: PageId)
    requires Consistent(s, size, nodes, disk, None) && p in s.table
    ensures s.table[p] < size && (s.metas[s.table[p]].pinCount > 0 <==> p in Held(s))
  {
    assert s.metas[s.table[p]].pageId == Some(p);
    assert FrameOk(s, nodes, disk, s.table[p]);
  }

  // ---- what each step does to the cache ----------------------------------------------------

  lemma LoadedOnce(s: State, size: nat, nodes: map<nat, LruK.Node>, disk: map<PageId, Data>, p: PageId, q: PageId)
    requires Consistent(s, size, nodes, disk, None) && p in s.table && q in s.table && s.table[p] == s.table[q]
    ensures p == q
  {
    TableFrame(s, size, nodes, disk, p);
    TableFrame(s, size, nodes, disk, q);
  }

  /** Every loaded page has a trace. */
  lemma TracedKeys(s: State, size: nat, nodes: map<nat, LruK.Node>, disk: map<PageId, Data>, accesses: map<nat, seq<nat>>)
    requires Consistent(s, size, nodes, disk, None) && accesses.Keys == nodes.Keys
    ensures Traced(s.table, accesses).Keys == s.table.Keys
  {
    forall p | p in s.table
      ensures s.table[p] in accesses
    {
      TableFrame(s, size, nodes, disk, p);
      assert FrameOk(s, nodes, disk, s.table[p]);
    }
  }

  lemma AloneInFrame(s: State, size: nat, nodes: map<nat, LruK.Node>, disk: map<PageId, Data>, p: PageId)
    requires Consistent(s, size, nodes, disk, None) && p in s.table
    ensures s.table[p] < size == |s.metas| == |s.latches|
    ensures forall q :: q in s.table && s.table[q] == s.table[p] ==> q == p
  {
    hide FrameOk;
    forall q | q in s.table && s.table[q] == s.table[p]
      ensures q == p
    {
      LoadedOnce(s, size, nodes, disk, p, q);
    }
  }

  lemma TracedUpdate(table: map<PageId, nat>, accesses: map<nat, seq<nat>>, p: PageId, times: seq<nat>)
    requires p in table && forall q :: q in table && table[q] == table[p] ==> q == p
    ensures Traced(table, accesses[table[p] := times]) == Traced(table, accesses)[p := times]
  {
  }

  lemma TracedAdd(table: map<PageId, nat>, accesses: map<nat, seq<nat>>, f: nat, p: PageId, times: seq<nat>)
    requires p !in table && forall q :: q in table ==> table[q] != f
    ensures Traced(table[p := f], accesses[f := times]) == Traced(table, accesses)[p := times]
  {
  }

  lemma PinnedCache(s: State, size: nat, nodes: map<nat, LruK.Node>, disk: map<PageId, Data>, accesses: map<nat, seq<nat>>, now: nat,
                    p: PageId, latch: Latch)
    requires Consistent(s, size, nodes, disk, None) && accesses.Keys == nodes.Keys && p in s.table && s.table[p] < |s.latches|
    ensures s.table[p] < |s.metas| == |s.latches| && s.table[p] in accesses && p in Traced(s.table, accesses)
    ensures var f := s.table[p];
      CacheOf(Pinned(s, f, latch), accesses[f := accesses[f] + [now + 1]], now + 1)
        == CacheOf(s, accesses, now).Accessed(size, Held(s).Keys, p)
  {
    hide Consistent, FrameOk, Held;
    TracedKeys(s, size, nodes, disk, accesses);
    AloneInFrame(s, size, nodes, disk, p);
    var f := s.table[p];
    assert p in Traced(s.table, accesses);
    TracedUpdate(s.table, accesses, p, accesses[f] + [now + 1]);
    assert DirtyPages(Pinned(s, f, latch)) == DirtyPages(s);
  }

  /** A page that a write guard leaves is dirty. */
  lemma UnpinnedCache(s: State, size: nat, nodes: map<nat, LruK.Node>, disk: map<PageId, Data>, accesses: map<nat, seq<nat>>, now: nat,
                      p: PageId, dirty: bool, latch: Latch)
    requires Consistent(s, size, nodes, disk, None) && p in s.table && s.table[p] < |s.metas| == |s.latches|
    requires s.metas[s.table[p]].pinCount > 0
    ensures var c := CacheOf(s, accesses, now);
      CacheOf(Unpinned(s, s.table[p], dirty, latch), accesses, now) == c.(dirty := c.dirty + if dirty then {p} else {})
  {
    hide Consistent, FrameOk;
    AloneInFrame(s, size, nodes, disk, p);
  }

  /** A page that leaves its frame. */
  lemma LeavesCache(s: State, size: nat, nodes: map<nat, LruK.Node>, disk: map<PageId, Data>, accesses: map<nat, seq<nat>>, now: nat,
                    p: PageId, s': State)
    requires Consistent(s, size, nodes, disk, None) && accesses.Keys == nodes.Keys && p in s.table && s.table[p] < |s.metas|
    requires s'.table == s.table - {p} && s'.metas == s.metas[s.table[p] := RESET]
    ensures CacheOf(s', accesses - {s.table[p]}, now) == CacheOf(s, accesses, now).Without({p})
  {
    hide Consistent, FrameOk;
    TracedKeys(s, size, nodes, disk, accesses);
    AloneInFrame(s, size, nodes, disk, p);
  }

  /** A page whose history starts over. */
  lemma RestartedCache(s: State, size: nat, nodes: map<nat, LruK.Node>, disk: map<PageId, Data>, accesses: map<nat, seq<nat>>, now: nat,
                       p: PageId)
    requires Consistent(s, size, nodes, disk, None) && accesses.Keys == nodes.Keys && p in s.table
    requires CacheOf(s, accesses, now).FirstToGo(Held(s).Keys) == {p}
    ensures CacheOf(s, accesses[s.table[p] := [now + 1]], now + 1) == CacheOf(s, accesses, now).Restarted(Held(s).Keys)
  {
    hide Consistent, FrameOk, Held, Traced, Cache.FirstToGo;
    TracedKeys(s, size, nodes, disk, accesses);
    AloneInFrame(s, size, nodes, disk, p);
    TracedUpdate(s.table, accesses, p, [now + 1]);
    var trace, first := Traced(s.table, accesses), CacheOf(s, accesses, now).FirstToGo(Held(s).Keys);
    assert trace[p := [now + 1]] == map q | q in trace :: if q in first then [now + 1] else trace[q];
  }

  /** A page loaded into a detached frame. */
  lemma PublishedCache(s: State, size: nat, nodes: map<nat, LruK.Node>, disk: map<PageId, Data>, accesses: map<nat, seq<nat>>, now: nat,
                       f: nat, p: PageId, data: Data, latch: Latch)
    requires Consistent(s, size, nodes, disk, Some(f)) && accesses.Keys == nodes.Keys && p !in s.table
    ensures f !in accesses
    ensures var c := CacheOf(s, accesses, now);
      CacheOf(Published(s, f, p, data, latch), accesses[f := [now + 1]], now + 1) == Cache(c.trace[p := [now + 1]], c.dirty, now + 1)
  {
    hide Consistent, FrameOk, Detached, Traced;
    DetachedEmpty(s, size, nodes, disk, f);
    TracedAdd(s.table, accesses, f, p, [now + 1]);
    assert DirtyPages(Published(s, f, p, data, latch)) == DirtyPages(s);
  }

  lemma DetachedEmpty(s: State, size: nat, nodes: map<nat, LruK.Node>, disk: map<PageId, Data>, f: nat)
    requires Consistent(s, size, nodes, disk, Some(f))
    ensures f < size == |s.metas| == |s.frames| == |s.latches| && f !in nodes
    ensures forall q :: q in s.table ==> s.table[q] != f
  {
    forall q | q in s.table
      ensures s.table[q] != f
    {
      assert s.metas[s.table[q]].pageId == Some(q);
    }
  }

  lemma LoadedEvictable(s: State, size: nat, nodes: map<nat, LruK.Node>, disk: map<PageId, Data>, p: PageId)
    requires Consistent(s, size, nodes, disk, None) && p in s.table && p !in Held(s)
    ensures s.table[p] in LruK.Evictable(nodes)
  {
    PinnedIsHeld(s, size, nodes, disk, p);
    assert s.metas[s.table[p]].pageId == Some(p);
    assert FrameOk(s, nodes, disk, s.table[p]);
  }

  lemma EvictableLoaded(s: State, size: nat, nodes: map<nat, LruK.Node>, disk: map<PageId, Data>, f: nat) returns (p: PageId)
    requires Consistent(s, size, nodes, disk, None) && f in LruK.Evictable(nodes)
    ensures p in s.table && s.table[p] == f < |s.metas| && s.metas[f].pageId == Some(p) && p !in Held(s)
  {
    assert nodes[f].evictable && f < size;
    assert FrameOk(s, nodes, disk, f);
    p := s.metas[f].pageId.value;
    PinnedIsHeld(s, size, nodes, disk, p);
  }

  /** The replacer's victim holds the page that goes first. */
  lemma VictimGoesFirst(s: State, size: nat, nodes: map<nat, LruK.Node>, disk: map<PageId, Data>, accesses: map<nat, seq<nat>>,
                        now: nat, f: nat) returns (p: PageId)
    requires Consistent(s, size, nodes, disk, None)
    requires LruK.Consistent(nodes, accesses, LRU_K, now) && LruK.IsVictim(nodes, accesses, LRU_K, now, f)
    ensures p in s.table && s.table[p] == f < |s.metas| && s.metas[f].pageId == Some(p)
    ensures CacheOf(s, accesses, now).FirstToGo(Held(s).Keys) == {p} && |CacheOf(s, accesses, now).FirstToGo(Held(s).Keys)| == 1
    ensures CacheOf(s, accesses, now).FirstToGo(Held(s).Keys) * DirtyPages(s) != {} <==> s.metas[f].isDirty
  {
    hide Consistent, FrameOk, Held, LruK.EvictBefore, LruK.Consistent;
    LruK.HistoryIsLast(nodes, accesses, LRU_K, now, f);
    p := EvictableLoaded(s, size, nodes, disk, f);
    var c, held := CacheOf(s, accesses, now), Held(s).Keys;
    TracedKeys(s, size, nodes, disk, accesses);
    forall q | q in c.trace && q !in held && q != p
      ensures LruK.EvictBefore(c.trace[p], c.trace[q], LRU_K, now)
    {
      LoadedEvictable(s, size, nodes, disk, q);
      if s.table[q] == f {
        LoadedOnce(s, size, nodes, disk, p, q);
      }
    }
    OneGoesFirst(c, held, p);
    assert p in c.FirstToGo(held) * DirtyPages(s) <==> s.metas[f].isDirty;
  }

  lemma NoneGoesFirst(s: State, size: nat, nodes: map<nat, LruK.Node>, disk: map<PageId, Data>, accesses: map<nat, seq<nat>>, now: nat)
    requires Consistent(s, size, nodes, disk, None) && LruK.Evictable(nodes) == {}
    ensures CacheOf(s, accesses, now).FirstToGo(Held(s).Keys) == {}
  {
    hide Consistent, FrameOk, Held, LruK.EvictBefore;
    forall q | q in CacheOf(s, accesses, now).FirstToGo(Held(s).Keys)
      ensures false
    {
      LoadedEvictable(s, size, nodes, disk, q);
    }
  }

  lemma VictimFrame(s: State, size: nat, nodes: map<nat, LruK.Node>, disk: map<PageId, Data>, f: nat)
    requires Consistent(s, size, nodes, disk, None) && f in nodes
    ensures f < size == |s.frames| == |s.metas| && |s.frames[f]| == PAGE_SIZE && s.metas[f].pageId.Some?
  {
    assert f < size && FrameOk(s, nodes, disk, f);
  }

  lemma VictimUnguarded(s: State, size: nat, nodes: map<nat, LruK.Node>, disk: map<PageId, Data>, f: nat)
    requires Consistent(s, size, nodes, disk, None) && f in nodes && nodes[f].evictable
    ensures f < |s.latches| && s.latches[f].Guards() == 0
    ensures s.metas[f].pageId.Some? && s.metas[f].pageId.value in disk
  {
    assert f < size && FrameOk(s, nodes, disk, f);
  }

  lemma FirstAccess(accesses: map<nat, seq<nat>>, f: nat, now: nat)
    ensures (accesses - {f})[f := [] + [now]] == accesses[f := [] + [now]] == accesses[f := [now]]
  {
    assert [] + [now] == [now];
  }

  lemma OneGoesFirst(c: Cache, held: set<PageId>, p: PageId)
    requires c.GoesFirst(held, p)
    ensures c.FirstToGo(held) == {p}
  {
    forall q | q in c.FirstToGo(held)
      ensures q == p
    {
      if q != p {
        LruK.EvictBeforeTransitive(c.trace[p], c.trace[q], c.trace[p], LRU_K, c.now);
      }
    }
  }

  /** Some frame is free exactly if fewer pages are loaded than there are frames. */
  lemma FreeIffRoom(s: State, size: nat, nodes: map<nat, LruK.Node>, disk: map<PageId, Data>)
    requires Consistent(s, size, nodes, disk, None)
    ensures |s.table| <= size && (s.free != [] <==> |s.table| < size)
  {
    hide FrameOk, Consistent;
    var pages, frames := s.table.Keys, LoadedFrames(s);
    forall p | p in pages
      ensures s.table[p] in frames
    {
      TableFrame(s, size, nodes, disk, p);
    }
    forall p, q | p in pages && q in pages && s.table[p] == s.table[q]
      ensures p == q
    {
      LoadedOnce(s, size, nodes, disk, p, q);
    }
    forall f | f in frames
      ensures exists p :: p in pages && p in s.table && s.table[p] == f
    {
      var p := FramePage(s, size, nodes, disk, f);
    }
    SameSize(pages, frames, s.table);
    assert |s.table| == |pages|;
    TableSize(s, size, nodes, disk);
    UpTo(frames, size);
    if s.free != [] {
      FreeFrame(s, size, nodes, disk);
      assert s.free[0] !in frames;
    } else {
      forall f: nat | f < size
        ensures f in frames
      {
        NotFree(s, size, nodes, disk, f);
      }
    }
  }

  ghost function LoadedFrames(s: State): set<nat> {
    set f: nat | f < |s.metas| && s.metas[f].pageId.Some?
  }

  lemma FramePage(s: State, size: nat, nodes: map<nat, LruK.Node>, disk: map<PageId, Data>, f: nat) returns (p: PageId)
    requires Consistent(s, size, nodes, disk, None) && f in LoadedFrames(s)
    ensures p in s.table && s.table[p] == f
  {
    assert FrameOk(s, nodes, disk, f);
    p := s.metas[f].pageId.value;
  }

  lemma FreeFrame(s: State, size: nat, nodes: map<nat, LruK.Node>, disk: map<PageId, Data>)
    requires Consistent(s, size, nodes, disk, None) && s.free != []
    ensures s.free[0] < size == |s.metas| && s.metas[s.free[0]].pageId.None?
  {
    assert s.free[0] in s.free;
    assert FrameOk(s, nodes, disk, s.free[0]);
  }

  lemma NotFree(s: State, size: nat, nodes: map<nat, LruK.Node>, disk: map<PageId, Data>, f: nat)
    requires Consistent(s, size, nodes, disk, None) && s.free == [] && f < size
    ensures f < |s.metas| && s.metas[f].pageId.Some?
  {
    assert FrameOk(s, nodes, disk, f);
  }

  // ---- counting pinned frames ----------------------------------------------------------------

  /** All frames are pinned exactly if as many pages have guards as there are frames. */
  lemma AllPinnedIffAllHeld(s: State, size: nat, nodes: map<nat, LruK.Node>, disk: map<PageId, Data>)
    requires Consistent(s, size, nodes, disk, None)
    ensures AllPinned(s) <==> |Held(s)| == size
    ensures forall p :: p in s.table && AllPinned(s) ==> p in Held(s)
  {
    hide FrameOk, Consistent, Held;
    var pages, frames := Held(s).Keys, PinnedFrames(s);
    forall p | p in pages
      ensures p in s.table && s.table[p] in frames
    {
      HeldInTable(s, p);
      PinnedIsHeld(s, size, nodes, disk, p);
      TableFrame(s, size, nodes, disk, p);
    }
    forall p, q | p in pages && q in pages && p in s.table && q in s.table && s.table[p] == s.table[q]
      ensures p == q
    {
      TableFrame(s, size, nodes, disk, p);
      TableFrame(s, size, nodes, disk, q);
    }
    forall f | f in frames
      ensures exists p :: p in pages && p in s.table && s.table[p] == f
    {
      var p := PinnedPage(s, size, nodes, disk, f);
      PinnedIsHeld(s, size, nodes, disk, p);
    }
    SameSize(pages, frames, s.table);
    TableSize(s, size, nodes, disk);
    UpTo(frames, size);
    AllFramesPinned(s);
    forall p | p in s.table && AllPinned(s)
      ensures p in Held(s)
    {
      PinnedIsHeld(s, size, nodes, disk, p);
    }
  }

  ghost function PinnedFrames(s: State): set<nat> {
    set f: nat | f < |s.metas| && s.metas[f].pinCount > 0
  }

  lemma AllFramesPinned(s: State)
    ensures AllPinned(s) <==> forall f: nat :: f < |s.metas| ==> f in PinnedFrames(s)
  {
    if forall f: nat :: f < |s.metas| ==> f in PinnedFrames(s) {
      forall f | 0 <= f < |s.metas|
        ensures s.metas[f].pinCount > 0
      {
        assert f in PinnedFrames(s);
      }
    }
  }

  lemma HeldAt(s: State, p: PageId)
    requires p in s.table && s.table[p] < |s.latches|
    ensures s.latches[s.table[p]] == if p in Held(s) then Held(s)[p] else s.latches[s.table[p]]
    ensures p !in Held(s) ==> s.latches[s.table[p]].readers == 0
  {
  }

  lemma NotHeld(s: State, p: PageId)
    requires p !in s.table
    ensures p !in Held(s)
  {
  }

  lemma HeldInTable(s: State, p: PageId)
    requires p in Held(s)
    ensures p in s.table
  {
  }

  lemma TableSize(s: State, size: nat, nodes: map<nat, LruK.Node>, disk: map<PageId, Data>)
    requires Consistent(s, size, nodes, disk, None)
    ensures |s.metas| == size
  {
  }

  lemma TableFrame(s: State, size: nat, nodes: map<nat, LruK.Node>, disk: map<PageId, Data>, p: PageId)
    requires Consistent(s, size, nodes, disk, None) && p in s.table
    ensures s.table[p] < size == |s.metas| && s.metas[s.table[p]].pageId == Some(p)
  {
  }

  lemma PinnedPage(s: State, size: nat, nodes: map<nat, LruK.Node>, disk: map<PageId, Data>, f: nat) returns (p: PageId)
    requires Consistent(s, size, nodes, disk, None) && f in PinnedFrames(s)
    ensures p in s.table && s.table[p] == f
  {
    assert FrameOk(s, nodes, disk, f);
    p := s.metas[f].pageId.value;
  }

  /** A one-to-one map keeps sizes. */
  lemma {:induction false} SameSize(a: set<PageId>, b: set<nat>, m: map<PageId, nat>)
    requires forall p :: p in a ==> p in m && m[p] in b
    requires forall p, q :: p in a && q in a && p in m && q in m && m[p] == m[q] ==> p == q
    requires forall f :: f in b ==> exists p :: p in a && p in m && m[p] == f
    ensures |a| == |b|
    decreases |a|
  {
    if a == {} {
      assert b == {};
    } else {
      var p :| p in a;
      var a', b' := a - {p}, b - {m[p]};
      SameSize(a', b', m);
    }
  }

  lemma {:induction false} UpTo(b: set<nat>, n: nat)
    requires forall f :: f in b ==> f < n
    ensures |b| <= n && (|b| == n <==> forall f: nat :: f < n ==> f in b)
  {
    if n == 0 {
      assert b == {};
    } else {
      UpTo(b - {n - 1}, n - 1);
      if n - 1 in b {
        assert forall f: nat :: f < n - 1 ==> (f in b - {n - 1} <==> f in b);
      } else {
        assert b - {n - 1} == b;
      }
    }
  }

  ghost predicate AllPinned(s: State) {
    forall f :: 0 <= f < |s.metas| ==> s.metas[f].pinCount > 0
  }

  datatype AcquireError = NoAvailableFrame | IoError

  datatype Guard = Guard(pageId: PageId, frameId: nat)

  datatype Outcome = Acquired(guard: Guard) | Failed(error: AcquireError)

  /** Records an access to a frame and sets whether it may be evicted. */
  method Touch(replacer: LruK.LruKReplacer, f: nat, evictable: bool)
    requires replacer.Valid() && f < replacer.replacerSize
    modifies replacer
    ensures replacer.Valid() && f in replacer.nodes
    ensures replacer.nodes == old(replacer.nodes)[f := replacer.nodes[f]]
    ensures replacer.nodes[f].evictable == evictable
    ensures replacer.currentTimestamp == old(replacer.currentTimestamp) + 1
    ensures replacer.accesses == old(replacer.accesses)[f := old(replacer.AccessesOf(f)) + [replacer.currentTimestamp]]
  {
    replacer.RecordAccess(f);
    replacer.SetEvictable(f, evictable);
  }

  /** Asks the replacer for a victim. */
  method TakeVictim(replacer: LruK.LruKReplacer) returns (victim: Option<nat>)
    requires replacer.Valid()
    modifies replacer
    ensures replacer.Valid()
    ensures victim.None? <==> LruK.Evictable(old(replacer.nodes)) == {}
    ensures victim.None? ==> replacer.nodes == old(replacer.nodes)
    ensures victim.Some? ==>
      && victim.value in old(replacer.nodes) && old(replacer.nodes)[victim.value].evictable
      && LruK.IsVictim(old(replacer.nodes), old(replacer.accesses), replacer.k, old(replacer.currentTimestamp), victim.value)
      && replacer.nodes == old(replacer.nodes) - {victim.value}
    ensures replacer.currentTimestamp == old(replacer.currentTimestamp)
    ensures replacer.accesses == if victim.Some? then old(replacer.accesses) - {victim.value} else old(replacer.accesses)
  {
    victim := replacer.Evict();
  }

  method WriteBack(disk: DiskManager, p: PageId, data: Data, dirty: bool)
    requires disk.Valid() && |data| == PAGE_SIZE
    modifies disk
    ensures disk.Valid() && disk.View() == if dirty then old(disk.View())[p := data] else old(disk.View())
  {
    if dirty {
      var _ := disk.WritePage(p, data);
    }
  }

  method MakeEvictable(replacer: LruK.LruKReplacer, f: nat, unpinned: bool)
    requires replacer.Valid() && f in replacer.nodes
    modifies replacer
    ensures replacer.Valid()
    ensures replacer.nodes == if unpinned then old(replacer.nodes)[f := old(replacer.nodes)[f].(evictable := true)]
                              else old(replacer.nodes)
    ensures replacer.accesses == old(replacer.accesses) && replacer.currentTimestamp == old(replacer.currentTimestamp)
  {
    if unpinned {
      replacer.SetEvictable(f, true);
    }
  }

  lemma SameFrames(replacer: LruK.LruKReplacer)
    requires replacer.Valid()
    ensures replacer.accesses.Keys == replacer.nodes.Keys
  {
  }

  class BufferPool {
    const poolSize: nat
    const replacer: LruK.LruKReplacer
    const disk: DiskManager
    /** Frames, their latches, and the bookkeeping behind the mutex. */
    var st: State
    var nextPageId: PageId

    ghost predicate Valid()
      reads this, replacer, disk
    {
      && replacer.Valid() && disk.Valid() && replacer.replacerSize == poolSize && replacer.k == LRU_K
      && Consistent(st, poolSize, replacer.nodes, disk.View(), None)
    }

    /** The flat page store. */
    ghost function Store(): map<PageId, Data>
      reads this, disk
      requires disk.Valid()
    {
      Flat(st, disk.View())
    }

    /** The loaded pages with their accesses. */
    ghost function Loaded(): Cache
      reads this, replacer
    {
      CacheOf(st, replacer.accesses, replacer.currentTimestamp)
    }

    constructor (poolSize: nat)
      ensures Valid() && fresh(replacer) && fresh(disk) && this.poolSize == poolSize
      ensures Store() == map[] && Held(st) == map[] && Loaded() == Cache(map[], {}, 0)
    {
      this.poolSize := poolSize;
      replacer := new LruK.LruKReplacer(poolSize, LRU_K);
      disk := new DiskManager();
      st := State(seq(poolSize, _ => Zeros(PAGE_SIZE)), seq(poolSize, _ => RESET), map[],
                  seq(poolSize, i requires 0 <= i < poolSize => poolSize - 1 - i),
                  seq(poolSize, _ => Latch(0, false)));
      nextPageId := 1;
      new;
      forall f | 0 <= f < poolSize
        ensures FrameOk(st, replacer.nodes, disk.View(), f)
      {
        assert st.free[poolSize - 1 - f] == f;
      }
    }

    // ---- acquiring a page -----------------------------------------------------------

    /** Pins a page that is already in a frame. */
    method PinLoadedPage(p: PageId, latch: Latch) returns (f: nat)
      requires Valid() && p in st.table && st.table[p] < |st.latches|
      requires latch.Guards() == st.latches[st.table[p]].Guards() + 1 && (latch.writer ==> latch.readers == 0)
      requires !latch.writer ==> !st.latches[st.table[p]].writer
      modifies this`st, replacer
      ensures Valid() && Store() == old(Store())
      ensures p in st.table && f == st.table[p] && st.latches == old(st).latches[f := latch]
      ensures Held(st) == old(Held(st))[p := latch]
      ensures st.table == old(st).table && st.frames == old(st).frames
      ensures Loaded() == old(Loaded()).Accessed(poolSize, old(Held(st)).Keys, p)
    {
      hide FrameOk, Held, Flat, Traced, DirtyPages, DiskManager.View, DiskManager.Valid, LruK.NodeOk, Cache.Accessed, AllPinned;
      PinnedCache(st, poolSize, replacer.nodes, disk.View(), replacer.accesses, replacer.currentTimestamp, p, latch);
      f := st.table[p];
      assert st.metas[f].pageId == Some(p);
      assert FrameOk(st, replacer.nodes, disk.View(), f);
      ghost var nodes := replacer.nodes;
      Touch(replacer, f, false);
      PinKeeps(st, poolSize, nodes, disk.View(), p, replacer.nodes, latch);
      LatchedHeld(st, Pinned(st, f, latch), poolSize, nodes, disk.View(), p, latch);
      st := Pinned(st, f, latch);
    }

    /** Finds a frame for a page that is not loaded: a free one, or one whose
        page is evicted, after writing that page back if it is dirty. */
    method AcquireFrameForPageLoad(writeOk: bool) returns (r: Outcome)
      requires Valid()
      modifies this`st, replacer, disk
      ensures replacer.Valid() && disk.Valid() && disk.View().Keys == old(disk.View()).Keys
      ensures Store() == old(Store()) && st.table.Keys <= old(st).table.Keys && Held(st) == old(Held(st))
      ensures r.Acquired? ==> Consistent(st, poolSize, replacer.nodes, disk.View(), Some(r.guard.frameId))
      ensures r.Failed? ==> Valid() && st == old(st)
      ensures r == Failed(NoAvailableFrame) <==> old(AllPinned(st))
      ensures r.Acquired? ==> Loaded() == old(Loaded()).WithRoom(poolSize, old(Held(st)).Keys)
      ensures r.Acquired? && |old(Loaded()).trace| >= poolSize ==> |old(Loaded()).FirstToGo(old(Held(st)).Keys)| == 1
      ensures r == Failed(NoAvailableFrame) ==> replacer.nodes == old(replacer.nodes) && Loaded() == old(Loaded())
      ensures r == Failed(IoError) <==> !writeOk && old(Loaded()).MustWriteBack(poolSize, old(Held(st)).Keys)
      ensures r == Failed(IoError) ==> Loaded() == old(Loaded()).Restarted(old(Held(st)).Keys)
    {
      FreeIffRoom(st, poolSize, replacer.nodes, disk.View());
      TracedKeys(st, poolSize, replacer.nodes, disk.View(), replacer.accesses);
      NoneEvictableIffAllPinned(st, poolSize, replacer.nodes, disk.View());
      if st.free != [] {
        PopFreeKeeps(st, poolSize, replacer.nodes, disk.View());
        var n := |st.free| - 1;
        r := Acquired(Guard(0, st.free[n]));
        st := st.(free := st.free[..n]);
        return;
      }
      r := EvictFrame(writeOk);
    }

    method EvictFrame(writeOk: bool) returns (r: Outcome)
      requires Valid()
      modifies this`st, replacer, disk
      ensures replacer.Valid() && disk.Valid() && disk.View().Keys == old(disk.View()).Keys
      ensures Store() == old(Store()) && st.table.Keys <= old(st).table.Keys && Held(st) == old(Held(st))
      ensures r.Acquired? ==> Consistent(st, poolSize, replacer.nodes, disk.View(), Some(r.guard.frameId))
      ensures r.Failed? ==> Valid() && st == old(st)
      ensures r == Failed(NoAvailableFrame) <==> LruK.Evictable(old(replacer.nodes)) == {}
      ensures r.Acquired? ==> Loaded() == old(Loaded()).Without(old(Loaded()).FirstToGo(old(Held(st)).Keys))
      ensures r.Acquired? ==> |old(Loaded()).FirstToGo(old(Held(st)).Keys)| == 1
      ensures r == Failed(NoAvailableFrame) ==> replacer.nodes == old(replacer.nodes) && Loaded() == old(Loaded())
      ensures r == Failed(IoError) <==> !writeOk && old(Loaded()).FirstToGo(old(Held(st)).Keys) * old(Loaded()).dirty != {}
      ensures r == Failed(IoError) ==> Loaded() == old(Loaded()).Restarted(old(Held(st)).Keys)
    {
      hide Consistent, FrameOk, Held, AllPinned, Flat, Traced, DirtyPages, DiskManager.View, DiskManager.Valid;
      hide Cache.FirstToGo, Cache.GoesFirst, Cache.Restarted, Cache.Without;
      hide LruK.Consistent, LruK.NodeOk, LruK.Evictable, LruK.IsVictim;
      ghost var nodes, accesses := replacer.nodes, replacer.accesses;
      var victim, page := TakeVictimPage();
      if victim.None? {
        return Failed(NoAvailableFrame);
      }
      var f := victim.value;
      if st.metas[f].isDirty && !writeOk {
        PutBack(f, page, nodes, accesses);
        return Failed(IoError);
      }
      DetachFrame(f, page, nodes, accesses);
      r := Acquired(Guard(0, f));
    }

    /** The frame whose page goes first. */
    method TakeVictimPage() returns (victim: Option<nat>, ghost page: PageId)
      requires Valid()
      modifies replacer
      ensures replacer.Valid() && replacer.currentTimestamp == old(replacer.currentTimestamp)
      ensures old(replacer.accesses).Keys == old(replacer.nodes).Keys
      ensures victim.None? <==> LruK.Evictable(old(replacer.nodes)) == {}
      ensures victim.None? ==> Valid() && replacer.nodes == old(replacer.nodes) && replacer.accesses == old(replacer.accesses)
      ensures victim.None? ==> old(Loaded()).FirstToGo(Held(st).Keys) == {}
      ensures victim.Some? ==> IsVictimPage(old(replacer.nodes), victim.value, page)
      ensures victim.Some? ==>
        replacer.nodes == old(replacer.nodes) - {victim.value} && replacer.accesses == old(replacer.accesses) - {victim.value}
      ensures victim.Some? ==> old(Loaded()).FirstToGo(Held(st).Keys) == {page} && |old(Loaded()).FirstToGo(Held(st).Keys)| == 1
      ensures victim.Some? ==> (old(Loaded()).FirstToGo(Held(st).Keys) * old(Loaded()).dirty != {} <==> st.metas[victim.value].isDirty)
    {
      hide Consistent, FrameOk, Held, LruK.Consistent, LruK.EvictBefore, Traced;
      LruK.HistoryIsLast(replacer.nodes, replacer.accesses, replacer.k, replacer.currentTimestamp, 0);
      ghost var nodes, accesses, now := replacer.nodes, replacer.accesses, replacer.currentTimestamp;
      victim := TakeVictim(replacer);
      if victim.None? {
        NoneGoesFirst(st, poolSize, nodes, disk.View(), accesses, now);
        page := 0;
      } else {
        page := VictimGoesFirst(st, poolSize, nodes, disk.View(), accesses, now, victim.value);
        VictimFrame(st, poolSize, nodes, disk.View(), victim.value);
      }
    }

    ghost predicate IsVictimPage(nodes: map<nat, LruK.Node>, f: nat, page: PageId)
      reads this
    {
      && f in nodes && nodes[f].evictable && page in st.table && st.table[page] == f
      && f < poolSize == |st.metas| == |st.frames| && st.metas[f].pageId == Some(page) && |st.frames[f]| == PAGE_SIZE
    }

    /** After a failed write-back the victim may be evicted again. */
    method PutBack(f: nat, ghost page: PageId, ghost nodes: map<nat, LruK.Node>, ghost accesses: map<nat, seq<nat>>)
      requires replacer.Valid() && disk.Valid() && replacer.replacerSize == poolSize && replacer.k == LRU_K
      requires Consistent(st, poolSize, nodes, disk.View(), None) && IsVictimPage(nodes, f, page)
      requires accesses.Keys == nodes.Keys && replacer.nodes == nodes - {f} && replacer.accesses == accesses - {f}
      requires CacheOf(st, accesses, replacer.currentTimestamp).FirstToGo(Held(st).Keys) == {page}
      modifies replacer
      ensures Valid() && Loaded() == CacheOf(st, accesses, old(replacer.currentTimestamp)).Restarted(Held(st).Keys)
    {
      hide Consistent, FrameOk, Held, Traced, DirtyPages, DiskManager.View, DiskManager.Valid;
      hide Cache.Restarted, Cache.FirstToGo, LruK.Consistent, LruK.NodeOk;
      ghost var now := replacer.currentTimestamp;
      Touch(replacer, f, true);
      EvictionUndone(st, poolSize, nodes, disk.View(), f, replacer.nodes);
      RestartedCache(st, poolSize, nodes, disk.View(), accesses, now, page);
      FirstAccess(accesses, f, now + 1);
    }

    /** Takes the victim's page out of the pool, saving it first if it is dirty. */
    method DetachFrame(f: nat, ghost page: PageId, ghost nodes: map<nat, LruK.Node>, ghost accesses: map<nat, seq<nat>>)
      requires replacer.Valid() && disk.Valid() && replacer.replacerSize == poolSize && replacer.k == LRU_K
      requires Consistent(st, poolSize, nodes, disk.View(), None) && IsVictimPage(nodes, f, page)
      requires accesses.Keys == nodes.Keys && replacer.nodes == nodes - {f} && replacer.accesses == accesses - {f}
      modifies this`st, disk
      ensures disk.Valid() && disk.View().Keys == old(disk.View()).Keys
      ensures Store() == old(Store()) && st.table.Keys <= old(st).table.Keys && Held(st) == old(Held(st))
      ensures Consistent(st, poolSize, nodes - {f}, disk.View(), Some(f))
      ensures Loaded() == old(CacheOf(st, accesses, replacer.currentTimestamp)).Without({page})
    {
      hide Consistent, Held, Traced, LruK.Consistent;
      ghost var s, view := st, disk.View();
      var victimPage := st.metas[f].pageId.value;
      VictimUnguarded(s, poolSize, nodes, view, f);
      WriteBack(disk, victimPage, st.frames[f], st.metas[f].isDirty);
      EvictKeeps(s, poolSize, nodes, view, f, disk.View());
      DroppedHeld(s, s.(table := s.table - {victimPage}, metas := s.metas[f := RESET]), victimPage);
      st := st.(table := st.table - {victimPage}, metas := st.metas[f := RESET]);
      LeavesCache(s, poolSize, nodes, view, accesses, replacer.currentTimestamp, page, st);
    }

    /** Loads page `p` into a frame and pins it. */
    method LoadPage(p: PageId, latch: Latch, writeOk: bool) returns (r: Outcome)
      requires Valid() && p !in st.table && latch.Guards() == 1
      modifies this`st, replacer, disk
      ensures Valid()
      ensures r.Acquired? ==> r.guard.pageId == p && Holding(r.guard) && st.latches[r.guard.frameId] == latch
      ensures r.Acquired? ==> Store() == old(Store())[p := st.frames[r.guard.frameId]]
      ensures r.Acquired? && p in old(Store()) ==> Store() == old(Store())
      ensures r.Failed? ==> Store() == old(Store()) && st == old(st)
      ensures r == Failed(NoAvailableFrame) <==> old(AllPinned(st))
      ensures r == Failed(NoAvailableFrame) ==> replacer.nodes == old(replacer.nodes) && Loaded() == old(Loaded())
      ensures r == Failed(IoError) <==> !writeOk && old(Loaded()).MustWriteBack(poolSize, old(Held(st)).Keys)
      ensures r == Failed(IoError) ==> Loaded() == old(Loaded()).Restarted(old(Held(st)).Keys)
      ensures r.Acquired? ==> Held(st) == old(Held(st))[p := latch]
      ensures r.Acquired? ==> Loaded() == old(Loaded()).Accessed(poolSize, old(Held(st)).Keys, p)
      ensures r.Acquired? && |old(Loaded()).trace| >= poolSize ==> |old(Loaded()).FirstToGo(old(Held(st)).Keys)| == 1
    {
      hide Consistent, Detached, FrameOk, Latch.Guards, Held, AllPinned, Flat, Traced, DirtyPages;
      hide Cache.FirstToGo, Cache.Restarted, DiskManager.View, DiskManager.Valid, LruK.Consistent, LruK.Evictable;
      SameFrames(replacer);
      TracedKeys(st, poolSize, replacer.nodes, disk.View(), replacer.accesses);
      r := AcquireFrameForPageLoad(writeOk);
      if r.Failed? {
        return;
      }
      var f := r.guard.frameId;
      PublishLoadedPage(p, f, latch);
      r := Acquired(Guard(p, f));
    }

    /** Reads page `p` into the detached frame `f` and enters it in the table. */
    method PublishLoadedPage(p: PageId, f: nat, latch: Latch)
      requires replacer.Valid() && disk.Valid() && replacer.replacerSize == poolSize && replacer.k == LRU_K
      requires Consistent(st, poolSize, replacer.nodes, disk.View(), Some(f))
      requires p !in st.table && latch.Guards() == 1
      modifies this`st, replacer, disk
      ensures Valid() && Holding(Guard(p, f)) && st.latches[f] == latch
      ensures Store() == old(Store())[p := st.frames[f]]
      ensures p in old(Store()) ==> Store() == old(Store())
      ensures Held(st) == old(Held(st))[p := latch]
      ensures var c := old(Loaded()); Loaded() == Cache(c.trace[p := [c.now + 1]], c.dirty, c.now + 1)
    {
      hide Consistent, FrameOk, Held, Flat, Traced, DirtyPages, AllPinned, DiskManager.Valid, LruK.Consistent, LruK.Evictable;
      ghost var s, nodes, view := st, replacer.nodes, disk.View();
      ghost var accesses, now := replacer.accesses, replacer.currentTimestamp;
      SameFrames(replacer);
      var data := disk.ReadPage(p);
      DetachedEmpty(s, poolSize, nodes, view, f);
      PublishedCache(s, poolSize, nodes, view, accesses, now, f, p, data, latch);
      FirstAccess(accesses, f, now + 1);
      Touch(replacer, f, false);
      PublishKeeps(s, poolSize, nodes, view, f, p, data, replacer.nodes, latch);
      PublishedFlat(s, poolSize, nodes, view, f, p, data, latch);
      PublishedHeld(s, poolSize, nodes, view, f, p, data, latch);
      st := Published(st, f, p, data, latch);
    }

    /** The guard's frame holds the guard's page. */
    ghost predicate Holding(g: Guard)
      reads this
    {
      && g.pageId in st.table && st.table[g.pageId] == g.frameId
      && g.frameId < |st.latches| && g.frameId < |st.frames|
    }

    /** A write guard for page `p`. The call returns once no guard on `p` is
        left; what it shows is what the flat store holds. */
    method WritePage(p: PageId, writeOk: bool) returns (r: Outcome)
      requires Valid()
      requires p in st.table && st.table[p] < |st.latches| ==> st.latches[st.table[p]] == Latch(0, false)
      modifies this`st, replacer, disk
      ensures Valid()
      ensures r.Acquired? ==> r.guard.pageId == p && Holding(r.guard) && st.latches[r.guard.frameId] == Latch(0, true)
      ensures r.Acquired? ==> Store() == old(Store())[p := st.frames[r.guard.frameId]]
      ensures r.Acquired? && p in old(Store()) ==> Store() == old(Store())
      ensures r.Failed? ==> Store() == old(Store()) && st == old(st)
      ensures r == Failed(NoAvailableFrame) <==> p !in old(st).table && old(AllPinned(st))
      ensures r == Failed(NoAvailableFrame) ==> replacer.nodes == old(replacer.nodes) && Loaded() == old(Loaded())
      ensures r == Failed(IoError) <==>
        !writeOk && p !in old(Loaded()).trace && old(Loaded()).MustWriteBack(poolSize, old(Held(st)).Keys)
      ensures r == Failed(IoError) ==> Loaded() == old(Loaded()).Restarted(old(Held(st)).Keys)
      ensures r.Acquired? ==> Held(st) == old(Held(st))[p := Latch(0, true)]
      ensures r.Acquired? ==> Loaded() == old(Loaded()).Accessed(poolSize, old(Held(st)).Keys, p)
      ensures r.Acquired? && p !in old(Loaded()).trace && |old(Loaded()).trace| >= poolSize ==>
        |old(Loaded()).FirstToGo(old(Held(st)).Keys)| == 1
    {
      hide FrameOk, Held, Traced, DirtyPages, DiskManager.View, DiskManager.Valid, LruK.NodeOk;
      hide Cache.FirstToGo, Cache.Restarted, Cache.WithRoom;
      TracedKeys(st, poolSize, replacer.nodes, disk.View(), replacer.accesses);
      if p in st.table {
        LoadedShows(p);
        var f := PinLoadedPage(p, Latch(0, true));
        r := Acquired(Guard(p, f));
      } else {
        r := LoadPage(p, Latch(0, true), writeOk);
      }
    }

    /** A read guard for page `p`. The call returns once no write guard on `p`
        is left. */
    method ReadPage(p: PageId, writeOk: bool) returns (r: Outcome)
      requires Valid()
      requires p in st.table && st.table[p] < |st.latches| ==> !st.latches[st.table[p]].writer
      modifies this`st, replacer, disk
      ensures Valid()
      ensures r.Acquired? ==> r.guard.pageId == p && Holding(r.guard) && st.latches[r.guard.frameId].readers > 0
      ensures r.Acquired? ==> Store() == old(Store())[p := st.frames[r.guard.frameId]]
      ensures r.Acquired? && p in old(Store()) ==> Store() == old(Store())
      ensures r.Failed? ==> Store() == old(Store()) && st == old(st)
      ensures r == Failed(NoAvailableFrame) <==> p !in old(st).table && old(AllPinned(st))
      ensures r == Failed(NoAvailableFrame) ==> replacer.nodes == old(replacer.nodes) && Loaded() == old(Loaded())
      ensures r == Failed(IoError) <==>
        !writeOk && p !in old(Loaded()).trace && old(Loaded()).MustWriteBack(poolSize, old(Held(st)).Keys)
      ensures r == Failed(IoError) ==> Loaded() == old(Loaded()).Restarted(old(Held(st)).Keys)
      ensures r.Acquired? ==> Loaded() == old(Loaded()).Accessed(poolSize, old(Held(st)).Keys, p)
      ensures r.Acquired? && p !in old(Loaded()).trace && |old(Loaded()).trace| >= poolSize ==>
        |old(Loaded()).FirstToGo(old(Held(st)).Keys)| == 1
      ensures r.Acquired? ==>
        Held(st) == old(Held(st))[p := Latch((if p in old(Held(st)) then old(Held(st))[p].readers else 0) + 1, false)]
    {
      hide Consistent, FrameOk, Held, Traced, DirtyPages, DiskManager.View, DiskManager.Valid, LruK.NodeOk;
      hide Cache.FirstToGo, Cache.Restarted, Cache.WithRoom;
      TracedKeys(st, poolSize, replacer.nodes, disk.View(), replacer.accesses);
      if p in st.table {
        LoadedShows(p);
        HeldAt(st, p);
        var readers := st.latches[st.table[p]].readers;
        var f := PinLoadedPage(p, Latch(readers + 1, false));
        r := Acquired(Guard(p, f));
      } else {
        NotHeld(st, p);
        r := LoadPage(p, Latch(1, false), writeOk);
      }
    }

    lemma LoadedShows(p: PageId)
      requires Valid() && p in st.table
      ensures st.table[p] < |st.frames| == |st.latches| && p in Store() && Store()[p] == st.frames[st.table[p]]
    {
      assert st.metas[st.table[p]].pageId == Some(p);
      assert FrameOk(st, replacer.nodes, disk.View(), st.table[p]);
    }

    // ---- using and dropping guards ------------------------------------------------------

    /** Writes through a write guard. */
    method Put(g: Guard, data: Data)
      requires Valid() && Holding(g) && st.latches[g.frameId].writer && |data| == PAGE_SIZE
      modifies this`st
      ensures Valid() && Store() == old(Store())[g.pageId := data]
      ensures st == old(st).(frames := old(st).frames[g.frameId := data]) && Held(st) == old(Held(st)) && Loaded() == old(Loaded())
    {
      PutKeeps(st, poolSize, replacer.nodes, disk.View(), g.pageId, data);
      st := st.(frames := st.frames[g.frameId := data]);
    }

    method DropReadGuard(g: Guard)
      requires Valid() && Holding(g) && st.latches[g.frameId].readers > 0
      modifies this`st, replacer
      ensures Valid() && Store() == old(Store())
      ensures st.latches == old(st).latches[g.frameId := Latch(old(st).latches[g.frameId].readers - 1, false)]
      ensures var left := old(st).latches[g.frameId].readers - 1;
        Held(st) == if left > 0 then old(Held(st))[g.pageId := Latch(left, false)] else old(Held(st)) - {g.pageId}
      ensures Loaded() == old(Loaded())
    {
      assert st.metas[g.frameId].pageId == Some(g.pageId);
      assert FrameOk(st, replacer.nodes, disk.View(), g.frameId);
      Unpin(g, Latch(st.latches[g.frameId].readers - 1, false), false);
    }

    method DropWriteGuard(g: Guard)
      requires Valid() && Holding(g) && st.latches[g.frameId].writer
      modifies this`st, replacer
      ensures Valid() && Store() == old(Store())
      ensures st.latches == old(st).latches[g.frameId := Latch(0, false)] && Held(st) == old(Held(st)) - {g.pageId}
      ensures Loaded() == old(Loaded()).(dirty := old(Loaded()).dirty + {g.pageId})
    {
      Unpin(g, Latch(0, false), true);
    }

    /** The drop body gives up the pin; the latch is released after it. */
    method Unpin(g: Guard, latch: Latch, dirty: bool)
      requires Valid() && Holding(g) && st.latches[g.frameId].Guards() > 0
      requires dirty == st.latches[g.frameId].writer
      requires latch == if dirty then Latch(0, false) else Latch(st.latches[g.frameId].readers - 1, false)
      modifies this`st, replacer
      ensures Valid() && Store() == old(Store())
      ensures st.latches == old(st).latches[g.frameId := latch]
      ensures Held(st) == if latch.Guards() > 0 then old(Held(st))[g.pageId := latch] else old(Held(st)) - {g.pageId}
      ensures Loaded() == old(Loaded()).(dirty := old(Loaded()).dirty + if dirty then {g.pageId} else {})
    {
      UnpinCounted(g);
      UnpinnedCache(st, poolSize, replacer.nodes, disk.View(), replacer.accesses, replacer.currentTimestamp, g.pageId, dirty, latch);
      var f := g.frameId;
      assert st.metas[f].pageId == Some(g.pageId);
      assert FrameOk(st, replacer.nodes, disk.View(), f);
      ghost var nodes := replacer.nodes;
      MakeEvictable(replacer, f, st.metas[f].pinCount - 1 == 0);
      UnpinKeeps(st, poolSize, nodes, disk.View(), f, replacer.nodes, latch);
      LatchedHeld(st, Unpinned(st, f, dirty, latch), poolSize, nodes, disk.View(), g.pageId, latch);
      st := Unpinned(st, f, dirty, latch);
    }

    lemma UnpinCounted(g: Guard)
      requires Valid() && Holding(g) && st.latches[g.frameId].Guards() > 0
      ensures g.frameId < |st.metas| == |st.latches| && st.metas[g.frameId].pinCount > 0
    {
      TableFrame(st, poolSize, replacer.nodes, disk.View(), g.pageId);
      assert FrameOk(st, replacer.nodes, disk.View(), g.frameId);
    }

    // ---- deleting a page --------------------------------------------------------------------

    /** Refused while the page is pinned; otherwise the page is gone from the
        pool and from disk. */
    method DeletePage(p: PageId) returns (ok: bool)
      requires Valid()
      modifies this`st, replacer, disk
      ensures Valid()
      ensures ok <==> !(p in old(st).table && old(st).table[p] < |old(st).metas|
                        && old(st).metas[old(st).table[p]].pinCount > 0)
      ensures Store() == if ok then old(Store()) - {p} else old(Store())
      ensures (ok <==> p !in old(Held(st))) && Held(st) == old(Held(st))
      ensures !ok ==> st == old(st)
      ensures Loaded() == if ok then old(Loaded()).Without({p}) else old(Loaded())
    {
      hide FrameOk, Held, Flat, Traced, DirtyPages, AllPinned, LruK.Consistent;
      SameFrames(replacer);
      if p in st.table {
        LoadedShows(p);
        PinnedIsHeld(st, poolSize, replacer.nodes, disk.View(), p);
        if st.metas[st.table[p]].pinCount > 0 {
          return false;
        }
        UnloadPage(p);
      } else {
        NotLoaded(p);
        DeleteKeeps(st, poolSize, replacer.nodes, disk.View(), p);
      }
      var _ := disk.DeletePage(p);
      ok := true;
    }

    /** Frees the frame of a page without pins. */
    method UnloadPage(p: PageId)
      requires Valid() && p in st.table && st.table[p] < |st.metas| && st.metas[st.table[p]].pinCount == 0
      modifies this`st, replacer
      ensures replacer.Valid() && Consistent(st, poolSize, replacer.nodes, disk.View() - {p}, None)
      ensures Flat(st, disk.View() - {p}) == old(Store()) - {p} && Held(st) == old(Held(st))
      ensures Loaded() == old(Loaded()).Without({p})
    {
      hide FrameOk, Held, Flat, Traced, DirtyPages, LruK.Consistent;
      SameFrames(replacer);
      ghost var s, nodes, accesses := st, replacer.nodes, replacer.accesses;
      var f := st.table[p];
      PinnedIsHeld(st, poolSize, nodes, disk.View(), p);
      LoadedGuards(p);
      UnloadKeeps(st, poolSize, nodes, disk.View(), p);
      DroppedHeld(st, Unloaded(st, p), p);
      replacer.Remove(f);
      st := Unloaded(st, p);
      LeavesCache(s, poolSize, nodes, disk.View(), accesses, replacer.currentTimestamp, p, st);
    }

    lemma LoadedGuards(p: PageId)
      requires Valid() && p in st.table
      ensures st.table[p] < |st.latches| == |st.metas| && st.metas[st.table[p]].pinCount == st.latches[st.table[p]].Guards()
    {
      LoadedShows(p);
      assert FrameOk(st, replacer.nodes, disk.View(), st.table[p]);
    }

    lemma NotLoaded(p: PageId)
      requires p !in st.table
      ensures p !in Held(st) && Loaded() == Loaded().Without({p})
    {
      assert p !in Loaded().trace && p !in Loaded().dirty;
    }
  }

  /** A failed write-back puts the victim back among the evictable frames. */
  lemma EvictionUndone(s: State, size: nat, nodes: map<nat, LruK.Node>, disk: map<PageId, Data>, f: nat, nodes': map<nat, LruK.Node>)
    requires Consistent(s, size, nodes, disk, None) && f in nodes && f < size && nodes[f].evictable
    requires f in nodes' && nodes' == nodes[f := nodes'[f]] && nodes'[f].evictable
    ensures Consistent(s, size, nodes', disk, None)
  {
    forall g | 0 <= g < size
      ensures FrameOk(s, nodes', disk, g)
    {
      assert FrameOk(s, nodes, disk, g);
    }
  }
}
