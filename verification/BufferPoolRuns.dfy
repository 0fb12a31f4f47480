/** Whole runs of the buffer pool against one flat store of pages and the guards
    its clients hold. */
module BufferPoolRuns {
  import opened Common
  import opened DiskManagers
  import opened BufferPools

  /** What a client of the pool may ask for. `writeOk` says whether a write-back
      the request may need succeeds. */
  datatype Op =
    | Read(p: PageId, writeOk: bool)
    | Write(p: PageId, writeOk: bool)
    | Store(p: PageId, data: Data)
    | DropRead(p: PageId)
    | DropWrite(p: PageId)
    | Delete(p: PageId)

  /** `Shown`: a guard showing these bytes. `Waits`: the request has to wait for
      a guard to be dropped, or names a guard nobody holds. */
  datatype Result = Shown(data: Data) | Refused(error: AcquireError) | Pinned | Done | Waits

  /** What follows from the requests and their answers alone: the pages, the
      guards on them, and which pages are in frames, when each was asked for since
      it got there, and which of them are dirty. */
  datatype Client = Client(pages: map<PageId, Data>, held: map<PageId, Latch>, loaded: Cache)

  function Readers(held: map<PageId, Latch>, p: PageId): nat {
    if p in held then held[p].readers else 0
  }

  predicate Writing(held: map<PageId, Latch>, p: PageId) {
    p in held && held[p].writer
  }

  /** What is left after a request with this result. A request that gets a page
      is an access to it, and evicts a page if the page was in no frame and none is
      free; a failed write-back starts the history of the page to be evicted over. */
  ghost function Step(poolSize: nat, c: Client, op: Op, r: Result): Client {
    match (op, r)
    case (Read(p, _), Shown(d)) =>
      Client(c.pages[p := d], c.held[p := Latch(Readers(c.held, p) + 1, false)], c.loaded.Accessed(poolSize, c.held.Keys, p))
    case (Write(p, _), Shown(d)) =>
      Client(c.pages[p := d], c.held[p := Latch(0, true)], c.loaded.Accessed(poolSize, c.held.Keys, p))
    case (Read(_, _), Refused(IoError)) => c.(loaded := c.loaded.Restarted(c.held.Keys))
    case (Write(_, _), Refused(IoError)) => c.(loaded := c.loaded.Restarted(c.held.Keys))
    case (Store(p, d), Done) => c.(pages := c.pages[p := d])
    case (DropRead(p), Done) =>
      var left := Readers(c.held, p) - 1;
      c.(held := if left > 0 then c.held[p := Latch(left, false)] else c.held - {p})
    case (DropWrite(p), Done) => c.(held := c.held - {p}, loaded := c.loaded.(dirty := c.loaded.dirty + {p}))
    case (Delete(p), Done) => c.(pages := c.pages - {p}, loaded := c.loaded.Without({p}))
    case _ => c
  }

  /** The result a request must have. A page with a guard can always be had once
      the latch allows it; a page without one cannot if all frames have guards.
      Otherwise a request fails exactly if its page is in no frame, none is free,
      the page to be evicted is dirty and cannot be written back. A guard shows
      what the store holds, if it holds the page at all. */
  ghost predicate Allowed(poolSize: nat, c: Client, op: Op, r: Result) {
    match op
    case Read(p, writeOk) => if Writing(c.held, p) then r == Waits else Acquires(poolSize, c, p, writeOk, r)
    case Write(p, writeOk) => if p in c.held then r == Waits else Acquires(poolSize, c, p, writeOk, r)
    case Store(p, data) => r == if Writing(c.held, p) && |data| == PAGE_SIZE then Done else Waits
    case DropRead(p) => r == if Readers(c.held, p) > 0 then Done else Waits
    case DropWrite(p) => r == if Writing(c.held, p) then Done else Waits
    case Delete(p) => r == if p in c.held then Pinned else Done
  }

  ghost predicate Acquires(poolSize: nat, c: Client, p: PageId, writeOk: bool, r: Result) {
    if p in c.loaded.trace then r.Shown? && (p in c.pages ==> r.data == c.pages[p])
    else if |c.held| == poolSize then r == Refused(NoAvailableFrame)
    else if !writeOk && c.loaded.MustWriteBack(poolSize, c.held.Keys) then r == Refused(IoError)
    else
      && r.Shown? && (p in c.pages ==> r.data == c.pages[p])
      && (|c.loaded.trace| >= poolSize ==> |c.loaded.FirstToGo(c.held.Keys)| == 1)
  }

  ghost function After(poolSize: nat, ops: seq<Op>, rs: seq<Result>): Client
    requires |ops| == |rs|
  {
    if ops == [] then Client(map[], map[], Cache(map[], {}, 0))
    else var n := |ops| - 1; Step(poolSize, After(poolSize, ops[..n], rs[..n]), ops[n], rs[n])
  }

  ghost predicate Faithful(poolSize: nat, ops: seq<Op>, rs: seq<Result>) {
    && |ops| == |rs|
    && forall i :: 0 <= i < |ops| ==> Allowed(poolSize, After(poolSize, ops[..i], rs[..i]), ops[i], rs[i])
  }

  lemma FaithfulStep(poolSize: nat, ops: seq<Op>, rs: seq<Result>, op: Op, r: Result)
    requires Faithful(poolSize, ops, rs) && Allowed(poolSize, After(poolSize, ops, rs), op, r)
    ensures Faithful(poolSize, ops + [op], rs + [r])
    ensures After(poolSize, ops + [op], rs + [r]) == Step(poolSize, After(poolSize, ops, rs), op, r)
  {
    hide Allowed, Step;
    var ops', rs' := ops + [op], rs + [r];
    var n := |ops|;
    assert ops'[..n] == ops && rs'[..n] == rs;
    forall i | 0 <= i < |ops'|
      ensures Allowed(poolSize, After(poolSize, ops'[..i], rs'[..i]), ops'[i], rs'[i])
    {
      if i < n {
        assert ops'[..i] == ops[..i] && rs'[..i] == rs[..i];
      }
    }
  }

  // ---- one request ------------------------------------------------------------------------

  /** The client's view of a pool. */
  ghost function ViewOf(pool: BufferPool): Client
    requires pool.Valid()
    reads pool, pool.replacer, pool.disk
  {
    Client(pool.Store(), Held(pool.st), pool.Loaded())
  }

  /** The latch of a loaded page's frame; free if the page is not loaded. */
  method LatchOf(pool: BufferPool, p: PageId) returns (latch: Latch)
    requires pool.Valid()
    ensures p in pool.st.table ==>
      pool.st.table[p] < |pool.st.latches| == |pool.st.frames| && latch == pool.st.latches[pool.st.table[p]]
    ensures p !in pool.st.table ==> latch == Latch(0, false)
    ensures if p in Held(pool.st) then latch == Held(pool.st)[p] && latch.Guards() > 0 else latch == Latch(0, false)
    ensures |Held(pool.st)| == pool.poolSize <==> AllPinned(pool.st)
    ensures p in pool.st.table && AllPinned(pool.st) ==> p in Held(pool.st)
    ensures p in Held(pool.st) ==> p in pool.st.table
    ensures p in pool.st.table <==> p in pool.Loaded().trace
  {
    SameFrames(pool.replacer);
    TracedKeys(pool.st, pool.poolSize, pool.replacer.nodes, pool.disk.View(), pool.replacer.accesses);
    AllPinnedIffAllHeld(pool.st, pool.poolSize, pool.replacer.nodes, pool.disk.View());
    if p in pool.st.table {
      pool.LoadedShows(p);
      latch := pool.st.latches[pool.st.table[p]];
    } else {
      latch := Latch(0, false);
    }
  }

  /** The bytes a new guard shows. */
  method Show(pool: BufferPool, out: Outcome) returns (r: Result)
    requires out.Acquired? ==> pool.Holding(out.guard)
    ensures if out.Acquired? then r == Shown(pool.st.frames[out.guard.frameId]) else r == Refused(out.error)
  {
    match out {
      case Acquired(g) => r := Shown(pool.st.frames[g.frameId]);
      case Failed(e) => r := Refused(e);
    }
  }

  method ApplyRead(pool: BufferPool, p: PageId, writeOk: bool) returns (r: Result)
    requires pool.Valid()
    modifies pool`st, pool.replacer, pool.disk
    ensures pool.Valid() && Allowed(pool.poolSize, old(ViewOf(pool)), Read(p, writeOk), r)
    ensures ViewOf(pool) == Step(pool.poolSize, old(ViewOf(pool)), Read(p, writeOk), r)
  {
    hide Traced, DirtyPages, Cache.FirstToGo, Cache.Restarted, Cache.Accessed, Cache.MustWriteBack, DiskManager.View, DiskManager.Valid;
    hide Consistent, Held, AllPinned, Flat;
    var latch := LatchOf(pool, p);
    if latch.writer {
      return Waits;
    }
    ghost var before := ViewOf(pool);
    var out := pool.ReadPage(p, writeOk);
    r := Show(pool, out);
    StoreAgrees(before.pages, p, pool.Store(), r);
    assert r.Shown? || r.error.NoAvailableFrame? || r.error.IoError?;
  }

  /** What a guard on a stored page shows is what is stored. */
  lemma StoreAgrees(pages: map<PageId, Data>, p: PageId, pages': map<PageId, Data>, r: Result)
    requires r.Shown? ==> pages' == pages[p := r.data] && (p in pages ==> pages' == pages)
    ensures r.Shown? && p in pages ==> r.data == pages[p]
  {
  }

  method ApplyWrite(pool: BufferPool, p: PageId, writeOk: bool) returns (r: Result)
    requires pool.Valid()
    modifies pool`st, pool.replacer, pool.disk
    ensures pool.Valid() && Allowed(pool.poolSize, old(ViewOf(pool)), Write(p, writeOk), r)
    ensures ViewOf(pool) == Step(pool.poolSize, old(ViewOf(pool)), Write(p, writeOk), r)
  {
    hide Traced, DirtyPages, Cache.FirstToGo, Cache.Restarted, Cache.Accessed, Cache.MustWriteBack, DiskManager.View, DiskManager.Valid;
    hide Consistent, Held, AllPinned;
    var latch := LatchOf(pool, p);
    if latch != Latch(0, false) {
      return Waits;
    }
    ghost var before := ViewOf(pool);
    var out := pool.WritePage(p, writeOk);
    r := Show(pool, out);
    StoreAgrees(before.pages, p, pool.Store(), r);
    assert r.Shown? || r.error.NoAvailableFrame? || r.error.IoError?;
  }

  method ApplyStore(pool: BufferPool, p: PageId, data: Data) returns (r: Result)
    requires pool.Valid()
    modifies pool`st, pool.replacer, pool.disk
    ensures pool.Valid() && Allowed(pool.poolSize, old(ViewOf(pool)), Store(p, data), r)
    ensures ViewOf(pool) == Step(pool.poolSize, old(ViewOf(pool)), Store(p, data), r)
  {
    hide Consistent, Held, AllPinned;
    var latch := LatchOf(pool, p);
    if !latch.writer || |data| != PAGE_SIZE {
      return Waits;
    }
    pool.Put(Guard(p, pool.st.table[p]), data);
    r := Done;
  }

  method ApplyDropRead(pool: BufferPool, p: PageId) returns (r: Result)
    requires pool.Valid()
    modifies pool`st, pool.replacer, pool.disk
    ensures pool.Valid() && Allowed(pool.poolSize, old(ViewOf(pool)), DropRead(p), r)
    ensures ViewOf(pool) == Step(pool.poolSize, old(ViewOf(pool)), DropRead(p), r)
  {
    hide FrameOk, Flat, Traced, DirtyPages, DiskManager.View, DiskManager.Valid;
    hide Consistent, Held, AllPinned;
    var latch := LatchOf(pool, p);
    if latch.readers == 0 {
      return Waits;
    }
    pool.DropReadGuard(Guard(p, pool.st.table[p]));
    r := Done;
  }

  method ApplyDropWrite(pool: BufferPool, p: PageId) returns (r: Result)
    requires pool.Valid()
    modifies pool`st, pool.replacer, pool.disk
    ensures pool.Valid() && Allowed(pool.poolSize, old(ViewOf(pool)), DropWrite(p), r)
    ensures ViewOf(pool) == Step(pool.poolSize, old(ViewOf(pool)), DropWrite(p), r)
  {
    hide Consistent, Held, AllPinned;
    var latch := LatchOf(pool, p);
    if !latch.writer {
      return Waits;
    }
    pool.DropWriteGuard(Guard(p, pool.st.table[p]));
    r := Done;
  }

  method Apply(pool: BufferPool, op: Op) returns (r: Result)
    requires pool.Valid()
    modifies pool`st, pool.replacer, pool.disk
    ensures pool.Valid() && Allowed(pool.poolSize, old(ViewOf(pool)), op, r)
    ensures ViewOf(pool) == Step(pool.poolSize, old(ViewOf(pool)), op, r)
  {
    hide Consistent, Held, Flat;
    match op {
      case Read(p, writeOk) => r := ApplyRead(pool, p, writeOk);
      case Write(p, writeOk) => r := ApplyWrite(pool, p, writeOk);
      case Store(p, data) => r := ApplyStore(pool, p, data);
      case DropRead(p) => r := ApplyDropRead(pool, p);
      case DropWrite(p) => r := ApplyDropWrite(pool, p);
      case Delete(p) =>
        var ok := pool.DeletePage(p);
        r := if ok then Done else Pinned;
    }
  }

  /** Any run of loads, writes, guard drops, evictions, failed write-backs and
      deletions shows its clients one flat store, and refuses nothing without
      reason: a request waits exactly if a latch forbids it, finds no frame exactly
      if every frame has a guard and none is on its page, and a deletion fails
      exactly if the page has a guard. What is in frames and what has to go next
      follows from the requests and their answers. */
  method Run(poolSize: nat, ops: seq<Op>) returns (pool: BufferPool, rs: seq<Result>)
    ensures pool.Valid() && Faithful(poolSize, ops, rs) && ViewOf(pool) == After(poolSize, ops, rs)
  {
    hide Held, Flat, Traced, DirtyPages, DiskManager.View, DiskManager.Valid;
    hide Consistent, Faithful, After, Step, Allowed;
    pool := new BufferPool(poolSize);
    rs := [];
    EmptyRun(poolSize);
    var i := 0;
    assert ops[..0] == [];
    while i < |ops|
      invariant i <= |ops| && |rs| == i && pool.Valid() && pool.poolSize == poolSize
      invariant fresh(pool) && fresh(pool.replacer) && fresh(pool.disk)
      invariant Faithful(poolSize, ops[..i], rs) && ViewOf(pool) == After(poolSize, ops[..i], rs)
    {
      var r := Apply(pool, ops[i]);
      FaithfulStep(poolSize, ops[..i], rs, ops[i], r);
      assert ops[..i + 1] == ops[..i] + [ops[i]];
      rs := rs + [r];
      i := i + 1;
    }
    assert ops[..i] == ops;
  }

  lemma EmptyRun(poolSize: nat)
    ensures Faithful(poolSize, [], []) && After(poolSize, [], []) == Client(map[], map[], Cache(map[], {}, 0))
  {
  }

  // ---- what stays in a frame -----------------------------------------------------------------

  lemma RunStep(poolSize: nat, ops: seq<Op>, rs: seq<Result>, i: nat)
    requires Faithful(poolSize, ops, rs) && i < |ops|
    ensures |ops| == |rs| && Allowed(poolSize, After(poolSize, ops[..i], rs[..i]), ops[i], rs[i])
    ensures After(poolSize, ops[..i + 1], rs[..i + 1]) == Step(poolSize, After(poolSize, ops[..i], rs[..i]), ops[i], rs[i])
  {
    hide Allowed, Step;
    assert ops[..i + 1][..i] == ops[..i] && rs[..i + 1][..i] == rs[..i];
  }

  /** When a request has to evict, a page asked for twice since it was loaded stays
      as long as there is another one asked for only once. */
  lemma TwiceOutlivesOnce(poolSize: nat, ops: seq<Op>, rs: seq<Result>, i: nat, often: PageId, once: PageId)
    requires Faithful(poolSize, ops, rs) && i < |ops| == |rs|
    requires (ops[i].Read? || ops[i].Write?) && rs[i].Shown?
    requires var c := After(poolSize, ops[..i], rs[..i]);
      && often in c.loaded.trace && |c.loaded.trace[often]| >= 2
      && once in c.loaded.trace && once !in c.held && |c.loaded.trace[once]| < 2
    ensures often in After(poolSize, ops[..i + 1], rs[..i + 1]).loaded.trace
  {
    hide Faithful, After;
    LengthOf(poolSize, ops, rs);
    RunStep(poolSize, ops, rs, i);
    var c := After(poolSize, ops[..i], rs[..i]);
    assert often !in c.loaded.FirstToGo(c.held.Keys);
  }

  /** Reading a page and dropping the guard, with no guard held. */
  lemma ReadAndDrop(poolSize: nat, ops: seq<Op>, rs: seq<Result>, i: nat, p: PageId)
    requires Faithful(poolSize, ops, rs) && i + 1 < |ops| == |rs| && poolSize > 0
    requires ops[i] == Read(p, true) && ops[i + 1] == DropRead(p)
    requires After(poolSize, ops[..i], rs[..i]).held == map[]
    ensures var c, c' := After(poolSize, ops[..i], rs[..i]), After(poolSize, ops[..i + 2], rs[..i + 2]);
      c'.held == map[] && c'.loaded == c.loaded.Accessed(poolSize, {}, p)
  {
    hide Faithful, After, Cache.Accessed, Cache.FirstToGo, Cache.MustWriteBack;
    RunStep(poolSize, ops, rs, i);
    RunStep(poolSize, ops, rs, i + 1);
    assert After(poolSize, ops[..i], rs[..i]).held.Keys == {};
  }

  /** Two frames; page 1, page 2, page 1 again, page 3: page 2 has to go. */
  lemma HitKeepsPage(rs: seq<Result>)
    requires Faithful(2, HitRun(), rs)
    ensures |rs| == |HitRun()| && After(2, HitRun(), rs).loaded.trace == map[1 := [1, 3], 3 := [4]]
  {
    hide Faithful, After, Cache.Accessed;
    var ops := HitRun();
    LengthOf(2, ops, rs);
    EmptyRun(2);
    assert ops[..0] == [] && rs[..0] == [] && ops[..8] == ops && rs[..8] == rs;
    ReadAndDrop(2, ops, rs, 0, 1);
    ReadAndDrop(2, ops, rs, 2, 2);
    ReadAndDrop(2, ops, rs, 4, 1);
    ReadAndDrop(2, ops, rs, 6, 3);
    ThreePages(After(2, [], []).loaded);
  }

  function HitRun(): seq<Op> {
    [Read(1, true), DropRead(1), Read(2, true), DropRead(2), Read(1, true), DropRead(1), Read(3, true), DropRead(3)]
  }

  lemma ThreePages(c: Cache)
    requires c == Cache(map[], {}, 0)
    ensures c.Accessed(2, {}, 1).Accessed(2, {}, 2).Accessed(2, {}, 1).Accessed(2, {}, 3).trace == map[1 := [1, 3], 3 := [4]]
  {
    var c1 := c.Accessed(2, {}, 1);
    assert c1 == Cache(map[1 := [1]], {}, 1) && |c1.trace| == 1;
    var c2 := c1.Accessed(2, {}, 2);
    assert c2 == Cache(map[1 := [1], 2 := [2]], {}, 2);
    var c3 := c2.Accessed(2, {}, 1);
    assert c3.trace[1] == [1] + [3] == [1, 3];
    assert c3 == Cache(map[1 := [1, 3], 2 := [2]], {}, 3);
    assert c3.trace.Keys == {1, 2} && |c3.trace| == |c3.trace.Keys|;
    OneGoesFirst(c3, {}, 2);
    assert c3.trace - {2} == map[1 := [1, 3]];
  }

  lemma LengthOf(poolSize: nat, ops: seq<Op>, rs: seq<Result>)
    requires Faithful(poolSize, ops, rs)
    ensures |ops| == |rs|
  {
  }
}
