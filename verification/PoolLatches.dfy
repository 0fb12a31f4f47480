/** The pool's two-level locking as a state machine: one mutex over the
    bookkeeping and a reader-writer latch per frame, taken and released in the
    order the pool and its page guards do. */
module PoolLatches {
  import opened Common
  type Thread = nat
  datatype Mode = Shared | Exclusive

  /** One guard, from the moment its page is pinned. `Waiting`: pinned, latch not
      granted yet. `Held`: a live guard. `Releasing`: its drop has given up the
      pin and the mutex but not yet the latch. */
  datatype Phase = Waiting | Held | Releasing

  datatype Ticket = Ticket(owner: Thread, frame: nat, mode: Mode, phase: Phase)

  datatype Request = Acquire(page: PageId, mode: Mode) | Drop(ticket: nat) | Delete(page: PageId)

  /** Where a thread is. Only `Critical`, `Loading` and `Relatching` hold the mutex. */
  datatype Pc =
    | Running
    | WantsMutex(request: Request)
    | Critical(request: Request)
    | Loading(frame: nat, page: PageId, mode: Mode)
    | Relatching(ticket: nat)
    | Latching(ticket: nat)
    | Dropping(ticket: nat)

  datatype State = State(mutex: Option<Thread>, pcs: map<Thread, Pc>, tickets: map<nat, Ticket>,
                         pins: seq<nat>, table: map<PageId, nat>, free: set<nat>)

  predicate HoldsMutex(pc: Pc) {
    pc.Critical? || pc.Loading? || pc.Relatching?
  }

  /** Guards that count as pins of frame `f`. */
  function Pinners(tickets: map<nat, Ticket>, f: nat): set<nat> {
    set k | k in tickets && tickets[k].frame == f && !tickets[k].phase.Releasing?
  }

  predicate Latched(x: Ticket) { !x.phase.Waiting? }

  /** A reader-writer latch lets in many readers or one writer. */
  predicate Compatible(tickets: map<nat, Ticket>, f: nat, mode: Mode) {
    forall k :: k in tickets && tickets[k].frame == f && Latched(tickets[k]) ==> mode.Shared? && tickets[k].mode.Shared?
  }

  // ---- the steps -----------------------------------------------------------------------

  datatype Step =
    | Ask(t: Thread, request: Request)
    | Lock(t: Thread)
    | Hit(t: Thread, k: nat)
    | LatchGranted(t: Thread)
    | Choose(t: Thread, f: nat)
    | NoFrame(t: Thread)
    | WriteBackFailed(t: Thread)
    | Load(t: Thread, k: nat)
    | RelatchGranted(t: Thread)
    | GiveUpPin(t: Thread)
    | ReleaseLatch(t: Thread)
    | DeletePage(t: Thread)

  predicate Mapped(s: State, f: nat) {
    exists p :: p in s.table && s.table[p] == f
  }

  /** A frame a load may take: a free one, or, when none is free, one whose page
      is unpinned. */
  predicate Choosable(s: State, f: nat) {
    f < |s.pins| && if s.free != {} then f in s.free else Mapped(s, f) && s.pins[f] == 0
  }

  predicate Enabled(s: State, step: Step) {
    && step.t in s.pcs
    && var pc := s.pcs[step.t];
    match step
    case Ask(t, r) =>
      && pc.Running?
      && (r.Drop? ==> r.ticket in s.tickets && s.tickets[r.ticket].owner == t && s.tickets[r.ticket].phase.Held?)
    case Lock(_) => pc.WantsMutex? && s.mutex.None?
    case Hit(_, k) =>
      && pc.Critical? && pc.request.Acquire? && pc.request.page in s.table && k !in s.tickets
      && s.table[pc.request.page] < |s.pins|
    case LatchGranted(_) =>
      && pc.Latching? && pc.ticket in s.tickets
      && Compatible(s.tickets, s.tickets[pc.ticket].frame, s.tickets[pc.ticket].mode)
    case Choose(_, f) => pc.Critical? && pc.request.Acquire? && pc.request.page !in s.table && Choosable(s, f)
    case NoFrame(_) =>
      pc.Critical? && pc.request.Acquire? && pc.request.page !in s.table && forall f | 0 <= f < |s.pins| :: !Choosable(s, f)
    case WriteBackFailed(_) => pc.Loading? && Mapped(s, pc.frame) && Compatible(s.tickets, pc.frame, Exclusive)
    case Load(_, k) =>
      pc.Loading? && k !in s.tickets && pc.frame < |s.pins| && Compatible(s.tickets, pc.frame, Exclusive)
    case RelatchGranted(_) =>
      && pc.Relatching? && pc.ticket in s.tickets
      && Compatible(s.tickets, s.tickets[pc.ticket].frame, Shared)
    case GiveUpPin(_) =>
      && pc.Critical? && pc.request.Drop? && pc.request.ticket in s.tickets
      && s.tickets[pc.request.ticket].frame < |s.pins| && s.pins[s.tickets[pc.request.ticket].frame] > 0
    case ReleaseLatch(_) => pc.Dropping?
    case DeletePage(_) => pc.Critical? && pc.request.Delete?
  }

  function Apply(s: State, step: Step): State
    requires Enabled(s, step)
  {
    var t, pc := step.t, s.pcs[step.t];
    match step
    case Ask(_, r) => s.(pcs := s.pcs[t := WantsMutex(r)])
    case Lock(_) => s.(mutex := Some(t), pcs := s.pcs[t := Critical(pc.request)])
    // pin, let go of the mutex, and only then wait for the latch
    case Hit(_, k) =>
      var f := s.table[pc.request.page];
      s.(mutex := None, pcs := s.pcs[t := Latching(k)], pins := s.pins[f := s.pins[f] + 1],
         tickets := s.tickets[k := Ticket(t, f, pc.request.mode, Waiting)])
    case LatchGranted(_) =>
      s.(pcs := s.pcs[t := Running], tickets := s.tickets[pc.ticket := s.tickets[pc.ticket].(phase := Held)])
    // the write latch of the chosen frame is awaited with the mutex held
    case Choose(_, f) =>
      s.(pcs := s.pcs[t := Loading(f, pc.request.page, pc.request.mode)], free := s.free - {f})
    case NoFrame(_) => s.(mutex := None, pcs := s.pcs[t := Running])
    case WriteBackFailed(_) => s.(mutex := None, pcs := s.pcs[t := Running])
    case Load(_, k) =>
      var loaded := s.(pins := s.pins[pc.frame := 1],
                       table := (map p | p in s.table && s.table[p] != pc.frame :: s.table[p])[pc.page := pc.frame]);
      if pc.mode.Exclusive? then
        loaded.(mutex := None, pcs := s.pcs[t := Running], tickets := s.tickets[k := Ticket(t, pc.frame, Exclusive, Held)])
      else
        // the write latch is dropped and a read latch taken, still under the mutex
        loaded.(pcs := s.pcs[t := Relatching(k)], tickets := s.tickets[k := Ticket(t, pc.frame, Shared, Waiting)])
    case RelatchGranted(_) =>
      s.(mutex := None, pcs := s.pcs[t := Running], tickets := s.tickets[pc.ticket := s.tickets[pc.ticket].(phase := Held)])
    case GiveUpPin(_) =>
      var k := pc.request.ticket;
      var f := s.tickets[k].frame;
      s.(mutex := None, pcs := s.pcs[t := Dropping(k)], pins := s.pins[f := s.pins[f] - 1],
         tickets := s.tickets[k := s.tickets[k].(phase := Releasing)])
    case ReleaseLatch(_) => s.(pcs := s.pcs[t := Running], tickets := s.tickets - {pc.ticket})
    case DeletePage(_) =>
      var s' := s.(mutex := None, pcs := s.pcs[t := Running]);
      var p := pc.request.page;
      if p in s.table && s.table[p] < |s.pins| && s.pins[s.table[p]] == 0 then
        s'.(table := s.table - {p}, free := s.free + {s.table[p]})
      else s'
  }

  // ---- the invariant -------------------------------------------------------------------

  /** What a guard says about its owner's program counter. */
  ghost predicate TicketOk(s: State, k: nat)
    requires k in s.tickets
  {
    var x := s.tickets[k];
    && x.owner in s.pcs && x.frame < |s.pins|
    && (x.phase.Waiting? ==> s.pcs[x.owner] == Latching(k) || s.pcs[x.owner] == Relatching(k))
    && (x.phase.Releasing? ==> s.pcs[x.owner] == Dropping(k))
    && (!x.phase.Releasing? ==> Mapped(s, x.frame))
  }

  /** What a thread's program counter says about its guards. */
  ghost predicate ThreadOk(s: State, t: Thread)
    requires t in s.pcs
  {
    && (HoldsMutex(s.pcs[t]) <==> s.mutex == Some(t))
    && match s.pcs[t]
       case Running => true
       case WantsMutex(r) => RequestOk(s, t, r)
       case Critical(r) => RequestOk(s, t, r)
       case Loading(f, p, _) => f < |s.pins| && s.pins[f] == 0 && f !in s.free && p !in s.table
       case Relatching(k) =>
         && k in s.tickets && s.tickets[k].owner == t && s.tickets[k].phase.Waiting? && s.tickets[k].mode.Shared?
         && forall j :: j in s.tickets && s.tickets[j].frame == s.tickets[k].frame ==> j == k
       case Latching(k) => k in s.tickets && s.tickets[k].owner == t && s.tickets[k].phase.Waiting?
       case Dropping(k) => k in s.tickets && s.tickets[k].owner == t && s.tickets[k].phase.Releasing?
  }

  ghost predicate RequestOk(s: State, t: Thread, r: Request) {
    r.Drop? ==> r.ticket in s.tickets && s.tickets[r.ticket].owner == t && s.tickets[r.ticket].phase.Held?
  }

  /** A frame's pin count is the number of its guards that have not given up
      their pin; a free frame has none and no page. */
  ghost predicate FrameOk(s: State, f: nat)
    requires f < |s.pins|
  {
    && s.pins[f] == |Pinners(s.tickets, f)|
    && (f in s.free ==> !Mapped(s, f))
  }

  /** Two latched guards of one frame are both readers. */
  ghost predicate Exclusion(tickets: map<nat, Ticket>) {
    forall j, k {:trigger tickets[j], tickets[k]} ::
      (j in tickets && k in tickets && j != k && tickets[j].frame == tickets[k].frame
       && Latched(tickets[j]) && Latched(tickets[k]))
      ==> tickets[j].mode.Shared? && tickets[k].mode.Shared?
  }

  ghost predicate Inv(s: State) {
    && (s.mutex.Some? ==> s.mutex.value in s.pcs)
    && (forall t {:trigger ThreadOk(s, t)} :: t in s.pcs ==> ThreadOk(s, t))
    && (forall k {:trigger TicketOk(s, k)} :: k in s.tickets ==> TicketOk(s, k))
    && (forall f {:trigger FrameOk(s, f)} :: 0 <= f < |s.pins| ==> FrameOk(s, f))
    && (forall p, q {:trigger s.table[p], s.table[q]} :: p in s.table && q in s.table && s.table[p] == s.table[q] ==> p == q)
    && (forall p {:trigger s.table[p]} :: p in s.table ==> s.table[p] < |s.pins|)
    && Exclusion(s.tickets)
  }

  lemma InitInv(s: State, n: nat)
    requires s.mutex == None && (forall t {:trigger s.pcs[t]} :: t in s.pcs ==> s.pcs[t] == Running) && s.tickets == map[] && s.table == map[]
    requires s.pins == seq(n, _ => 0) && (forall f :: f in s.free <==> f < n)
    ensures Inv(s)
  {
    forall f | 0 <= f < |s.pins|
      ensures FrameOk(s, f)
    {
      assert Pinners(s.tickets, f) == {};
    }
  }

  lemma SamePinners(ts: map<nat, Ticket>, k: nat, x: Ticket)
    requires k in ts && ts[k].frame == x.frame && ts[k].phase.Releasing? == x.phase.Releasing?
    ensures forall f {:trigger Pinners(ts[k := x], f)} :: Pinners(ts[k := x], f) == Pinners(ts, f)
  {
  }

  lemma MorePinners(ts: map<nat, Ticket>, k: nat, x: Ticket)
    requires k !in ts && !x.phase.Releasing?
    ensures forall f :: |Pinners(ts[k := x], f)| == |Pinners(ts, f)| + if f == x.frame then 1 else 0
  {
    forall f
      ensures |Pinners(ts[k := x], f)| == |Pinners(ts, f)| + if f == x.frame then 1 else 0
    {
      assert Pinners(ts[k := x], f) == Pinners(ts, f) + if f == x.frame then {k} else {};
    }
  }

  lemma FewerPinners(ts: map<nat, Ticket>, k: nat)
    requires k in ts && !ts[k].phase.Releasing?
    ensures var ts' := ts[k := ts[k].(phase := Releasing)];
      forall f :: |Pinners(ts', f)| == |Pinners(ts, f)| - if f == ts[k].frame then 1 else 0
  {
    var ts' := ts[k := ts[k].(phase := Releasing)];
    forall f
      ensures |Pinners(ts', f)| == |Pinners(ts, f)| - if f == ts[k].frame then 1 else 0
    {
      if f == ts[k].frame {
        assert Pinners(ts, f) == Pinners(ts', f) + {k};
      } else {
        assert Pinners(ts, f) == Pinners(ts', f);
      }
    }
  }

  /** A frame nobody pins has only guards that are on their way out. */
  lemma UnpinnedFrame(s: State, f: nat, k: nat)
    requires Inv(s) && f < |s.pins| && s.pins[f] == 0 && k in s.tickets && s.tickets[k].frame == f
    ensures s.tickets[k].phase.Releasing? && s.tickets[k].owner in s.pcs && s.pcs[s.tickets[k].owner] == Dropping(k)
  {
    assert FrameOk(s, f) && TicketOk(s, k);
    assert k !in Pinners(s.tickets, f);
  }

  /** A free frame has no pins. */
  lemma FreeFrame(s: State, f: nat)
    requires Inv(s) && f < |s.pins| && f in s.free
    ensures s.pins[f] == 0
  {
    assert FrameOk(s, f);
    forall k | k in s.tickets && s.tickets[k].frame == f
      ensures s.tickets[k].phase.Releasing?
    {
      assert TicketOk(s, k);
    }
    assert Pinners(s.tickets, f) == {};
  }

  lemma GrantExclusion(ts: map<nat, Ticket>, k: nat)
    requires Exclusion(ts) && k in ts && !Latched(ts[k]) && Compatible(ts, ts[k].frame, ts[k].mode)
    ensures Exclusion(ts[k := ts[k].(phase := Held)])
  {
  }

  // ---- every step keeps the invariant ----------------------------------------------------

  /** Steps that touch only the mutex and one program counter. */
  lemma MoveKeeps(s: State, step: Step)
    requires Inv(s) && Enabled(s, step) && (step.Ask? || step.Lock? || step.NoFrame? || step.WriteBackFailed?)
    ensures Inv(Apply(s, step))
  {
    var s' := Apply(s, step);
    assert ThreadOk(s, step.t);
    forall t | t in s'.pcs
      ensures ThreadOk(s', t)
    {
      assert ThreadOk(s, t);
    }
    forall k | k in s'.tickets
      ensures TicketOk(s', k)
    {
      assert TicketOk(s, k);
    }
    forall f | 0 <= f < |s'.pins|
      ensures FrameOk(s', f)
    {
      assert FrameOk(s, f);
    }
  }

  lemma ChooseKeeps(s: State, step: Step)
    requires Inv(s) && Enabled(s, step) && step.Choose?
    ensures Inv(Apply(s, step))
  {
    var s' := Apply(s, step);
    assert ThreadOk(s, step.t);
    assert FrameOk(s, step.f);
    if s.free != {} {
      FreeFrame(s, step.f);
    }
    forall t | t in s'.pcs
      ensures ThreadOk(s', t)
    {
      assert ThreadOk(s, t);
    }
    forall k | k in s'.tickets
      ensures TicketOk(s', k)
    {
      assert TicketOk(s, k);
    }
    forall f | 0 <= f < |s'.pins|
      ensures FrameOk(s', f)
    {
      assert FrameOk(s, f);
    }
  }

  lemma HitKeeps(s: State, step: Step)
    requires Inv(s) && Enabled(s, step) && step.Hit?
    ensures Inv(Apply(s, step))
  {
    var s' := Apply(s, step);
    assert ThreadOk(s, step.t);
    MorePinners(s.tickets, step.k, s'.tickets[step.k]);
    forall t | t in s'.pcs
      ensures ThreadOk(s', t)
    {
      assert ThreadOk(s, t);
    }
    forall k | k in s'.tickets
      ensures TicketOk(s', k)
    {
      if k != step.k {
        assert TicketOk(s, k);
      }
    }
    forall f | 0 <= f < |s'.pins|
      ensures FrameOk(s', f)
    {
      assert FrameOk(s, f);
    }
  }

  lemma GrantKeeps(s: State, step: Step)
    requires Inv(s) && Enabled(s, step) && (step.LatchGranted? || step.RelatchGranted?)
    ensures Inv(Apply(s, step))
  {
    var s' := Apply(s, step);
    assert ThreadOk(s, step.t);
    var k := s.pcs[step.t].ticket;
    SamePinners(s.tickets, k, s'.tickets[k]);
    GrantExclusion(s.tickets, k);
    forall t | t in s'.pcs
      ensures ThreadOk(s', t)
    {
      assert ThreadOk(s, t);
    }
    forall j | j in s'.tickets
      ensures TicketOk(s', j)
    {
      assert TicketOk(s, j);
    }
    forall f | 0 <= f < |s'.pins|
      ensures FrameOk(s', f)
    {
      assert FrameOk(s, f);
    }
  }

  lemma GiveUpPinKeeps(s: State, step: Step)
    requires Inv(s) && Enabled(s, step) && step.GiveUpPin?
    ensures Inv(Apply(s, step))
  {
    var s' := Apply(s, step);
    assert ThreadOk(s, step.t);
    var k := s.pcs[step.t].request.ticket;
    FewerPinners(s.tickets, k);
    forall t | t in s'.pcs
      ensures ThreadOk(s', t)
    {
      assert ThreadOk(s, t);
    }
    forall j | j in s'.tickets
      ensures TicketOk(s', j)
    {
      assert TicketOk(s, j);
    }
    forall f | 0 <= f < |s'.pins|
      ensures FrameOk(s', f)
    {
      assert FrameOk(s, f);
    }
  }

  lemma ReleaseKeeps(s: State, step: Step)
    requires Inv(s) && Enabled(s, step) && step.ReleaseLatch?
    ensures Inv(Apply(s, step))
  {
    var s' := Apply(s, step);
    assert ThreadOk(s, step.t);
    forall t | t in s'.pcs
      ensures ThreadOk(s', t)
    {
      assert ThreadOk(s, t);
    }
    forall j | j in s'.tickets
      ensures TicketOk(s', j)
    {
      assert s.tickets[j] == s'.tickets[j];
      assert TicketOk(s, j);
    }
    forall f | 0 <= f < |s'.pins|
      ensures FrameOk(s', f)
    {
      assert FrameOk(s, f);
      assert Pinners(s'.tickets, f) == Pinners(s.tickets, f);
    }
  }

  lemma DeleteKeeps(s: State, step: Step)
    requires Inv(s) && Enabled(s, step) && step.DeletePage?
    ensures Inv(Apply(s, step))
  {
    var s' := Apply(s, step);
    assert ThreadOk(s, step.t);
    forall t | t in s'.pcs
      ensures ThreadOk(s', t)
    {
      assert ThreadOk(s, t);
    }
    forall p | p in s'.table
      ensures s'.table[p] == s.table[p]
    {
    }
    forall j | j in s'.tickets
      ensures TicketOk(s', j)
    {
      assert TicketOk(s, j);
      if Mapped(s, s.tickets[j].frame) && !s.tickets[j].phase.Releasing? {
        var p :| p in s.table && s.table[p] == s.tickets[j].frame;
        if s.pins[s.table[p]] == 0 {
          UnpinnedFrame(s, s.table[p], j);
        }
        assert p in s'.table && s'.table[p] == s.tickets[j].frame;
      }
    }
    forall f | 0 <= f < |s'.pins|
      ensures FrameOk(s', f)
    {
      assert FrameOk(s, f);
    }
  }

  /** While a thread may write into a chosen frame, nobody else has a guard on it. */
  lemma ChosenAlone(s: State, t: Thread, k: nat)
    requires Inv(s) && t in s.pcs && s.pcs[t].Loading? && Compatible(s.tickets, s.pcs[t].frame, Exclusive)
    requires k in s.tickets
    ensures s.tickets[k].frame != s.pcs[t].frame
  {
    assert ThreadOk(s, t);
    if s.tickets[k].frame == s.pcs[t].frame {
      UnpinnedFrame(s, s.pcs[t].frame, k);
    }
  }

  lemma LoadedTable(s: State, step: Step, f: nat)
    requires Inv(s) && Enabled(s, step) && step.Load? && f != s.pcs[step.t].frame
    ensures Mapped(Apply(s, step), f) <==> Mapped(s, f)
  {
    var s' := Apply(s, step);
    assert ThreadOk(s, step.t);
    if Mapped(s, f) {
      var p :| p in s.table && s.table[p] == f;
      assert p in s'.table && s'.table[p] == f;
    }
    if Mapped(s', f) {
      var p :| p in s'.table && s'.table[p] == f;
      assert p in s.table && s.table[p] == f;
    }
  }

  lemma LoadThreads(s: State, step: Step)
    requires Inv(s) && Enabled(s, step) && step.Load?
    ensures forall t {:trigger ThreadOk(Apply(s, step), t)} :: t in Apply(s, step).pcs ==> ThreadOk(Apply(s, step), t)
  {
    var s' := Apply(s, step);
    assert ThreadOk(s, step.t);
    forall k | k in s.tickets
      ensures s.tickets[k].frame != s.pcs[step.t].frame
    {
      ChosenAlone(s, step.t, k);
    }
    forall t | t in s'.pcs
      ensures ThreadOk(s', t)
    {
      assert ThreadOk(s, t);
    }
  }

  lemma LoadTickets(s: State, step: Step)
    requires Inv(s) && Enabled(s, step) && step.Load?
    ensures Exclusion(Apply(s, step).tickets)
    ensures forall k {:trigger TicketOk(Apply(s, step), k)} :: k in Apply(s, step).tickets ==> TicketOk(Apply(s, step), k)
  {
    var s' := Apply(s, step);
    assert ThreadOk(s, step.t);
    forall k | k in s.tickets
      ensures TicketOk(s', k) && s.tickets[k].frame != s.pcs[step.t].frame
    {
      assert TicketOk(s, k);
      ChosenAlone(s, step.t, k);
      LoadedTable(s, step, s.tickets[k].frame);
    }
    assert s'.table[s.pcs[step.t].page] == s.pcs[step.t].frame;
    assert TicketOk(s', step.k);
  }

  lemma LoadFrames(s: State, step: Step)
    requires Inv(s) && Enabled(s, step) && step.Load?
    ensures forall f {:trigger FrameOk(Apply(s, step), f)} :: 0 <= f < |s.pins| ==> FrameOk(Apply(s, step), f)
  {
    var s' := Apply(s, step);
    assert ThreadOk(s, step.t);
    MorePinners(s.tickets, step.k, s'.tickets[step.k]);
    forall f | 0 <= f < |s.pins|
      ensures FrameOk(s', f)
    {
      assert FrameOk(s, f);
      if f != s.pcs[step.t].frame {
        LoadedTable(s, step, f);
      }
    }
  }

  lemma LoadKeeps(s: State, step: Step)
    requires Inv(s) && Enabled(s, step) && step.Load?
    ensures Inv(Apply(s, step))
  {
    var s', pc := Apply(s, step), s.pcs[step.t];
    assert ThreadOk(s, step.t);
    LoadThreads(s, step);
    LoadTickets(s, step);
    LoadFrames(s, step);
    assert s'.table[pc.page] == pc.frame;
    forall p | p in s'.table && p != pc.page
      ensures p in s.table && s'.table[p] == s.table[p] && s.table[p] != pc.frame
    {
    }
  }

  /** Every step of the protocol keeps the invariant. */
  lemma StepKeeps(s: State, step: Step)
    requires Inv(s) && Enabled(s, step)
    ensures Inv(Apply(s, step))
  {
    match step
    case Hit(_, _) => HitKeeps(s, step);
    case LatchGranted(_) => GrantKeeps(s, step);
    case RelatchGranted(_) => GrantKeeps(s, step);
    case Choose(_, _) => ChooseKeeps(s, step);
    case Load(_, _) => LoadKeeps(s, step);
    case GiveUpPin(_) => GiveUpPinKeeps(s, step);
    case ReleaseLatch(_) => ReleaseKeeps(s, step);
    case DeletePage(_) => DeleteKeeps(s, step);
    case _ => MoveKeeps(s, step);
  }

  // ---- what the invariant gives --------------------------------------------------------------

  /** The pin a guard's drop gives up is always there to give up. */
  lemma PinIsThere(s: State, t: Thread)
    requires Inv(s) && t in s.pcs && s.pcs[t].Critical? && s.pcs[t].request.Drop?
    ensures Enabled(s, GiveUpPin(t))
  {
    assert ThreadOk(s, t);
    var k := s.pcs[t].request.ticket;
    assert TicketOk(s, k) && FrameOk(s, s.tickets[k].frame);
    assert k in Pinners(s.tickets, s.tickets[k].frame);
  }

  /** Between dropping the write latch of a freshly loaded page and taking a read
      latch on it, no other thread gets in. */
  lemma RelatchNeverBlocks(s: State, t: Thread)
    requires Inv(s) && t in s.pcs && s.pcs[t].Relatching?
    ensures Enabled(s, RelatchGranted(t)) && s.pcs[t].ticket in s.tickets
    ensures forall k :: k in s.tickets && s.tickets[k].frame == s.tickets[s.pcs[t].ticket].frame ==> k == s.pcs[t].ticket
  {
    assert ThreadOk(s, t);
  }

  /** `a` cannot go on before `b` does something: `b` has the mutex `a` wants, or
      any guard, even one still waiting, on the frame whose latch `a` wants. */
  ghost predicate WaitsFor(s: State, a: Thread, b: Thread) {
    && a in s.pcs && b in s.pcs
    && match s.pcs[a]
       case WantsMutex(_) => s.mutex == Some(b)
       case Loading(f, _, _) => exists k :: k in s.tickets && s.tickets[k].frame == f && s.tickets[k].owner == b
       case Relatching(k) => BehindTicket(s, k, b)
       case Latching(k) => BehindTicket(s, k, b)
       case _ => false
  }

  ghost predicate BehindTicket(s: State, k: nat, b: Thread) {
    k in s.tickets && exists j :: j in s.tickets && j != k && s.tickets[j].frame == s.tickets[k].frame && s.tickets[j].owner == b
  }

  /** Whoever the mutex holder waits for has already given up its pin, wants the
      mutex no more and waits for nobody. */
  lemma HolderWaitsForLeavers(s: State, h: Thread, b: Thread)
    requires Inv(s) && s.mutex == Some(h) && WaitsFor(s, h, b)
    ensures s.pcs[h].Loading? && s.pcs[b].Dropping? && Enabled(s, ReleaseLatch(b))
    ensures s.pcs[b].ticket in s.tickets && s.tickets[s.pcs[b].ticket].frame == s.pcs[h].frame
    ensures s.tickets[s.pcs[b].ticket].phase.Releasing?
    ensures forall c :: !WaitsFor(s, b, c)
  {
    assert ThreadOk(s, h);
    if s.pcs[h].Relatching? {
      RelatchNeverBlocks(s, h);
    } else {
      var k :| k in s.tickets && s.tickets[k].frame == s.pcs[h].frame && s.tickets[k].owner == b;
      UnpinnedFrame(s, s.pcs[h].frame, k);
    }
  }

  ghost predicate WaitCycle(s: State, cycle: seq<Thread>) {
    && cycle != []
    && forall i :: 0 <= i < |cycle| ==> WaitsFor(s, cycle[i], cycle[Next(i, |cycle|)])
  }

  function Next(i: nat, n: nat): nat { if i + 1 < n then i + 1 else 0 }

  /** Neither holding the mutex nor waiting for it. */
  predicate OffMutex(s: State, t: Thread) {
    s.mutex != Some(t) && t in s.pcs && !s.pcs[t].WantsMutex?
  }

  /** No cycle of waiting threads passes through the mutex: nobody on a cycle
      holds it or wants it. */
  lemma NoCycleThroughMutex(s: State, cycle: seq<Thread>, i: nat)
    requires Inv(s) && WaitCycle(s, cycle) && i < |cycle|
    ensures OffMutex(s, cycle[i])
  {
    var n := |cycle|;
    var j := Next(i, n);
    var k := Next(j, n);
    assert WaitsFor(s, cycle[i], cycle[j]) && WaitsFor(s, cycle[j], cycle[k]);
    assert WaitsFor(s, cycle[k], cycle[Next(k, n)]);
    if s.mutex == Some(cycle[i]) {
      HolderWaitsForLeavers(s, cycle[i], cycle[j]);
    } else if s.pcs[cycle[i]].WantsMutex? {
      HolderWaitsForLeavers(s, cycle[j], cycle[k]);
    }
  }

  // ---- the mutex is always given back ----------------------------------------------------------

  /** The steps that bring the mutex holder `h` on. */
  ghost predicate Helps(s: State, h: Thread, step: Step) {
    && h in s.pcs
    && (step.t == h
        || (s.pcs[h].Loading? && step.ReleaseLatch? && step.t in s.pcs && s.pcs[step.t].Dropping?
            && s.pcs[step.t].ticket in s.tickets && s.tickets[s.pcs[step.t].ticket].frame == s.pcs[h].frame))
  }

  lemma FreshTicket(ks: set<nat>) returns (m: nat)
    ensures forall k :: k in ks ==> k < m
  {
    if ks == {} {
      m := 0;
    } else {
      var k :| k in ks;
      var rest := FreshTicket(ks - {k});
      m := if k < rest then rest else k + 1;
      assert forall j :: j in ks ==> j == k || j in ks - {k};
    }
  }

  function OnFrame(tickets: map<nat, Ticket>, f: nat): set<nat> {
    set k | k in tickets && tickets[k].frame == f
  }

  /** How far the mutex holder is from giving the mutex back: how many of its own
      steps, and how many guards have to leave the frame it loads. */
  ghost function Stage(pc: Pc): nat {
    match pc
    case Critical(_) => 3
    case Loading(_, _, _) => 2
    case Relatching(_) => 1
    case _ => 0
  }

  ghost function Leavers(s: State, h: Thread): nat
    requires h in s.pcs
  {
    if s.pcs[h].Loading? then |OnFrame(s.tickets, s.pcs[h].frame)| else 0
  }

  /** Some step that brings the mutex holder on is always possible. */
  lemma HolderCanBeHelped(s: State, h: Thread)
    requires Inv(s) && s.mutex == Some(h)
    ensures exists step :: Enabled(s, step) && Helps(s, h, step)
  {
    assert ThreadOk(s, h);
    var unused := FreshTicket(s.tickets.Keys);
    match s.pcs[h]
    case Critical(Drop(k)) =>
      PinIsThere(s, h);
      assert Helps(s, h, GiveUpPin(h));
    case Critical(Delete(p)) =>
      assert Enabled(s, DeletePage(h)) && Helps(s, h, DeletePage(h));
    case Critical(Acquire(p, m)) =>
      if p in s.table {
        assert Enabled(s, Hit(h, unused)) && Helps(s, h, Hit(h, unused));
      } else if f :| 0 <= f < |s.pins| && Choosable(s, f) {
        assert Enabled(s, Choose(h, f)) && Helps(s, h, Choose(h, f));
      } else {
        assert Enabled(s, NoFrame(h)) && Helps(s, h, NoFrame(h));
      }
    case Loading(f, _, _) =>
      if k :| k in s.tickets && s.tickets[k].frame == f {
        UnpinnedFrame(s, f, k);
        var step := ReleaseLatch(s.tickets[k].owner);
        assert Enabled(s, step) && Helps(s, h, step);
      } else {
        assert Enabled(s, Load(h, unused)) && Helps(s, h, Load(h, unused));
      }
    case Relatching(k) =>
      RelatchNeverBlocks(s, h);
      assert Helps(s, h, RelatchGranted(h));
  }

  /** What another thread's step does to the guards on the frame `h` loads. */
  lemma OthersLeave(s: State, h: Thread, step: Step)
    requires Inv(s) && s.mutex == Some(h) && Enabled(s, step) && step.t != h && s.pcs[h].Loading?
    ensures var f := s.pcs[h].frame;
      && |OnFrame(Apply(s, step).tickets, f)| <= |OnFrame(s.tickets, f)|
      && (Helps(s, h, step) ==> |OnFrame(Apply(s, step).tickets, f)| < |OnFrame(s.tickets, f)|)
  {
    assert ThreadOk(s, step.t);
    var f, ts, ts' := s.pcs[h].frame, s.tickets, Apply(s, step).tickets;
    assert !HoldsMutex(s.pcs[step.t]);
    if step.ReleaseLatch? {
      var k := s.pcs[step.t].ticket;
      assert OnFrame(ts', f) == OnFrame(ts, f) - {k};
      assert k in OnFrame(ts, f) <==> ts[k].frame == f;
    } else {
      assert ts'.Keys == ts.Keys && forall k :: k in ts ==> ts'[k].frame == ts[k].frame;
      assert OnFrame(ts, f) == OnFrame(ts', f);
    }
  }

  /** While the mutex stays with `h`, no step takes `h` further from giving it
      back, and every helping step brings it nearer. */
  lemma HolderComesNearer(s: State, h: Thread, step: Step)
    requires Inv(s) && s.mutex == Some(h) && Enabled(s, step) && Apply(s, step).mutex == Some(h)
    ensures var s' := Apply(s, step);
      && Stage(s'.pcs[h]) <= Stage(s.pcs[h])
      && (Stage(s'.pcs[h]) == Stage(s.pcs[h]) ==> Leavers(s', h) <= Leavers(s, h))
      && (Helps(s, h, step) ==> Stage(s'.pcs[h]) < Stage(s.pcs[h]) || Leavers(s', h) < Leavers(s, h))
  {
    assert ThreadOk(s, h) && ThreadOk(s, step.t);
    if step.t != h && s.pcs[h].Loading? {
      OthersLeave(s, h, step);
    }
  }

  // ---- whole runs ---------------------------------------------------------------------------------

  /** The states a run passes through. */
  ghost predicate Run(states: seq<State>, steps: seq<Step>) {
    && |states| == |steps| + 1
    && forall i {:trigger steps[i]} :: 0 <= i < |steps| ==> Enabled(states[i], steps[i]) && states[i + 1] == Apply(states[i], steps[i])
  }

  lemma {:induction false} RunKeeps(states: seq<State>, steps: seq<Step>, i: nat)
    requires Run(states, steps) && Inv(states[0]) && i <= |steps|
    ensures Inv(states[i])
  {
    if i > 0 {
      RunKeeps(states, steps, i - 1);
      assert Enabled(states[i - 1], steps[i - 1]);
      StepKeeps(states[i - 1], steps[i - 1]);
    }
  }

  /** In no state of any run does a cycle of waiting threads pass through the
      mutex, and whoever has the mutex can be helped on. */
  lemma NoRunBlocksOnTheMutex(states: seq<State>, steps: seq<Step>, n: nat, i: nat)
    requires Run(states, steps) && i <= |steps|
    requires var s := states[0];
      && s.mutex == None && (forall t {:trigger s.pcs[t]} :: t in s.pcs ==> s.pcs[t] == Running)
      && s.tickets == map[] && s.table == map[]
      && s.pins == seq(n, _ => 0) && (forall f :: f in s.free <==> f < n)
    ensures forall cycle, j :: WaitCycle(states[i], cycle) && 0 <= j < |cycle| ==> OffMutex(states[i], cycle[j])
    ensures states[i].mutex.Some? ==> exists step :: Enabled(states[i], step) && Helps(states[i], states[i].mutex.value, step)
  {
    InitInv(states[0], n);
    RunKeeps(states, steps, i);
    forall cycle, j | WaitCycle(states[i], cycle) && 0 <= j < |cycle|
      ensures OffMutex(states[i], cycle[j])
    {
      NoCycleThroughMutex(states[i], cycle, j);
    }
    if states[i].mutex.Some? {
      HolderCanBeHelped(states[i], states[i].mutex.value);
    }
  }
}
