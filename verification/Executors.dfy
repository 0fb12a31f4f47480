/** The operators that run a plan batch by batch. Any number of stops and
    resumptions, at any batch sizes, produces the rows the plan stands for. */
module Executors {
  import opened Common
  import opened Expressions
  import opened Plans
  import opened ExecutorSteps
  import opened ExecutorViews
  import SortExecutor

  const SORT_CHILD_BATCH_SIZE: nat := 128

  // ---- loops over buffered rows ---------------------------------------------------------------

  /** Filters buffered rows until there is no more room. */
  method KeepSome(fp: FloatOps, f: Expr, rows: seq<Row>, room: nat) returns (kept: seq<Row>, rest: seq<Row>)
    requires Decides(fp, Some(f), rows) && room > 0
    ensures kept + FilterRows(fp, Some(f), rest) == FilterRows(fp, Some(f), rows) && Decides(fp, Some(f), rest)
    ensures |kept| <= room && (|kept| < room ==> rest == [])
  {
    kept, rest := [], rows;
    while rest != []
      invariant kept + FilterRows(fp, Some(f), rest) == FilterRows(fp, Some(f), rows) && Decides(fp, Some(f), rest)
      invariant |kept| < room
    {
      var row := rest[0];
      assert rest == [row] + rest[1..];
      DecidesSuffix(fp, Some(f), [row], rest[1..]);
      rest := rest[1..];
      if Keep(fp, f, [row]).value {
        kept := kept + [row];
        if |kept| == room {
          return;
        }
      }
    }
  }

  lemma ScanStep(fp: FloatOps, f: Option<Expr>, heap: seq<HeapRow>)
    requires heap != [] && Decides(fp, f, LiveRows(heap))
    ensures Decides(fp, f, LiveRows(heap[1..]))
    ensures !heap[0].deleted && f.Some? ==> Keep(fp, f.value, [heap[0].values]).Ok?
    ensures FilterRows(fp, f, LiveRows(heap)) ==
      (if !heap[0].deleted && Keeps(fp, f, [heap[0].values]) then [heap[0].values] else []) + FilterRows(fp, f, LiveRows(heap[1..]))
  {
    var rest := LiveRows(heap[1..]);
    if heap[0].deleted {
      assert LiveRows(heap) == rest;
    } else {
      var row := heap[0].values;
      assert LiveRows(heap) == [row] + rest && ([row] + rest)[1..] == rest && [row][0] == row;
      DecidesSuffix(fp, f, [row], rest);
    }
  }

  /** Scans heap rows until there is no more room. */
  method ScanSome(fp: FloatOps, f: Option<Expr>, heap: seq<HeapRow>, room: nat) returns (kept: seq<Row>, rest: seq<HeapRow>)
    requires Decides(fp, f, LiveRows(heap)) && room > 0
    ensures kept + FilterRows(fp, f, LiveRows(rest)) == FilterRows(fp, f, LiveRows(heap)) && Decides(fp, f, LiveRows(rest))
    ensures |kept| <= room && (|kept| < room ==> rest == [])
  {
    kept, rest := [], heap;
    while |kept| < room && rest != []
      invariant kept + FilterRows(fp, f, LiveRows(rest)) == FilterRows(fp, f, LiveRows(heap)) && Decides(fp, f, LiveRows(rest))
      invariant |kept| <= room
      decreases |rest|
    {
      ScanStep(fp, f, rest);
      ghost var step := if !rest[0].deleted && Keeps(fp, f, [rest[0].values]) then [rest[0].values] else [];
      Associate(kept, step, FilterRows(fp, f, LiveRows(rest[1..])));
      var row := rest[0];
      rest := rest[1..];
      if row.deleted {
        continue;
      }
      if f.Some? && !Keep(fp, f.value, [row.values]).value {
        continue;
      }
      kept := kept + [row.values];
    }
  }

  /** Tries buffered right rows against the current left row until there is no
      more room. */
  method TrySome(fp: FloatOps, on: Option<Expr>, left: Row, inner: seq<Row>, matched: bool, room: nat,
                 ghost loop: Loop, ghost leftTodo: seq<Row>, ghost rightTodo: seq<Row>)
    returns (out: seq<Row>, inner': seq<Row>, matched': bool)
    requires loop.offset < |loop.outer| && loop.Decides(leftTodo, rightTodo) && room > 0
    requires loop.fp == fp && loop.on == on && loop.outer[loop.offset] == left && loop.inner == inner && loop.matched == matched
    ensures var loop' := loop.(inner := inner', matched := matched');
      out + loop'.Todo(leftTodo, rightTodo) == loop.Todo(leftTodo, rightTodo) && loop'.Decides(leftTodo, rightTodo)
    ensures |out| <= room && (|out| < room ==> inner' == []) && |inner'| <= |inner|
    ensures inner != [] ==> |inner'| < |inner|
  {
    out, inner', matched' := [], inner, matched;
    ghost var loop' := loop;
    while inner' != []
      invariant loop' == loop.(inner := inner', matched := matched')
      invariant out + loop'.Todo(leftTodo, rightTodo) == loop.Todo(leftTodo, rightTodo) && loop'.Decides(leftTodo, rightTodo)
      invariant |out| < room && |inner'| <= |inner|
      decreases |inner'|
    {
      loop'.TryKeeps(leftTodo, rightTodo);
      Associate(out, loop'.Tried(), loop'.Try().Todo(leftTodo, rightTodo));
      var right := inner'[0];
      var keep := on.None? || Keep(fp, on.value, [left, right]).value;
      assert loop'.Tried() == if keep then [left + right] else [];
      loop' := loop'.Try();
      inner' := inner'[1..];
      if keep {
        matched' := true;
        out := out + [left + right];
        if |out| >= room {
          return;
        }
      } else {
        assert out + [] == out;
      }
    }
  }

  /** Fetches looked-up rows for the current outer row until there is no more room. */
  method FetchSome(probe: Probe, room: nat, ghost outerTodo: seq<Row>) returns (out: seq<Row>, probe': Probe)
    requires probe.offset < |probe.outer| && probe.rids.Some? && probe.Builds(outerTodo) && room > 0
    ensures probe' == probe.(rids := probe'.rids, matched := probe'.matched) && probe'.rids.Some?
    ensures out + probe'.Todo(outerTodo) == probe.Todo(outerTodo) && probe'.Builds(outerTodo)
    ensures |out| <= room && (|out| < room ==> probe'.rids == Some([]))
    ensures |probe'.rids.value| <= |probe.rids.value| && (|out| == room ==> |probe'.rids.value| < |probe.rids.value|)
  {
    out, probe' := [], probe;
    while probe'.rids.value != []
      invariant probe' == probe.(rids := probe'.rids, matched := probe'.matched) && probe'.rids.Some?
      invariant out + probe'.Todo(outerTodo) == probe.Todo(outerTodo) && probe'.Builds(outerTodo)
      invariant |out| < room && |probe'.rids.value| <= |probe.rids.value|
      decreases |probe'.rids.value|
    {
      probe'.FetchKeeps(outerTodo);
      var left, rid := probe'.outer[probe'.offset], probe'.rids.value[0];
      ghost var fetched, before := probe'.Fetched(), probe';
      var row := RowAt(probe.table.heap, rid);
      var live := row.Some? && !row.value.deleted;
      probe' := probe'.(rids := Some(probe'.rids.value[1..]), matched := probe'.matched || live);
      assert probe' == before.Fetch();
      Associate(out, fetched, probe'.Todo(outerTodo));
      if live {
        out := out + [left + row.value.values];
        if |out| >= room {
          return;
        }
      } else {
        assert out + fetched == out;
      }
    }
  }

  /** The lookup of the current outer row is used up. */
  method FinishProbe(probe: Probe, ghost outerTodo: seq<Row>) returns (pad: seq<Row>, probe': Probe)
    requires probe.offset < |probe.outer| && probe.rids == Some([]) && probe.Builds(outerTodo)
    ensures |pad| <= 1 && pad + probe'.Todo(outerTodo) == probe.Todo(outerTodo) && probe'.Builds(outerTodo)
    ensures probe' == probe.(offset := probe.offset + 1, matched := false, rids := None)
  {
    probe.AdvanceKeeps(outerTodo);
    pad := if probe.joinType.Left? && !probe.matched then [PadRow(probe.schema, probe.outer[probe.offset])] else [];
    probe' := probe.(offset := probe.offset + 1, matched := false, rids := None);
    assert probe' == probe.Advance();
  }

  /** Looks the current row's key up unless that was done before, and joins what
      was found; moves on once the lookup is used up. */
  method StepProbe(probe: Probe, room: nat, ghost outerTodo: seq<Row>) returns (out: seq<Row>, probe': Probe)
    requires probe.offset < |probe.outer| && probe.Builds(outerTodo) && room > 0
    ensures |out| <= room && out + probe'.Todo(outerTodo) == probe.Todo(outerTodo) && probe'.Builds(outerTodo)
    ensures probe' == probe.(offset := probe'.offset, matched := probe'.matched, rids := probe'.rids)
    ensures |out| < room ==> probe'.offset == probe.offset + 1
  {
    probe' := probe;
    if probe'.rids.None? {
      probe'.LookupKeeps(outerTodo);
      probe' := probe'.Lookup();
    }
    out, probe' := FetchSome(probe', room, outerTodo);
    if |out| < room {
      var pad;
      pad, probe' := FinishProbe(probe', outerTodo);
      Associate(out, pad, probe'.Todo(outerTodo));
      out := out + pad;
    }
  }

  method ProjectBatch(fp: FloatOps, es: seq<Expr>, batch: seq<Row>) returns (out: seq<Row>)
    requires Evaluates(fp, es, batch)
    ensures out == ProjectRows(fp, es, batch)
  {
    out := [];
    var i := 0;
    while i < |batch|
      invariant i <= |batch| && out == ProjectRows(fp, es, batch)[..i]
    {
      out := out + [EvaluateAll(fp, es, [batch[i]]).value];
      i := i + 1;
    }
  }

  // ---- operators --------------------------------------------------------------------------------

  class Executor {
    const db: Db
    const plan: Plan
    const left: Executor?
    const right: Executor?
    ghost const Repr: set<object>
    var st: State
    ghost var view: View

    ghost predicate IsChild(c: Executor?, p: Plan) {
      c != null && c.plan == p && c.db == db && c in c.Repr && c.Repr <= Repr && this !in c.Repr
    }

    /** The operator tree follows the plan, and the view is right. */
    ghost predicate Valid()
      reads Repr
      decreases plan
    {
      && this in Repr && Meaning(db, plan).Some? && PagesClean(db)
      && (if HasLeft(plan) then IsChild(left, LeftOf(plan)) && left.Valid() else left == null)
      && (if plan.node.NestedLoopJoin? then
            IsChild(right, plan.node.right) && left.Repr !! right.Repr && right.Valid() && Restartable(right.plan)
          else right == null)
      && NodeOk(db, plan, st, LeftView(), RightView()) && view == ViewOf(db, plan, st, LeftView(), RightView())
    }

    ghost function LeftView(): View
      reads left
    {
      if left != null then left.view else NO_CHILD
    }

    ghost function RightView(): View
      reads right
    {
      if right != null then right.view else NO_CHILD
    }

    lemma {:induction false} AlwaysClean()
      requires Valid() && Resets(plan)
      ensures view.clean
      decreases plan
    {
      if HasLeft(plan) && !plan.node.Sort? {
        left.AlwaysClean();
      }
    }

    constructor (db: Db, plan: Plan, left: Executor?, right: Executor?)
      requires Meaning(db, plan).Some? && PagesClean(db)
      requires if HasLeft(plan) then
          left != null && left.plan == LeftOf(plan) && left.db == db && left in left.Repr && left.Valid() && AtStart(db, left.plan, left.view)
        else left == null
      requires if plan.node.NestedLoopJoin? then
          right != null && right.plan == plan.node.right && right.db == db && Restartable(right.plan) && right in right.Repr
          && right.Valid() && right.view.clean && left.Repr !! right.Repr
        else right == null
      ensures Valid() && AtStart(db, plan, view) && this.db == db && this.plan == plan
      ensures Repr == {this} + (if left != null then left.Repr else {}) + (if right != null then right.Repr else {})
    {
      this.db, this.plan, this.left, this.right := db, plan, left, right;
      this.st := InitialState(plan);
      this.Repr := {this} + (if left != null then left.Repr else {}) + (if right != null then right.Repr else {});
      new;
      InitialNode(db, plan, LeftView(), RightView());
      view := ViewOf(db, plan, st, LeftView(), RightView());
    }

    // ---- starting -------------------------------------------------------------------------------

    /** Starts over, provided nothing of an earlier pass is left. */
    method Init()
      requires Valid() && view.clean
      modifies Repr
      ensures Valid() && view.ready && view.todo == RowsOf(db, plan) && (Restartable(plan) ==> view.clean)
      decreases plan, 1
    {
      match plan.node {
        case SeqScan(t, _) =>
          st := ScanAt(Some(db.tables[t].heap));
          view := ViewOf(db, plan, st, NO_CHILD, NO_CHILD);
        case ValueRows(rows) =>
          st := RowsAt(0);
          assert EvaluateRows(db.fp, rows)[0..] == EvaluateRows(db.fp, rows);
          view := ViewOf(db, plan, st, NO_CHILD, NO_CHILD);
        case Sort(_, _) => InitSort();
        case Limit(_, _) => InitLimit();
        case NestedIndexJoin(_, _, _, _, _, _) => InitProbe();
        case _ => InitChild();
      }
    }

    /** Operators whose own fields starting over leaves alone. */
    method InitChild()
      requires Valid() && view.clean && (plan.node.Filter? || plan.node.Projection? || plan.node.NestedLoopJoin?)
      modifies Repr
      ensures Valid() && view.ready && view.todo == RowsOf(db, plan) && (Restartable(plan) ==> view.clean)
      decreases plan, 0
    {
      hide NodeOk, ViewOf, Meaning, RowsOf, Restartable, Resets;
      ghost var l := left.view;
      RestartKind(plan);
      NodeKind(db, plan, st, l, RightView());
      left.Init();
      StartedNode(db, plan, st, l, left.view, RightView());
      view := ViewOf(db, plan, st, left.view, RightView());
    }

    /** Starting a filter over, whatever it has buffered. */
    method RestartFilter()
      requires Valid() && plan.node.Filter? && left.view.clean
      modifies Repr
      ensures Valid() && view.ready && st == old(st)
      ensures var kept := FilterRows(db.fp, Some(plan.node.condition), old(st.rows));
        view.todo == kept + RowsOf(db, plan) && (view.todo == RowsOf(db, plan) <==> kept == [])
      decreases plan, 0
    {
      hide NodeOk, ViewOf, Meaning, RowsOf, Restartable, Resets;
      ghost var l := left.view;
      NodeKind(db, plan, st, l, RightView());
      left.Init();
      RestartedNode(db, plan, st, l, left.view, RightView());
      FilterRestart(db, plan, st.rows, left.view);
      view := ViewOf(db, plan, st, left.view, RightView());
      NodeKind(db, plan, st, left.view, RightView());
    }

    /** Starting a loop join over, whatever left rows it has. */
    method RestartLoop()
      requires Valid() && plan.node.NestedLoopJoin? && left.view.clean && st.offset < |st.outer|
      modifies Repr
      ensures Valid() && view.ready && st == old(st) && right.view == old(right.view)
      ensures var kept := LoopOf(db, plan, old(st)).Head(old(right.view.todo)) + LoopOf(db, plan, old(st)).Joined(old(st.outer)[old(st.offset) + 1..]);
        view.todo == kept + RowsOf(db, plan) && (view.todo == RowsOf(db, plan) <==> kept == [])
      decreases plan, 0
    {
      hide NodeOk, ViewOf, Meaning, RowsOf, Restartable, Resets;
      ghost var l := left.view;
      NodeKind(db, plan, st, l, RightView());
      left.Init();
      RestartedNode(db, plan, st, l, left.view, RightView());
      LoopRestart(db, plan, st, left.view, RightView());
      view := ViewOf(db, plan, st, left.view, RightView());
      NodeKind(db, plan, st, left.view, RightView());
    }

    method InitLimit()
      requires Valid() && view.clean && plan.node.Limit?
      modifies Repr
      ensures Valid() && view.ready && view.todo == RowsOf(db, plan) && (Restartable(plan) ==> view.clean)
      decreases plan, 0
    {
      left.Init();
      st := Remaining(LimitCount(db.fp, plan.node.limit).value);
      if Resets(left.plan) {
        left.AlwaysClean();
      }
      view := ViewOf(db, plan, st, left.view, NO_CHILD);
    }

    method InitProbe()
      requires Valid() && view.clean && plan.node.NestedIndexJoin?
      modifies Repr
      ensures Valid() && view.ready && view.todo == RowsOf(db, plan) && (Restartable(plan) ==> view.clean)
      decreases plan, 0
    {
      hide NodeOk, ViewOf, Meaning, RowsOf, Restartable, Resets;
      ghost var before, l := st, left.view;
      RestartKind(plan);
      NodeKind(db, plan, st, l, RightView());
      st := Probing([], 0, false, None);
      left.Init();
      StartedProbe(db, plan, before, l, left.view);
      view := ViewOf(db, plan, st, left.view, NO_CHILD);
    }

    /** Drains the child and sorts what it gave. */
    method InitSort()
      requires Valid() && view.clean && plan.node.Sort?
      modifies Repr
      ensures Valid() && view.ready && view.todo == RowsOf(db, plan) && (Restartable(plan) ==> view.clean)
      decreases plan, 0
    {
      hide NodeOk, ViewOf, Meaning, RowsOf, Restartable, Resets, Sortable, PagesClean;
      RestartKind(plan);
      NodeKind(db, plan, st, left.view, RightView());
      left.Init();
      var rows := DrainSorted(db, plan, left);
      st := SortedRows(Some(rows));
      SortedNode(db, plan, st.sorted.value, left.view);
      view := ViewOf(db, plan, st, left.view, NO_CHILD);
    }

    /** The rows of a started child, sorted on pages. */
    static method DrainSorted(db: Db, plan: Plan, child: Executor) returns (rows: seq<Row>)
      requires plan.node.Sort? && Meaning(db, plan).Some? && PagesClean(db)
      requires child.plan == plan.node.child && child.Valid() && child.view.ready && child.view.todo == RowsOf(db, child.plan)
      modifies child.Repr
      ensures child.Valid() && child.view.ready && rows == RowsOf(db, plan) && (Restartable(child.plan) ==> child.view.clean)
      decreases child.plan, 4
    {
      hide NodeOk, ViewOf, Meaning, RowsOf, Restartable, Resets, Sortable, PagesClean;
      SortMeaning(db, plan);
      rows := Drain(child, SORT_CHILD_BATCH_SIZE);
      rows := SortExecutor.SortOnPages(db, plan.node.orderBys, plan.node.child.schema, rows);
    }

    /** All rows a started operator still has, asked for until a batch is empty. */
    static method Drain(child: Executor, b: nat) returns (rows: seq<Row>)
      requires child.Valid() && child.view.ready && b >= 1
      modifies child.Repr
      ensures child.Valid() && child.view.ready && rows == old(child.view.todo) && (Restartable(child.plan) ==> child.view.clean)
      decreases child.plan, 3
    {
      hide NodeOk, ViewOf, Meaning, RowsOf, Restartable, Resets;
      rows := [];
      while true
        invariant child.Valid() && child.view.ready && rows + child.view.todo == old(child.view.todo)
        decreases |child.view.todo|
      {
        var batch := child.Next(b);
        if batch == [] {
          break;
        }
        rows := rows + batch;
      }
    }

    // ---- producing ------------------------------------------------------------------------------

    /** At most `b` rows, the next ones of the plan; none exactly at its end. */
    method Next(b: nat) returns (out: seq<Row>)
      requires Valid() && view.ready && b >= 1
      modifies Repr
      ensures Valid() && view.ready && |out| <= b && out + view.todo == old(view.todo) && (out == [] <==> old(view.todo) == [])
      ensures out == [] && Restartable(plan) ==> view.clean
      decreases plan, 2
    {
      match plan.node {
        case SeqScan(_, _) => out := NextScan(b);
        case ValueRows(_) => out := NextValues(b);
        case Filter(_, _) => out := NextFilter(b);
        case Projection(_, _) => out := NextProjection(b);
        case Sort(_, _) => out := NextSort(b);
        case Limit(_, _) => out := NextLimit(b);
        case NestedLoopJoin(_, _, _, _) => out := NextLoop(b);
        case NestedIndexJoin(_, _, _, _, _, _) => out := NextProbe(b);
      }
    }

    method NextScan(b: nat) returns (out: seq<Row>)
      requires Valid() && view.ready && b >= 1 && plan.node.SeqScan?
      modifies this
      ensures Valid() && view.ready && |out| <= b && out + view.todo == old(view.todo) && (out == [] <==> old(view.todo) == [])
      ensures view.clean
    {
      if st.rest.None? {
        return [];
      }
      var rest: seq<HeapRow>;
      out, rest := ScanSome(db.fp, plan.node.filter, st.rest.value, b);
      st := ScanAt(Some(rest));
      view := ViewOf(db, plan, st, NO_CHILD, NO_CHILD);
    }

    method NextValues(b: nat) returns (out: seq<Row>)
      requires Valid() && view.ready && b >= 1 && plan.node.ValueRows?
      modifies this
      ensures Valid() && view.ready && |out| <= b && out + view.todo == old(view.todo) && (out == [] <==> old(view.todo) == [])
      ensures view.clean
    {
      var rows, next := plan.node.rows, st.next;
      var end := if next + b <= |rows| then next + b else |rows|;
      ghost var all := EvaluateRows(db.fp, rows);
      out := [];
      var i: nat := next;
      while i < end
        invariant next <= i <= end <= |rows| && out == all[next..i]
      {
        assert all[next..i + 1] == all[next..i] + [all[i]];
        out := out + [EvaluateAll(db.fp, rows[i], [[]]).value];
        i := i + 1;
      }
      st := RowsAt(end);
      assert all[next..] == all[next..end] + all[end..];
      view := ViewOf(db, plan, st, NO_CHILD, NO_CHILD);
    }

    method NextSort(b: nat) returns (out: seq<Row>)
      requires Valid() && view.ready && b >= 1 && plan.node.Sort?
      modifies this
      ensures Valid() && view.ready && |out| <= b && out + view.todo == old(view.todo) && (out == [] <==> old(view.todo) == [])
      ensures Restartable(plan) ==> view.clean
    {
      hide NodeOk, ViewOf, Meaning, RowsOf, Restartable, Resets;
      RestartKind(plan);
      SortChildClean(db, plan, st, left.view);
      NodeKind(db, plan, st, left.view, NO_CHILD);
      var rows := st.sorted.value;
      var n := if b <= |rows| then b else |rows|;
      out := rows[..n];
      st := SortedRows(Some(rows[n..]));
      SortedNode(db, plan, rows[n..], left.view);
      view := ViewOf(db, plan, st, left.view, NO_CHILD);
    }

    method NextProjection(b: nat) returns (out: seq<Row>)
      requires Valid() && view.ready && b >= 1 && plan.node.Projection?
      modifies Repr
      ensures Valid() && view.ready && |out| <= b && out + view.todo == old(view.todo) && (out == [] <==> old(view.todo) == [])
      ensures out == [] && Restartable(plan) ==> view.clean
      decreases plan, 0
    {
      hide NodeOk, ViewOf, Meaning, RowsOf, Restartable, Resets;
      RestartKind(plan);
      var es := plan.node.exprs;
      ghost var l := left.view;
      NodeKind(db, plan, st, l, NO_CHILD);
      var batch := left.Next(b);
      ProjectedNode(db, plan, st, l, batch, left.view);
      out := ProjectBatch(db.fp, es, batch);
      view := ViewOf(db, plan, st, left.view, NO_CHILD);
    }

    method NextLimit(b: nat) returns (out: seq<Row>)
      requires Valid() && view.ready && b >= 1 && plan.node.Limit?
      modifies Repr
      ensures Valid() && view.ready && |out| <= b && out + view.todo == old(view.todo) && (out == [] <==> old(view.todo) == [])
      ensures out == [] && Restartable(plan) ==> view.clean
      decreases plan, 0
    {
      hide NodeOk, ViewOf, Meaning, RowsOf, Restartable, Resets;
      RestartKind(plan);
      ghost var l := left.view;
      NodeKind(db, plan, st, l, NO_CHILD);
      if Resets(left.plan) {
        left.AlwaysClean();
      }
      if st.count == Some(0) {
        LimitReached(db, plan, l);
        return [];
      }
      var size := if st.count.Some? && st.count.value < b then st.count.value else b;
      assert st == Remaining(st.count);
      out := left.Next(size);
      if Resets(left.plan) {
        left.AlwaysClean();
      }
      LimitedNode(db, plan, st.count, l, out, left.view);
      if st.count.Some? {
        st := Remaining(Some(st.count.value - |out|));
      }
      view := ViewOf(db, plan, st, left.view, NO_CHILD);
    }

    /** Rows of a child batch that are not needed yet stay buffered. */
    method NextFilter(b: nat) returns (out: seq<Row>)
      requires Valid() && view.ready && b >= 1 && plan.node.Filter?
      modifies Repr
      ensures Valid() && view.ready && |out| <= b && out + view.todo == old(view.todo) && (out == [] <==> old(view.todo) == [])
      ensures out == [] && Restartable(plan) ==> view.clean
      decreases plan, 1
    {
      hide NodeOk, ViewOf, Meaning, RowsOf, Restartable, Resets;
      out := [];
      while true
        invariant Valid() && view.ready && |out| < b && out + view.todo == old(view.todo)
        decreases |left.view.todo|
      {
        var kept := KeepBuffered(b - |out|);
        out := out + kept;
        if |out| == b {
          return;
        }
        var more := FetchBuffer(b);
        if !more {
          return;
        }
        kept := KeepBuffered(b - |out|);
        out := out + kept;
        if |out| == b {
          return;
        }
      }
    }

    method KeepBuffered(room: nat) returns (kept: seq<Row>)
      requires Valid() && plan.node.Filter? && room > 0
      modifies this
      ensures Valid() && view.ready == old(view.ready) && |kept| <= room && kept + view.todo == old(view.todo)
      ensures |kept| < room ==> st == Buffered([])
      ensures left.view == old(left.view)
    {
      hide NodeOk, ViewOf, Meaning, RowsOf, Restartable, Resets;
      NodeKind(db, plan, st, left.view, NO_CHILD);
      FilterBuffer(db, plan, st.rows, left.view);
      ghost var before := st.rows;
      var rest: seq<Row>;
      kept, rest := KeepSome(db.fp, plan.node.condition, st.rows, room);
      KeptNode(db, plan, before, left.view, kept, rest);
      NodeKind(db, plan, Buffered(rest), left.view, NO_CHILD);
      st := Buffered(rest);
      view := ViewOf(db, plan, st, left.view, NO_CHILD);
    }

    method FetchBuffer(b: nat) returns (more: bool)
      requires Valid() && view.ready && plan.node.Filter? && st == Buffered([]) && b >= 1
      modifies Repr
      ensures Valid() && view.ready && view.todo == old(view.todo)
      ensures more ==> |left.view.todo| < old(|left.view.todo|)
      ensures !more ==> view.todo == [] && (Restartable(plan) ==> view.clean)
      decreases plan, 0
    {
      hide NodeOk, ViewOf, Meaning, RowsOf, Restartable, Resets;
      RestartKind(plan);
      ghost var l := left.view;
      NodeKind(db, plan, st, l, NO_CHILD);
      var batch := left.Next(b);
      RefilledNode(db, plan, l, batch, left.view);
      NodeKind(db, plan, Buffered(batch), left.view, NO_CHILD);
      more := batch != [];
      if more {
        st := Buffered(batch);
      }
      view := ViewOf(db, plan, st, left.view, NO_CHILD);
    }

    // ---- nested-loop join ----------------------------------------------------------------------------

    ghost function AsLoop(): Loop
      reads this
      requires plan.node.NestedLoopJoin? && st.Looping?
    {
      LoopOf(db, plan, st)
    }

    method NextLoop(b: nat) returns (out: seq<Row>)
      requires Valid() && view.ready && b >= 1 && plan.node.NestedLoopJoin?
      modifies Repr
      ensures Valid() && view.ready && |out| <= b && out + view.todo == old(view.todo) && (out == [] <==> old(view.todo) == [])
      ensures out == [] && Restartable(plan) ==> view.clean
      decreases plan, 1
    {
      hide NodeOk, ViewOf, Meaning, RowsOf, Restartable, Resets;
      NodeKind(db, plan, st, LeftView(), RightView());
      out := [];
      while true
        invariant st.Looping?
        invariant Valid() && view.ready && |out| < b && out + view.todo == old(view.todo)
        decreases |left.view.todo|, if st.offset < |st.outer| then |st.outer| - st.offset else 0, |st.inner| + |right.view.todo|
      {
        if st.offset >= |st.outer| {
          var more := FetchOuter(b);
          if !more {
            return;
          }
        }
        if st.inner == [] {
          var more := FetchInner(b);
          if !more {
            var pad := FinishOuter();
            out := out + pad;
            if |out| >= b {
              return;
            }
            continue;
          }
        }
        var joined := TryBuffered(b - |out|);
        out := out + joined;
        if |out| >= b {
          return;
        }
      }
    }

    /** A fresh batch of left rows; the right side starts over. */
    method FetchOuter(b: nat) returns (more: bool)
      requires Valid() && view.ready && b >= 1 && plan.node.NestedLoopJoin? && st.Looping? && st.offset >= |st.outer|
      modifies Repr
      ensures Valid() && view.ready && view.todo == old(view.todo)
      ensures st.Looping? && (more ==> st.offset < |st.outer|)
      ensures more ==> |left.view.todo| < old(|left.view.todo|)
      ensures !more ==> view.todo == [] && (Restartable(plan) ==> view.clean)
      decreases plan, 0
    {
      hide NodeOk, ViewOf, Meaning, RowsOf, Restartable, Resets;
      RestartKind(plan);
      ghost var l, r := left.view, right.view;
      NodeKind(db, plan, st, l, r);
      LoopStart(db, plan, st, l, r);
      var batch := left.Next(b);
      more := batch != [];
      if more {
        right.Init();
        LoopRefilled(db, plan, st, l, r, batch, left.view, right.view);
        st := Looping(batch, 0, false, st.inner);
      } else {
        LoopEnded(db, plan, st, l, r, left.view);
      }
      view := ViewOf(db, plan, st, left.view, right.view);
    }

    method FetchInner(b: nat) returns (more: bool)
      requires Valid() && view.ready && b >= 1 && plan.node.NestedLoopJoin? && st.Looping? && st.offset < |st.outer| && st.inner == []
      modifies Repr
      ensures Valid() && view.ready && view.todo == old(view.todo) && left.view == old(left.view)
      ensures st == old(st).(inner := st.inner) && (more <==> st.inner != [])
      ensures |st.inner| + |right.view.todo| == old(|right.view.todo|)
      ensures !more ==> right.view.todo == [] && right.view.clean
      decreases plan, 0
    {
      hide NodeOk, ViewOf, Meaning, RowsOf, Restartable, Resets;
      ghost var r := right.view;
      LoopStart(db, plan, st, left.view, r);
      var batch := right.Next(b);
      LoopFetched(db, plan, st, left.view, r, batch, right.view);
      more := batch != [];
      st := st.(inner := batch);
      view := ViewOf(db, plan, st, left.view, right.view);
    }

    /** The right side has run dry for this left row. */
    method FinishOuter() returns (pad: seq<Row>)
      requires Valid() && view.ready && plan.node.NestedLoopJoin? && st.Looping? && st.offset < |st.outer| && st.inner == []
      requires right.view.todo == [] && right.view.clean
      modifies Repr
      ensures Valid() && view.ready && |pad| <= 1 && pad + view.todo == old(view.todo) && left.view == old(left.view)
      ensures st == old(st).(offset := old(st).offset + 1, matched := false)
      decreases plan, 0
    {
      hide NodeOk, ViewOf, Meaning, RowsOf, Restartable, Resets;
      ghost var r := right.view;
      NodeKind(db, plan, st, left.view, r);
      pad := if plan.node.joinType.Left? && !st.matched then [PadRow(plan.schema, st.outer[st.offset])] else [];
      right.Init();
      LoopFinished(db, plan, st, left.view, r, right.view);
      st := st.(offset := st.offset + 1, matched := false);
      view := ViewOf(db, plan, st, left.view, right.view);
    }

    method TryBuffered(room: nat) returns (joined: seq<Row>)
      requires Valid() && view.ready && plan.node.NestedLoopJoin? && st.Looping? && st.offset < |st.outer| && st.inner != [] && room > 0
      modifies this
      ensures Valid() && view.ready && |joined| <= room && joined + view.todo == old(view.todo)
      ensures left.view == old(left.view) && right.view == old(right.view)
      ensures st == old(st).(inner := st.inner, matched := st.matched) && |st.inner| < |old(st).inner|
    {
      hide NodeOk, ViewOf, Meaning, RowsOf, Restartable, Resets;
      NodeKind(db, plan, st, left.view, right.view);
      LoopStart(db, plan, st, left.view, right.view);
      var inner: seq<Row>, matched: bool;
      joined, inner, matched := TrySome(db.fp, Condition(plan.node.joinType, plan.node.on), st.outer[st.offset], st.inner, st.matched,
                                        room, AsLoop(), left.view.todo, right.view.todo);
      LoopTried(db, plan, st, left.view, right.view, st.(inner := inner, matched := matched));
      st := st.(inner := inner, matched := matched);
      view := ViewOf(db, plan, st, left.view, right.view);
    }

    // ---- index join ------------------------------------------------------------------------------------

    method NextProbe(b: nat) returns (out: seq<Row>)
      requires Valid() && view.ready && b >= 1 && plan.node.NestedIndexJoin?
      modifies Repr
      ensures Valid() && view.ready && |out| <= b && out + view.todo == old(view.todo) && (out == [] <==> old(view.todo) == [])
      ensures out == [] && Restartable(plan) ==> view.clean
      decreases plan, 1
    {
      hide NodeOk, ViewOf, Meaning, RowsOf, Restartable, Resets;
      NodeKind(db, plan, st, LeftView(), RightView());
      out := [];
      while true
        invariant st.Probing?
        invariant Valid() && view.ready && |out| < b && out + view.todo == old(view.todo)
        decreases |left.view.todo|, if st.at < |st.probed| then |st.probed| - st.at else 0
      {
        if st.at >= |st.probed| {
          var more := FetchProbed(b);
          if !more {
            return;
          }
        }
        var joined := ProbeCurrent(b - |out|);
        out := out + joined;
        if |out| >= b {
          return;
        }
      }
    }

    method FetchProbed(b: nat) returns (more: bool)
      requires Valid() && view.ready && b >= 1 && plan.node.NestedIndexJoin? && st.Probing? && st.at >= |st.probed|
      modifies Repr
      ensures Valid() && view.ready && view.todo == old(view.todo)
      ensures st.Probing? && (more ==> st.at < |st.probed|)
      ensures more ==> |left.view.todo| < old(|left.view.todo|)
      ensures !more ==> view.todo == [] && (Restartable(plan) ==> view.clean)
      decreases plan, 0
    {
      hide NodeOk, ViewOf, Meaning, RowsOf, Restartable, Resets, ProbeOf, HasIndex;
      RestartKind(plan);
      ghost var l := left.view;
      NodeKind(db, plan, st, l, NO_CHILD);
      var batch := left.Next(b);
      more := batch != [];
      if more {
        ProbeRefilled(db, plan, st, l, batch, left.view);
        st := Probing(batch, 0, false, None);
      } else {
        ProbeEnded(db, plan, st, l, left.view);
      }
      view := ViewOf(db, plan, st, left.view, NO_CHILD);
    }

    method ProbeCurrent(room: nat) returns (out: seq<Row>)
      requires Valid() && view.ready && plan.node.NestedIndexJoin? && st.Probing? && st.at < |st.probed| && room > 0
      modifies this
      ensures Valid() && view.ready && |out| <= room && out + view.todo == old(view.todo) && left.view == old(left.view)
      ensures st.Probing? && (|out| < room ==> st.probed == old(st).probed && st.at == old(st).at + 1)
    {
      hide NodeOk, ViewOf, Meaning, RowsOf, Restartable, Resets, ProbeOf, HasIndex;
      ProbeStart(db, plan, st, left.view);
      var probe := ProbeOf(db, plan, st);
      ProbeFields(db, plan, st);
      ghost var start := probe;
      out, probe := StepProbe(probe, room, left.view.todo);
      ProbeStepped(db, plan, st, left.view, probe);
      st := Probing(probe.outer, probe.offset, probe.matched, probe.rids);
      view := ViewOf(db, plan, st, left.view, NO_CHILD);
    }
  }
}
