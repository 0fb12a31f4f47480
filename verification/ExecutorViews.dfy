/** What an operator of a plan shows its parent, as a function of its own fields
    and of what its children show. */
module ExecutorViews {
  import opened Common
  import opened Entries
  import opened Expressions
  import opened SortOrder
  import opened Plans
  import opened ExecutorSteps

  predicate HasLeft(p: Plan) {
    !p.node.SeqScan? && !p.node.ValueRows?
  }

  function LeftOf(p: Plan): (c: Plan)
    requires HasLeft(p)
    ensures c < p
  {
    match p.node
    case Filter(_, c) => c
    case Projection(_, c) => c
    case Sort(_, c) => c
    case Limit(_, c) => c
    case NestedLoopJoin(l, _, _, _) => l
    case NestedIndexJoin(c, _, _, _, _, _) => c
  }

  /** Starting over is always possible: no operator in the tree keeps rows of an
      earlier pass. */
  predicate Resets(p: Plan) {
    match p.node
    case SeqScan(_, _) => true
    case ValueRows(_) => true
    case Filter(_, _) => false
    case NestedLoopJoin(_, _, _, _) => false
    case Projection(_, c) => Resets(c)
    case Limit(_, c) => Resets(c)
    case Sort(_, c) => Restartable(c)
    case NestedIndexJoin(c, _, _, _, _, _) => Resets(c)
  }

  /** Starting over is possible once the operator has run dry. A limit stops its
      child early, so the child must reset. */
  predicate Restartable(p: Plan) {
    match p.node
    case SeqScan(_, _) => true
    case ValueRows(_) => true
    case Filter(_, c) => Restartable(c)
    case NestedLoopJoin(l, _, _, _) => Restartable(l)
    case Projection(_, c) => Restartable(c)
    case Limit(_, c) => Resets(c)
    case Sort(_, c) => Restartable(c)
    case NestedIndexJoin(c, _, _, _, _, _) => Restartable(c)
  }

  /** Right sides of joins, which run once per left row, can start over. */
  predicate RightsRestart(p: Plan) {
    && (HasLeft(p) ==> RightsRestart(LeftOf(p)))
    && (p.node.NestedLoopJoin? ==> RightsRestart(p.node.right) && Restartable(p.node.right))
  }

  lemma {:induction false} ResetsIsRestartable(p: Plan)
    requires Resets(p)
    ensures Restartable(p)
  {
    if HasLeft(p) && !p.node.Sort? && !p.node.Limit? {
      ResetsIsRestartable(LeftOf(p));
    }
  }

  /** The fields an operator updates. */
  datatype State =
    | ScanAt(rest: Option<seq<HeapRow>>)
    | RowsAt(next: nat)
    | Buffered(rows: seq<Row>)
    | Stateless
    | Remaining(count: Option<nat>)
    | SortedRows(sorted: Option<seq<Row>>)
    | Looping(outer: seq<Row>, offset: nat, matched: bool, inner: seq<Row>)
    | Probing(probed: seq<Row>, at: nat, found: bool, rids: Option<seq<Rid>>)

  function InitialState(p: Plan): State {
    match p.node
    case SeqScan(_, _) => ScanAt(None)
    case ValueRows(_) => RowsAt(0)
    case Filter(_, _) => Buffered([])
    case Projection(_, _) => Stateless
    case Sort(_, _) => SortedRows(None)
    case Limit(_, _) => Remaining(Some(0))
    case NestedLoopJoin(_, _, _, _) => Looping([], 0, false, [])
    case NestedIndexJoin(_, _, _, _, _, _) => Probing([], 0, false, None)
  }

  /** The rows still to come; whether nothing of an earlier pass is left that
      starting over would not drop; whether every sort below has been started. */
  datatype View = View(todo: seq<Row>, clean: bool, ready: bool)

  const NO_CHILD := View([], true, true)

  ghost function RowsOf(db: Db, p: Plan): seq<Row> {
    if Meaning(db, p).Some? then Meaning(db, p).value else []
  }

  ghost function LoopOf(db: Db, p: Plan, st: State): Loop
    requires p.node.NestedLoopJoin? && st.Looping?
  {
    Loop(db.fp, p.schema, p.node.joinType, Condition(p.node.joinType, p.node.on), RowsOf(db, p.node.right),
         st.outer, st.offset, st.matched, st.inner)
  }

  predicate HasIndex(db: Db, p: Plan) {
    && p.node.NestedIndexJoin? && p.node.table < |db.tables|
    && FindIndex(db.tables[p.node.table].indexes, p.node.index).Some?
    && KeyTypesOf(db.tables[p.node.table].types, FindIndex(db.tables[p.node.table].indexes, p.node.index).value.keyAttrs).Some?
  }

  function ProbeOf(db: Db, p: Plan, st: State): Probe
    requires HasIndex(db, p) && st.Probing?
  {
    var table := db.tables[p.node.table];
    var index := FindIndex(table.indexes, p.node.index).value;
    Probe(db.fp, p.schema, p.node.joinType, table, index, p.node.indexExprs,
          KeyTypesOf(table.types, index.keyAttrs).value, p.node.child.schema, st.probed, st.at, st.found, st.rids)
  }

  /** The fields belong to this kind of operator and no expression fails on the
      rows still to come. */
  ghost predicate NodeOk(db: Db, p: Plan, st: State, l: View, r: View) {
    match p.node
    case SeqScan(_, f) => st.ScanAt? && (st.rest.Some? ==> Decides(db.fp, f, LiveRows(st.rest.value)))
    case ValueRows(rows) => st.RowsAt? && st.next <= |rows|
    case Filter(f, _) => st.Buffered? && Decides(db.fp, Some(f), st.rows) && Decides(db.fp, Some(f), l.todo)
    case Projection(es, _) => st.Stateless? && Evaluates(db.fp, es, l.todo)
    case Sort(_, c) => st.SortedRows? && (Restartable(c) ==> l.clean)
    case Limit(_, c) => st.Remaining? && (Resets(c) ==> l.clean)
    case NestedLoopJoin(_, _, _, _) =>
      && st.Looping? && LoopOf(db, p, st).Decides(l.todo, r.todo)
      && if st.offset < |st.outer| then r.ready else st.inner == [] && r.clean
    case NestedIndexJoin(_, _, _, _, _, _) => st.Probing? && HasIndex(db, p) && ProbeOf(db, p, st).Builds(l.todo)
  }

  ghost function ViewOf(db: Db, p: Plan, st: State, l: View, r: View): View
    requires NodeOk(db, p, st, l, r)
  {
    match p.node
    case SeqScan(_, f) => View(if st.rest.None? then [] else FilterRows(db.fp, f, LiveRows(st.rest.value)), true, true)
    case ValueRows(rows) => View(EvaluateRows(db.fp, rows)[st.next..], true, true)
    case Filter(f, _) =>
      View(FilterRows(db.fp, Some(f), st.rows) + FilterRows(db.fp, Some(f), l.todo), l.clean && st.rows == [], l.ready)
    case Projection(es, _) => View(ProjectRows(db.fp, es, l.todo), l.clean, l.ready)
    case Sort(_, _) => View(if st.sorted.None? then [] else st.sorted.value, l.clean, st.sorted.Some?)
    case Limit(_, _) => View(Take(l.todo, st.count), l.clean, l.ready)
    case NestedLoopJoin(_, _, _, _) =>
      View(LoopOf(db, p, st).Todo(l.todo, r.todo), l.clean && st.offset >= |st.outer|, l.ready)
    case NestedIndexJoin(_, _, _, _, _, _) => View(ProbeOf(db, p, st).Todo(l.todo), l.clean, l.ready)
  }

  /** Not started, or not advanced since. */
  ghost predicate AtStart(db: Db, p: Plan, v: View) {
    v.clean && (v.todo == [] || v.todo == RowsOf(db, p))
  }

  lemma InitialSource(db: Db, p: Plan, l: View, r: View)
    requires p.node.SeqScan? || p.node.ValueRows?
    requires Meaning(db, p).Some? && (HasLeft(p) ==> AtStart(db, LeftOf(p), l)) && r.clean
    ensures NodeOk(db, p, InitialState(p), l, r) && AtStart(db, p, ViewOf(db, p, InitialState(p), l, r))
  {
    if p.node.ValueRows? {
      assert EvaluateRows(db.fp, p.node.rows)[0..] == EvaluateRows(db.fp, p.node.rows);
    }
  }

  lemma InitialFilter(db: Db, p: Plan, l: View, r: View)
    requires p.node.Filter?
    requires Meaning(db, p).Some? && (HasLeft(p) ==> AtStart(db, LeftOf(p), l)) && r.clean
    ensures NodeOk(db, p, InitialState(p), l, r) && AtStart(db, p, ViewOf(db, p, InitialState(p), l, r))
  {
    var f := p.node.condition;
    assert [] + FilterRows(db.fp, Some(f), l.todo) == FilterRows(db.fp, Some(f), l.todo);
  }

  lemma InitialChild(db: Db, p: Plan, l: View, r: View)
    requires p.node.Projection? || p.node.Sort? || p.node.Limit?
    requires Meaning(db, p).Some? && (HasLeft(p) ==> AtStart(db, LeftOf(p), l)) && r.clean
    ensures NodeOk(db, p, InitialState(p), l, r) && AtStart(db, p, ViewOf(db, p, InitialState(p), l, r))
  {
  }

  lemma InitialJoin(db: Db, p: Plan, l: View, r: View)
    requires p.node.NestedLoopJoin? || p.node.NestedIndexJoin?
    requires Meaning(db, p).Some? && (HasLeft(p) ==> AtStart(db, LeftOf(p), l)) && r.clean
    ensures NodeOk(db, p, InitialState(p), l, r) && AtStart(db, p, ViewOf(db, p, InitialState(p), l, r))
  {
  }

  lemma InitialNode(db: Db, p: Plan, l: View, r: View)
    requires Meaning(db, p).Some? && (HasLeft(p) ==> AtStart(db, LeftOf(p), l)) && r.clean
    ensures NodeOk(db, p, InitialState(p), l, r) && AtStart(db, p, ViewOf(db, p, InitialState(p), l, r))
  {
    hide NodeOk, ViewOf, Meaning, AtStart;
    match p.node
    case SeqScan(_, _) => InitialSource(db, p, l, r);
    case ValueRows(_) => InitialSource(db, p, l, r);
    case Filter(_, _) => InitialFilter(db, p, l, r);
    case Projection(_, _) => InitialChild(db, p, l, r);
    case Sort(_, _) => InitialChild(db, p, l, r);
    case Limit(_, _) => InitialChild(db, p, l, r);
    case NestedLoopJoin(_, _, _, _) => InitialJoin(db, p, l, r);
    case NestedIndexJoin(_, _, _, _, _, _) => InitialJoin(db, p, l, r);
  }

  /** Starting a child over starts a stateless or clean operator over. */
  lemma StartedNode(db: Db, p: Plan, st: State, l: View, l': View, r: View)
    requires Meaning(db, p).Some? && NodeOk(db, p, st, l, r) && ViewOf(db, p, st, l, r).clean
    requires p.node.Filter? || p.node.Projection? || p.node.NestedLoopJoin?
    requires l'.todo == RowsOf(db, LeftOf(p)) && l'.ready
    ensures NodeOk(db, p, st, l', r)
    ensures ViewOf(db, p, st, l', r) == View(RowsOf(db, p), l'.clean, true)
  {
    match p.node
    case Filter(f, _) =>
      assert [] + FilterRows(db.fp, Some(f), l'.todo) == FilterRows(db.fp, Some(f), l'.todo);
    case _ =>
  }

  lemma StartedProbe(db: Db, p: Plan, st: State, l: View, l': View)
    requires p.node.NestedIndexJoin? && Meaning(db, p).Some? && NodeOk(db, p, st, l, NO_CHILD)
    requires l'.todo == RowsOf(db, LeftOf(p)) && l'.ready
    ensures NodeOk(db, p, Probing([], 0, false, None), l', NO_CHILD)
    ensures ViewOf(db, p, Probing([], 0, false, None), l', NO_CHILD) == View(RowsOf(db, p), l'.clean, true)
  {
  }

  // ---- what starting over early does ---------------------------------------------------------------

  /** Starting a child over keeps the fields right, whatever is buffered. */
  lemma RestartedNode(db: Db, p: Plan, st: State, l: View, l': View, r: View)
    requires Meaning(db, p).Some? && NodeOk(db, p, st, l, r)
    requires p.node.Filter? || p.node.NestedLoopJoin?
    requires l'.todo == RowsOf(db, LeftOf(p)) && l'.ready
    ensures NodeOk(db, p, st, l', r)
  {
  }

  /** A filter that is started over keeps what it had buffered: it gives those rows
      again in front, so it is right exactly if none of them passes. */
  lemma FilterRestart(db: Db, p: Plan, rows: seq<Row>, l: View)
    requires p.node.Filter? && Meaning(db, p).Some? && NodeOk(db, p, Buffered(rows), l, NO_CHILD)
    requires l.todo == RowsOf(db, p.node.child)
    ensures var left := FilterRows(db.fp, Some(p.node.condition), rows);
      && ViewOf(db, p, Buffered(rows), l, NO_CHILD).todo == left + RowsOf(db, p)
      && (ViewOf(db, p, Buffered(rows), l, NO_CHILD).todo == RowsOf(db, p) <==> left == [])
  {
    var left, all := FilterRows(db.fp, Some(p.node.condition), rows), RowsOf(db, p);
    if left != [] {
      assert |left + all| != |all|;
    }
  }

  /** A nested-loop join that is started over goes on with the left rows it had,
      before it takes the restarted left side. */
  lemma LoopRestart(db: Db, p: Plan, st: State, l: View, r: View)
    requires p.node.NestedLoopJoin? && Meaning(db, p).Some? && NodeOk(db, p, st, l, r) && st.offset < |st.outer|
    requires l.todo == RowsOf(db, p.node.left)
    ensures var loop := LoopOf(db, p, st);
      var left := loop.Head(r.todo) + loop.Joined(st.outer[st.offset + 1..]);
      && ViewOf(db, p, st, l, r).todo == left + RowsOf(db, p)
      && (ViewOf(db, p, st, l, r).todo == RowsOf(db, p) <==> left == [])
  {
    var loop := LoopOf(db, p, st);
    var left := loop.Head(r.todo) + loop.Joined(st.outer[st.offset + 1..]);
    Associate(loop.Head(r.todo), loop.Joined(st.outer[st.offset + 1..]), loop.Joined(l.todo));
    if left != [] {
      assert |left + RowsOf(db, p)| != |RowsOf(db, p)|;
    }
  }

  // ---- what one step of an operator does to its view ---------------------------------------------

  lemma NodeKind(db: Db, p: Plan, st: State, l: View, r: View)
    requires NodeOk(db, p, st, l, r)
    ensures p.node.SeqScan? ==> st.ScanAt?
    ensures p.node.Filter? ==> st.Buffered?
    ensures p.node.Sort? ==> st.SortedRows?
    ensures p.node.Limit? ==> st.Remaining?
    ensures p.node.NestedLoopJoin? ==> st.Looping?
    ensures p.node.NestedIndexJoin? ==> st.Probing?
    ensures p.node.Sort? ==> (ViewOf(db, p, st, l, r).ready <==> st.sorted.Some?)
    ensures HasLeft(p) && !p.node.Sort? ==> ViewOf(db, p, st, l, r).ready == l.ready
    ensures HasLeft(p) && ViewOf(db, p, st, l, r).clean ==> l.clean
  {
  }

  lemma RestartKind(p: Plan)
    requires HasLeft(p)
    ensures !p.node.Limit? ==> Restartable(p) == Restartable(LeftOf(p))
    ensures p.node.Limit? ==> Restartable(p) == Resets(LeftOf(p))
  {
  }

  lemma SortedNode(db: Db, p: Plan, rows: seq<Row>, l: View)
    requires p.node.Sort? && (Restartable(p.node.child) ==> l.clean)
    ensures NodeOk(db, p, SortedRows(Some(rows)), l, NO_CHILD)
    ensures ViewOf(db, p, SortedRows(Some(rows)), l, NO_CHILD) == View(rows, l.clean, true)
  {
  }

  lemma SortMeaning(db: Db, p: Plan)
    requires p.node.Sort? && Meaning(db, p).Some?
    ensures Sortable(db.fp, p.node.orderBys, p.node.child.schema, RowsOf(db, p.node.child))
    ensures RowsOf(db, p) == SortRows(db.fp, p.node.orderBys, RowsOf(db, p.node.child))
  {
    match p.node
    case Sort(os, c) => assert Meaning(db, p) == Some(SortRows(db.fp, os, Meaning(db, c).value));
  }

  lemma SortChildClean(db: Db, p: Plan, st: State, l: View)
    requires p.node.Sort? && NodeOk(db, p, st, l, NO_CHILD)
    ensures Restartable(p.node.child) ==> l.clean
    ensures ViewOf(db, p, st, l, NO_CHILD) == View(if st.sorted.None? then [] else st.sorted.value, l.clean, st.sorted.Some?)
  {
  }

  lemma ProjectedNode(db: Db, p: Plan, st: State, l: View, batch: seq<Row>, l': View)
    requires p.node.Projection? && NodeOk(db, p, st, l, NO_CHILD) && l.todo == batch + l'.todo
    ensures Evaluates(db.fp, p.node.exprs, batch) && NodeOk(db, p, st, l', NO_CHILD)
    ensures ViewOf(db, p, st, l, NO_CHILD).todo == ProjectRows(db.fp, p.node.exprs, batch) + ViewOf(db, p, st, l', NO_CHILD).todo
    ensures ViewOf(db, p, st, l', NO_CHILD).clean == l'.clean && ViewOf(db, p, st, l', NO_CHILD).ready == l'.ready
    ensures ViewOf(db, p, st, l, NO_CHILD).todo == [] <==> l.todo == []
  {
    EvaluatesSuffix(db.fp, p.node.exprs, batch, l'.todo);
    assert ProjectRows(db.fp, p.node.exprs, batch + l'.todo)
      == ProjectRows(db.fp, p.node.exprs, batch) + ProjectRows(db.fp, p.node.exprs, l'.todo);
  }

  lemma LimitedNode(db: Db, p: Plan, count: Option<nat>, l: View, out: seq<Row>, l': View)
    requires p.node.Limit? && NodeOk(db, p, Remaining(count), l, NO_CHILD) && count != Some(0) && l.todo == out + l'.todo
    requires (count.Some? ==> |out| <= count.value) && (out == [] <==> l.todo == []) && (Resets(p.node.child) ==> l'.clean)
    ensures var count' := if count.Some? then Some(count.value - |out|) else None;
      && NodeOk(db, p, Remaining(count'), l', NO_CHILD)
      && ViewOf(db, p, Remaining(count), l, NO_CHILD).todo == out + ViewOf(db, p, Remaining(count'), l', NO_CHILD).todo
      && ViewOf(db, p, Remaining(count'), l', NO_CHILD).clean == l'.clean
      && ViewOf(db, p, Remaining(count'), l', NO_CHILD).ready == l'.ready
    ensures out == [] <==> ViewOf(db, p, Remaining(count), l, NO_CHILD).todo == []
  {
  }

  lemma LimitReached(db: Db, p: Plan, l: View)
    requires p.node.Limit? && NodeOk(db, p, Remaining(Some(0)), l, NO_CHILD)
    ensures ViewOf(db, p, Remaining(Some(0)), l, NO_CHILD) == View([], l.clean, l.ready)
  {
  }

  lemma KeptNode(db: Db, p: Plan, rows: seq<Row>, l: View, kept: seq<Row>, rest: seq<Row>)
    requires p.node.Filter? && NodeOk(db, p, Buffered(rows), l, NO_CHILD)
    requires var f := Some(p.node.condition);
      Decides(db.fp, f, rest) && kept + FilterRows(db.fp, f, rest) == FilterRows(db.fp, f, rows)
    ensures NodeOk(db, p, Buffered(rest), l, NO_CHILD)
    ensures ViewOf(db, p, Buffered(rows), l, NO_CHILD).todo == kept + ViewOf(db, p, Buffered(rest), l, NO_CHILD).todo
  {
    var f := Some(p.node.condition);
    Associate(kept, FilterRows(db.fp, f, rest), FilterRows(db.fp, f, l.todo));
  }

  lemma FilterBuffer(db: Db, p: Plan, rows: seq<Row>, l: View)
    requires p.node.Filter? && NodeOk(db, p, Buffered(rows), l, NO_CHILD)
    ensures Decides(db.fp, Some(p.node.condition), rows)
  {
  }

  lemma RefilledNode(db: Db, p: Plan, l: View, batch: seq<Row>, l': View)
    requires p.node.Filter? && NodeOk(db, p, Buffered([]), l, NO_CHILD) && l.todo == batch + l'.todo
    ensures NodeOk(db, p, Buffered(batch), l', NO_CHILD)
    ensures ViewOf(db, p, Buffered(batch), l', NO_CHILD).todo == ViewOf(db, p, Buffered([]), l, NO_CHILD).todo
    ensures batch == [] ==> ViewOf(db, p, Buffered([]), l', NO_CHILD).clean == l'.clean
    ensures batch == [] && l.todo == [] ==> ViewOf(db, p, Buffered([]), l', NO_CHILD).todo == []
  {
    var f := Some(p.node.condition);
    DecidesSuffix(db.fp, f, batch, l'.todo);
    FilterConcat(db.fp, f, batch, l'.todo);
    assert [] + FilterRows(db.fp, f, l.todo) == FilterRows(db.fp, f, l.todo);
  }

  // a nested-loop join

  lemma LoopRefilled(db: Db, p: Plan, st: State, l: View, r: View, batch: seq<Row>, l': View, r': View)
    requires p.node.NestedLoopJoin? && NodeOk(db, p, st, l, r) && st.Looping? && st.offset >= |st.outer|
    requires l.todo == batch + l'.todo && batch != [] && r'.todo == RowsOf(db, p.node.right) && r'.ready
    ensures var st' := Looping(batch, 0, false, st.inner);
      NodeOk(db, p, st', l', r') && ViewOf(db, p, st', l', r').todo == ViewOf(db, p, st, l, r).todo
      && ViewOf(db, p, st', l', r').ready == l'.ready
  {
    LoopOf(db, p, st).RefillKeeps(batch, l'.todo, r.todo);
  }

  lemma LoopEnded(db: Db, p: Plan, st: State, l: View, r: View, l': View)
    requires p.node.NestedLoopJoin? && NodeOk(db, p, st, l, r) && st.Looping? && st.offset >= |st.outer| && l.todo == l'.todo == []
    ensures NodeOk(db, p, st, l', r) && ViewOf(db, p, st, l, r).todo == [] && ViewOf(db, p, st, l', r) == View([], l'.clean, l'.ready)
  {
  }

  lemma LoopFetched(db: Db, p: Plan, st: State, l: View, r: View, batch: seq<Row>, r': View)
    requires p.node.NestedLoopJoin? && NodeOk(db, p, st, l, r) && st.Looping? && st.offset < |st.outer| && st.inner == []
    requires r.todo == batch + r'.todo && r'.ready
    ensures var st' := st.(inner := batch);
      NodeOk(db, p, st', l, r') && ViewOf(db, p, st', l, r') == ViewOf(db, p, st, l, r)
  {
    LoopOf(db, p, st).FetchKeeps(batch, l.todo, r'.todo);
  }

  lemma LoopFinished(db: Db, p: Plan, st: State, l: View, r: View, r': View)
    requires p.node.NestedLoopJoin? && NodeOk(db, p, st, l, r) && st.Looping? && st.offset < |st.outer| && st.inner == [] && r.todo == []
    requires r'.todo == RowsOf(db, p.node.right) && r'.ready && r'.clean
    ensures var st' := st.(offset := st.offset + 1, matched := false);
      var pad := if p.node.joinType.Left? && !st.matched then [PadRow(p.schema, st.outer[st.offset])] else [];
      NodeOk(db, p, st', l, r') && pad + ViewOf(db, p, st', l, r').todo == ViewOf(db, p, st, l, r).todo
      && ViewOf(db, p, st', l, r').ready == l.ready
  {
    LoopOf(db, p, st).AdvanceKeeps(l.todo);
  }

  lemma LoopStart(db: Db, p: Plan, st: State, l: View, r: View)
    requires p.node.NestedLoopJoin? && NodeOk(db, p, st, l, r)
    ensures st.Looping? && LoopOf(db, p, st).Decides(l.todo, r.todo)
    ensures if st.offset < |st.outer| then r.ready else st.inner == [] && r.clean
    ensures ViewOf(db, p, st, l, r).todo == LoopOf(db, p, st).Todo(l.todo, r.todo)
  {
  }

  lemma LoopTried(db: Db, p: Plan, st: State, l: View, r: View, st': State)
    requires p.node.NestedLoopJoin? && NodeOk(db, p, st, l, r) && st.Looping? && st.offset < |st.outer|
    requires st'.Looping? && st' == st.(inner := st'.inner, matched := st'.matched)
    requires LoopOf(db, p, st').Decides(l.todo, r.todo)
    ensures NodeOk(db, p, st', l, r) && ViewOf(db, p, st', l, r) == View(LoopOf(db, p, st').Todo(l.todo, r.todo), false, l.ready)
  {
  }

  // an index join

  lemma ProbeStart(db: Db, p: Plan, st: State, l: View)
    requires p.node.NestedIndexJoin? && NodeOk(db, p, st, l, NO_CHILD)
    ensures st.Probing? && HasIndex(db, p) && ProbeOf(db, p, st).Builds(l.todo)
    ensures ViewOf(db, p, st, l, NO_CHILD) == View(ProbeOf(db, p, st).Todo(l.todo), l.clean, l.ready)
  {
  }

  lemma ProbeFields(db: Db, p: Plan, st: State)
    requires HasIndex(db, p) && st.Probing?
    ensures var probe := ProbeOf(db, p, st);
      probe.outer == st.probed && probe.offset == st.at && probe.matched == st.found && probe.rids == st.rids
  {
  }

  lemma ProbeRefilled(db: Db, p: Plan, st: State, l: View, batch: seq<Row>, l': View)
    requires p.node.NestedIndexJoin? && NodeOk(db, p, st, l, NO_CHILD) && st.Probing? && st.at >= |st.probed|
    requires l.todo == batch + l'.todo && batch != []
    ensures var st' := Probing(batch, 0, false, None);
      && NodeOk(db, p, st', l', NO_CHILD) && ViewOf(db, p, st', l', NO_CHILD).todo == ViewOf(db, p, st, l, NO_CHILD).todo
      && ViewOf(db, p, st', l', NO_CHILD).ready == l'.ready
  {
    ProbeOf(db, p, st).RefillKeeps(batch, l'.todo);
  }

  lemma ProbeEnded(db: Db, p: Plan, st: State, l: View, l': View)
    requires p.node.NestedIndexJoin? && NodeOk(db, p, st, l, NO_CHILD) && st.Probing? && st.at >= |st.probed| && l.todo == l'.todo == []
    ensures ViewOf(db, p, st, l, NO_CHILD).todo == []
    ensures NodeOk(db, p, st, l', NO_CHILD) && ViewOf(db, p, st, l', NO_CHILD) == View([], l'.clean, l'.ready)
  {
  }

  lemma ProbeStepped(db: Db, p: Plan, st: State, l: View, probe: Probe)
    requires p.node.NestedIndexJoin? && NodeOk(db, p, st, l, NO_CHILD) && st.Probing? && probe.Builds(l.todo)
    requires HasIndex(db, p)
      && probe == ProbeOf(db, p, st).(outer := probe.outer, offset := probe.offset, matched := probe.matched, rids := probe.rids)
    ensures var st' := Probing(probe.outer, probe.offset, probe.matched, probe.rids);
      NodeOk(db, p, st', l, NO_CHILD) && ViewOf(db, p, st', l, NO_CHILD) == View(probe.Todo(l.todo), l.clean, l.ready)
  {
    assert ProbeOf(db, p, Probing(probe.outer, probe.offset, probe.matched, probe.rids)) == probe;
  }
}
