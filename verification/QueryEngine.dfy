/** Running a plan: build the operators, start them, ask for batches until one is
    empty. */
module QueryEngine {
  import opened Common
  import opened Expressions
  import opened Plans
  import opened ExecutorViews
  import opened Executors
  import opened Optimizer
  import OptimizerProofs

  /** A plan with rows has children with rows. */
  lemma ChildrenMean(db: Db, p: Plan)
    requires Meaning(db, p).Some?
    ensures HasLeft(p) ==> Meaning(db, LeftOf(p)).Some?
    ensures p.node.NestedLoopJoin? ==> Meaning(db, p.node.right).Some?
  {
  }

  method CreateExecutor(db: Db, plan: Plan) returns (e: Executor)
    requires Meaning(db, plan).Some? && RightsRestart(plan) && PagesClean(db)
    ensures e.Valid() && AtStart(db, plan, e.view) && e.db == db && e.plan == plan && fresh(e.Repr)
    decreases plan
  {
    hide Meaning, NodeOk, ViewOf;
    ChildrenMean(db, plan);
    var left, right: Executor? := null, null;
    if HasLeft(plan) {
      left := CreateExecutor(db, LeftOf(plan));
    }
    if plan.node.NestedLoopJoin? {
      right := CreateExecutor(db, plan.node.right);
    }
    e := new Executor(db, plan, left, right);
  }

  /** Batch by batch, at any batch size, a plan gives exactly its rows. */
  method Execute(db: Db, plan: Plan, batchSize: nat) returns (rows: seq<Row>)
    requires Meaning(db, plan).Some? && RightsRestart(plan) && PagesClean(db) && batchSize >= 1
    ensures Meaning(db, plan) == Some(rows)
  {
    hide NodeOk, ViewOf;
    var executor := CreateExecutor(db, plan);
    executor.Init();
    rows := Executor.Drain(executor, batchSize);
  }

  // ---- optimized plans can start over too --------------------------------------------------------

  ghost predicate Improves(p: Plan, q: Plan) {
    (Resets(p) ==> Resets(q)) && (Restartable(p) ==> Restartable(q)) && (RightsRestart(p) ==> RightsRestart(q))
  }

  lemma ChildrenImprove(p: Plan, cs: seq<Plan>)
    requires |cs| == |Children(p)| && forall i :: 0 <= i < |cs| ==> Improves(Children(p)[i], cs[i])
    ensures Improves(p, WithChildren(p, cs))
  {
    if |cs| > 0 {
      assert Improves(Children(p)[0], cs[0]);
    }
    if |cs| > 1 {
      assert Improves(Children(p)[1], cs[1]);
    }
  }

  lemma {:induction false} RewriteImproves(rule: Plan -> Plan, p: Plan)
    requires forall q {:trigger rule(q)} :: Improves(q, rule(q))
    ensures Improves(p, Rewrite(rule, p))
  {
    var cs := Children(p);
    var cs' := seq(|cs|, i requires 0 <= i < |cs| => Rewrite(rule, cs[i]));
    forall i | 0 <= i < |cs|
      ensures Improves(cs[i], cs'[i])
    {
      RewriteImproves(rule, cs[i]);
    }
    ChildrenImprove(p, cs');
    assert Improves(WithChildren(p, cs'), rule(WithChildren(p, cs')));
  }

  lemma MergeProjectionImproves(q: Plan)
    ensures Improves(q, MergeProjection(q))
  {
    if q.node.Projection? {
      var c := q.node.child;
      assert Resets(q) == Resets(c) && Restartable(q) == Restartable(c) && RightsRestart(q) == RightsRestart(c);
      var r := Plan(q.schema, c.node);
      assert Resets(r) == Resets(c) && Restartable(r) == Restartable(c) && RightsRestart(r) == RightsRestart(c);
    }
  }

  lemma IndexJoinImproves(db: Db, q: Plan)
    ensures Improves(q, IndexJoin(db, q))
  {
    if IndexFor(db, q).Some? {
      var r := IndexJoin(db, q);
      assert LeftOf(r) == q.node.left && Resets(q.node.left);
    }
  }

  lemma FilterIntoScanImproves(q: Plan)
    ensures Improves(q, FilterIntoScan(q))
  {
  }

  lemma OptimizeImproves(db: Db, p: Plan)
    ensures Improves(p, Optimize(db, p))
  {
    forall q
      ensures Improves(q, MergeProjection(q)) && Improves(q, IndexJoin(db, q)) && Improves(q, FilterIntoScan(q))
    {
      MergeProjectionImproves(q);
      IndexJoinImproves(db, q);
      FilterIntoScanImproves(q);
    }
    RewriteImproves(q => MergeProjection(q), p);
    RewriteImproves(q => IndexJoin(db, q), MergeProjections(p));
    RewriteImproves(q => FilterIntoScan(q), IndexJoins(db, MergeProjections(p)));
  }

  /** Optimizing and then running in batches gives the rows of the plan as
      written. */
  method OptimizeAndExecute(db: Db, plan: Plan, batchSize: nat) returns (rows: seq<Row>)
    requires DbOk(db) && Typed(db, plan) && NoScanFilters(plan) && AllPairsAlike(db, MergeProjections(plan))
    requires Meaning(db, plan).Some? && RightsRestart(plan) && PagesClean(db) && batchSize >= 1
    ensures Meaning(db, plan) == Some(rows)
  {
    OptimizerProofs.OptimizeSame(db, plan);
    OptimizeImproves(db, plan);
    rows := Execute(db, Optimize(db, plan), batchSize);
  }

  // ---- the plans the planner makes ------------------------------------------------------------------

  /** FROM: base tables joined from the left, so every right side is a scan. */
  predicate FromPlan(p: Plan) {
    match p.node
    case SeqScan(_, f) => f.None?
    case NestedLoopJoin(l, r, _, _) => FromPlan(l) && r.node.SeqScan? && r.node.filter.None?
    case _ => false
  }

  /** WHERE over FROM, then ORDER BY, then the select list, then LIMIT; or a list
      of values. */
  predicate Planned(p: Plan) {
    match p.node
    case ValueRows(_) => true
    case Limit(_, c) => Selected(c)
    case _ => Selected(p)
  }

  predicate Selected(p: Plan) {
    match p.node
    case Projection(_, c) => if c.node.Sort? then Filtered(c.node.child) else Filtered(c)
    case _ => false
  }

  predicate Filtered(p: Plan) {
    match p.node
    case Filter(_, c) => FromPlan(c)
    case _ => FromPlan(p)
  }

  lemma {:induction false} FromPlanRestarts(p: Plan)
    requires FromPlan(p)
    ensures RightsRestart(p) && NoScanFilters(p)
  {
    if p.node.NestedLoopJoin? {
      FromPlanRestarts(p.node.left);
      FromPlanRestarts(p.node.right);
      assert Children(p) == [p.node.left, p.node.right];
    }
  }

  /** Every plan the planner makes can be run and optimized. */
  lemma PlannedRestarts(p: Plan)
    requires Planned(p)
    ensures RightsRestart(p) && NoScanFilters(p)
  {
    if p.node.Limit? {
      SelectedRestarts(p.node.child);
    } else if !p.node.ValueRows? {
      SelectedRestarts(p);
    }
  }

  lemma SelectedRestarts(p: Plan)
    requires Selected(p)
    ensures RightsRestart(p) && NoScanFilters(p)
  {
    var c := p.node.child;
    var f := if c.node.Sort? then c.node.child else c;
    FromPlanRestarts(if f.node.Filter? then f.node.child else f);
  }
}
