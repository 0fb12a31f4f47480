/** What the optimizer leaves behind: no projection that changes nothing, no
    filter right above a plain scan, no join of scans an index could serve. */
module OptimizerEffects {
  import opened Common
  import opened Expressions
  import opened Plans
  import opened Optimizer

  ghost predicate Everywhere(ok: Plan -> bool, p: Plan) {
    ok(p) && forall i :: 0 <= i < |Children(p)| ==> Everywhere(ok, Children(p)[i])
  }

  /** A rule that settles a node whose children are settled settles all nodes. */
  lemma {:induction false} RewriteSettles(rule: Plan -> Plan, ok: Plan -> bool, p: Plan)
    requires forall q {:trigger rule(q)} ::
      (forall i :: 0 <= i < |Children(q)| ==> Everywhere(ok, Children(q)[i])) ==> Everywhere(ok, rule(q))
    ensures Everywhere(ok, Rewrite(rule, p))
  {
    var cs := Children(p);
    var cs' := seq(|cs|, i requires 0 <= i < |cs| => Rewrite(rule, cs[i]));
    forall i | 0 <= i < |cs|
      ensures Everywhere(ok, cs'[i])
    {
      RewriteSettles(rule, ok, cs[i]);
    }
    var q := WithChildren(p, cs');
    assert Children(q) == cs';
    assert Everywhere(ok, rule(q));
  }

  /** It lists the columns of its child one by one. */
  predicate ChangesNothing(p: Plan) {
    && p.node.Projection? && |p.node.exprs| == |p.node.child.schema|
    && forall i :: 0 <= i < |p.node.exprs| ==> p.node.exprs[i] == Expr(p.node.child.schema[i], ColumnValue(0, i))
  }

  lemma ProjectionSettled(q: Plan)
    requires forall i :: 0 <= i < |Children(q)| ==> Everywhere(p => !ChangesNothing(p), Children(q)[i])
    ensures Everywhere(p => !ChangesNothing(p), MergeProjection(q))
  {
    var r := MergeProjection(q);
    if r != q {
      var c := q.node.child;
      assert Everywhere(p => !ChangesNothing(p), Children(q)[0]);
      assert Children(r) == Children(c);
    }
  }

  lemma NoIdleProjection(p: Plan)
    ensures Everywhere(q => !ChangesNothing(q), MergeProjections(p))
  {
    forall q
      ensures (forall i :: 0 <= i < |Children(q)| ==> Everywhere(p => !ChangesNothing(p), Children(q)[i])) ==>
        Everywhere(p => !ChangesNothing(p), MergeProjection(q))
    {
      if forall i :: 0 <= i < |Children(q)| ==> Everywhere(p => !ChangesNothing(p), Children(q)[i]) {
        ProjectionSettled(q);
      }
    }
    RewriteSettles(q => MergeProjection(q), q => !ChangesNothing(q), p);
  }

  predicate FilterOverScan(p: Plan) {
    p.node.Filter? && p.node.child.node.SeqScan? && p.node.child.node.filter.None?
  }

  lemma FilterSettled(q: Plan)
    requires forall i :: 0 <= i < |Children(q)| ==> Everywhere(p => !FilterOverScan(p), Children(q)[i])
    ensures Everywhere(p => !FilterOverScan(p), FilterIntoScan(q))
  {
    if FilterIntoScan(q) != q {
      assert Children(FilterIntoScan(q)) == [];
    }
  }

  lemma NoFilterOverScan(p: Plan)
    ensures Everywhere(q => !FilterOverScan(q), FiltersIntoScans(p))
  {
    forall q
      ensures (forall i :: 0 <= i < |Children(q)| ==> Everywhere(p => !FilterOverScan(p), Children(q)[i])) ==>
        Everywhere(p => !FilterOverScan(p), FilterIntoScan(q))
    {
      if forall i :: 0 <= i < |Children(q)| ==> Everywhere(p => !FilterOverScan(p), Children(q)[i]) {
        FilterSettled(q);
      }
    }
    RewriteSettles(q => FilterIntoScan(q), q => !FilterOverScan(q), p);
  }

  // ---- joins ----------------------------------------------------------------------------------

  /** A conjunction of equalities between a left and a right column. */
  predicate IsEquiJoin(p: Expr) {
    match p.kind
    case Comparison(l, op, r) => op.Eq? && l.kind.ColumnValue? && r.kind.ColumnValue? && {l.kind.tupleIdx, r.kind.tupleIdx} == {0, 1}
    case Logic(l, and, r) => and && IsEquiJoin(l) && IsEquiJoin(r)
    case _ => false
  }

  /** The columns it names of one side, in order. */
  function ColumnsOf(side: nat, p: Expr): seq<nat>
    requires IsEquiJoin(p) && side <= 1
  {
    match p.kind
    case Comparison(l, _, r) => [if l.kind.tupleIdx == side then l.kind.colIdx else r.kind.colIdx]
    case Logic(l, _, r) => ColumnsOf(side, l) + ColumnsOf(side, r)
  }

  /** Exactly these conditions are taken apart, and into these columns. */
  lemma {:induction false} ExtractsEquiJoins(p: Expr)
    ensures ExtractKeys(p).Some? <==> IsEquiJoin(p)
    ensures IsEquiJoin(p) ==> ExtractKeys(p) == Some((ColumnsOf(0, p), ColumnsOf(1, p)))
    decreases p
  {
    match p.kind
    case Comparison(l, op, r) =>
      if l.kind.ColumnValue? && r.kind.ColumnValue? {
        assert 0 in {l.kind.tupleIdx, r.kind.tupleIdx} && 1 in {l.kind.tupleIdx, r.kind.tupleIdx} <==>
          {l.kind.tupleIdx, r.kind.tupleIdx} == {0, 1};
      }
    case Logic(l, _, r) =>
      ExtractsEquiJoins(l);
      ExtractsEquiJoins(r);
    case _ =>
  }

  /** An inner or left join of two scans on columns that some index of the right
      table is over. */
  predicate CouldUseIndex(db: Db, p: Plan) {
    && p.node.NestedLoopJoin? && !p.node.joinType.Cross? && p.node.on.Some? && IsEquiJoin(p.node.on.value)
    && p.node.left.node.SeqScan? && p.node.right.node.SeqScan? && p.node.right.node.table < |db.tables|
    && var indexes := db.tables[p.node.right.node.table].indexes;
       exists i :: 0 <= i < |indexes| && indexes[i].keyAttrs == ColumnsOf(1, p.node.on.value)
  }

  lemma {:induction false} MatchFinds(indexes: seq<Index>, cols: seq<nat>)
    ensures MatchIndex(indexes, cols).Some? <==> exists i :: 0 <= i < |indexes| && indexes[i].keyAttrs == cols
  {
    if indexes != [] && indexes[0].keyAttrs != cols {
      MatchFinds(indexes[1..], cols);
      if exists i :: 0 <= i < |indexes| && indexes[i].keyAttrs == cols {
        var i :| 0 <= i < |indexes| && indexes[i].keyAttrs == cols;
        assert indexes[1..][i - 1].keyAttrs == cols;
      }
      if exists i :: 0 <= i < |indexes[1..]| && indexes[1..][i].keyAttrs == cols {
        var i :| 0 <= i < |indexes[1..]| && indexes[1..][i].keyAttrs == cols;
        assert indexes[i + 1].keyAttrs == cols;
      }
    }
  }

  /** The rule applies to exactly these joins. */
  lemma AppliesIff(db: Db, p: Plan)
    ensures IndexFor(db, p).Some? <==> CouldUseIndex(db, p)
  {
    if p.node.NestedLoopJoin? && p.node.on.Some? && p.node.right.node.SeqScan? && p.node.right.node.table < |db.tables| {
      ExtractsEquiJoins(p.node.on.value);
      if ExtractKeys(p.node.on.value).Some? {
        MatchFinds(db.tables[p.node.right.node.table].indexes, ExtractKeys(p.node.on.value).value.1);
      }
    } else {
      assert !CouldUseIndex(db, p);
    }
  }

  lemma JoinSettled(db: Db, q: Plan)
    requires forall i :: 0 <= i < |Children(q)| ==> Everywhere(p => !CouldUseIndex(db, p), Children(q)[i])
    ensures Everywhere(p => !CouldUseIndex(db, p), IndexJoin(db, q))
  {
    AppliesIff(db, q);
    if IndexFor(db, q).Some? {
      assert Everywhere(p => !CouldUseIndex(db, p), Children(q)[0]);
      assert Children(IndexJoin(db, q)) == [q.node.left];
    }
  }

  lemma NoJoinForAnIndex(db: Db, p: Plan)
    ensures Everywhere(q => !CouldUseIndex(db, q), IndexJoins(db, p))
  {
    forall q
      ensures (forall i :: 0 <= i < |Children(q)| ==> Everywhere(p => !CouldUseIndex(db, p), Children(q)[i])) ==>
        Everywhere(p => !CouldUseIndex(db, p), IndexJoin(db, q))
    {
      if forall i :: 0 <= i < |Children(q)| ==> Everywhere(p => !CouldUseIndex(db, p), Children(q)[i]) {
        JoinSettled(db, q);
      }
    }
    RewriteSettles(q => IndexJoin(db, q), q => !CouldUseIndex(db, q), p);
  }

  // ---- all rules together -----------------------------------------------------------------------

  /** A rule that leaves projections alone and makes none. */
  ghost predicate LeavesProjections(rule: Plan -> Plan) {
    forall q {:trigger rule(q)} :: LeavesProjection(q, rule(q))
  }

  ghost predicate LeavesProjection(q: Plan, r: Plan) {
    && r.schema == q.schema
    && (r == q || (!r.node.Projection? && forall i :: 0 <= i < |Children(r)| ==> Children(r)[i] in Children(q)))
  }

  lemma {:induction false} RewriteLeavesProjections(rule: Plan -> Plan, p: Plan)
    requires LeavesProjections(rule) && Everywhere(q => !ChangesNothing(q), p)
    ensures Everywhere(q => !ChangesNothing(q), Rewrite(rule, p)) && Rewrite(rule, p).schema == p.schema
  {
    var cs := Children(p);
    var cs' := seq(|cs|, i requires 0 <= i < |cs| => Rewrite(rule, cs[i]));
    forall i | 0 <= i < |cs|
      ensures Everywhere(q => !ChangesNothing(q), cs'[i]) && cs'[i].schema == cs[i].schema
    {
      assert Everywhere(q => !ChangesNothing(q), cs[i]);
      RewriteLeavesProjections(rule, cs[i]);
    }
    var q := WithChildren(p, cs');
    assert Children(q) == cs' && q.schema == p.schema;
    assert !ChangesNothing(q) by {
      if p.node.Projection? {
        assert q.node.exprs == p.node.exprs && q.node.child == cs'[0] && cs[0] == p.node.child;
      }
    }
    assert LeavesProjection(q, rule(q));
  }

  ghost predicate BothUnfiltered(p: Plan) {
    && p.node.NestedLoopJoin? && p.node.left.node.SeqScan? && p.node.right.node.SeqScan?
    && p.node.left.node.filter.None? && p.node.right.node.filter.None?
  }

  /** Pushing filters makes no new join of unfiltered scans. */
  lemma {:induction false} FiltersMakeNoJoin(db: Db, p: Plan)
    requires Everywhere(q => !CouldUseIndex(db, q), p)
    ensures Everywhere(q => !(BothUnfiltered(q) && CouldUseIndex(db, q)), FiltersIntoScans(p))
    ensures FiltersIntoScans(p).node.SeqScan? && FiltersIntoScans(p).node.filter.None? ==> FiltersIntoScans(p) == p
  {
    var cs := Children(p);
    var cs' := seq(|cs|, i requires 0 <= i < |cs| => Rewrite(q => FilterIntoScan(q), cs[i]));
    forall i | 0 <= i < |cs|
      ensures Everywhere(q => !(BothUnfiltered(q) && CouldUseIndex(db, q)), cs'[i])
      ensures cs'[i].node.SeqScan? && cs'[i].node.filter.None? ==> cs'[i] == cs[i]
    {
      assert Everywhere(q => !CouldUseIndex(db, q), cs[i]);
      FiltersMakeNoJoin(db, cs[i]);
      assert cs'[i] == FiltersIntoScans(cs[i]);
    }
    var q := WithChildren(p, cs');
    assert Children(q) == cs' && FiltersIntoScans(p) == FilterIntoScan(q);
    if BothUnfiltered(q) {
      assert cs'[0] == cs[0] && cs'[1] == cs[1];
      assert q == p;
    }
    if FilterIntoScan(q) != q {
      assert Children(FilterIntoScan(q)) == [];
    }
  }

  /** In an optimized plan no projection changes nothing, no filter is right above
      a plain scan, and no join of plain scans could use an index. */
  lemma NothingLeftToDo(db: Db, p: Plan)
    ensures Everywhere(q => !ChangesNothing(q), Optimize(db, p))
    ensures Everywhere(q => !FilterOverScan(q), Optimize(db, p))
    ensures Everywhere(q => !(BothUnfiltered(q) && CouldUseIndex(db, q)), Optimize(db, p))
  {
    hide CouldUseIndex, ChangesNothing, BothUnfiltered, FilterOverScan, Everywhere, MatchIndex, ExtractKeys, BuildIndexExprs, Rewrite;
    var a := MergeProjections(p);
    var b := IndexJoins(db, a);
    NoIdleProjection(p);
    RewriteLeavesProjections(q => IndexJoin(db, q), a);
    RewriteLeavesProjections(q => FilterIntoScan(q), b);
    NoFilterOverScan(b);
    NoJoinForAnIndex(db, a);
    FiltersMakeNoJoin(db, b);
  }
}
