/** The plan rewrites: dropping projections that change nothing, turning
    nested-loop joins of scans into index joins, pushing filters into scans. */
module Optimizer {
  import opened Common
  import opened Values
  import opened Expressions
  import opened KeyEncoder
  import opened Plans
  import opened IndexLookup

  // ---- the tree of a plan --------------------------------------------------------------------

  function Children(p: Plan): (cs: seq<Plan>)
    ensures forall i :: 0 <= i < |cs| ==> cs[i] < p
  {
    match p.node
    case SeqScan(_, _) => []
    case Filter(_, c) => [c]
    case Projection(_, c) => [c]
    case Sort(_, c) => [c]
    case Limit(_, c) => [c]
    case ValueRows(_) => []
    case NestedLoopJoin(l, r, _, _) => [l, r]
    case NestedIndexJoin(c, _, _, _, _, _) => [c]
  }

  function WithChildren(p: Plan, cs: seq<Plan>): (q: Plan)
    requires |cs| == |Children(p)|
  {
    match p.node
    case SeqScan(_, _) => p
    case Filter(f, _) => Plan(p.schema, Filter(f, cs[0]))
    case Projection(es, _) => Plan(p.schema, Projection(es, cs[0]))
    case Sort(os, _) => Plan(p.schema, Sort(os, cs[0]))
    case Limit(e, _) => Plan(p.schema, Limit(e, cs[0]))
    case ValueRows(_) => p
    case NestedLoopJoin(_, _, t, on) => Plan(p.schema, NestedLoopJoin(cs[0], cs[1], t, on))
    case NestedIndexJoin(_, es, table, index, inner, t) =>
      Plan(p.schema, NestedIndexJoin(cs[0], es, table, index, inner, t))
  }

  /** Rewrites the children first, then the node itself. */
  function Rewrite(rule: Plan -> Plan, p: Plan): Plan {
    var cs := Children(p);
    rule(WithChildren(p, seq(|cs|, i requires 0 <= i < |cs| => Rewrite(rule, cs[i]))))
  }

  // ---- the rules ---------------------------------------------------------------------------------

  /** The projection lists exactly the child's columns, in order. */
  predicate IsIdentity(es: seq<Expr>, schema: seq<SqlType>) {
    && |schema| == |es|
    && (forall i :: 0 <= i < |es| ==> schema[i] == es[i].returnType)
    && (forall i :: 0 <= i < |es| ==> es[i].kind == ColumnValue(0, i))
  }

  function MergeProjection(p: Plan): Plan {
    match p.node
    case Projection(es, c) => if IsIdentity(es, c.schema) then Plan(p.schema, c.node) else p
    case _ => p
  }

  function BuildIndexExprs(schema: seq<SqlType>, cols: seq<nat>): (es: seq<Expr>)
    ensures |es| == |cols| && forall k :: 0 <= k < |cols| ==> es[k].kind == ColumnValue(0, cols[k])
  {
    seq(|cols|, k requires 0 <= k < |cols| =>
      Expr(if cols[k] < |schema| then schema[cols[k]] else Boolean, ColumnValue(0, cols[k])))
  }

  /** The first index whose columns are exactly these, in this order. */
  function MatchIndex(indexes: seq<Index>, cols: seq<nat>): (index: Option<Index>)
    ensures index.Some? ==> index.value in indexes && index.value.keyAttrs == cols
  {
    if indexes == [] then None
    else if indexes[0].keyAttrs == cols then Some(indexes[0])
    else MatchIndex(indexes[1..], cols)
  }

  /** The index an index join would use in place of this nested-loop join. */
  function IndexFor(db: Db, p: Plan): (index: Option<Index>)
    ensures index.Some? ==>
      && p.node.NestedLoopJoin? && !p.node.joinType.Cross? && p.node.on.Some? && ExtractKeys(p.node.on.value).Some?
      && p.node.left.node.SeqScan? && p.node.right.node.SeqScan? && p.node.right.node.table < |db.tables|
      && index.value in db.tables[p.node.right.node.table].indexes
      && index.value.keyAttrs == ExtractKeys(p.node.on.value).value.1
  {
    match p.node
    case NestedLoopJoin(l, r, t, Some(on)) =>
      if t.Cross? || !l.node.SeqScan? || !r.node.SeqScan? || ExtractKeys(on).None? || r.node.table >= |db.tables| then None
      else MatchIndex(db.tables[r.node.table].indexes, ExtractKeys(on).value.1)
    case _ => None
  }

  function IndexJoin(db: Db, p: Plan): Plan {
    var index := IndexFor(db, p);
    if index.None? then p
    else
      var l, r := p.node.left, p.node.right;
      Plan(p.schema, NestedIndexJoin(l, BuildIndexExprs(l.schema, ExtractKeys(p.node.on.value).value.0), r.node.table,
                                     index.value.oid, r.schema, p.node.joinType))
  }

  function FilterIntoScan(p: Plan): Plan {
    match p.node
    case Filter(f, c) =>
      if c.node.SeqScan? && c.node.filter.None? then Plan(p.schema, SeqScan(c.node.table, Some(f))) else p
    case _ => p
  }

  function MergeProjections(p: Plan): Plan {
    Rewrite(q => MergeProjection(q), p)
  }

  function IndexJoins(db: Db, p: Plan): Plan {
    Rewrite(q => IndexJoin(db, q), p)
  }

  function FiltersIntoScans(p: Plan): Plan {
    Rewrite(q => FilterIntoScan(q), p)
  }

  /** The rules in the optimizer's order. */
  function Optimize(db: Db, p: Plan): Plan {
    FiltersIntoScans(IndexJoins(db, MergeProjections(p)))
  }

  // ---- what planner-produced plans are like ----------------------------------------------------------

  function ReturnTypes(es: seq<Expr>): (ts: seq<SqlType>)
    ensures |ts| == |es|
  {
    seq(|es|, i requires 0 <= i < |es| => es[i].returnType)
  }

  /** One node's output schema follows from its children's. */
  ghost predicate NodeTyped(db: Db, p: Plan) {
    match p.node
    case SeqScan(t, _) => t < |db.tables| && p.schema == db.tables[t].types
    case Filter(_, c) => p.schema == c.schema
    case Projection(es, _) => p.schema == ReturnTypes(es)
    case Sort(_, c) => p.schema == c.schema
    case Limit(_, c) => p.schema == c.schema
    case ValueRows(rows) => forall i :: 0 <= i < |rows| ==> |rows[i]| == |p.schema|
    case NestedLoopJoin(l, r, _, _) => p.schema == l.schema + r.schema
    case NestedIndexJoin(c, _, t, _, inner, _) => t < |db.tables| && inner == db.tables[t].types && p.schema == c.schema + inner
  }

  ghost predicate Typed(db: Db, p: Plan) {
    NodeTyped(db, p) && forall i :: 0 <= i < |Children(p)| ==> Typed(db, Children(p)[i])
  }

  /** The planner makes scans without a filter. */
  ghost predicate NoScanFilters(p: Plan) {
    && (p.node.SeqScan? ==> p.node.filter.None?)
    && forall i :: 0 <= i < |Children(p)| ==> NoScanFilters(Children(p)[i])
  }

  /** Rows fit their table, rids grow along the heap, indexes agree with it. */
  ghost predicate TableOk(table: Table) {
    && HeapOrdered(table.heap)
    && (forall i {:trigger table.heap[i]} :: 0 <= i < |table.heap| ==> RowMatches(table.heap[i].values, table.types))
    && (forall i, j :: 0 <= i < j < |table.indexes| ==> table.indexes[i].oid != table.indexes[j].oid)
    && (forall i {:trigger table.indexes[i]} :: 0 <= i < |table.indexes| ==>
          IndexAgrees(table.heap, table.indexes[i])
          && (forall k :: 0 <= k < |table.indexes[i].keyAttrs| ==>
                table.indexes[i].keyAttrs[k] < |table.types| && Indexable(table.types[table.indexes[i].keyAttrs[k]])))
  }

  ghost predicate DbOk(db: Db) {
    forall t {:trigger db.tables[t]} :: 0 <= t < |db.tables| ==> TableOk(db.tables[t])
  }

  /** The columns an equi-join pairs have one type. */
  ghost predicate TypesAlike(ls: seq<nat>, leftTypes: seq<SqlType>, rs: seq<nat>, rightTypes: seq<SqlType>) {
    |ls| == |rs| && forall k :: 0 <= k < |ls| ==>
      ls[k] < |leftTypes| && rs[k] < |rightTypes| && leftTypes[ls[k]] == rightTypes[rs[k]]
  }

  /** The bits of the two keys agree exactly if SQL says the keys are equal. */
  ghost predicate Faithful(left: Row, ls: seq<nat>, right: Row, rs: seq<nat>) {
    InRange(ls, left) && InRange(rs, right) && NoNulls(Pick(ls, left)) ==>
      (KeysEqual(Pick(ls, left), Pick(rs, right)) <==> Pick(ls, left) == Pick(rs, right))
  }

  ghost predicate AllFaithful(lefts: seq<Row>, ls: seq<nat>, rights: seq<Row>, rs: seq<nat>) {
    forall i, j {:trigger lefts[i], rights[j]} :: 0 <= i < |lefts| && 0 <= j < |rights| ==> Faithful(lefts[i], ls, rights[j], rs)
  }

  /** Where the index join rule would fire, the columns it pairs have one type,
      and no live pair of keys is equal with different bits, or unequal (as NaN
      is) with the same. */
  ghost predicate PairsAlike(db: Db, p: Plan) {
    IndexFor(db, p).Some? ==>
      var (ls, rs) := ExtractKeys(p.node.on.value).value;
      var l, r := p.node.left, p.node.right;
      && TypesAlike(ls, l.schema, rs, r.schema) && l.node.table < |db.tables|
      && AllFaithful(LiveRows(db.tables[l.node.table].heap), ls, LiveRows(db.tables[r.node.table].heap), rs)
  }

  ghost predicate AllPairsAlike(db: Db, p: Plan) {
    PairsAlike(db, p) && forall i :: 0 <= i < |Children(p)| ==> AllPairsAlike(db, Children(p)[i])
  }

  /** The same rows, as long as the plan has rows at all, in the same columns. */
  ghost predicate Same(db: Db, p: Plan, q: Plan) {
    q.schema == p.schema && (Meaning(db, p).Some? ==> Meaning(db, q) == Meaning(db, p))
  }
}
