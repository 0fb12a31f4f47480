/** Query plans over a database, and the rows a plan stands for. */
module Plans {
  import opened Common
  import opened Entries
  import opened Values
  import opened Expressions
  import opened KeyEncoder
  import opened SortOrder
  import opened DiskManagers
  import opened SortPages
  import Tuples

  // ---- the database ---------------------------------------------------------------------------

  datatype HeapRow = HeapRow(rid: Rid, deleted: bool, values: Row)

  /** An index on some columns of a table, with its entries in index order. */
  datatype Index = Index(oid: nat, keyAttrs: seq<nat>, entries: seq<Entry>)

  /** The rows of a table in heap order, and its indexes. */
  datatype Table = Table(types: seq<SqlType>, heap: seq<HeapRow>, indexes: seq<Index>)

  /** `unwritten`: what a page shows that nobody has written yet. */
  datatype Db = Db(fp: FloatOps, tables: seq<Table>, unwritten: PageId -> PageBytes)

  ghost predicate PagesClean(db: Db) {
    forall p {:trigger db.unwritten(p)} :: ReadsEmpty(db.unwritten(p))
  }

  predicate RowMatches(row: Row, types: seq<SqlType>) {
    |row| == |types| && forall k :: 0 <= k < |row| ==> row[k].Ok() && row[k].Type() == types[k]
  }

  // ---- plans ------------------------------------------------------------------------------------

  datatype JoinType = Inner | Left | Cross

  /** A plan node with the types of its output columns. */
  datatype Plan = Plan(schema: seq<SqlType>, node: Node)

  datatype Node =
    | SeqScan(table: nat, filter: Option<Expr>)
    | Filter(condition: Expr, child: Plan)
    | Projection(exprs: seq<Expr>, child: Plan)
    | Sort(orderBys: seq<OrderBy>, child: Plan)
    | Limit(limit: Expr, child: Plan)
    | ValueRows(rows: seq<seq<Expr>>)
    | NestedLoopJoin(left: Plan, right: Plan, joinType: JoinType, on: Option<Expr>)
    | NestedIndexJoin(child: Plan, indexExprs: seq<Expr>, table: nat, index: nat, innerSchema: seq<SqlType>, joinType: JoinType)

  // ---- rows -------------------------------------------------------------------------------------

  function LiveRows(heap: seq<HeapRow>): seq<Row> {
    if heap == [] then []
    else (if heap[0].deleted then [] else [heap[0].values]) + LiveRows(heap[1..])
  }

  predicate Keeps(fp: FloatOps, p: Option<Expr>, rows: seq<Row>) {
    p.None? || Keep(fp, p.value, rows) == Ok(true)
  }

  /** The predicate fails on none of the rows. */
  ghost predicate Decides(fp: FloatOps, p: Option<Expr>, rows: seq<Row>) {
    forall i {:trigger rows[i]} :: p.Some? && 0 <= i < |rows| ==> Keep(fp, p.value, [rows[i]]).Ok?
  }

  function FilterRows(fp: FloatOps, p: Option<Expr>, rows: seq<Row>): seq<Row> {
    if rows == [] then []
    else (if Keeps(fp, p, [rows[0]]) then [rows[0]] else []) + FilterRows(fp, p, rows[1..])
  }

  ghost predicate Evaluates(fp: FloatOps, es: seq<Expr>, rows: seq<Row>) {
    forall i {:trigger rows[i]} :: 0 <= i < |rows| ==> EvaluateAll(fp, es, [rows[i]]).Ok?
  }

  function ProjectRow(fp: FloatOps, es: seq<Expr>, row: Row): Row {
    var r := EvaluateAll(fp, es, [row]);
    if r.Ok? then r.value else []
  }

  function ProjectRows(fp: FloatOps, es: seq<Expr>, rows: seq<Row>): (r: seq<Row>)
    ensures |r| == |rows| && forall i :: 0 <= i < |rows| ==> r[i] == ProjectRow(fp, es, rows[i])
  {
    seq(|rows|, i requires 0 <= i < |rows| => ProjectRow(fp, es, rows[i]))
  }

  /** The predicate a join tests: a cross join tests none. */
  function Condition(t: JoinType, on: Option<Expr>): Option<Expr> {
    if t.Cross? then None else on
  }

  ghost predicate JoinDecides(fp: FloatOps, p: Option<Expr>, lefts: seq<Row>, rights: seq<Row>) {
    forall i, j {:trigger lefts[i], rights[j]} :: p.Some? && 0 <= i < |lefts| && 0 <= j < |rights| ==>
      Keep(fp, p.value, [lefts[i], rights[j]]).Ok?
  }

  /** The left row joined with every right row the predicate keeps. */
  function MatchRows(fp: FloatOps, p: Option<Expr>, left: Row, rights: seq<Row>): seq<Row> {
    if rights == [] then []
    else (if Keeps(fp, p, [left, rights[0]]) then [left + rights[0]] else []) + MatchRows(fp, p, left, rights[1..])
  }

  /** A left row with nothing on the right. */
  function PadRow(schema: seq<SqlType>, left: Row): Row {
    left + if |left| <= |schema| then seq(|schema| - |left|, k requires 0 <= k < |schema| - |left| => Null(schema[|left| + k])) else []
  }

  /** What one left row contributes. */
  function Padded(schema: seq<SqlType>, t: JoinType, left: Row, matches: seq<Row>): seq<Row> {
    if t.Left? && matches == [] then [PadRow(schema, left)] else matches
  }

  function JoinRows(fp: FloatOps, schema: seq<SqlType>, t: JoinType, p: Option<Expr>, lefts: seq<Row>, rights: seq<Row>): seq<Row> {
    if lefts == [] then []
    else Padded(schema, t, lefts[0], MatchRows(fp, p, lefts[0], rights)) + JoinRows(fp, schema, t, p, lefts[1..], rights)
  }

  // ---- index lookups -------------------------------------------------------------------------------

  function FindIndex(indexes: seq<Index>, oid: nat): Option<Index> {
    if indexes == [] then None
    else if indexes[0].oid == oid then Some(indexes[0])
    else FindIndex(indexes[1..], oid)
  }

  /** The row identifiers under a key, in order. */
  function ScanKey(entries: seq<Entry>, key: int): seq<Rid> {
    if entries == [] then []
    else (if entries[0].key == key then [entries[0].rid] else []) + ScanKey(entries[1..], key)
  }

  function RowAt(heap: seq<HeapRow>, rid: Rid): Option<HeapRow> {
    if heap == [] then None else if heap[0].rid == rid then Some(heap[0]) else RowAt(heap[1..], rid)
  }

  /** The rows behind some row identifiers that are not deleted. */
  function FetchRows(heap: seq<HeapRow>, rids: seq<Rid>): seq<Row> {
    if rids == [] then []
    else
      var row := RowAt(heap, rids[0]);
      (if row.Some? && !row.value.deleted then [row.value.values] else []) + FetchRows(heap, rids[1..])
  }

  function Pair(left: Row, rights: seq<Row>): (r: seq<Row>)
    ensures |r| == |rights| && forall i :: 0 <= i < |rights| ==> r[i] == left + rights[i]
  {
    seq(|rights|, i requires 0 <= i < |rights| => left + rights[i])
  }

  function KeyTypesOf(types: seq<SqlType>, attrs: seq<nat>): Option<seq<SqlType>> {
    if forall k :: 0 <= k < |attrs| ==> attrs[k] < |types| then
      Some(seq(|attrs|, k requires 0 <= k < |attrs| => types[attrs[k]]))
    else None
  }

  /** The key an outer row looks up; None where building the key tuple panics. */
  function OuterKey(fp: FloatOps, es: seq<Expr>, keyTypes: seq<SqlType>, childSchema: seq<SqlType>, outer: Row): Option<Row> {
    if !RowMatches(outer, childSchema) then None
    else
      var key := EvaluateAll(fp, es, [outer]);
      if key.Err? || !RowMatches(key.value, keyTypes) then None else Some(key.value)
  }

  function LookupRids(index: Index, key: Row): seq<Rid> {
    if NoNulls(key) && KeyOk(key) then ScanKey(index.entries, KeyNumber(key)) else []
  }

  /** The outer row joined with every row the lookup finds. */
  function IndexMatches(table: Table, index: Index, outer: Row, key: Row): seq<Row> {
    Pair(outer, FetchRows(table.heap, LookupRids(index, key)))
  }

  ghost predicate KeysBuild(fp: FloatOps, es: seq<Expr>, keyTypes: seq<SqlType>, childSchema: seq<SqlType>, outers: seq<Row>) {
    forall i {:trigger outers[i]} :: 0 <= i < |outers| ==>
      var key := OuterKey(fp, es, keyTypes, childSchema, outers[i]);
      key.Some? && (NoNulls(key.value) ==> KeyOk(key.value))
  }

  function KeyOrEmpty(k: Option<Row>): Row { if k.Some? then k.value else [] }

  function IndexJoinRows(fp: FloatOps, schema: seq<SqlType>, t: JoinType, table: Table, index: Index, es: seq<Expr>,
                         keyTypes: seq<SqlType>, childSchema: seq<SqlType>, outers: seq<Row>): seq<Row> {
    if outers == [] then []
    else
      OuterRows(fp, schema, t, table, index, es, keyTypes, childSchema, outers[0])
      + IndexJoinRows(fp, schema, t, table, index, es, keyTypes, childSchema, outers[1..])
  }

  /** What one outer row contributes. */
  function OuterRows(fp: FloatOps, schema: seq<SqlType>, t: JoinType, table: Table, index: Index, es: seq<Expr>,
                     keyTypes: seq<SqlType>, childSchema: seq<SqlType>, outer: Row): seq<Row> {
    var key := KeyOrEmpty(OuterKey(fp, es, keyTypes, childSchema, outer));
    Padded(schema, t, outer, IndexMatches(table, index, outer, key))
  }

  /** The rows of an index join, if the index is there and every key can be built. */
  ghost function IndexJoinMeaning(fp: FloatOps, schema: seq<SqlType>, t: JoinType, table: Table, index: Option<Index>,
                                  es: seq<Expr>, childSchema: seq<SqlType>, outers: seq<Row>): Option<seq<Row>>
  {
    if index.None? then None
    else
      var keyTypes := KeyTypesOf(table.types, index.value.keyAttrs);
      if keyTypes.Some? && KeysBuild(fp, es, keyTypes.value, childSchema, outers) then
        Some(IndexJoinRows(fp, schema, t, table, index.value, es, keyTypes.value, childSchema, outers))
      else None
  }

  // ---- limits and sorting ---------------------------------------------------------------------------

  /** The row count of a LIMIT: `Some(None)` is no limit, None an error. */
  function LimitCount(fp: FloatOps, e: Expr): Option<Option<nat>> {
    match Evaluate(fp, e, [[]])
    case Ok(Null(_)) => Some(None)
    case Ok(Int(_, i)) => if i >= 0 then Some(Some(i)) else None
    case _ => None
  }

  function Take(rows: seq<Row>, n: Option<nat>): seq<Row> {
    if n.None? || |rows| <= n.value then rows else rows[..n.value]
  }

  function OrderExprs(os: seq<OrderBy>): (es: seq<Expr>)
    ensures |es| == |os| && forall i :: 0 <= i < |os| ==> es[i] == os[i].expression
  {
    seq(|os|, i requires 0 <= i < |os| => os[i].expression)
  }

  function SortTypes(os: seq<OrderBy>): (ts: seq<SqlType>)
    ensures |ts| == |os|
  {
    seq(|os|, i requires 0 <= i < |os| => os[i].expression.returnType)
  }

  function WithKeys(fp: FloatOps, os: seq<OrderBy>, rows: seq<Row>): (r: seq<SortEntry>)
    ensures |r| == |rows| && forall i :: 0 <= i < |rows| ==> r[i] == SortEntry(ProjectRow(fp, OrderExprs(os), rows[i]), rows[i])
  {
    seq(|rows|, i requires 0 <= i < |rows| => SortEntry(ProjectRow(fp, OrderExprs(os), rows[i]), rows[i]))
  }

  function WithoutKeys(s: seq<SortEntry>): (r: seq<Row>)
    ensures |r| == |s| && forall i :: 0 <= i < |s| ==> r[i] == s[i].row
  {
    seq(|s|, i requires 0 <= i < |s| => s[i].row)
  }

  predicate FitsPage(row: Row, schema: seq<SqlType>) {
    InfoAt(1) + Tuples.RowSize(row, schema) <= PAGE_SIZE
  }

  /** All rows have keys of the declared types, without NaN, and fit the tuple
      layout and a page. */
  ghost predicate Sortable(fp: FloatOps, os: seq<OrderBy>, schema: seq<SqlType>, rows: seq<Row>) {
    && Evaluates(fp, OrderExprs(os), rows)
    && (forall i {:trigger rows[i]} :: 0 <= i < |rows| ==>
          RowMatches(rows[i], schema) && FitsPage(rows[i], schema) && KeyFits(ProjectRow(fp, OrderExprs(os), rows[i]), SortTypes(os)))
  }

  function SortRows(fp: FloatOps, os: seq<OrderBy>, rows: seq<Row>): seq<Row> {
    var c := Comparator(fp, SortTypes(os), os);
    var entries := WithKeys(fp, os, rows);
    if c.FitAll(entries) then WithoutKeys(c.StableSort(entries)) else []
  }

  function ValueRow(fp: FloatOps, es: seq<Expr>): Row {
    ProjectRow(fp, es, [])
  }

  function EvaluateRows(fp: FloatOps, rows: seq<seq<Expr>>): (r: seq<Row>)
    ensures |r| == |rows|
  {
    seq(|rows|, i requires 0 <= i < |rows| => ValueRow(fp, rows[i]))
  }

  // ---- the meaning of a plan --------------------------------------------------------------------------

  /** The rows of a plan in order; None if some expression fails, a row does not
      fit the schema it is read or written with, or something named is missing. */
  ghost function Meaning(db: Db, p: Plan): Option<seq<Row>>
    decreases p
  {
    match p.node
    case SeqScan(t, f) =>
      if t >= |db.tables| || p.schema != db.tables[t].types then None
      else
        var rows := LiveRows(db.tables[t].heap);
        if Decides(db.fp, f, rows) then Some(FilterRows(db.fp, f, rows)) else None
    case Filter(f, c) =>
      var rows := Meaning(db, c);
      if rows.Some? && Decides(db.fp, Some(f), rows.value) then Some(FilterRows(db.fp, Some(f), rows.value)) else None
    case Projection(es, c) =>
      var rows := Meaning(db, c);
      if rows.Some? && Evaluates(db.fp, es, rows.value) then Some(ProjectRows(db.fp, es, rows.value)) else None
    case Sort(os, c) =>
      var rows := Meaning(db, c);
      if rows.Some? && p.schema == c.schema && Sortable(db.fp, os, c.schema, rows.value) then
        Some(SortRows(db.fp, os, rows.value))
      else None
    case Limit(e, c) =>
      var rows := Meaning(db, c);
      var n := LimitCount(db.fp, e);
      if rows.Some? && n.Some? then Some(Take(rows.value, n.value)) else None
    case ValueRows(rows) =>
      if forall i :: 0 <= i < |rows| ==> EvaluateAll(db.fp, rows[i], [[]]).Ok? then Some(EvaluateRows(db.fp, rows)) else None
    case NestedLoopJoin(l, r, t, on) =>
      var lefts, rights := Meaning(db, l), Meaning(db, r);
      if lefts.Some? && rights.Some? && JoinDecides(db.fp, Condition(t, on), lefts.value, rights.value) then
        Some(JoinRows(db.fp, p.schema, t, Condition(t, on), lefts.value, rights.value))
      else None
    case NestedIndexJoin(c, es, table, oid, innerSchema, t) =>
      var outers := Meaning(db, c);
      if outers.None? || table >= |db.tables| || innerSchema != db.tables[table].types then None
      else IndexJoinMeaning(db.fp, p.schema, t, db.tables[table], FindIndex(db.tables[table].indexes, oid), es, c.schema, outers.value)
  }
}
