/** A plan on which the index join rule loses a row: the two zeros of a Decimal
    column are equal, and their keys are not. */
module DecimalJoin {
  import opened Common
  import opened Entries
  import opened Values
  import opened Expressions
  import opened KeyEncoder
  import opened SortPages
  import opened Plans
  import opened IndexLookup
  import opened Optimizer
  import opened OptimizerProofs

  const PLUS_ZERO := Float(0)
  const MINUS_ZERO := Float(SIGN)

  function OneRow(v: Value, page: PageId): seq<HeapRow> { [HeapRow(Rid(page, 0), false, [v])] }

  function OnlyEntry(v: Value, page: PageId): Entry
    requires KeyOk([v])
  {
    Entry(KeyNumber([v]), Rid(page, 0))
  }

  /** The positive zero in one table, the negative zero, indexed, in another. */
  function ZerosDb(fp: FloatOps, unwritten: PageId -> PageBytes): Db {
    Db(fp, [Table([Decimal], OneRow(PLUS_ZERO, 1), []),
            Table([Decimal], OneRow(MINUS_ZERO, 2), [Index(0, [0], [OnlyEntry(MINUS_ZERO, 2)])])], unwritten)
  }

  function Scan(table: nat): Plan { Plan([Decimal], SeqScan(table, None)) }

  function ColumnsEqual(): Expr {
    Expr(Boolean, Comparison(Expr(Decimal, ColumnValue(0, 0)), Eq, Expr(Decimal, ColumnValue(1, 0))))
  }

  function ZerosJoin(): Plan {
    Plan([Decimal, Decimal], NestedLoopJoin(Scan(0), Scan(1), Inner, Some(ColumnsEqual())))
  }

  // ---- the database ------------------------------------------------------------------------------

  lemma OneRowLive(v: Value, page: PageId)
    ensures LiveRows(OneRow(v, page)) == [[v]]
  {
    assert OneRow(v, page)[1..] == [];
  }

  lemma OneRowTable(v: Value, page: PageId)
    requires v.Float?
    ensures TableOk(Table([Decimal], OneRow(v, page), []))
    ensures KeyOk([v]) && TableOk(Table([Decimal], OneRow(v, page), [Index(0, [0], [OnlyEntry(v, page)])]))
  {
    hide KeyNumber;
    var heap, index := OneRow(v, page), Index(0, [0], [OnlyEntry(v, page)]);
    assert Pick([0], heap[0].values) == [v];
    assert heap[1..] == [];
    assert LiveEntries(heap, [0]) == [OnlyEntry(v, page)];
    assert IndexAgrees(heap, index);
  }

  lemma ZerosParts(fp: FloatOps, unwritten: PageId -> PageBytes)
    ensures var db := ZerosDb(fp, unwritten);
      && db.fp == fp && |db.tables| == 2 && db.tables[0].types == db.tables[1].types == [Decimal]
      && |db.tables[1].indexes| == 1 && db.tables[1].indexes[0].keyAttrs == [0]
      && LiveRows(db.tables[0].heap) == [[PLUS_ZERO]] && LiveRows(db.tables[1].heap) == [[MINUS_ZERO]]
      && DbOk(db)
  {
    hide TableOk, LiveRows, OneRow, KeyNumber;
    OneRowLive(PLUS_ZERO, 1);
    OneRowLive(MINUS_ZERO, 2);
    OneRowTable(PLUS_ZERO, 1);
    OneRowTable(MINUS_ZERO, 2);
    var db := ZerosDb(fp, unwritten);
    assert db.tables[0] == Table([Decimal], OneRow(PLUS_ZERO, 1), []);
  }

  // ---- the two joins -------------------------------------------------------------------------------

  /** The join of the tables has one row, the index join put in its place none. */
  lemma IndexJoinLosesZero(fp: FloatOps, unwritten: PageId -> PageBytes)
    ensures var db, p := ZerosDb(fp, unwritten), ZerosJoin();
      && DbOk(db) && Typed(db, p) && NoScanFilters(p) && IndexFor(db, p).Some?
      && Meaning(db, p) == Some([[PLUS_ZERO, MINUS_ZERO]])
      && Meaning(db, IndexJoin(db, p)) == Some([])
  {
    hide ZerosDb, DbOk, Typed, NoScanFilters, Meaning, KeyJoin, IndexFor, IndexJoin, ExtractKeys, LiveRows;
    var db := ZerosDb(fp, unwritten);
    ZerosParts(fp, unwritten);
    ZerosTyped(db);
    ZerosMean(db);
    JoinsAreKeyJoins(db, ZerosJoin());
    KeyJoinOfZeros();
  }

  ghost predicate TwoTables(db: Db) {
    && |db.tables| == 2 && db.tables[0].types == db.tables[1].types == [Decimal]
    && |db.tables[1].indexes| == 1 && db.tables[1].indexes[0].keyAttrs == [0]
  }

  lemma ZerosTyped(db: Db)
    requires TwoTables(db)
    ensures var p := ZerosJoin();
      && Typed(db, p) && NoScanFilters(p) && IndexFor(db, p).Some? && ExtractKeys(p.node.on.value) == Some(([0], [0]))
      && OnAlike(p.node.on.value, p.node.left.schema, p.node.right.schema)
  {
    assert Children(ZerosJoin()) == [Scan(0), Scan(1)];
    assert Typed(db, Scan(0)) && Typed(db, Scan(1));
    assert NoScanFilters(Scan(0)) && NoScanFilters(Scan(1));
  }

  lemma ScanMeans(db: Db, t: nat)
    requires t < |db.tables| && db.tables[t].types == [Decimal]
    ensures Meaning(db, Scan(t)) == Some(LiveRows(db.tables[t].heap))
  {
    FilterNone(db.fp, LiveRows(db.tables[t].heap));
  }

  lemma ZerosEqual(fp: FloatOps)
    ensures Keep(fp, ColumnsEqual(), [[PLUS_ZERO], [MINUS_ZERO]]) == Ok(true)
  {
    var rows: seq<Row> := [[PLUS_ZERO], [MINUS_ZERO]];
    assert Evaluate(fp, Expr(Decimal, ColumnValue(0, 0)), rows) == Ok(PLUS_ZERO);
    assert Evaluate(fp, Expr(Decimal, ColumnValue(1, 0)), rows) == Ok(MINUS_ZERO);
  }

  lemma ZerosMean(db: Db)
    requires TwoTables(db) && LiveRows(db.tables[0].heap) == [[PLUS_ZERO]] && LiveRows(db.tables[1].heap) == [[MINUS_ZERO]]
    ensures Meaning(db, ZerosJoin()).Some?
  {
    hide LiveRows, Keep;
    ScanMeans(db, 0);
    ScanMeans(db, 1);
    ZerosEqual(db.fp);
  }

  lemma KeyJoinOfZeros()
    ensures KeyJoin(true, [Decimal, Decimal], Inner, [[PLUS_ZERO]], [0], [[MINUS_ZERO]], [0]) == []
    ensures KeyJoin(false, [Decimal, Decimal], Inner, [[PLUS_ZERO]], [0], [[MINUS_ZERO]], [0]) == [[PLUS_ZERO, MINUS_ZERO]]
  {
    var left: Row, right: Row := [PLUS_ZERO], [MINUS_ZERO];
    assert Pick([0], left) == left && Pick([0], right) == right;
    var lefts, rights: seq<Row> := [left], [right];
    assert lefts[1..] == [] && rights[1..] == [];
    assert PLUS_ZERO != MINUS_ZERO && left[0] != right[0];
    assert KeysEqual(left, Pick([0], right)) by {
      assert SameSql(left[0], right[0]);
    }
    assert [right][0] == right && [right][1..] == [];
    assert WhereKey([right], [0], left) == [] + WhereKey([], [0], left) == [];
    assert WhereSql([right], [0], left) == [right] + WhereSql([], [0], left) == [right];
    assert Pair(left, [right]) == [left + right] && left + right == [PLUS_ZERO, MINUS_ZERO];
  }
}
