/** A table that only ever saw insertions, and an UPDATE of one row of it that
    fails: the old entry leaves a leaf too small, merging fills the neighbour, and
    the new entry finds no room. */
module FailingUpdate {
  import opened Entries
  import opened Values
  import opened KeyEncoder
  import opened Expressions
  import opened Plans
  import opened IndexLookup
  import opened TreeShape
  import opened TreeContents
  import opened TreeLeaves
  import opened AscendingKeys
  import opened BTrees
  import opened IndexMaintenance
  import Tuples

  const FIRST: seq<nat> := [0]

  function RowFor(k: int): Row { [Int(Integer, k)] }

  /** As many rows as one leaf has places for and one more, keyed 0, 1, 2 and so on. */
  ghost predicate Filled(table: IndexedTable, index: TableIndex, n: nat)
    reads table, index.tree
  {
    && table.types == [Integer] && table.indexes == [index] && index.keyAttrs == FIRST && |table.heap| == n
    && forall k :: 0 <= k < n ==> !table.heap[k].deleted && table.heap[k].values == RowFor(k)
  }

  /** The entries of the rows, in their order. */
  ghost predicate EntriesOf(es: seq<Entry>, heap: seq<HeapRow>) {
    && |es| == |heap|
    && forall k :: 0 <= k < |heap| ==> HasKey(FIRST, heap[k].values) && es[k] == EntryFor(FIRST, heap[k].values, heap[k].rid)
  }

  lemma RowIsPlain(k: int)
    requires 0 <= k < 0x8000_0000
    ensures RowMatches(RowFor(k), [Integer]) && HasKey(FIRST, RowFor(k))
    ensures Pick(FIRST, RowFor(k)) == RowFor(k)
  {
    assert Pick(FIRST, RowFor(k)) == RowFor(k);
  }

  lemma RowsInOrder(j: int, k: int, a: Rid, b: Rid)
    requires 0 <= j < k < 0x8000_0000
    ensures HasKey(FIRST, RowFor(j)) && HasKey(FIRST, RowFor(k))
    ensures Lt(EntryFor(FIRST, RowFor(j), a), EntryFor(FIRST, RowFor(k), b))
  {
    RowIsPlain(j);
    RowIsPlain(k);
    KeyNumberOrder(RowFor(j), RowFor(k));
    assert CompareKey(RowFor(j), RowFor(k)).Less?;
  }

  lemma RowFits(table: IndexedTable, k: int)
    requires Tuples.SchemaOk(table.schema) && Tuples.TypesOf(table.schema.columns) == [Integer]
    ensures !table.TooLarge(RowFor(k))
  {
    Tuples.RowSizeIsTupleSize(RowFor(k), table.schema);
    assert Tuples.SlotBytes([Integer], 1) == 4;
    assert Tuples.VariableBytes(RowFor(k), 1) == 0;
  }

  lemma OneMore(tree: BTree, a: LeafMap, es: seq<Entry>, e: Entry)
    requires tree.Valid() && Ascended(tree.Capacity(), a, es) && |es| <= tree.leafMax
    requires (forall x :: x in es ==> Lt(x, e)) && InsertStep(tree.Capacity(), a, e, Leaves(tree.pages))
    ensures Ascended(tree.Capacity(), Leaves(tree.pages), es + [e])
  {
    NotEmptied(tree.Capacity(), a, e, Leaves(tree.pages));
    assert tree.pages != map[];
    AscendStep(tree.Capacity(), tree.pages, tree.shape, tree.rootPageId, a, es, e);
  }

  lemma ComesLast(es: seq<Entry>, heap: seq<HeapRow>, k: nat, rid: Rid)
    requires EntriesOf(es, heap) && |heap| == k < 0x8000_0000 && forall j :: 0 <= j < k ==> heap[j].values == RowFor(j)
    ensures HasKey(FIRST, RowFor(k)) && forall x :: x in es ==> Lt(x, EntryFor(FIRST, RowFor(k), rid))
  {
    hide Lt;
    RowIsPlain(k);
    forall x | x in es
      ensures Lt(x, EntryFor(FIRST, RowFor(k), rid))
    {
      var j :| 0 <= j < |es| && es[j] == x;
      RowsInOrder(j, k, heap[j].rid, rid);
    }
  }

  /** INSERT of the row that comes next. */
  method PutNext(table: IndexedTable, index: TableIndex, k: nat)
    requires table.Valid() && Filled(table, index, k) && Roomy(index) && k < 0x8000_0000
    modifies table, index.tree
    ensures table.Valid() && Filled(table, index, k + 1) && Roomy(index)
    ensures table.heap[..k] == old(table.heap) && table.heap[k].values == RowFor(k)
    ensures Entered(index, old(Leaves(index.tree.pages)), table.heap[k])
  {
    hide Leaves, Roomy, HasKey, Entered, StoppedAt, AgreeIn, RowMatches, Takes;
    RowIsPlain(k);
    RowFits(table, k);
    OneIndex(table, index);
    RoomyTakes(index, HeapRow(table.NextRid(RowFor(k)), false, RowFor(k)));
    assert table.indexes[0] == index;
    var r := table.InsertRow(RowFor(k));
    assert table.indexes[0] == index;
    OneIndex(table, index);
  }

  method InsertNext(table: IndexedTable, index: TableIndex, k: nat, ghost es: seq<Entry>) returns (ghost es': seq<Entry>)
    requires table.Valid() && Filled(table, index, k) && Roomy(index) && 4 <= index.tree.leafMax < 0x7fff_fffe && k <= index.tree.leafMax
    requires EntriesOf(es, table.heap) && Ascended(index.tree.Capacity(), Leaves(index.tree.pages), es)
    modifies table, index.tree
    ensures table.Valid() && Filled(table, index, k + 1) && Roomy(index)
    ensures EntriesOf(es', table.heap) && Ascended(index.tree.Capacity(), Leaves(index.tree.pages), es')
  {
    hide Ascended, Leaves, Roomy, InsertStep, HasKey, Lt;
    ghost var a, heap := Leaves(index.tree.pages), table.heap;
    PutNext(table, index, k);
    ComesLast(es, heap, k, table.heap[k].rid);
    ghost var e := EntryFor(FIRST, RowFor(k), table.heap[k].rid);
    es' := es + [e];
    assert forall j :: 0 <= j < k ==> table.heap[j] == heap[j];
    OneIndex(table, index);
    OneMore(index.tree, a, es, e);
  }

  lemma OneIndex(table: IndexedTable, index: TableIndex)
    requires table.Valid() && table.indexes == [index]
    ensures index.tree.Valid() && Trees(table.indexes) == {index.tree}
    ensures Roomy(index) <==> AllRoomy(table.indexes)
  {
    assert table.indexes[0] == index;
    assert IndexOk(table.indexes[0], table.heap);
  }

  /** CREATE TABLE and CREATE INDEX. */
  method CreateTable(leafMax: nat, internalMax: nat) returns (table: IndexedTable, index: TableIndex)
    requires leafMax >= 4 && internalMax >= 3
    ensures fresh(table) && fresh(index.tree) && table.Valid() && Filled(table, index, 0) && Roomy(index)
    ensures index.tree.Capacity() == Caps(leafMax, internalMax) && Ascended(index.tree.Capacity(), Leaves(index.tree.pages), [])
  {
    hide Roomy, Leaves, AgreeIn;
    var schema := Tuples.NewSchema([Integer]);
    table := new IndexedTable([Integer], schema, 1);
    assert KeyedBy(table.types, FIRST) && KeysOk(table.heap, FIRST);
    var created := table.CreateIndex(0, FIRST, leafMax, internalMax);
    index := created.index;
  }

  method InsertAscending(leafMax: nat, internalMax: nat) returns (table: IndexedTable, index: TableIndex, ghost es: seq<Entry>)
    requires 4 <= leafMax < 0x7fff_fffe && internalMax >= 3
    ensures fresh(table) && fresh(index.tree) && table.Valid() && Filled(table, index, leafMax + 1) && Roomy(index)
    ensures index.tree.Capacity() == Caps(leafMax, internalMax)
    ensures EntriesOf(es, table.heap) && Ascended(index.tree.Capacity(), Leaves(index.tree.pages), es)
  {
    hide Ascended, Leaves, Roomy, HasKey, AgreeIn;
    table, index := CreateTable(leafMax, internalMax);
    es := [];
    var k: nat := 0;
    while k <= leafMax
      invariant k <= leafMax + 1 && fresh(table) && fresh(index.tree) && table.Valid() && Filled(table, index, k) && Roomy(index)
      invariant index.tree.Capacity() == Caps(leafMax, internalMax)
      invariant EntriesOf(es, table.heap) && Ascended(index.tree.Capacity(), Leaves(index.tree.pages), es)
    {
      es := InsertNext(table, index, k, es);
      k := k + 1;
    }
  }

  /** Setting the first key to the next free one. Every index had room in every
      leaf, and the new row fits the heap. */
  method UpdateFirst(leafMax: nat, internalMax: nat) returns (table: IndexedTable, r: Outcome)
    requires 4 <= leafMax < 0x7fff_fffe && internalMax >= 3
    ensures r == IndexFull(0) && !table.Valid()
  {
    hide Ascended, Leaves, Roomy, HasKey, EntriesOf, StoppedAt, AgreeIn, TakesFor, RowMatches;
    var index;
    ghost var es;
    table, index, es := InsertAscending(leafMax, internalMax);
    ghost var row := HeapRow(table.NextRid(RowFor(leafMax + 1)), false, RowFor(leafMax + 1));
    RowIsPlain(0);
    RowIsPlain(leafMax + 1);
    RowFits(table, leafMax + 1);
    OneIndex(table, index);
    CannotMove(table, index, es, row);
    assert table.indexes[0] == index;
    r := table.UpdateRow(0, RowFor(leafMax + 1));
  }

  lemma CannotMove(table: IndexedTable, index: TableIndex, es: seq<Entry>, row: HeapRow)
    requires index.tree.Valid() && |table.heap| == index.tree.leafMax + 1 && EntriesOf(es, table.heap)
    requires Ascended(index.tree.Capacity(), Leaves(index.tree.pages), es) && index.keyAttrs == FIRST && HasKey(FIRST, row.values)
    ensures !TakesFor(index, table.heap[0], row)
  {
    var d, e := EntryFor(FIRST, table.heap[0].values, table.heap[0].rid), EntryFor(FIRST, row.values, row.rid);
    var t := index.tree;
    AscendedMembers(t.Capacity(), t.pages, es);
    assert es[0] in Contents(t.pages);
    FullOnMerge(t.Capacity(), t.pages, t.shape, t.rootPageId, es, d, e);
  }
}
