/** Rows going in, out and over, with every index of the table, a B+ tree, kept
    in step. */
module IndexMaintenance {
  import opened Common
  import opened Entries
  import opened Values
  import opened Expressions
  import opened KeyEncoder
  import opened Plans
  import opened IndexLookup
  import opened Optimizer
  import opened TreeLeaves
  import opened TreeRoom
  import opened BTrees
  import Disk = DiskManagers
  import Tuples

  const HEADER_SIZE: nat := 8
  const INFO_SIZE: nat := 24

  /** An index on some columns of a table. */
  datatype TableIndex = TableIndex(oid: nat, keyAttrs: seq<nat>, tree: BTree)

  /** An index key of a row. */
  predicate HasKey(attrs: seq<nat>, values: Row) {
    InRange(attrs, values) && KeyOk(Pick(attrs, values))
  }

  function EntryFor(attrs: seq<nat>, values: Row, rid: Rid): Entry
    requires InRange(attrs, values) && KeyOk(Pick(attrs, values))
  {
    Entry(KeyNumber(Pick(attrs, values)), rid)
  }

  /** The entry of some live row. */
  ghost predicate IsLiveEntry(heap: seq<HeapRow>, attrs: seq<nat>, e: Entry)
    requires KeysOk(heap, attrs)
  {
    exists i {:trigger heap[i]} :: 0 <= i < |heap| && !heap[i].deleted && e == EntryFor(attrs, heap[i].values, heap[i].rid)
  }

  /** The entries are those of the live rows. */
  ghost predicate Agrees(heap: seq<HeapRow>, attrs: seq<nat>, entries: set<Entry>) {
    KeysOk(heap, attrs) && forall e :: e in entries <==> IsLiveEntry(heap, attrs, e)
  }

  lemma {:induction false} LiveMembers(heap: seq<HeapRow>, attrs: seq<nat>, e: Entry)
    requires KeysOk(heap, attrs)
    ensures e in LiveEntries(heap, attrs) <==> IsLiveEntry(heap, attrs, e)
  {
    if heap != [] {
      var tail := heap[1..];
      LiveMembers(tail, attrs, e);
      if IsLiveEntry(tail, attrs, e) {
        var i :| 0 <= i < |tail| && !tail[i].deleted && e == EntryFor(attrs, tail[i].values, tail[i].rid);
        assert heap[i + 1] == tail[i];
      }
      if IsLiveEntry(heap, attrs, e) {
        var i :| 0 <= i < |heap| && !heap[i].deleted && e == EntryFor(attrs, heap[i].values, heap[i].rid);
        assert i > 0 ==> tail[i - 1] == heap[i];
      }
    }
  }

  /** An index whose entries are listed in order is what plans look rows up in. */
  lemma ListedAgrees(heap: seq<HeapRow>, index: Index, entries: set<Entry>)
    requires Agrees(heap, index.keyAttrs, entries)
    requires Sorted(index.entries) && forall e :: e in index.entries <==> e in entries
    ensures IndexAgrees(heap, index)
  {
    forall e
      ensures e in LiveEntries(heap, index.keyAttrs) <==> e in entries
    {
      LiveMembers(heap, index.keyAttrs, e);
    }
  }

  // ---- what a row's step does to an index's entries --------------------------------------------------

  /** The live entries of a heap that grew by a row. */
  lemma LiveWithRow(heap: seq<HeapRow>, row: HeapRow, attrs: seq<nat>, e: Entry)
    requires KeysOk(heap, attrs) && KeysOk(heap + [row], attrs) && (!row.deleted ==> HasKey(attrs, row.values))
    ensures IsLiveEntry(heap + [row], attrs, e) <==>
      IsLiveEntry(heap, attrs, e) || (!row.deleted && e == EntryFor(attrs, row.values, row.rid))
  {
    var heap' := heap + [row];
    assert heap'[|heap|] == row;
    if IsLiveEntry(heap, attrs, e) {
      var i :| 0 <= i < |heap| && !heap[i].deleted && e == EntryFor(attrs, heap[i].values, heap[i].rid);
      assert heap'[i] == heap[i];
    }
    if IsLiveEntry(heap', attrs, e) {
      var i :| 0 <= i < |heap'| && !heap'[i].deleted && e == EntryFor(attrs, heap'[i].values, heap'[i].rid);
      assert i < |heap| ==> heap[i] == heap'[i];
    }
  }

  lemma KeysWithRow(heap: seq<HeapRow>, row: HeapRow, attrs: seq<nat>)
    requires KeysOk(heap, attrs) && (!row.deleted ==> HasKey(attrs, row.values))
    ensures KeysOk(heap + [row], attrs)
  {
  }

  lemma RowAdded(heap: seq<HeapRow>, row: HeapRow, attrs: seq<nat>, entries: set<Entry>)
    requires Agrees(heap, attrs, entries) && !row.deleted && HasKey(attrs, row.values)
    ensures Agrees(heap + [row], attrs, entries + {EntryFor(attrs, row.values, row.rid)})
  {
    KeysWithRow(heap, row, attrs);
    hide KeysOk, IsLiveEntry;
    forall e
      ensures IsLiveEntry(heap + [row], attrs, e) <==> IsLiveEntry(heap, attrs, e) || e == EntryFor(attrs, row.values, row.rid)
    {
      LiveWithRow(heap, row, attrs, e);
    }
  }

  /** A new row identifier is in no index yet. */
  lemma RowIsNew(heap: seq<HeapRow>, attrs: seq<nat>, entries: set<Entry>, key: int, rid: Rid)
    requires Agrees(heap, attrs, entries) && forall i {:trigger heap[i]} :: 0 <= i < |heap| ==> heap[i].rid != rid
    ensures Entry(key, rid) !in entries
  {
  }

  lemma RidsDiffer(heap: seq<HeapRow>, i: nat, j: nat)
    requires HeapOrdered(heap) && i < |heap| && j < |heap|
    ensures i != j ==> heap[i].rid != heap[j].rid
  {
    if i < j {
      assert RidLess(heap[i].rid, heap[j].rid);
    } else if j < i {
      assert RidLess(heap[j].rid, heap[i].rid);
    }
  }

  function Deleted(heap: seq<HeapRow>, i: nat): seq<HeapRow>
    requires i < |heap|
  {
    heap[i := heap[i].(deleted := true)]
  }

  lemma RowRemoved(heap: seq<HeapRow>, i: nat, attrs: seq<nat>, entries: set<Entry>)
    requires HeapOrdered(heap) && Agrees(heap, attrs, entries) && i < |heap| && !heap[i].deleted && HasKey(attrs, heap[i].values)
    ensures EntryFor(attrs, heap[i].values, heap[i].rid) in entries
    ensures Agrees(Deleted(heap, i), attrs, entries - {EntryFor(attrs, heap[i].values, heap[i].rid)})
  {
    var heap', mine := Deleted(heap, i), EntryFor(attrs, heap[i].values, heap[i].rid);
    forall e
      ensures e in entries - {mine} <==> IsLiveEntry(heap', attrs, e)
    {
      if e in entries - {mine} {
        var j :| 0 <= j < |heap| && !heap[j].deleted && e == EntryFor(attrs, heap[j].values, heap[j].rid);
        assert j != i && heap'[j] == heap[j];
      }
      if IsLiveEntry(heap', attrs, e) {
        var j :| 0 <= j < |heap'| && !heap'[j].deleted && e == EntryFor(attrs, heap'[j].values, heap'[j].rid);
        assert heap'[j] == heap[j];
        RidsDiffer(heap, i, j);
      }
    }
  }

  lemma DeadRow(heap: seq<HeapRow>, row: HeapRow, attrs: seq<nat>, entries: set<Entry>)
    requires Agrees(heap, attrs, entries) && row.deleted
    ensures Agrees(heap + [row], attrs, entries)
  {
    KeysWithRow(heap, row, attrs);
    hide KeysOk, IsLiveEntry;
    forall e
      ensures IsLiveEntry(heap + [row], attrs, e) <==> IsLiveEntry(heap, attrs, e)
    {
      LiveWithRow(heap, row, attrs, e);
    }
  }

  lemma NewRid(heap: seq<HeapRow>, row: HeapRow)
    requires HeapOrdered(heap + [row])
    ensures forall i {:trigger heap[i]} :: 0 <= i < |heap| ==> heap[i].rid != row.rid
  {
    forall i | 0 <= i < |heap|
      ensures heap[i].rid != row.rid
    {
      assert RidLess((heap + [row])[i].rid, (heap + [row])[|heap|].rid);
    }
  }

  // ---- the indexes of a table ----------------------------------------------------------------------------

  ghost predicate IndexOk(index: TableIndex, heap: seq<HeapRow>)
    reads index.tree
  {
    index.tree.Valid() && Agrees(heap, index.keyAttrs, index.tree.Entries())
  }

  /** The index can take a row's entry: no key column is null, and the leaf that is
      responsible for the entry has a place. */
  ghost predicate Takes(index: TableIndex, row: HeapRow)
    reads index.tree
  {
    && HasKey(index.keyAttrs, row.values)
    && EntryFor(index.keyAttrs, row.values, row.rid) !in Blocked(index.tree.Capacity(), index.tree.pages, index.tree.shape)
  }

  /** The index can take a row's entry once the entry of `was` is out. */
  ghost predicate TakesFor(index: TableIndex, was: HeapRow, row: HeapRow)
    reads index.tree
  {
    && HasKey(index.keyAttrs, was.values) && HasKey(index.keyAttrs, row.values)
    && EntryFor(index.keyAttrs, row.values, row.rid) !in
         BlockedWithout(index.tree.Capacity(), index.tree.pages, index.tree.shape, index.tree.rootPageId,
                        EntryFor(index.keyAttrs, was.values, was.rid))
  }

  /** The leaves of the index, `a` before, have taken a row's entry. */
  ghost predicate Entered(index: TableIndex, a: LeafMap, row: HeapRow)
    reads index.tree
  {
    && HasKey(index.keyAttrs, row.values)
    && InsertStep(index.tree.Capacity(), a, EntryFor(index.keyAttrs, row.values, row.rid), Leaves(index.tree.pages))
  }

  /** No leaf of the index is full, as long as nothing was deleted. */
  ghost predicate Roomy(index: TableIndex)
    reads index.tree
  {
    NoFullLeaf(index.tree.Capacity(), index.tree.pages)
  }

  lemma RoomyTakes(index: TableIndex, row: HeapRow)
    requires Roomy(index)
    ensures Takes(index, row) <==> HasKey(index.keyAttrs, row.values)
  {
  }

  function Trees(indexes: seq<TableIndex>): set<BTree> {
    set k | 0 <= k < |indexes| :: indexes[k].tree
  }

  ghost predicate Apart(indexes: seq<TableIndex>) {
    forall j, k :: 0 <= j < k < |indexes| ==> indexes[j].tree != indexes[k].tree
  }

  /** The indexes from `lo` up to `hi` agree with a heap. */
  ghost predicate AgreeIn(indexes: seq<TableIndex>, lo: nat, hi: nat, heap: seq<HeapRow>)
    reads Trees(indexes)
  {
    forall k {:trigger indexes[k]} :: lo <= k < hi <= |indexes| ==> IndexOk(indexes[k], heap)
  }

  /** Enters a row in one index. Encoding a null key fails, and so does entering a
      full leaf. */
  method EnterRow(index: TableIndex, before: seq<HeapRow>, row: HeapRow) returns (ok: bool)
    requires IndexOk(index, before) && HeapOrdered(before + [row]) && !row.deleted
    modifies index.tree
    ensures index.tree.Valid() && (ok <==> old(Takes(index, row)))
    ensures ok ==> IndexOk(index, before + [row]) && Entered(index, old(Leaves(index.tree.pages)), row)
    ensures !ok ==> IndexOk(index, before) && !Takes(index, row)
    ensures old(Roomy(index)) ==> Roomy(index)
  {
    if !HasKey(index.keyAttrs, row.values) {
      return false;
    }
    var e := EntryFor(index.keyAttrs, row.values, row.rid);
    NewRid(before, row);
    RowIsNew(before, index.keyAttrs, index.tree.Entries(), e.key, e.rid);
    RowAdded(before, row, index.keyAttrs, index.tree.Entries());
    hide Agrees, InsertStep;
    var r := index.tree.Insert(e);
    ok := r.Inserted?;
  }

  /** Takes a row out of one index. */
  method LeaveRow(index: TableIndex, before: seq<HeapRow>, i: nat)
    requires IndexOk(index, before) && HeapOrdered(before) && i < |before| && !before[i].deleted
    modifies index.tree
    ensures IndexOk(index, Deleted(before, i))
    ensures forall row {:trigger Takes(index, row)} :: Takes(index, row) <==> old(TakesFor(index, before[i], row))
  {
    RowRemoved(before, i, index.keyAttrs, index.tree.Entries());
    hide Agrees, Blocked, BlockedWithout;
    var r := index.tree.Remove(EntryFor(index.keyAttrs, before[i].values, before[i].rid));
  }

  /** Enters a new row in every index, in order, up to the first that fails. */
  method IndexRow(indexes: seq<TableIndex>, before: seq<HeapRow>, row: HeapRow) returns (failed: Option<nat>)
    requires Apart(indexes) && AgreeIn(indexes, 0, |indexes|, before)
    requires HeapOrdered(before + [row]) && !row.deleted
    modifies Trees(indexes)
    ensures failed.None? ==> AgreeIn(indexes, 0, |indexes|, before + [row])
    ensures failed.None? ==> forall k {:trigger indexes[k]} :: 0 <= k < |indexes| ==> Entered(indexes[k], old(Leaves(indexes[k].tree.pages)), row)
    ensures failed.Some? ==> StoppedAt(indexes, failed.value, before, before + [row], before, row)
    ensures failed.None? <==> forall k {:trigger indexes[k]} :: 0 <= k < |indexes| ==> old(Takes(indexes[k], row))
    ensures failed.Some? ==> failed.value < |indexes| && !old(Takes(indexes[failed.value], row))
    ensures old(AllRoomy(indexes)) ==> AllRoomy(indexes)
  {
    hide IndexOk, Takes, Roomy, HasKey, Entered, Leaves;
    var k: nat := 0;
    while k < |indexes|
      invariant k <= |indexes|
      invariant AgreeIn(indexes, 0, k, before + [row]) && AgreeIn(indexes, k, |indexes|, before)
      invariant forall j {:trigger indexes[j]} :: k <= j < |indexes| ==> unchanged(indexes[j].tree)
      invariant forall j {:trigger indexes[j]} :: 0 <= j < k ==> old(Takes(indexes[j], row)) && Entered(indexes[j], old(Leaves(indexes[j].tree.pages)), row)
      invariant old(AllRoomy(indexes)) ==> AllRoomy(indexes)
    {
      var ok := EnterRow(indexes[k], before, row);
      if !ok {
        return Some(k);
      }
      k := k + 1;
    }
    failed := None;
  }

  ghost predicate AllRoomy(indexes: seq<TableIndex>)
    reads Trees(indexes)
  {
    forall k {:trigger indexes[k]} :: 0 <= k < |indexes| ==> Roomy(indexes[k])
  }

  /** What a failure at one index leaves: the indexes before it are done, that one
      is in between and cannot take the row, and those behind it are as before. */
  ghost predicate StoppedAt(indexes: seq<TableIndex>, k: nat, before: seq<HeapRow>, after: seq<HeapRow>, between: seq<HeapRow>, row: HeapRow)
    reads Trees(indexes)
  {
    && k < |indexes| && AgreeIn(indexes, 0, k, after) && AgreeIn(indexes, k + 1, |indexes|, before)
    && IndexOk(indexes[k], between) && !Takes(indexes[k], row)
  }

  /** Takes a row out of every index. */
  method UnindexRow(indexes: seq<TableIndex>, before: seq<HeapRow>, i: nat)
    requires Apart(indexes) && AgreeIn(indexes, 0, |indexes|, before)
    requires HeapOrdered(before) && i < |before| && !before[i].deleted
    modifies Trees(indexes)
    ensures AgreeIn(indexes, 0, |indexes|, Deleted(before, i))
  {
    hide IndexOk;
    var k: nat := 0;
    while k < |indexes|
      invariant k <= |indexes|
      invariant AgreeIn(indexes, 0, k, Deleted(before, i)) && AgreeIn(indexes, k, |indexes|, before)
    {
      LeaveRow(indexes[k], before, i);
      k := k + 1;
    }
  }

  /** In every index, takes the entry of the old version out and puts the entry of
      the new one in, up to the first index that fails. */
  method MoveRow(indexes: seq<TableIndex>, before: seq<HeapRow>, i: nat, row: HeapRow) returns (failed: Option<nat>)
    requires Apart(indexes) && AgreeIn(indexes, 0, |indexes|, before)
    requires HeapOrdered(before) && i < |before| && !before[i].deleted
    requires HeapOrdered(Deleted(before, i) + [row]) && !row.deleted
    modifies Trees(indexes)
    ensures failed.None? ==> AgreeIn(indexes, 0, |indexes|, Deleted(before, i) + [row])
    ensures failed.Some? ==> StoppedAt(indexes, failed.value, before, Deleted(before, i) + [row], Deleted(before, i), row)
    ensures failed.None? <==> forall k {:trigger indexes[k]} :: 0 <= k < |indexes| ==> old(TakesFor(indexes[k], before[i], row))
    ensures failed.Some? ==> failed.value < |indexes| && !old(TakesFor(indexes[failed.value], before[i], row))
  {
    hide IndexOk, Takes, TakesFor, HasKey, HeapOrdered, Entered;
    var k: nat := 0;
    while k < |indexes|
      invariant k <= |indexes|
      invariant AgreeIn(indexes, 0, k, Deleted(before, i) + [row]) && AgreeIn(indexes, k, |indexes|, before)
      invariant forall j {:trigger indexes[j]} :: k <= j < |indexes| ==> unchanged(indexes[j].tree)
      invariant forall j {:trigger indexes[j]} :: 0 <= j < k ==> old(TakesFor(indexes[j], before[i], row))
    {
      LeaveRow(indexes[k], before, i);
      var ok := EnterRow(indexes[k], Deleted(before, i), row);
      if !ok {
        return Some(k);
      }
      k := k + 1;
    }
    failed := None;
  }

  // ---- the table -------------------------------------------------------------------------------------

  /** `IndexFull`: an index has no room in the leaf where the row's entry belongs,
      and the leaf's assertion fails. `NullKey`: the row has a null in a column of an
      index, which cannot be encoded. */
  datatype Outcome = Done | TupleTooLarge | IndexFull(index: nat) | NullKey(index: nat)
  {
    predicate Stuck() { IndexFull? || NullKey? }
  }

  datatype CreateResult = Created(index: TableIndex) | UnsupportedIndexType | NullInHeap

  /** The columns an index is on are in the table, and of types that can be keys. */
  predicate KeyedBy(types: seq<SqlType>, attrs: seq<nat>) {
    forall k :: 0 <= k < |attrs| ==> attrs[k] < |types| && Indexable(types[attrs[k]])
  }

  class IndexedTable {
    const types: seq<SqlType>
    const schema: Tuples.Schema
    var heap: seq<HeapRow>
    var indexes: seq<TableIndex>
    /** The last page of the heap, how many tuples it holds and how full it is,
        and the next page id the pool gives out. */
    var lastPageId: PageId
    var lastCount: nat
    var lastUsed: nat
    var nextPageId: PageId

    /** The heap is in order, and the end of its last page is behind all rows. */
    ghost predicate HeapOk()
      reads this
    {
      && Tuples.SchemaOk(schema) && Tuples.TypesOf(schema.columns) == types
      && HeapOrdered(heap) && lastPageId < nextPageId
      && (forall i {:trigger heap[i]} :: 0 <= i < |heap| ==> RowMatches(heap[i].values, types))
      && (forall i {:trigger heap[i]} :: 0 <= i < |heap| ==> RidLess(heap[i].rid, Rid(lastPageId, lastCount)))
    }

    ghost predicate IndexesOk()
      reads this
    {
      && Apart(indexes)
      && (forall j, k :: 0 <= j < k < |indexes| ==> indexes[j].oid != indexes[k].oid)
      && (forall k {:trigger indexes[k]} :: 0 <= k < |indexes| ==> KeyedBy(types, indexes[k].keyAttrs))
    }

    /** The table is in order, and every index agrees with the heap. */
    ghost predicate Valid()
      reads this, Trees(indexes)
    {
      HeapOk() && IndexesOk() && AgreeIn(indexes, 0, |indexes|, heap)
    }

    constructor (types: seq<SqlType>, schema: Tuples.Schema, firstPageId: PageId)
      requires Tuples.SchemaOk(schema) && Tuples.TypesOf(schema.columns) == types
      ensures Valid() && heap == [] && indexes == [] && this.types == types && this.schema == schema
    {
      this.types, this.schema, heap, indexes := types, schema, [], [];
      lastPageId, lastCount, lastUsed, nextPageId := firstPageId, 0, HEADER_SIZE, firstPageId + 1;
    }

    /** The tuple fits neither the last page nor an empty one. */
    predicate TooLarge(values: Row)
      reads this
    {
      && lastUsed + INFO_SIZE + Tuples.TupleSize(values, schema) > Disk.PAGE_SIZE
      && HEADER_SIZE + INFO_SIZE + Tuples.TupleSize(values, schema) > Disk.PAGE_SIZE
    }

    /** The row identifier the next row gets. */
    function NextRid(values: Row): Rid
      reads this
    {
      if lastUsed + INFO_SIZE + Tuples.TupleSize(values, schema) <= Disk.PAGE_SIZE then Rid(lastPageId, lastCount)
      else Rid(nextPageId, 0)
    }

    /** Puts a tuple on the last page, or on a new page chained behind it. The row
        identifier it gets is greater than all before, so none is used twice. */
    method AppendTuple(values: Row) returns (r: Option<Rid>)
      requires HeapOk() && RowMatches(values, types)
      modifies this`heap, this`lastPageId, this`lastCount, this`lastUsed, this`nextPageId
      ensures HeapOk() && r == if old(TooLarge(values)) then None else Some(old(NextRid(values)))
      ensures heap == if r.None? then old(heap) else old(heap) + [HeapRow(r.value, false, values)]
    {
      var size := INFO_SIZE + Tuples.TupleSize(values, schema);
      var rid: Rid;
      if lastUsed + size <= Disk.PAGE_SIZE {
        rid := Rid(lastPageId, lastCount);
        lastCount, lastUsed := lastCount + 1, lastUsed + size;
      } else {
        var newPageId := nextPageId;
        nextPageId := nextPageId + 1;
        if HEADER_SIZE + size > Disk.PAGE_SIZE {
          return None;
        }
        rid := Rid(newPageId, 0);
        lastPageId, lastCount, lastUsed := newPageId, 1, HEADER_SIZE + size;
      }
      heap := heap + [HeapRow(rid, false, values)];
      r := Some(rid);
    }

    /** INSERT of one row: appended to the heap, entered in every index. It fails
        exactly if the tuple is too large or some index cannot take it, and in the
        second case the row stays, missing in the indexes from that one on. */
    method InsertRow(values: Row) returns (r: Outcome)
      requires Valid() && RowMatches(values, types)
      modifies this`heap, this`lastPageId, this`lastCount, this`lastUsed, this`nextPageId, Trees(indexes)
      ensures HeapOk() && IndexesOk()
      ensures r == TupleTooLarge <==> old(TooLarge(values))
      ensures var row := HeapRow(old(NextRid(values)), false, values);
        && (r.Done? <==> !old(TooLarge(values)) && forall k {:trigger indexes[k]} :: 0 <= k < |indexes| ==> old(Takes(indexes[k], row)))
        && heap == (if r.TupleTooLarge? then old(heap) else old(heap) + [row])
        && (r.Stuck() ==> StoppedAt(indexes, r.index, old(heap), heap, old(heap), row) && !old(Takes(indexes[r.index], row)))
        && (r.Done? ==> forall k {:trigger indexes[k]} :: 0 <= k < |indexes| ==> Entered(indexes[k], old(Leaves(indexes[k].tree.pages)), row))
      ensures r.Stuck() ==> r.index < |indexes| && (r.NullKey? <==> !HasKey(indexes[r.index].keyAttrs, values))
      ensures Valid() <==> !r.Stuck()
      ensures old(AllRoomy(indexes)) ==> !r.IndexFull? && AllRoomy(indexes)
    {
      hide Agrees, IndexOk, Roomy, Takes, Entered, RowMatches, HasKey, Leaves;
      ghost var before := heap;
      var rid := AppendTuple(values);
      if rid.None? {
        return TupleTooLarge;
      }
      var row := HeapRow(rid.value, false, values);
      assert heap[..|heap| - 1] == before;
      var failed := IndexRow(indexes, heap[..|heap| - 1], row);
      r := FailureOf(failed, values);
      if failed.Some? {
        NotEntered(indexes[failed.value], before, row);
        if AllRoomy(indexes) {
          RoomyTakes(indexes[failed.value], row);
        }
      }
    }

    function FailureOf(failed: Option<nat>, values: Row): Outcome
      requires failed.Some? ==> failed.value < |indexes|
      reads this
    {
      if failed.None? then Done
      else if HasKey(indexes[failed.value].keyAttrs, values) then IndexFull(failed.value)
      else NullKey(failed.value)
    }

    /** DELETE of one row: out of every index, then marked in the heap. */
    method DeleteRow(i: nat)
      requires Valid() && i < |heap| && !heap[i].deleted
      modifies this`heap, Trees(indexes)
      ensures Valid() && heap == Deleted(old(heap), i)
    {
      UnindexRow(indexes, heap, i);
      MarkedOk(types, heap, i);
      heap := Deleted(heap, i);
    }

    /** UPDATE of one row: the old version is marked, a new one appended, and every
        index moved from one to the other. If the new version fits no page, the old
        one stays marked and every index keeps its entry. If an index cannot take
        the new version once the old one is out, that index has neither, and those
        behind it have the old one. */
    method UpdateRow(i: nat, values: Row) returns (r: Outcome)
      requires Valid() && i < |heap| && !heap[i].deleted && RowMatches(values, types)
      modifies this`heap, this`lastPageId, this`lastCount, this`lastUsed, this`nextPageId, Trees(indexes)
      ensures HeapOk() && IndexesOk()
      ensures r == TupleTooLarge <==> old(TooLarge(values))
      ensures var row := HeapRow(old(NextRid(values)), false, values);
        && (r.Done? <==> !old(TooLarge(values)) && forall k {:trigger indexes[k]} :: 0 <= k < |indexes| ==> old(TakesFor(indexes[k], heap[i], row)))
        && heap == Deleted(old(heap), i) + (if r.TupleTooLarge? then [] else [row])
        && (r.Stuck() ==> StoppedAt(indexes, r.index, old(heap), heap, Deleted(old(heap), i), row)
                          && !old(TakesFor(indexes[r.index], heap[i], row)))
      ensures r.Stuck() ==> r.index < |indexes| && (r.NullKey? <==> !HasKey(indexes[r.index].keyAttrs, values))
      ensures r.TupleTooLarge? ==> AgreeIn(indexes, 0, |indexes|, old(heap))
      ensures Valid() <==> r.Done? || (r.TupleTooLarge? && indexes == [])
    {
      hide Agrees, IndexOk, Takes, TakesFor, RowMatches, HasKey;
      ghost var before := heap;
      var oldHeap := heap;
      MarkedOk(types, heap, i);
      heap := Deleted(heap, i);
      var rid := AppendTuple(values);
      if rid.None? {
        StaleEntries(indexes, before, i);
        return TupleTooLarge;
      }
      var row := HeapRow(rid.value, false, values);
      var failed := MoveRow(indexes, oldHeap, i, row);
      r := FailureOf(failed, values);
      if failed.Some? {
        NotEntered(indexes[failed.value], Deleted(before, i), row);
      }
    }

    /** CREATE INDEX: enters every live row of the heap. A tree that only grows
        never runs full, so this fails exactly on columns that cannot be keys and
        on a null in a live row, and then nothing has changed. */
    method CreateIndex(oid: nat, keyAttrs: seq<nat>, leafMax: nat, internalMax: nat) returns (r: CreateResult)
      requires Valid() && forall k {:trigger indexes[k]} :: 0 <= k < |indexes| ==> indexes[k].oid != oid
      requires leafMax >= 2 && internalMax >= 3
      modifies this`indexes
      ensures Valid() && indexes == old(indexes) + if r.Created? then [r.index] else []
      ensures r.UnsupportedIndexType? <==> !(1 <= |keyAttrs| <= 2 && KeyedBy(types, keyAttrs))
      ensures r.Created? <==> !r.UnsupportedIndexType? && KeysOk(heap, keyAttrs)
      ensures r.Created? ==> r.index.oid == oid && r.index.keyAttrs == keyAttrs && fresh(r.index.tree) && Roomy(r.index)
      ensures r.Created? ==> r.index.tree.leafMax == leafMax && r.index.tree.internalMax == internalMax
      ensures r.Created? && heap == [] ==> Leaves(r.index.tree.pages) == map[]
    {
      if !(1 <= |keyAttrs| <= 2 && KeyedBy(types, keyAttrs)) {
        return UnsupportedIndexType;
      }
      var index, ok := BuildIndex(heap, oid, keyAttrs, leafMax, internalMax);
      if !ok {
        return NullInHeap;
      }
      indexes := indexes + [index];
      r := Created(index);
    }
  }

  method BuildIndex(heap: seq<HeapRow>, oid: nat, keyAttrs: seq<nat>, leafMax: nat, internalMax: nat)
      returns (index: TableIndex, ok: bool)
    requires HeapOrdered(heap) && leafMax >= 2 && internalMax >= 3
    ensures fresh(index.tree) && index.oid == oid && index.keyAttrs == keyAttrs
    ensures index.tree.leafMax == leafMax && index.tree.internalMax == internalMax
    ensures ok <==> KeysOk(heap, keyAttrs)
    ensures ok ==> IndexOk(index, heap) && Roomy(index) && (heap == [] ==> Leaves(index.tree.pages) == map[])
  {
    var tree := new BTree(leafMax, internalMax);
    index := TableIndex(oid, keyAttrs, tree);
    assert heap[..0] == [];
    hide IndexOk, Roomy, Takes, Entered, Leaves;
    NothingIndexed(index);
    var i: nat := 0;
    while i < |heap|
      invariant i <= |heap| && IndexOk(index, heap[..i]) && Roomy(index)
      invariant heap == [] ==> Leaves(index.tree.pages) == map[]
    {
      PrefixOk(heap, i);
      if heap[i].deleted {
        SkipsDead(index, heap[..i], heap[i]);
      } else {
        RoomyTakes(index, heap[i]);
        var done := EnterRow(index, heap[..i], heap[i]);
        if !done {
          assert !KeysOk(heap, keyAttrs);
          return index, false;
        }
      }
      assert heap[..i + 1] == heap[..i] + [heap[i]];
      i := i + 1;
    }
    assert heap[..i] == heap;
    assert KeysOk(heap, keyAttrs) by { IndexKeys(index, heap); }
    ok := true;
  }

  lemma IndexKeys(index: TableIndex, heap: seq<HeapRow>)
    requires IndexOk(index, heap)
    ensures KeysOk(heap, index.keyAttrs)
  {
  }

  lemma NothingIndexed(index: TableIndex)
    requires index.tree.Valid() && index.tree.Entries() == {} && index.tree.pages == map[]
    ensures IndexOk(index, []) && Leaves(index.tree.pages) == map[]
  {
  }

  lemma SkipsDead(index: TableIndex, heap: seq<HeapRow>, row: HeapRow)
    requires IndexOk(index, heap) && row.deleted
    ensures IndexOk(index, heap + [row])
  {
    DeadRow(heap, row, index.keyAttrs, index.tree.Entries());
  }

  lemma PrefixOk(heap: seq<HeapRow>, i: nat)
    requires HeapOrdered(heap) && i < |heap|
    ensures HeapOrdered(heap[..i] + [heap[i]])
  {
    assert heap[..i] + [heap[i]] == heap[..i + 1];
  }

  lemma MarkedOk(types: seq<SqlType>, heap: seq<HeapRow>, i: nat)
    requires HeapOrdered(heap) && i < |heap|
    requires forall k {:trigger heap[k]} :: 0 <= k < |heap| ==> RowMatches(heap[k].values, types)
    ensures HeapOrdered(Deleted(heap, i))
    ensures forall k {:trigger Deleted(heap, i)[k]} :: 0 <= k < |heap| ==> RowMatches(Deleted(heap, i)[k].values, types)
    ensures forall k {:trigger Deleted(heap, i)[k]} :: 0 <= k < |heap| ==> Deleted(heap, i)[k].rid == heap[k].rid
  {
  }

  /** A row marked deleted without being taken out leaves an index wrong. */
  lemma StaleEntry(index: TableIndex, heap: seq<HeapRow>, i: nat)
    requires HeapOrdered(heap) && IndexOk(index, heap) && i < |heap| && !heap[i].deleted
    ensures !IndexOk(index, Deleted(heap, i))
  {
    assert HasKey(index.keyAttrs, heap[i].values);
    RowRemoved(heap, i, index.keyAttrs, index.tree.Entries());
    var e := EntryFor(index.keyAttrs, heap[i].values, heap[i].rid);
    assert e in index.tree.Entries() && !IsLiveEntry(Deleted(heap, i), index.keyAttrs, e);
  }

  lemma StaleEntries(indexes: seq<TableIndex>, heap: seq<HeapRow>, i: nat)
    requires AgreeIn(indexes, 0, |indexes|, heap) && HeapOrdered(heap) && i < |heap| && !heap[i].deleted
    ensures AgreeIn(indexes, 0, |indexes|, Deleted(heap, i)) <==> indexes == []
  {
    if indexes != [] {
      StaleEntry(indexes[0], heap, i);
    }
  }

  /** An index that agrees with the heap without a new row does not with it. */
  lemma NotEntered(index: TableIndex, heap: seq<HeapRow>, row: HeapRow)
    requires IndexOk(index, heap) && HeapOrdered(heap + [row]) && !row.deleted
    ensures !IndexOk(index, heap + [row])
  {
    if !HasKey(index.keyAttrs, row.values) {
      assert (heap + [row])[|heap|] == row;
      return;
    }
    var e := EntryFor(index.keyAttrs, row.values, row.rid);
    NewRid(heap, row);
    RowIsNew(heap, index.keyAttrs, index.tree.Entries(), e.key, e.rid);
    RowAdded(heap, row, index.keyAttrs, index.tree.Entries());
    assert IsLiveEntry(heap + [row], index.keyAttrs, e);
  }

  /** The table as plans see it, with the entries of its indexes listed in order. */
  lemma TableIsOk(table: IndexedTable, indexes: seq<Index>)
    requires table.Valid() && |indexes| == |table.indexes|
    requires forall k {:trigger indexes[k]} :: 0 <= k < |indexes| ==>
      && indexes[k].oid == table.indexes[k].oid && indexes[k].keyAttrs == table.indexes[k].keyAttrs
      && Sorted(indexes[k].entries) && forall e :: e in indexes[k].entries <==> e in table.indexes[k].tree.Entries()
    ensures TableOk(Table(table.types, table.heap, indexes))
  {
    var t := Table(table.types, table.heap, indexes);
    forall k | 0 <= k < |t.indexes|
      ensures IndexAgrees(t.heap, t.indexes[k]) && t.indexes[k].oid == table.indexes[k].oid && KeyedBy(table.types, t.indexes[k].keyAttrs)
    {
      assert IndexOk(table.indexes[k], table.heap);
      ListedAgrees(t.heap, t.indexes[k], table.indexes[k].tree.Entries());
    }
  }
}
