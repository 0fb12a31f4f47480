/** An index that agrees with its heap finds, for a key, exactly the live rows
    with that key, in heap order. */
module IndexLookup {
  import opened Common
  import opened Entries
  import opened Expressions
  import opened KeyEncoder
  import opened Plans

  predicate RidLess(a: Rid, b: Rid) {
    a.pageId < b.pageId || (a.pageId == b.pageId && a.slotId < b.slotId)
  }

  /** Heap order is row identifier order: pages are chained in id order. */
  ghost predicate HeapOrdered(heap: seq<HeapRow>) {
    forall i, j :: 0 <= i < j < |heap| ==> RidLess(heap[i].rid, heap[j].rid)
  }

  /** All live rows have a key that can be encoded. */
  ghost predicate KeysOk(heap: seq<HeapRow>, attrs: seq<nat>) {
    forall i {:trigger heap[i]} :: 0 <= i < |heap| && !heap[i].deleted ==>
      InRange(attrs, heap[i].values) && KeyOk(Pick(attrs, heap[i].values))
  }

  /** What the index of a heap has to hold. */
  ghost function LiveEntries(heap: seq<HeapRow>, attrs: seq<nat>): seq<Entry>
    requires KeysOk(heap, attrs)
  {
    if heap == [] then []
    else
      (if heap[0].deleted then [] else [Entry(KeyNumber(Pick(attrs, heap[0].values)), heap[0].rid)])
      + LiveEntries(heap[1..], attrs)
  }

  /** The index holds exactly the live rows, in index order. */
  ghost predicate IndexAgrees(heap: seq<HeapRow>, index: Index) {
    && KeysOk(heap, index.keyAttrs) && Sorted(index.entries)
    && forall e :: e in index.entries <==> e in LiveEntries(heap, index.keyAttrs)
  }

  /** The entries under one key. */
  function Under(entries: seq<Entry>, key: int): seq<Entry> {
    if entries == [] then []
    else (if entries[0].key == key then [entries[0]] else []) + Under(entries[1..], key)
  }

  lemma {:induction false} ScanKeyUnder(entries: seq<Entry>, key: int)
    ensures |ScanKey(entries, key)| == |Under(entries, key)|
    ensures forall i :: 0 <= i < |Under(entries, key)| ==> ScanKey(entries, key)[i] == Under(entries, key)[i].rid
  {
    if entries != [] {
      ScanKeyUnder(entries[1..], key);
    }
  }

  lemma {:induction false} UnderMembers(entries: seq<Entry>, key: int)
    ensures forall e :: e in Under(entries, key) <==> e in entries && e.key == key
  {
    if entries != [] {
      UnderMembers(entries[1..], key);
      assert entries == [entries[0]] + entries[1..];
    }
  }

  /** Sorted as far as one key goes. */
  ghost predicate SortedWithin(entries: seq<Entry>) {
    forall i, j :: 0 <= i < j < |entries| && entries[i].key == entries[j].key ==> Lt(entries[i], entries[j])
  }

  lemma {:induction false} UnderSorted(entries: seq<Entry>, key: int)
    requires SortedWithin(entries)
    ensures Sorted(Under(entries, key))
  {
    if entries != [] {
      UnderSorted(entries[1..], key);
      UnderMembers(entries[1..], key);
      var rest := Under(entries[1..], key);
      forall i | 0 <= i < |rest|
        ensures entries[0].key == key ==> Lt(entries[0], rest[i])
      {
        assert rest[i] in rest;
        var j :| 0 <= j < |entries[1..]| && entries[1..][j] == rest[i];
        assert entries[j + 1] == rest[i];
      }
    }
  }

  lemma {:induction false} LiveEntriesAt(heap: seq<HeapRow>, attrs: seq<nat>, i: nat) returns (k: nat)
    requires KeysOk(heap, attrs) && i < |LiveEntries(heap, attrs)|
    ensures k < |heap| && !heap[k].deleted
    ensures LiveEntries(heap, attrs)[i] == Entry(KeyNumber(Pick(attrs, heap[k].values)), heap[k].rid)
  {
    if heap[0].deleted {
      k := LiveEntriesAt(heap[1..], attrs, i);
      k := k + 1;
    } else if i == 0 {
      k := 0;
    } else {
      k := LiveEntriesAt(heap[1..], attrs, i - 1);
      k := k + 1;
    }
  }

  lemma {:induction false} LiveEntriesSorted(heap: seq<HeapRow>, attrs: seq<nat>)
    requires KeysOk(heap, attrs) && HeapOrdered(heap)
    ensures SortedWithin(LiveEntries(heap, attrs))
  {
    if heap != [] {
      LiveEntriesSorted(heap[1..], attrs);
      var rest := LiveEntries(heap[1..], attrs);
      forall j | 0 <= j < |rest|
        ensures RidLess(heap[0].rid, rest[j].rid)
      {
        var k := LiveEntriesAt(heap[1..], attrs, j);
        assert heap[1..][k] == heap[k + 1];
      }
    }
  }

  /** The index and the heap scan list the same row identifiers under a key, in
      the same order. */
  lemma ScanKeyIsHeapOrder(heap: seq<HeapRow>, index: Index, key: int)
    requires HeapOrdered(heap) && IndexAgrees(heap, index)
    ensures ScanKey(index.entries, key) == ScanKey(LiveEntries(heap, index.keyAttrs), key)
  {
    var live := LiveEntries(heap, index.keyAttrs);
    LiveEntriesSorted(heap, index.keyAttrs);
    UnderSorted(live, key);
    UnderSorted(index.entries, key);
    UnderMembers(live, key);
    UnderMembers(index.entries, key);
    SortedUnique(Under(live, key), Under(index.entries, key));
    ScanKeyUnder(live, key);
    ScanKeyUnder(index.entries, key);
  }

  // ---- from row identifiers back to rows -------------------------------------------------------

  /** The rows with a given key. */
  function WhereKey(rows: seq<Row>, attrs: seq<nat>, key: Row): seq<Row> {
    if rows == [] then []
    else (if InRange(attrs, rows[0]) && Pick(attrs, rows[0]) == key then [rows[0]] else []) + WhereKey(rows[1..], attrs, key)
  }

  lemma {:induction false} RowAtFinds(heap: seq<HeapRow>, i: nat)
    requires HeapOrdered(heap) && i < |heap|
    ensures RowAt(heap, heap[i].rid) == Some(heap[i])
  {
    if i > 0 {
      RowAtFinds(heap[1..], i - 1);
    }
  }

  /** Keys of one index have one type per column. */
  ghost predicate OneTyped(heap: seq<HeapRow>, attrs: seq<nat>, key: Row) {
    forall i {:trigger heap[i]} :: 0 <= i < |heap| && !heap[i].deleted ==>
      InRange(attrs, heap[i].values) && SameTypes(Pick(attrs, heap[i].values), key)
  }

  lemma {:induction false} FetchScanned(heap: seq<HeapRow>, from: nat, attrs: seq<nat>, key: Row)
    requires HeapOrdered(heap) && KeysOk(heap, attrs) && OneTyped(heap, attrs, key) && KeyOk(key) && from <= |heap|
    ensures KeysOk(heap[from..], attrs)
    ensures FetchRows(heap, ScanKey(LiveEntries(heap[from..], attrs), KeyNumber(key))) == WhereKey(LiveRows(heap[from..]), attrs, key)
    decreases |heap| - from
  {
    if from < |heap| {
      FetchScanned(heap, from + 1, attrs, key);
      var suffix := heap[from..];
      assert suffix[0] == heap[from] && suffix[1..] == heap[from + 1..];
      if heap[from].deleted {
        assert LiveEntries(suffix, attrs) == LiveEntries(suffix[1..], attrs);
        assert LiveRows(suffix) == LiveRows(suffix[1..]);
      } else {
        FetchLive(heap, from, attrs, key);
      }
    }
  }

  lemma FetchLive(heap: seq<HeapRow>, from: nat, attrs: seq<nat>, key: Row)
    requires HeapOrdered(heap) && KeysOk(heap, attrs) && OneTyped(heap, attrs, key) && KeyOk(key) && from < |heap|
    requires !heap[from].deleted && KeysOk(heap[from + 1..], attrs)
    requires FetchRows(heap, ScanKey(LiveEntries(heap[from + 1..], attrs), KeyNumber(key)))
      == WhereKey(LiveRows(heap[from + 1..]), attrs, key)
    ensures KeysOk(heap[from..], attrs)
    ensures FetchRows(heap, ScanKey(LiveEntries(heap[from..], attrs), KeyNumber(key))) == WhereKey(LiveRows(heap[from..]), attrs, key)
  {
    var suffix, row := heap[from..], heap[from];
    var rest := LiveEntries(heap[from + 1..], attrs);
    assert suffix[0] == row && suffix[1..] == heap[from + 1..];
    var first := Entry(KeyNumber(Pick(attrs, row.values)), row.rid);
    KeyNumberOrder(Pick(attrs, row.values), key);
    RowAtFinds(heap, from);
    FetchStep(heap, row, first, rest, LiveRows(suffix[1..]), attrs, key, KeyNumber(key));
  }

  lemma FetchStep(heap: seq<HeapRow>, row: HeapRow, first: Entry, rest: seq<Entry>, rows: seq<Row>, attrs: seq<nat>, key: Row, k: int)
    requires RowAt(heap, row.rid) == Some(row) && !row.deleted && first.rid == row.rid && InRange(attrs, row.values)
    requires first.key == k <==> Pick(attrs, row.values) == key
    requires FetchRows(heap, ScanKey(rest, k)) == WhereKey(rows, attrs, key)
    ensures FetchRows(heap, ScanKey([first] + rest, k)) == WhereKey([row.values] + rows, attrs, key)
  {
    ScanKeyCons(first, rest, k);
    WhereCons(row.values, rows, attrs, key);
    if first.key == k {
      FetchCons(heap, row.rid, ScanKey(rest, k));
    } else {
      assert ScanKey([first] + rest, k) == ScanKey(rest, k);
    }
  }

  lemma ScanKeyCons(e: Entry, rest: seq<Entry>, key: int)
    ensures ScanKey([e] + rest, key) == (if e.key == key then [e.rid] else []) + ScanKey(rest, key)
  {
    assert ([e] + rest)[1..] == rest;
  }

  lemma FetchCons(heap: seq<HeapRow>, rid: Rid, rest: seq<Rid>)
    ensures var row := RowAt(heap, rid);
      FetchRows(heap, [rid] + rest) == (if row.Some? && !row.value.deleted then [row.value.values] else []) + FetchRows(heap, rest)
  {
    assert ([rid] + rest)[1..] == rest;
  }

  lemma WhereCons(row: Row, rest: seq<Row>, attrs: seq<nat>, key: Row)
    ensures WhereKey([row] + rest, attrs, key)
      == (if InRange(attrs, row) && Pick(attrs, row) == key then [row] else []) + WhereKey(rest, attrs, key)
  {
    assert ([row] + rest)[1..] == rest;
  }

  /** Looking a key up in the index and fetching the rows is a filtered scan. */
  lemma LookupIsFilteredScan(heap: seq<HeapRow>, index: Index, key: Row)
    requires HeapOrdered(heap) && IndexAgrees(heap, index) && OneTyped(heap, index.keyAttrs, key) && KeyOk(key)
    ensures FetchRows(heap, ScanKey(index.entries, KeyNumber(key))) == WhereKey(LiveRows(heap), index.keyAttrs, key)
  {
    ScanKeyIsHeapOrder(heap, index, KeyNumber(key));
    FetchScanned(heap, 0, index.keyAttrs, key);
    assert heap[0..] == heap;
  }
}
