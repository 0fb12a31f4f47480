/** Leaf pages of the B+ tree index: entries in order, a list of tombstoned
    positions (oldest first) and the link to the next leaf. */
module LeafPages {
  import opened Common
  import opened Entries

  /** The entries at positions lo..hi that are not tombstoned. */
  function LiveIn(es: seq<Entry>, ts: seq<nat>, lo: nat, hi: nat): seq<Entry>
    requires hi <= |es|
  {
    if lo >= hi then []
    else LiveIn(es, ts, lo, hi - 1) + if hi - 1 in ts then [] else [es[hi - 1]]
  }

  // ---- tombstone lists under page operations --------------------------

  function ShiftUp(ts: seq<nat>, idx: nat): seq<nat> {
    seq(|ts|, i requires 0 <= i < |ts| => if ts[i] >= idx then ts[i] + 1 else ts[i])
  }

  function DropTomb(ts: seq<nat>, idx: nat): seq<nat> {
    if ts == [] then [] else
      var rest, t := DropTomb(ts[..|ts| - 1], idx), ts[|ts| - 1];
      if t == idx then rest else rest + [if t > idx then t - 1 else t]
  }

  function KeepBelow(ts: seq<nat>, bound: nat): seq<nat> {
    if ts == [] then [] else
      var rest, t := KeepBelow(ts[..|ts| - 1], bound), ts[|ts| - 1];
      if t < bound then rest + [t] else rest
  }

  function Without(ts: seq<nat>, idx: nat): seq<nat> {
    if ts == [] then [] else
      var rest, t := Without(ts[..|ts| - 1], idx), ts[|ts| - 1];
      if t == idx then rest else rest + [t]
  }

  function Raise(ts: seq<nat>, d: nat): seq<nat> {
    seq(|ts|, i requires 0 <= i < |ts| => ts[i] + d)
  }

  /** What a leaf page holds. Entry `i` is dead when `i` is listed in `tombs`. */
  datatype Leaf = Leaf(entries: seq<Entry>, tombs: seq<nat>, next: PageId) {

    function Live(): seq<Entry> {
      LiveIn(entries, tombs, 0, |entries|)
    }

    /** Every tombstone names an entry, no two name the same one. */
    ghost predicate Proper() {
      && (forall i :: 0 <= i < |tombs| ==> tombs[i] < |entries|)
      && (forall i, j :: 0 <= i < j < |tombs| ==> tombs[i] != tombs[j])
    }

    // ---- what each page operation does to the content ----

    function InsertAt(idx: nat, e: Entry): Leaf
      requires idx <= |entries|
    {
      Leaf(entries[..idx] + [e] + entries[idx..], ShiftUp(tombs, idx), next)
    }

    function RemoveAt(idx: nat): Leaf
      requires idx < |entries|
    {
      Leaf(entries[..idx] + entries[idx + 1..], DropTomb(tombs, idx), next)
    }

    function AddTombstone(idx: nat): Leaf {
      Leaf(entries, tombs + [idx], next)
    }

    function RemoveTombstoneAt(idx: nat): Leaf {
      Leaf(entries, Without(tombs, idx), next)
    }

    /** The part that stays when the entries from `start` on move to a sibling. */
    function SplitLeft(start: nat): Leaf
      requires start <= |entries|
    {
      Leaf(entries[..start], KeepBelow(tombs, start), next)
    }

    /** The entries that arrive at that sibling. */
    function SplitRight(start: nat): seq<Entry>
      requires start <= |entries|
    {
      LiveIn(entries, tombs, start, |entries|)
    }

    function Compact(): Leaf {
      if tombs == [] then this else Leaf(Live(), [], next)
    }

    function Coalesce(r: Leaf): Leaf {
      Leaf(entries + r.entries, tombs + Raise(r.tombs, |entries|), next)
    }
  }

  // ---- the page in memory ----------------------------------------------

  const ZERO_ENTRY := Entry(0, Rid(0, 0))

  /** A latched leaf page: an entry array of `maxSize` slots of which `size`
      are used, and a tombstone array of TOMB_CAP slots. */
  class LeafPage {
    const maxSize: nat
    const tombCap: nat
    var entries: array<Entry>
    var tombs: array<nat>
    var size: nat
    var numTombs: nat
    var next: PageId

    ghost predicate Valid()
      reads this
    {
      && entries.Length == maxSize
      && tombs.Length == tombCap
      && size <= maxSize
      && numTombs <= tombCap
    }

    /** The page's content as a value. */
    function Data(): Leaf
      reads this, entries, tombs
      requires Valid()
    {
      Leaf(entries[..size], tombs[..numTombs], next)
    }

    constructor Init(maxSize: nat, tombCap: nat)
      ensures Valid() && fresh(entries) && fresh(tombs)
      ensures this.maxSize == maxSize && this.tombCap == tombCap
      ensures Data() == Leaf([], [], INVALID_PAGE_ID)
    {
      this.maxSize, this.tombCap := maxSize, tombCap;
      entries := new Entry[maxSize](_ => ZERO_ENTRY);
      tombs := new nat[tombCap](_ => 0);
      size, numTombs, next := 0, 0, INVALID_PAGE_ID;
    }

    /** Latches the page whose bytes are `l`. */
    constructor FromData(maxSize: nat, tombCap: nat, l: Leaf)
      requires |l.entries| <= maxSize && |l.tombs| <= tombCap
      ensures Valid() && fresh(entries) && fresh(tombs)
      ensures this.maxSize == maxSize && this.tombCap == tombCap
      ensures Data() == l
    {
      this.maxSize, this.tombCap := maxSize, tombCap;
      entries := new Entry[maxSize](i requires 0 <= i => if i < |l.entries| then l.entries[i] else ZERO_ENTRY);
      tombs := new nat[tombCap](i requires 0 <= i => if i < |l.tombs| then l.tombs[i] else 0);
      size, numTombs, next := |l.entries|, |l.tombs|, l.next;
    }

    function MinSize(): nat
      reads this
    {
      maxSize / 2
    }

    predicate IsInsertSafe()
      reads this
    {
      size + 1 < maxSize
    }

    predicate IsDeleteSafe()
      reads this
    {
      size > MinSize()
    }

    /** Position of the first entry not before `e`. */
    method FindInsertPos(e: Entry) returns (pos: nat)
      requires Valid() && Sorted(Data().entries)
      ensures IsLowerBound(Data().entries, e, pos)
    {
      ghost var s := Data().entries;
      var left, right := 0, size;
      while left < right
        invariant left <= right <= size
        invariant forall i :: 0 <= i < left ==> Lt(s[i], e)
        invariant forall i :: right <= i < size ==> !Lt(s[i], e)
      {
        var mid := left + (right - left) / 2;
        assert entries[mid] == s[mid];
        if CompareEntry(entries[mid], e).Less? {
          left := mid + 1;
        } else {
          right := mid;
        }
      }
      pos := left;
    }

    /** Position of the first entry whose key is at least `key`. */
    method FindPos(key: int) returns (pos: nat)
      requires Valid() && Sorted(Data().entries)
      ensures pos <= size
      ensures forall i :: 0 <= i < pos ==> Data().entries[i].key < key
      ensures forall i :: pos <= i < size ==> Data().entries[i].key >= key
    {
      ghost var s := Data().entries;
      var left, right := 0, size;
      while left < right
        invariant left <= right <= size
        invariant forall i :: 0 <= i < left ==> s[i].key < key
        invariant forall i :: right <= i < size ==> s[i].key >= key
      {
        var mid := left + (right - left) / 2;
        assert entries[mid] == s[mid];
        if CompareInt(entries[mid].key, key).Less? {
          left := mid + 1;
        } else {
          right := mid;
        }
      }
      pos := left;
    }

    method IsIdxTombstoned(idx: nat) returns (dead: bool)
      requires Valid()
      ensures dead <==> idx in Data().tombs
    {
      for i := 0 to numTombs
        invariant idx !in tombs[..i]
      {
        if tombs[i] == idx {
          return true;
        }
      }
      dead := false;
    }

    method InsertAt(idx: nat, e: Entry)
      requires Valid() && idx <= size < maxSize
      modifies this`size, entries, tombs
      ensures Valid() && Data() == old(Data()).InsertAt(idx, e)
    {
      ShiftTombstonesUp(idx);
      OpenGap(idx, e);
    }

    method ShiftTombstonesUp(idx: nat)
      requires Valid()
      modifies tombs
      ensures tombs[..numTombs] == ShiftUp(old(tombs[..numTombs]), idx)
    {
      for i := 0 to numTombs
        invariant tombs[..i] == ShiftUp(old(tombs[..numTombs]), idx)[..i]
        invariant forall k :: i <= k < numTombs ==> tombs[k] == old(tombs[k])
      {
        if tombs[i] >= idx {
          tombs[i] := tombs[i] + 1;
        }
      }
    }

    method OpenGap(idx: nat, e: Entry)
      requires Valid() && idx <= size < maxSize
      modifies this`size, entries
      ensures Valid() && size == old(size) + 1
      ensures entries[..size] == old(entries[..size])[..idx] + [e] + old(entries[..size])[idx..]
    {
      ghost var es := entries[..size];
      for i := size downto idx
        modifies entries
        invariant forall k :: 0 <= k < i ==> entries[k] == es[k]
        invariant forall k :: i < k <= size ==> entries[k] == es[k - 1]
      {
        entries[i + 1] := entries[i];
      }
      entries[idx] := e;
      size := size + 1;
      assert entries[..size] == es[..idx] + [e] + es[idx..];
    }

    /** Removes the entry at `idx`, together with its tombstone if it has one. */
    method RemoveAt(idx: nat)
      requires Valid() && idx < size
      modifies this`size, this`numTombs, entries, tombs
      ensures Valid() && Data() == old(Data()).RemoveAt(idx)
    {
      CloseGap(idx);
      DropTombstone(idx);
    }

    method CloseGap(idx: nat)
      requires Valid() && idx < size
      modifies this`size, entries
      ensures Valid() && size == old(size) - 1
      ensures entries[..size] == old(entries[..size])[..idx] + old(entries[..size])[idx + 1..]
    {
      ghost var es := entries[..size];
      for i := idx + 1 to size
        modifies entries
        invariant forall k :: 0 <= k < idx || i - 1 <= k < size ==> entries[k] == es[k]
        invariant forall k :: idx <= k < i - 1 ==> entries[k] == es[k + 1]
      {
        entries[i - 1] := entries[i];
      }
      size := size - 1;
      assert entries[..size] == es[..idx] + es[idx + 1..];
    }

    method DropTombstone(idx: nat)
      requires Valid()
      modifies this`numTombs, tombs
      ensures Valid() && tombs[..numTombs] == DropTomb(old(tombs[..numTombs]), idx)
    {
      ghost var ts := tombs[..numTombs];
      var nextTomb := 0;
      for i := 0 to numTombs
        modifies tombs
        invariant nextTomb <= i
        invariant tombs[..nextTomb] == DropTomb(ts[..i], idx)
        invariant forall k :: i <= k < numTombs ==> tombs[k] == ts[k]
      {
        assert ts[..i + 1][..i] == ts[..i];
        var t := tombs[i];
        if t != idx {
          tombs[nextTomb] := if t > idx then t - 1 else t;
          nextTomb := nextTomb + 1;
        }
      }
      assert ts[..numTombs] == ts;
      numTombs := nextTomb;
    }

    method AddTombstone(idx: nat)
      requires Valid() && numTombs < tombCap && idx < size
      modifies this`numTombs, tombs
      ensures Valid() && Data() == old(Data()).AddTombstone(idx)
    {
      tombs[numTombs] := idx;
      numTombs := numTombs + 1;
    }

    /** Moves the live entries from `start` on to the end of the fresh page
        `recipient`, and drops everything from `start` on here. */
    method MoveSplitEntriesTo(recipient: LeafPage, start: nat)
      requires Valid() && recipient.Valid() && start < size
      requires this != recipient && entries != recipient.entries
      requires recipient.size == 0 && recipient.maxSize == maxSize
      modifies this`size, this`numTombs, tombs
      modifies recipient`size, recipient`numTombs, recipient.entries
      ensures Valid() && Data() == old(Data()).SplitLeft(start)
      ensures recipient.Valid()
      ensures recipient.Data() == old(recipient.Data()).(entries := old(Data()).SplitRight(start), tombs := [])
    {
      ghost var l := Data();
      var to := 0;
      for i := start to size
        modifies recipient.entries
        invariant to <= i
        invariant recipient.entries[..to] == LiveIn(l.entries, l.tombs, start, i)
        invariant Data() == l
      {
        var dead := IsIdxTombstoned(i);
        if !dead {
          recipient.entries[to] := entries[i];
          to := to + 1;
        }
      }
      recipient.size := to;
      recipient.numTombs := 0;
      assert recipient.entries[..to] == l.SplitRight(start);
      KeepTombsBelow(start);
      size := start;
      assert entries[..size] == l.entries[..start];
    }

    method KeepTombsBelow(bound: nat)
      requires Valid()
      modifies this`numTombs, tombs
      ensures Valid() && tombs[..numTombs] == KeepBelow(old(tombs[..numTombs]), bound)
    {
      ghost var ts := tombs[..numTombs];
      var kept := 0;
      for i := 0 to numTombs
        modifies tombs
        invariant kept <= i
        invariant tombs[..kept] == KeepBelow(ts[..i], bound)
        invariant forall k :: i <= k < numTombs ==> tombs[k] == ts[k]
      {
        assert ts[..i + 1][..i] == ts[..i];
        if tombs[i] < bound {
          tombs[kept] := tombs[i];
          kept := kept + 1;
        }
      }
      assert ts[..numTombs] == ts;
      numTombs := kept;
    }

    /** Undoes the deletion of the entry at `idx`. */
    method RemoveTombstoneAt(idx: nat)
      requires Valid() && idx < size
      modifies this`numTombs, tombs
      ensures Valid() && Data() == old(Data()).RemoveTombstoneAt(idx)
    {
      ghost var ts := tombs[..numTombs];
      var kept := 0;
      for i := 0 to numTombs
        modifies tombs
        invariant kept <= i
        invariant tombs[..kept] == Without(ts[..i], idx)
        invariant forall k :: i <= k < numTombs ==> tombs[k] == ts[k]
      {
        assert ts[..i + 1][..i] == ts[..i];
        if tombs[i] != idx {
          tombs[kept] := tombs[i];
          kept := kept + 1;
        }
      }
      assert ts[..numTombs] == ts;
      numTombs := kept;
    }

    method EvictOldestTombstone() returns (evicted: nat)
      requires Valid() && numTombs > 0 && Data().Proper()
      modifies this`size, this`numTombs, entries, tombs
      ensures Valid() && evicted == old(Data()).tombs[0]
      ensures Data() == old(Data()).RemoveAt(evicted)
    {
      evicted := tombs[0];
      assert Data().tombs[0] == evicted;
      RemoveAt(evicted);
    }

    /** Physically removes every tombstoned entry. */
    method RemoveAllTombstones()
      requires Valid()
      modifies this`size, this`numTombs, entries
      ensures Valid() && Data() == old(Data()).Compact()
    {
      if numTombs == 0 {
        return;
      }
      ghost var l := Data();
      var live: seq<Entry> := [];
      for i := 0 to size
        modifies {}
        invariant live == LiveIn(l.entries, l.tombs, 0, i) && |live| <= i
      {
        var dead := IsIdxTombstoned(i);
        if !dead {
          live := live + [entries[i]];
        }
      }
      size := |live|;
      numTombs := 0;
      for i := 0 to |live|
        modifies entries
        invariant entries[..i] == live[..i]
      {
        entries[i] := live[i];
      }
    }

    /** Appends all entries of `right`, keeping the tombstones of both. */
    method CoalesceRightIntoPage(right: LeafPage)
      requires Valid() && right.Valid() && this != right
      requires entries != right.entries && tombs != right.tombs
      requires size + right.size <= maxSize
      requires numTombs + right.numTombs <= tombCap
      requires right.Data().Proper()
      modifies this`size, this`numTombs, entries, tombs
      ensures Valid() && Data() == old(Data()).Coalesce(right.Data())
    {
      var leftSize := size;
      ghost var r := right.Data();
      assert forall k :: 0 <= k < right.numTombs ==> right.tombs[k] == r.tombs[k];
      AppendEntries(right);
      AppendTombstones(right, leftSize);
    }

    method AppendEntries(right: LeafPage)
      requires Valid() && right.Valid() && entries != right.entries && size + right.size <= maxSize
      modifies this`size, entries
      ensures Valid() && size == old(size) + right.size
      ensures entries[..size] == old(entries[..size]) + right.entries[..right.size]
    {
      var leftSize := size;
      for i := 0 to right.size
        modifies entries
        invariant entries[..leftSize] == old(entries[..leftSize])
        invariant entries[leftSize..leftSize + i] == right.entries[..i]
      {
        entries[leftSize + i] := right.entries[i];
      }
      size := leftSize + right.size;
      assert entries[..size] == old(entries[..leftSize]) + entries[leftSize..size];
    }

    method AppendTombstones(right: LeafPage, shift: nat)
      requires Valid() && right.Valid() && tombs != right.tombs && this != right
      requires numTombs + right.numTombs <= tombCap
      requires forall k :: 0 <= k < right.numTombs ==> right.tombs[k] + shift < size
      modifies this`numTombs, tombs
      ensures Valid() && tombs[..numTombs] == old(tombs[..numTombs]) + Raise(right.tombs[..right.numTombs], shift)
    {
      ghost var leftTombs, ts, rts := numTombs, tombs[..numTombs], Raise(right.tombs[..right.numTombs], shift);
      for i := 0 to right.numTombs
        modifies this`numTombs, tombs
        invariant Valid() && numTombs == leftTombs + i
        invariant tombs[..numTombs] == ts + rts[..i]
      {
        ghost var before := Data();
        AddTombstone(right.tombs[i] + shift);
        assert |Data().tombs| == numTombs && |Data().entries| == size;
        assert Data().tombs == before.tombs + [rts[i]];
      }
    }
  }
}
