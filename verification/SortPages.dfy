/** The slotted page of sort runs: a tuple count, tuple infos growing forward,
    tuple bytes growing backward from the end. */
module SortPages {
  import opened Common
  import opened Bytes
  import opened DiskManagers

  type PageBytes = d: Data | |d| == PAGE_SIZE witness Zeros(PAGE_SIZE)

  const INFOS_OFFSET: nat := 2
  const INFO_SIZE: nat := 4

  // ---- the fields of a page ------------------------------------------------------------------

  function U16(data: Data, at: nat): nat
    requires at + 2 <= |data|
  {
    var lo: nat, hi: nat := data[at], data[at + 1];
    lo + 256 * hi
  }

  function NumTuples(data: Data): nat
    requires |data| == PAGE_SIZE
  {
    U16(data, 0)
  }

  /** Where the info of tuple `n` goes. */
  function InfoAt(n: nat): nat { INFOS_OFFSET + INFO_SIZE * n }

  function TupleOffset(data: Data, i: nat): nat
    requires |data| == PAGE_SIZE && InfoAt(i + 1) <= PAGE_SIZE
  {
    U16(data, InfoAt(i))
  }

  function TupleSize(data: Data, i: nat): nat
    requires |data| == PAGE_SIZE && InfoAt(i + 1) <= PAGE_SIZE
  {
    U16(data, InfoAt(i) + 2)
  }

  // ---- the tuples of a page ------------------------------------------------------------------

  /** Bytes of the first `n` tuples. */
  function Total(ts: seq<Data>, n: nat): nat
    requires n <= |ts|
  {
    if n == 0 then 0 else Total(ts, n - 1) + |ts[n - 1]|
  }

  /** Bytes a page needs for some tuples and their infos. */
  function Used(ts: seq<Data>): nat {
    InfoAt(|ts|) + Total(ts, |ts|)
  }

  /** Info `i` describes the tuple `t` at [start, end). */
  predicate SlotAt(data: Data, i: nat, start: int, end: int, t: Data) {
    && |data| == PAGE_SIZE && InfoAt(i + 1) <= PAGE_SIZE && 0 <= start <= end <= PAGE_SIZE
    && TupleOffset(data, i) == start && TupleSize(data, i) == |t| && data[start..end] == t
  }

  /** Slot `i` leads to tuple `i`; each tuple ends where the one before starts. */
  predicate SlotOk(data: Data, ts: seq<Data>, i: nat)
    requires i < |ts|
  {
    SlotAt(data, i, PAGE_SIZE - Total(ts, i + 1), PAGE_SIZE - Total(ts, i), ts[i])
  }

  /** The page holds exactly these tuples, in slot order. */
  predicate HoldsTuples(data: Data, ts: seq<Data>) {
    && |data| == PAGE_SIZE && Used(ts) <= PAGE_SIZE && NumTuples(data) == |ts|
    && forall i {:trigger SlotOk(data, ts, i)} :: 0 <= i < |ts| ==> SlotOk(data, ts, i)
  }

  // ---- reading a page whatever it holds -------------------------------------------------------

  function TupleIn(data: Data, i: nat): Data
    requires |data| == PAGE_SIZE
  {
    if InfoAt(i + 1) <= PAGE_SIZE && TupleOffset(data, i) + TupleSize(data, i) <= PAGE_SIZE then
      data[TupleOffset(data, i)..TupleOffset(data, i) + TupleSize(data, i)]
    else []
  }

  /** The tuples the slots of a page lead to. */
  function TuplesOn(data: Data): (ts: seq<Data>)
    requires |data| == PAGE_SIZE
    ensures |ts| == NumTuples(data)
  {
    seq(NumTuples(data), i requires 0 <= i < NumTuples(data) => TupleIn(data, i))
  }

  /** The bytes are those of a slotted page, of whatever tuples. */
  predicate Slotted(data: Data) {
    |data| == PAGE_SIZE && HoldsTuples(data, TuplesOn(data))
  }

  predicate ReadsEmpty(data: Data) {
    |data| == PAGE_SIZE && NumTuples(data) == 0
  }

  lemma TuplesHeld(data: Data, ts: seq<Data>)
    requires HoldsTuples(data, ts)
    ensures TuplesOn(data) == ts && Slotted(data)
  {
    forall i | 0 <= i < |ts|
      ensures TupleIn(data, i) == ts[i]
    {
      assert SlotOk(data, ts, i);
      TotalMono(ts, i + 1, |ts|);
    }
    assert TuplesOn(data) == ts;
  }

  /** It is the count alone that makes a page empty. */
  lemma EmptyIsSlotted(data: Data)
    requires |data| == PAGE_SIZE
    ensures ReadsEmpty(data) <==> Slotted(data) && TuplesOn(data) == []
    ensures ReadsEmpty(data) <==> HoldsTuples(data, [])
  {
    if ReadsEmpty(data) {
      assert TuplesOn(data) == [];
    }
  }

  // ---- what tuples take ---------------------------------------------------------------------------

  lemma {:induction false} TotalMono(ts: seq<Data>, m: nat, n: nat)
    requires m <= n <= |ts|
    ensures Total(ts, m) <= Total(ts, n)
    ensures m > 0 ==> Total(ts, m) == Total(ts, m - 1) + |ts[m - 1]|
  {
    if m < n {
      TotalMono(ts, m, n - 1);
    }
  }

  lemma {:induction false} TotalPrefix(a: seq<Data>, b: seq<Data>, n: nat)
    requires n <= |a|
    ensures Total(a + b, n) == Total(a, n)
  {
    if n > 0 {
      TotalPrefix(a, b, n - 1);
    }
  }

  lemma {:induction false} TotalConcat(a: seq<Data>, b: seq<Data>, n: nat)
    requires n <= |b|
    ensures Total(a + b, |a| + n) == Total(a, |a|) + Total(b, n)
  {
    if n == 0 {
      TotalPrefix(a, b, |a|);
    } else {
      TotalConcat(a, b, n - 1);
      assert (a + b)[|a| + n - 1] == b[n - 1];
    }
  }

  /** What a page needs does not depend on the order of its tuples, so whatever
      came from a page goes back into it in any order. */
  lemma {:induction false} UsedPermutation(a: seq<Data>, b: seq<Data>)
    requires multiset(a) == multiset(b)
    ensures Used(a) == Used(b)
  {
    assert |a| == |multiset(a)| == |multiset(b)| == |b|;
    TotalPermutation(a, b);
  }

  lemma TakeOut(b: seq<Data>, i: nat)
    requires i < |b|
    ensures b == b[..i] + ([b[i]] + b[i + 1..])
    ensures multiset(b[..i] + b[i + 1..]) == multiset(b) - multiset{b[i]}
  {
    assert b == b[..i] + ([b[i]] + b[i + 1..]);
  }

  lemma TotalTakeOut(b: seq<Data>, i: nat)
    requires i < |b|
    ensures Total(b, |b|) == Total(b[..i] + b[i + 1..], |b| - 1) + |b[i]|
  {
    TakeOut(b, i);
    TotalMiddle(b[..i], b[i], b[i + 1..]);
  }

  lemma TotalMiddle(left: seq<Data>, x: Data, right: seq<Data>)
    ensures Total(left + ([x] + right), |left| + 1 + |right|) == Total(left + right, |left| + |right|) + |x|
  {
    hide Total;
    TotalConcat(left, [x] + right, 1 + |right|);
    TotalConcat([x], right, |right|);
    TotalConcat(left, right, |right|);
    TotalOne(x);
  }

  lemma TotalOne(x: Data)
    ensures Total([x], 1) == |x|
  {
    assert Total([x], 0) == 0;
  }

  lemma {:induction false} TotalPermutation(a: seq<Data>, b: seq<Data>)
    requires multiset(a) == multiset(b)
    ensures |a| == |b| && Total(a, |a|) == Total(b, |b|)
  {
    assert |a| == |multiset(a)| == |multiset(b)| == |b|;
    if a != [] {
      var n := |a| - 1;
      assert a == a[..n] + [a[n]];
      assert a[n] in multiset(b);
      var i :| 0 <= i < |b| && b[i] == a[n];
      TakeOut(b, i);
      TotalPermutation(a[..n], b[..i] + b[i + 1..]);
      TotalTakeOut(b, i);
      TotalPrefix(a[..n], [a[n]], n);
    }
  }

  // ---- operations ------------------------------------------------------------------------------

  /** A fresh page of zeros is an empty page. */
  lemma ZeroPage(data: Data)
    requires |data| == PAGE_SIZE && forall i :: 0 <= i < |data| ==> data[i] == 0
    ensures HoldsTuples(data, [])
  {
  }

  method Init(data: array<Byte>)
    requires data.Length == PAGE_SIZE
    modifies data
    ensures HoldsTuples(data[..], [])
  {
    forall i | 0 <= i < data.Length {
      data[i] := 0;
    }
    ZeroPage(data[..]);
  }

  method WriteU16(data: array<Byte>, at: nat, v: nat)
    requires at + 2 <= data.Length && v < 0x1_0000
    modifies data
    ensures U16(data[..], at) == v
    ensures forall i :: 0 <= i < data.Length && !(at <= i < at + 2) ==> data[i] == old(data[i])
  {
    data[at] := v % 256;
    data[at + 1] := v / 256;
  }

  /** Writes tuple `n` and its info, then counts it. */
  method WriteTuple(data: array<Byte>, n: nat, at: nat, t: Data)
    requires data.Length == PAGE_SIZE && InfoAt(n + 1) <= at && at + |t| <= PAGE_SIZE
    modifies data
    ensures NumTuples(data[..]) == n + 1 && TupleOffset(data[..], n) == at && TupleSize(data[..], n) == |t|
    ensures data[..][at..at + |t|] == t
    ensures forall i :: INFOS_OFFSET <= i < InfoAt(n) || at + |t| <= i < PAGE_SIZE ==> data[i] == old(data[i])
  {
    forall k | 0 <= k < |t| {
      data[at + k] := t[k];
    }
    WriteU16(data, InfoAt(n), at);
    WriteU16(data, InfoAt(n) + 2, |t|);
    WriteU16(data, 0, n + 1);
  }

  lemma SlotAtKeeps(a: Data, b: Data, n: nat, from: int, i: nat, start: int, end: int, t: Data)
    requires SlotAt(a, i, start, end, t) && |b| == PAGE_SIZE && i < n && InfoAt(n) <= PAGE_SIZE && from <= start
    requires forall k :: INFOS_OFFSET <= k < InfoAt(n) ==> b[k] == a[k]
    requires forall k :: 0 <= k && from <= k < PAGE_SIZE ==> b[k] == a[k]
    ensures SlotAt(b, i, start, end, t)
  {
    assert a[start..end] == b[start..end];
  }

  lemma SlotKeeps(a: Data, b: Data, ts: seq<Data>, t: Data, i: nat)
    requires HoldsTuples(a, ts) && |b| == PAGE_SIZE && i < |ts|
    requires forall k :: INFOS_OFFSET <= k < InfoAt(|ts|) ==> b[k] == a[k]
    requires forall k :: 0 <= k && PAGE_SIZE - Total(ts, |ts|) <= k < PAGE_SIZE ==> b[k] == a[k]
    ensures SlotOk(b, ts + [t], i)
  {
    hide SlotAt, InfoAt;
    hide Total;
    assert SlotOk(a, ts, i);
    TotalMono(ts, i + 1, |ts|);
    SlotAtKeeps(a, b, |ts|, PAGE_SIZE - Total(ts, |ts|), i, PAGE_SIZE - Total(ts, i + 1), PAGE_SIZE - Total(ts, i), ts[i]);
    TotalPrefix(ts, [t], i);
    TotalPrefix(ts, [t], i + 1);
  }

  /** A tuple goes in exactly if the page has room for its bytes and its info. */
  method InsertTuple(data: array<Byte>, t: Data, ghost ts: seq<Data>) returns (slot: Option<nat>)
    requires HoldsTuples(data[..], ts)
    modifies data
    ensures slot == if Used(ts + [t]) <= PAGE_SIZE then Some(|ts|) else None
    ensures slot.Some? ==> HoldsTuples(data[..], ts + [t])
    ensures slot.None? ==> data[..] == old(data[..])
  {
    ghost var before := data[..];
    var n := NumTuples(data[..]);
    TotalPrefix(ts, [t], n);
    if n > 0 {
      assert SlotOk(before, ts, n - 1);
    }
    var freeStart := InfoAt(n);
    var freeEnd := if n == 0 then PAGE_SIZE else TupleOffset(data[..], n - 1);
    if INFO_SIZE + |t| > freeEnd - freeStart {
      return None;
    }
    WriteTuple(data, n, freeEnd - |t|, t);
    forall i | 0 <= i < n
      ensures SlotOk(data[..], ts + [t], i)
    {
      SlotKeeps(before, data[..], ts, t, i);
    }
    assert SlotOk(data[..], ts + [t], n);
    slot := Some(n);
  }

  method GetTuple(data: array<Byte>, slot: nat, ghost ts: seq<Data>) returns (t: Data)
    requires HoldsTuples(data[..], ts) && slot < |ts|
    ensures t == ts[slot]
  {
    assert SlotOk(data[..], ts, slot);
    TotalMono(ts, slot + 1, |ts|);
    var start, size := TupleOffset(data[..], slot), TupleSize(data[..], slot);
    t := data[..][start..start + size];
  }

  method AllTuples(data: array<Byte>, ghost ts: seq<Data>) returns (all: seq<Data>)
    requires HoldsTuples(data[..], ts)
    ensures all == ts
  {
    all := [];
    var n := NumTuples(data[..]);
    var i: nat := 0;
    while i < n
      invariant i <= n == |ts| && all == ts[..i]
    {
      var t := GetTuple(data, i, ts);
      all := all + [t];
      i := i + 1;
    }
  }
}
