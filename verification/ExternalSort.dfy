/** External merge sort: fill pages with the rows as they come, sort each page in
    place, merge runs two by two, and read the last run back. */
module ExternalSort {
  import opened Common
  import opened SortOrder
  import opened SortRuns
  import Disk = DiskManagers
  import opened SortPages

  type Tuple = Disk.Data

  /** The order, and how a tuple's sort key is made from its bytes. */
  datatype Sorter = Sorter(order: Comparator, entryOf: Tuple -> SortEntry) {
    predicate Sortable(t: Tuple) {
      order.Ok() && order.Fits(entryOf(t))
    }

    function Entries(ts: seq<Tuple>): (es: seq<SortEntry>)
      ensures |es| == |ts| && forall i :: 0 <= i < |ts| ==> es[i] == entryOf(ts[i])
    {
      seq(|ts|, i requires 0 <= i < |ts| => entryOf(ts[i]))
    }

    /** All tuples have comparable keys. */
    predicate Fit(ts: seq<Tuple>) {
      order.Ok() && forall i {:trigger ts[i]} :: 0 <= i < |ts| ==> Sortable(ts[i])
    }

    predicate Le(a: Tuple, b: Tuple)
      requires Sortable(a) && Sortable(b)
    {
      order.Le(entryOf(a), entryOf(b))
    }

    /** The library's stable sort, one tuple at a time. */
    function Place(ts: seq<Tuple>, t: Tuple): (r: seq<Tuple>)
      requires Fit(ts) && Sortable(t)
      ensures Fit(r) && multiset(r) == multiset(ts) + multiset{t}
    {
      if ts == [] then [t]
      else if Le(ts[|ts| - 1], t) then ts + [t]
      else
        var n := |ts| - 1;
        assert ts == ts[..n] + [ts[n]];
        Place(ts[..n], t) + [ts[n]]
    }

    function SortBy(ts: seq<Tuple>): (r: seq<Tuple>)
      requires Fit(ts)
      ensures Fit(r) && multiset(r) == multiset(ts)
    {
      if ts == [] then []
      else
        var n := |ts| - 1;
        assert ts == ts[..n] + [ts[n]];
        Place(SortBy(ts[..n]), ts[n])
    }

    lemma EntriesConcat(a: seq<Tuple>, b: seq<Tuple>)
      ensures Entries(a + b) == Entries(a) + Entries(b)
    {
    }

    lemma FitEntries(ts: seq<Tuple>)
      requires Fit(ts)
      ensures order.FitAll(Entries(ts))
    {
      forall i | 0 <= i < |ts|
        ensures order.Fits(Entries(ts)[i])
      {
        assert Sortable(ts[i]);
      }
    }

    lemma {:induction false} PlaceIsInsertLast(ts: seq<Tuple>, t: Tuple)
      requires Fit(ts) && Sortable(t)
      ensures order.FitAll(Entries(ts)) && Entries(Place(ts, t)) == order.InsertLast(Entries(ts), entryOf(t))
    {
      FitEntries(ts);
      if ts == [] {
        assert Entries([t]) == [entryOf(t)];
      } else {
        var n := |ts| - 1;
        assert Entries(ts)[..n] == Entries(ts[..n]);
        if !Le(ts[n], t) {
          PlaceIsInsertLast(ts[..n], t);
          EntriesConcat(Place(ts[..n], t), [ts[n]]);
          assert Entries([ts[n]]) == [entryOf(ts[n])];
        } else {
          EntriesConcat(ts, [t]);
          assert Entries([t]) == [entryOf(t)];
        }
      }
    }

    lemma {:induction false} SortByIsStable(ts: seq<Tuple>)
      requires Fit(ts)
      ensures order.FitAll(Entries(ts)) && Entries(SortBy(ts)) == order.StableSort(Entries(ts))
    {
      FitEntries(ts);
      if ts != [] {
        var n := |ts| - 1;
        SortByIsStable(ts[..n]);
        assert Entries(ts)[..n] == Entries(ts[..n]);
        PlaceIsInsertLast(SortBy(ts[..n]), ts[n]);
      }
    }

    /** The run `ts` is the stable sort of the tuples `input`. */
    ghost predicate SortedFrom(ts: seq<Tuple>, input: seq<Tuple>) {
      && Fit(ts) && Fit(input)
      && order.FitAll(Entries(input)) && Entries(ts) == order.StableSort(Entries(input))
    }
  }

  /** What a run is to its input: as long as no page brought tuples along, the
      input's stable sort, and in any case the same tuples. */
  ghost predicate RunOk(s: Sorter, clean: bool, ts: seq<Tuple>, input: seq<Tuple>) {
    && s.Fit(ts) && s.Fit(input) && multiset(s.Entries(ts)) == multiset(s.Entries(input))
    && (clean ==> s.SortedFrom(ts, input))
  }

  lemma SortedRunOk(s: Sorter, clean: bool, ts: seq<Tuple>, input: seq<Tuple>)
    requires s.SortedFrom(ts, input)
    ensures RunOk(s, clean, ts, input)
  {
  }

  /** The pages are `base` and those listed, each listed once. */
  ghost predicate Held(pages: Pages, base: Pages, ids: seq<PageId>) {
    && Distinct(ids) && pages.Keys == base.Keys + IdSet(ids) && base.Keys !! IdSet(ids)
    && forall p {:trigger base[p]} :: p in base ==> pages[p] == base[p]
  }

  // ---- writing a run -----------------------------------------------------------------------------

  lemma AppendedContents(before: Pages, after: Pages, ids: seq<PageId>, t: Tuple)
    requires ids != [] && Distinct(ids) && forall p :: p in ids ==> p in before
    requires var last := ids[|ids| - 1]; after == before[last := before[last] + [t]]
    ensures Contents(after, ids) == Contents(before, ids) + [t]
  {
    var n := |ids| - 1;
    assert ids == ids[..n] + [ids[n]];
    ContentsConcat(before, ids[..n], [ids[n]]);
    ContentsConcat(after, ids[..n], [ids[n]]);
    ContentsFrame(before, after, ids[..n]);
    assert Contents(before, [ids[n]]) == before[ids[n]] && Contents(after, [ids[n]]) == after[ids[n]];
  }

  lemma FreshContents(before: Pages, after: Pages, ids: seq<PageId>, p: PageId)
    requires p !in before && after == before[p := []] && forall q :: q in ids ==> q in before
    ensures Contents(after, ids + [p]) == Contents(before, ids)
  {
    ContentsConcat(after, ids, [p]);
    ContentsFrame(before, after, ids);
    assert Contents(after, [p]) == [];
  }

  lemma AloneIfTogether(ts: seq<Tuple>, t: Tuple)
    requires Used(ts + [t]) <= Disk.PAGE_SIZE
    ensures Used([t]) <= Disk.PAGE_SIZE
  {
    TupleFitsAlone(ts + [t], |ts|);
  }

  lemma HeldUpdate(pages: Pages, base: Pages, ids: seq<PageId>, p: PageId, ts: seq<Tuple>)
    requires Held(pages, base, ids) && p in ids
    ensures Held(pages[p := ts], base, ids)
  {
    assert pages[p := ts].Keys == pages.Keys;
  }

  lemma HeldNew(pages: Pages, base: Pages, ids: seq<PageId>, p: PageId)
    requires Held(pages, base, ids) && p !in pages
    ensures Held(pages[p := []], base, ids + [p])
  {
    assert IdSet(ids + [p]) == IdSet(ids) + {p};
    assert p !in IdSet(ids);
  }

  lemma HeldPages(pages: Pages, base: Pages, ids: seq<PageId>)
    requires Held(pages, base, ids)
    ensures Distinct(ids) && forall p :: p in ids ==> p in pages
  {
    forall p | p in ids
      ensures p in pages
    {
      assert p in IdSet(ids);
    }
  }

  /** Puts a tuple on the last page of a run, or on a new page if it does not fit
      there; fails if it fits no page. */
  method Append(store: PageStore, ids: seq<PageId>, t: Tuple, ghost base: Pages) returns (ids': seq<PageId>, ok: bool)
    requires store.Valid() && ids != [] && Held(store.pages, base, ids)
    modifies store`bytes, store`pages, store`nextPageId
    ensures store.Valid() && ids' != [] && Held(store.pages, base, ids') && store.nextPageId >= old(store.nextPageId)
    ensures ok <==> Used([t]) <= Disk.PAGE_SIZE
    ensures var last := ids[|ids| - 1];
      last in old(store.pages) && (Used(old(store.pages)[last] + [t]) <= Disk.PAGE_SIZE ==> ids' == ids)
    ensures Contents(store.pages, ids') == Contents(old(store.pages), ids) + if ok then [t] else []
  {
    hide Used, Contents, Held;
    var last := ids[|ids| - 1];
    ghost var pages0 := store.pages;
    HeldPages(pages0, base, ids);
    ok := store.Insert(last, t);
    if ok {
      AloneIfTogether(pages0[last], t);
      AppendedContents(pages0, store.pages, ids, t);
      HeldUpdate(pages0, base, ids, last, store.pages[last]);
      return ids, true;
    }
    ids', ok := AppendPage(store, ids, t, base);
  }

  method AppendPage(store: PageStore, ids: seq<PageId>, t: Tuple, ghost base: Pages) returns (ids': seq<PageId>, ok: bool)
    requires store.Valid() && ids != [] && Held(store.pages, base, ids)
    modifies store`bytes, store`pages, store`nextPageId
    ensures store.Valid() && ids' != [] && Held(store.pages, base, ids') && store.nextPageId >= old(store.nextPageId)
    ensures ok <==> Used([t]) <= Disk.PAGE_SIZE
    ensures Contents(store.pages, ids') == Contents(old(store.pages), ids) + if ok then [t] else []
  {
    hide Used, Contents, Held;
    ghost var pages0 := store.pages;
    HeldPages(pages0, base, ids);
    var p := store.NewPage();
    ids' := ids + [p];
    FreshContents(pages0, store.pages, ids, p);
    HeldNew(pages0, base, ids, p);
    ghost var pages1 := store.pages;
    HeldPages(pages1, base, ids');
    ok := store.Insert(p, t);
    assert [] + [t] == [t];
    if ok {
      AppendedContents(pages1, store.pages, ids', t);
      HeldUpdate(pages1, base, ids', p, store.pages[p]);
    }
  }

  /** The sort can work with what is on the page. */
  predicate Usable(s: Sorter, data: PageBytes) {
    Slotted(data) && s.Fit(TuplesOn(data))
  }

  lemma EmptyIsUsable(s: Sorter, data: PageBytes)
    requires ReadsEmpty(data) && s.order.Ok()
    ensures Usable(s, data) && TuplesOn(data) == []
  {
    EmptyIsSlotted(data);
  }

  /** A run of one page, which is taken as it is. */
  method NewRun(s: Sorter, store: PageStore) returns (ids: seq<PageId>, ok: bool)
    requires store.Valid()
    modifies store
    ensures store.Valid() && (ok <==> Usable(s, store.unwritten(old(store.nextPageId))))
    ensures ids == [old(store.nextPageId)] && Taking(old(store.taken), old(store.nextPageId), ids, store.taken, store.nextPageId)
    ensures ok ==> Held(store.pages, old(store.pages), ids) && Contents(store.pages, ids) == TuplesOn(store.unwritten(ids[0]))
  {
    var p: PageId;
    p, ok := store.TakePage();
    ids := [p];
    ok := ok && s.Fit(TuplesOn(store.unwritten(p)));
    if ok {
      assert Contents(store.pages, [p]) == store.pages[p];
    }
  }

  ghost predicate AllFit(tuples: seq<Tuple>) {
    forall i {:trigger tuples[i]} :: 0 <= i < |tuples| ==> Used([tuples[i]]) <= Disk.PAGE_SIZE
  }

  /** `Unusable`: a page taken as it is holds something the sort cannot work with. */
  datatype Outcome = Done | TupleTooBig | Unusable

  /** Writes tuples in the order they come, behind what is on the first page. */
  method FillPages(s: Sorter, store: PageStore, tuples: seq<Tuple>) returns (ids: seq<PageId>, r: Outcome)
    requires store.Valid()
    modifies store
    ensures store.Valid() && ids != []
    ensures Taking(old(store.taken), old(store.nextPageId), [old(store.nextPageId)], store.taken, store.nextPageId)
    ensures r.Unusable? <==> !Usable(s, store.unwritten(old(store.nextPageId)))
    ensures !r.Unusable? ==> Held(store.pages, old(store.pages), ids) && (r.Done? <==> AllFit(tuples))
    ensures r.Done? ==> Contents(store.pages, ids) == TuplesOn(store.unwritten(old(store.nextPageId))) + tuples
    ensures Used(TuplesOn(store.unwritten(old(store.nextPageId))) + tuples) <= Disk.PAGE_SIZE ==> |ids| == 1
  {
    hide Used, Contents, Held, Usable, TuplesOn;
    ghost var was := TuplesOn(store.unwritten(store.nextPageId));
    var ok: bool;
    ids, ok := NewRun(s, store);
    if !ok {
      return ids, Unusable;
    }
    var i := 0;
    assert was + tuples[..0] == was;
    while i < |tuples|
      invariant Used(was + tuples) <= Disk.PAGE_SIZE ==> |ids| == 1
      invariant i <= |tuples| && ok && store.Valid() && ids != [] && Held(store.pages, old(store.pages), ids)
      invariant Contents(store.pages, ids) == was + tuples[..i]
      invariant forall k :: 0 <= k < i ==> Used([tuples[k]]) <= Disk.PAGE_SIZE
      invariant Taking(old(store.taken), old(store.nextPageId), [old(store.nextPageId)], store.taken, store.nextPageId)
    {
      if Used(was + tuples) <= Disk.PAGE_SIZE {
        StillFits(store, ids, was, tuples, i);
      }
      ids, ok := Append(store, ids, tuples[i], old(store.pages));
      if !ok {
        return ids, TupleTooBig;
      }
      assert was + tuples[..i + 1] == (was + tuples[..i]) + [tuples[i]];
      i := i + 1;
    }
    assert tuples[..i] == tuples;
    r := Done;
  }

  lemma StillFits(store: PageStore, ids: seq<PageId>, was: seq<Tuple>, tuples: seq<Tuple>, i: nat)
    requires |ids| == 1 && i < |tuples| && Contents(store.pages, ids) == was + tuples[..i] && Used(was + tuples) <= Disk.PAGE_SIZE
    ensures ids[0] in store.pages ==> Used(store.pages[ids[0]] + [tuples[i]]) <= Disk.PAGE_SIZE
  {
    hide Used;
    assert (was + tuples)[..|was| + i + 1] == (was + tuples[..i]) + [tuples[i]];
    PrefixFits(was + tuples, |was| + i + 1);
    if ids[0] in store.pages {
      assert ids[1..] == [] && Contents(store.pages, ids) == store.pages[ids[0]];
    }
  }

  // ---- merging two runs ---------------------------------------------------------------------------

  /** Two runs being read, one being written, and the rest of the pages. */
  ghost predicate Merging(pages: Pages, base: Pages, a: seq<PageId>, b: seq<PageId>, out: seq<PageId>) {
    && Distinct(out) && IdSet(a) !! IdSet(b) && (IdSet(a) + IdSet(b)) !! IdSet(out)
    && pages.Keys == base.Keys + IdSet(a) + IdSet(b) + IdSet(out) && base.Keys !! (IdSet(a) + IdSet(b) + IdSet(out))
    && forall p {:trigger base[p]} :: p in base ==> pages[p] == base[p]
  }

  lemma MergingStarts(before: Pages, base: Pages, a: seq<PageId>, b: seq<PageId>, pages: Pages, out: seq<PageId>)
    requires Held(before, base, a + b) && Held(pages, before, out)
    ensures Merging(pages, base, a, b, out) && Distinct(a) && Distinct(b)
    ensures Agree(before, pages, a) && Agree(before, pages, b)
    ensures (forall p :: p in a ==> p in pages) && (forall p :: p in b ==> p in pages)
  {
    DistinctParts(a, b);
    assert IdSet(a + b) == IdSet(a) + IdSet(b);
    forall p | p in a + b
      ensures p in before && p in pages && before[p] == pages[p]
    {
      assert p in IdSet(a + b);
    }
    forall p | p in a || p in b
      ensures p in a + b
    {
    }
  }

  lemma DistinctParts(a: seq<PageId>, b: seq<PageId>)
    requires Distinct(a + b)
    ensures Distinct(a) && Distinct(b) && IdSet(a) !! IdSet(b)
  {
    forall i, j | 0 <= i < j < |a|
      ensures a[i] != a[j]
    {
      assert (a + b)[i] != (a + b)[j];
    }
    forall i, j | 0 <= i < j < |b|
      ensures b[i] != b[j]
    {
      assert (a + b)[|a| + i] != (a + b)[|a| + j];
    }
    forall i, j | 0 <= i < |a| && 0 <= j < |b|
      ensures a[i] != b[j]
    {
      assert (a + b)[i] != (a + b)[|a| + j];
    }
  }

  /** Reading on in the first run only takes pages of that run. */
  lemma MergingReads(pages: Pages, base: Pages, a: seq<PageId>, a': seq<PageId>, b: seq<PageId>, out: seq<PageId>)
    requires Merging(pages, base, a, b, out) && IdSet(a') <= IdSet(a)
    ensures var pages' := pages - (IdSet(a) - IdSet(a'));
      Merging(pages', base, a', b, out) && Agree(pages, pages', b) && Agree(pages, pages', out)
  {
    var pages' := pages - (IdSet(a) - IdSet(a'));
    forall p | p in b || p in out
      ensures p !in IdSet(a)
    {
      assert p in IdSet(b) || p in IdSet(out);
    }
  }

  lemma MergingSwap(pages: Pages, base: Pages, a: seq<PageId>, b: seq<PageId>, out: seq<PageId>)
    requires Merging(pages, base, a, b, out)
    ensures Merging(pages, base, b, a, out)
  {
  }

  /** Writing the output leaves both inputs alone. */
  lemma MergingWrites(pages: Pages, base: Pages, a: seq<PageId>, b: seq<PageId>, out: seq<PageId>, pages': Pages, out': seq<PageId>)
    requires Merging(pages, base, a, b, out) && Held(pages', pages - IdSet(out), out')
    ensures Merging(pages', base, a, b, out') && Agree(pages, pages', a) && Agree(pages, pages', b)
  {
    var rest := pages - IdSet(out);
    forall p | p in a || p in b
      ensures p in rest && p in pages' && pages'[p] == pages[p]
    {
      assert p in IdSet(a) || p in IdSet(b);
      assert p in rest && pages'[p] == rest[p];
    }
    forall p | p in base
      ensures p in rest && pages'[p] == base[p]
    {
      assert pages[p] == base[p] && rest[p] == pages[p];
    }
  }

  lemma MergingHeld(pages: Pages, base: Pages, a: seq<PageId>, b: seq<PageId>, out: seq<PageId>)
    requires Merging(pages, base, a, b, out)
    ensures Held(pages, pages - IdSet(out), out)
    ensures a == [] && b == [] ==> Held(pages, base, out)
  {
  }

  function Pending(x: Option<Tuple>): seq<Tuple> {
    if x.Some? then [x.value] else []
  }

  /** One run of a merge: what is read ahead, and what is not read yet. */
  ghost predicate Reading(s: Sorter, it: RunIterator, x: Option<Tuple>, pages: Pages)
    reads it
  {
    && it.Valid(pages) && s.Fit(Pending(x) + it.Rest(pages))
    && (x.None? ==> it.Own() == [] && it.Rest(pages) == [])
    && (x.Some? ==> Used([x.value]) <= Disk.PAGE_SIZE)
  }

  lemma FitParts(s: Sorter, a: seq<Tuple>, b: seq<Tuple>)
    requires s.Fit(a + b)
    ensures s.Fit(a) && s.Fit(b)
  {
    forall i | 0 <= i < |a|
      ensures s.Sortable(a[i])
    {
      assert (a + b)[i] == a[i];
    }
    forall i | 0 <= i < |b|
      ensures s.Sortable(b[i])
    {
      assert (a + b)[|a| + i] == b[i];
    }
  }

  /** Reads the next tuple of one run. */
  method ReadAhead(s: Sorter, store: PageStore, it: RunIterator, ghost base: Pages, ghost b: seq<PageId>, ghost out: seq<PageId>)
    returns (x: Option<Tuple>)
    requires store.Valid() && it.Valid(store.pages) && s.Fit(it.Rest(store.pages)) && Merging(store.pages, base, it.Own(), b, out)
    modifies it, store`bytes, store`pages
    ensures store.Valid() && Reading(s, it, x, store.pages) && Merging(store.pages, base, it.Own(), b, out)
    ensures Pending(x) + it.Rest(store.pages) == old(it.Rest(store.pages))
    ensures Agree(old(store.pages), store.pages, b) && Agree(old(store.pages), store.pages, out)
  {
    hide Merging, Used, RestOf, Contents;
    ghost var pages, own := store.pages, it.Own();
    x := it.Next(store);
    MergingReads(pages, base, own, it.Own(), b, out);
  }

  /** Moves a run's head to the output and reads on. */
  method Emit(s: Sorter, store: PageStore, it: RunIterator, t: Tuple, other: RunIterator, out: seq<PageId>, ghost base: Pages)
    returns (out': seq<PageId>, x: Option<Tuple>)
    requires store.Valid() && it != other && out != [] && Merging(store.pages, base, it.Own(), other.Own(), out)
    requires Reading(s, it, Some(t), store.pages) && other.Valid(store.pages)
    modifies store`bytes, store`pages, store`nextPageId, it
    ensures store.nextPageId >= old(store.nextPageId)
    ensures store.Valid() && out' != [] && Merging(store.pages, base, it.Own(), other.Own(), out')
    ensures Reading(s, it, x, store.pages) && Pending(x) + it.Rest(store.pages) == old(it.Rest(store.pages))
    ensures other.Valid(store.pages) && other.Rest(store.pages) == old(other.Rest(store.pages))
    ensures Contents(store.pages, out') == Contents(old(store.pages), out) + [t]
  {
    hide Merging, Used, RestOf, Contents, Held;
    ghost var pages := store.pages;
    ghost var rest := pages - IdSet(out);
    MergingHeld(pages, base, it.Own(), other.Own(), out);
    FitParts(s, [t], it.Rest(pages));
    var ok: bool;
    out', ok := Append(store, out, t, rest);
    MergingWrites(pages, base, it.Own(), other.Own(), out, store.pages, out');
    it.Frame(pages, store.pages);
    other.Frame(pages, store.pages);
    ghost var written := store.pages;
    x := ReadAhead(s, store, it, base, other.Own(), out');
    other.Frame(written, store.pages);
    ContentsFrame(written, store.pages, out');
  }

  lemma TakesFirst(s: Sorter, t: Tuple, a: seq<Tuple>, b: seq<Tuple>)
    requires s.Fit([t] + a) && s.Fit(b) && (b != [] ==> s.Sortable(t) && s.Sortable(b[0]) && s.Le(t, b[0]))
    ensures s.order.FitAll(s.Entries([t] + a)) && s.order.FitAll(s.Entries(a)) && s.order.FitAll(s.Entries(b))
    ensures s.order.Merge(s.Entries([t] + a), s.Entries(b)) == [s.entryOf(t)] + s.order.Merge(s.Entries(a), s.Entries(b))
  {
    FitParts(s, [t], a);
    s.FitEntries([t] + a);
    s.FitEntries(a);
    s.FitEntries(b);
    assert s.Entries([t] + a) == [s.entryOf(t)] + s.Entries(a);
    assert s.Entries([t] + a)[1..] == s.Entries(a);
    if b == [] {
      assert s.Entries(b) == [];
      MergeNothing(s.order, s.Entries(a));
    }
  }

  lemma MergeNothing(c: Comparator, a: seq<SortEntry>)
    requires c.Ok() && c.FitAll(a)
    ensures c.Merge(a, []) == a && c.Merge([], a) == a
  {
  }

  lemma TakesSecond(s: Sorter, t: Tuple, a: seq<Tuple>, b: seq<Tuple>)
    requires s.Fit([t] + b) && s.Fit(a) && (a != [] ==> s.Sortable(t) && s.Sortable(a[0]) && !s.Le(a[0], t))
    ensures s.order.FitAll(s.Entries([t] + b)) && s.order.FitAll(s.Entries(a)) && s.order.FitAll(s.Entries(b))
    ensures s.order.Merge(s.Entries(a), s.Entries([t] + b)) == [s.entryOf(t)] + s.order.Merge(s.Entries(a), s.Entries(b))
  {
    FitParts(s, [t], b);
    s.FitEntries([t] + b);
    s.FitEntries(a);
    s.FitEntries(b);
    assert s.Entries([t] + b) == [s.entryOf(t)] + s.Entries(b);
    assert s.Entries([t] + b)[1..] == s.Entries(b);
    if a == [] {
      assert s.Entries(a) == [];
      MergeNothing(s.order, s.Entries(b));
    }
  }

  /** What a merge still has to write comes out as `goal`, behind what it wrote. */
  ghost predicate Towards(s: Sorter, written: seq<Tuple>, a: seq<Tuple>, b: seq<Tuple>, goal: seq<SortEntry>) {
    && s.Fit(written) && s.Fit(a) && s.Fit(b) && s.order.FitAll(s.Entries(a)) && s.order.FitAll(s.Entries(b))
    && s.Entries(written) + s.order.Merge(s.Entries(a), s.Entries(b)) == goal
  }

  lemma TowardsFirst(s: Sorter, written: seq<Tuple>, t: Tuple, a: seq<Tuple>, b: seq<Tuple>, goal: seq<SortEntry>)
    requires Towards(s, written, [t] + a, b, goal) && (b != [] ==> s.Sortable(t) && s.Sortable(b[0]) && s.Le(t, b[0]))
    ensures Towards(s, written + [t], a, b, goal)
  {
    TakesFirst(s, t, a, b);
    FitParts(s, [t], a);
    assert ([t] + a)[0] == t;
    s.EntriesConcat(written, [t]);
    assert s.Entries([t]) == [s.entryOf(t)];
    Associate(s.Entries(written), [s.entryOf(t)], s.order.Merge(s.Entries(a), s.Entries(b)));
  }

  lemma TowardsSecond(s: Sorter, written: seq<Tuple>, t: Tuple, a: seq<Tuple>, b: seq<Tuple>, goal: seq<SortEntry>)
    requires Towards(s, written, a, [t] + b, goal) && (a != [] ==> s.Sortable(t) && s.Sortable(a[0]) && !s.Le(a[0], t))
    ensures Towards(s, written + [t], a, b, goal)
  {
    TakesSecond(s, t, a, b);
    FitParts(s, [t], b);
    assert ([t] + b)[0] == t;
    s.EntriesConcat(written, [t]);
    assert s.Entries([t]) == [s.entryOf(t)];
    Associate(s.Entries(written), [s.entryOf(t)], s.order.Merge(s.Entries(a), s.Entries(b)));
  }

  lemma TowardsDone(s: Sorter, written: seq<Tuple>, goal: seq<SortEntry>)
    requires Towards(s, written, [], [], goal)
    ensures s.Fit(written) && s.Entries(written) == goal
  {
    assert s.Entries([]) == [];
  }

  /** The order of the two heads: the first run wins ties. */
  predicate FirstGoes(s: Sorter, x: Option<Tuple>, y: Option<Tuple>)
    requires (x.Some? ==> s.Sortable(x.value)) && (y.Some? ==> s.Sortable(y.value))
  {
    x.Some? && (y.None? || s.Le(x.value, y.value))
  }

  /** Merges two runs into a new one, giving back every page of both. The merged
      tuples come behind what is on the new run's first page. */
  method MergeSortedRuns(s: Sorter, store: PageStore, ids1: seq<PageId>, ids2: seq<PageId>, ghost base: Pages)
    returns (out: seq<PageId>, ok: bool)
    requires store.Valid() && Held(store.pages, base, ids1 + ids2)
    requires s.Fit(Contents(store.pages, ids1)) && s.Fit(Contents(store.pages, ids2))
    modifies store
    ensures store.Valid() && (ok <==> Usable(s, store.unwritten(old(store.nextPageId))))
    ensures Taking(old(store.taken), old(store.nextPageId), [old(store.nextPageId)], store.taken, store.nextPageId)
    ensures s.order.FitAll(s.Entries(Contents(old(store.pages), ids1))) && s.order.FitAll(s.Entries(Contents(old(store.pages), ids2)))
    ensures ok ==> Held(store.pages, base, out) && s.Fit(Contents(store.pages, out))
    ensures ok ==>
      s.Entries(Contents(store.pages, out)) == s.Entries(TuplesOn(store.unwritten(old(store.nextPageId))))
        + s.order.Merge(s.Entries(Contents(old(store.pages), ids1)), s.Entries(Contents(old(store.pages), ids2)))
  {
    hide Merging, Used, RestOf, Contents, Held, TuplesOn, Slotted, Taking;
    ghost var before := store.pages;
    s.FitEntries(Contents(before, ids1));
    s.FitEntries(Contents(before, ids2));
    out, ok := NewRun(s, store);
    if !ok {
      return;
    }
    ghost var nextId, first := store.nextPageId, out;
    MergingStarts(before, base, ids1, ids2, store.pages, out);
    ContentsFrame(before, store.pages, ids1);
    ContentsFrame(before, store.pages, ids2);
    out := MergeBehind(s, store, ids1, ids2, out, base);
    TakingLater(old(store.taken), old(store.nextPageId), first, store.taken, nextId, store.nextPageId);
  }

  /** Merges two runs behind what is on the pages `out0`. */
  method MergeBehind(s: Sorter, store: PageStore, ids1: seq<PageId>, ids2: seq<PageId>, out0: seq<PageId>, ghost base: Pages)
    returns (out: seq<PageId>)
    requires store.Valid() && out0 != [] && Merging(store.pages, base, ids1, ids2, out0) && Distinct(ids1) && Distinct(ids2)
    requires (forall p :: p in ids1 ==> p in store.pages) && (forall p :: p in ids2 ==> p in store.pages)
    requires s.Fit(Contents(store.pages, ids1)) && s.Fit(Contents(store.pages, ids2)) && s.Fit(Contents(store.pages, out0))
    modifies store`bytes, store`pages, store`nextPageId
    ensures store.Valid() && store.nextPageId >= old(store.nextPageId)
    ensures s.order.FitAll(s.Entries(Contents(old(store.pages), ids1))) && s.order.FitAll(s.Entries(Contents(old(store.pages), ids2)))
    ensures Held(store.pages, base, out) && s.Fit(Contents(store.pages, out))
    ensures s.Entries(Contents(store.pages, out)) == s.Entries(Contents(old(store.pages), out0))
      + s.order.Merge(s.Entries(Contents(old(store.pages), ids1)), s.Entries(Contents(old(store.pages), ids2)))
  {
    hide Merging, Used, RestOf, Contents, Held, Towards, Comparator.Merge;
    ghost var c1, c2, was := Contents(store.pages, ids1), Contents(store.pages, ids2), Contents(store.pages, out0);
    TowardsStart(s, was, c1, c2);
    var it1 := new RunIterator(ids1, store.pages);
    var it2 := new RunIterator(ids2, store.pages);
    ghost var goal := s.Entries(was) + s.order.Merge(s.Entries(c1), s.Entries(c2));
    ghost var pages := store.pages;
    var x := ReadAhead(s, store, it1, base, ids2, out0);
    it2.Frame(pages, store.pages);
    ContentsFrame(pages, store.pages, out0);
    pages := store.pages;
    MergingSwap(pages, base, it1.Own(), ids2, out0);
    var y := ReadAhead(s, store, it2, base, it1.Own(), out0);
    it1.Frame(pages, store.pages);
    ContentsFrame(pages, store.pages, out0);
    MergingSwap(store.pages, base, it2.Own(), it1.Own(), out0);
    out := MergeHeads(s, store, it1, x, it2, y, out0, base, goal);
  }

  lemma TowardsStart(s: Sorter, was: seq<Tuple>, a: seq<Tuple>, b: seq<Tuple>)
    requires s.Fit(was) && s.Fit(a) && s.Fit(b)
    ensures s.order.FitAll(s.Entries(a)) && s.order.FitAll(s.Entries(b))
    ensures Towards(s, was, a, b, s.Entries(was) + s.order.Merge(s.Entries(a), s.Entries(b)))
  {
    s.FitEntries(a);
    s.FitEntries(b);
  }

  method MergeHeads(s: Sorter, store: PageStore, it1: RunIterator, x0: Option<Tuple>, it2: RunIterator, y0: Option<Tuple>,
                    out0: seq<PageId>, ghost base: Pages, ghost goal: seq<SortEntry>) returns (out: seq<PageId>)
    requires store.Valid() && it1 != it2 && out0 != [] && Merging(store.pages, base, it1.Own(), it2.Own(), out0)
    requires Reading(s, it1, x0, store.pages) && Reading(s, it2, y0, store.pages)
    requires Towards(s, Contents(store.pages, out0), Pending(x0) + it1.Rest(store.pages), Pending(y0) + it2.Rest(store.pages), goal)
    modifies store`bytes, store`pages, store`nextPageId, it1, it2
    ensures store.Valid() && Held(store.pages, base, out) && store.nextPageId >= old(store.nextPageId)
    ensures s.Fit(Contents(store.pages, out)) && s.Entries(Contents(store.pages, out)) == goal
  {
    hide Merging, Used, RestOf, Contents, Held, Towards;
    var x, y := x0, y0;
    out := out0;
    while x.Some? || y.Some?
      invariant store.nextPageId >= old(store.nextPageId)
      invariant store.Valid() && out != [] && Merging(store.pages, base, it1.Own(), it2.Own(), out)
      invariant Reading(s, it1, x, store.pages) && Reading(s, it2, y, store.pages)
      invariant Towards(s, Contents(store.pages, out), Pending(x) + it1.Rest(store.pages), Pending(y) + it2.Rest(store.pages), goal)
      decreases |Pending(x)| + |it1.Rest(store.pages)| + |Pending(y)| + |it2.Rest(store.pages)|
    {
      HeadSortable(s, x, it1.Rest(store.pages));
      HeadSortable(s, y, it2.Rest(store.pages));
      ghost var written, a, b := Contents(store.pages, out), it1.Rest(store.pages), it2.Rest(store.pages);
      if FirstGoes(s, x, y) {
        TowardsFirst(s, written, x.value, a, Pending(y) + b, goal);
        out, x := Emit(s, store, it1, x.value, it2, out, base);
      } else {
        MergingSwap(store.pages, base, it1.Own(), it2.Own(), out);
        TowardsSecond(s, written, y.value, Pending(x) + a, b, goal);
        out, y := Emit(s, store, it2, y.value, it1, out, base);
        MergingSwap(store.pages, base, it2.Own(), it1.Own(), out);
      }
    }
    assert Pending(x) + it1.Rest(store.pages) == [] && Pending(y) + it2.Rest(store.pages) == [];
    TowardsDone(s, Contents(store.pages, out), goal);
    MergingHeld(store.pages, base, it1.Own(), it2.Own(), out);
  }

  lemma HeadSortable(s: Sorter, x: Option<Tuple>, rest: seq<Tuple>)
    requires s.Fit(Pending(x) + rest)
    ensures x.Some? ==> s.Sortable(x.value)
  {
    FitParts(s, Pending(x), rest);
    if x.Some? {
      assert s.Sortable(Pending(x)[0]);
    }
  }
}
