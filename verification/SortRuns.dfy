/** Temporary pages of an external sort, runs of them, and the iterator that reads
    a run and gives its pages back. */
module SortRuns {
  import opened Common
  import opened Bytes
  import opened DiskManagers
  import opened SortPages

  type Pages = map<PageId, seq<Data>>

  /** The tuples on a list of pages, in order. */
  function Contents(pages: Pages, ids: seq<PageId>): seq<Data> {
    if ids == [] then []
    else (if ids[0] in pages then pages[ids[0]] else []) + Contents(pages, ids[1..])
  }

  lemma {:induction false} ContentsConcat(pages: Pages, a: seq<PageId>, b: seq<PageId>)
    ensures Contents(pages, a + b) == Contents(pages, a) + Contents(pages, b)
  {
    if a == [] {
      assert a + b == b;
    } else {
      assert (a + b)[1..] == a[1..] + b;
      ContentsConcat(pages, a[1..], b);
    }
  }

  /** Pages with the same content on a list. */
  ghost predicate Agree(a: Pages, b: Pages, ids: seq<PageId>) {
    forall p {:trigger p in ids} :: p in ids ==> (p in a <==> p in b) && (p in a ==> a[p] == b[p])
  }

  lemma {:induction false} ContentsFrame(a: Pages, b: Pages, ids: seq<PageId>)
    requires Agree(a, b, ids)
    ensures Contents(a, ids) == Contents(b, ids)
  {
    if ids != [] {
      assert ids[0] in ids;
      forall p | p in ids[1..]
        ensures (p in a <==> p in b) && (p in a ==> a[p] == b[p])
      {
        assert p in ids;
      }
      ContentsFrame(a, b, ids[1..]);
    }
  }

  function IdSet(ids: seq<PageId>): set<PageId> {
    set p | p in ids
  }

  lemma TupleFitsAlone(ts: seq<Data>, i: nat)
    requires i < |ts| && Used(ts) <= PAGE_SIZE
    ensures Used([ts[i]]) <= PAGE_SIZE
  {
    TotalMono(ts, i + 1, |ts|);
    TotalOne(ts[i]);
  }

  /** The pages of the buffer pool that hold intermediate results. A page that
      nobody wrote yet reads as `unwritten` says: as zeros, or as what a deleted
      page left in its slot. */
  class PageStore {
    const unwritten: PageId -> PageBytes
    var bytes: map<PageId, PageBytes>
    var nextPageId: PageId
    ghost var pages: Pages
    /** The pages taken as they were, in this order. */
    ghost var taken: seq<PageId>

    ghost predicate Valid()
      reads this
    {
      && bytes.Keys == pages.Keys
      && forall p {:trigger pages[p]} :: p in pages ==> p < nextPageId && HoldsTuples(bytes[p], pages[p])
    }

    /** No page shows what was on it before. */
    ghost predicate Clean()
    {
      forall p {:trigger unwritten(p)} :: ReadsEmpty(unwritten(p))
    }

    constructor (unwritten: PageId -> PageBytes)
      ensures Valid() && pages == map[] && this.unwritten == unwritten && taken == []
    {
      this.unwritten := unwritten;
      bytes, pages, nextPageId, taken := map[], map[], 1, [];
    }

    /** A page that was never used before, as it reads; fails where that is no
        slotted page. */
    method TakePage() returns (p: PageId, ok: bool)
      requires Valid()
      modifies this
      ensures Valid() && p == old(nextPageId) && p !in old(pages) && nextPageId == p + 1 && taken == old(taken) + [p]
      ensures ok <==> Slotted(unwritten(p))
      ensures pages == if ok then old(pages)[p := TuplesOn(unwritten(p))] else old(pages)
    {
      p := nextPageId;
      nextPageId, taken := nextPageId + 1, taken + [p];
      ok := Slotted(unwritten(p));
      if ok {
        bytes, pages := bytes[p := unwritten(p)], pages[p := TuplesOn(unwritten(p))];
      }
    }

    /** A page that was never used before, wiped. */
    method NewPage() returns (p: PageId)
      requires Valid()
      modifies this`bytes, this`pages, this`nextPageId
      ensures Valid() && p == old(nextPageId) && nextPageId == p + 1 && p !in old(pages) && pages == old(pages)[p := []]
    {
      p := nextPageId;
      nextPageId := nextPageId + 1;
      var data := new Byte[PAGE_SIZE](_ => 0);
      Init(data);
      bytes, pages := bytes[p := data[..]], pages[p := []];
    }

    method Latch(p: PageId) returns (data: array<Byte>)
      requires Valid() && p in pages
      ensures fresh(data) && data[..] == bytes[p]
    {
      var d := bytes[p];
      data := new Byte[PAGE_SIZE](i requires 0 <= i < |d| => d[i]);
    }

    method Insert(p: PageId, t: Data) returns (ok: bool)
      requires Valid() && p in pages
      modifies this`bytes, this`pages
      ensures Valid() && (ok <==> Used(old(pages)[p] + [t]) <= PAGE_SIZE)
      ensures pages == if ok then old(pages)[p := old(pages)[p] + [t]] else old(pages)
    {
      hide HoldsTuples, Used;
      var data := Latch(p);
      var slot := InsertTuple(data, t, pages[p]);
      ok := slot.Some?;
      if ok {
        bytes, pages := bytes[p := data[..]], pages[p := pages[p] + [t]];
      }
    }

    /** All tuples of a page. */
    method Read(p: PageId) returns (ts: seq<Data>)
      requires Valid() && p in pages
      ensures ts == pages[p]
    {
      hide HoldsTuples;
      var data := Latch(p);
      ts := AllTuples(data, pages[p]);
    }

    method Count(p: PageId) returns (n: nat)
      requires Valid() && p in pages
      ensures n == |pages[p]|
    {
      n := NumTuples(bytes[p]);
    }

    method Get(p: PageId, i: nat) returns (t: Data)
      requires Valid() && p in pages && i < |pages[p]|
      ensures t == pages[p][i] && Used([t]) <= PAGE_SIZE
    {
      TupleFitsAlone(pages[p], i);
      hide HoldsTuples, Used;
      var data := Latch(p);
      t := GetTuple(data, i, pages[p]);
    }

    /** Wipes a page and writes these tuples to it. */
    method Rewrite(p: PageId, ts: seq<Data>)
      requires Valid() && p in pages && Used(ts) <= PAGE_SIZE
      modifies this`bytes, this`pages
      ensures Valid() && pages == old(pages)[p := ts]
    {
      hide Used, HoldsTuples;
      var data := Latch(p);
      Init(data);
      var i: nat := 0;
      while i < |ts|
        invariant i <= |ts| && data.Length == PAGE_SIZE && HoldsTuples(data[..], ts[..i])
        modifies data
      {
        assert ts[..i] + [ts[i]] == ts[..i + 1];
        PrefixFits(ts, i + 1);
        var _ := InsertTuple(data, ts[i], ts[..i]);
        i := i + 1;
      }
      assert ts[..i] == ts;
      bytes, pages := bytes[p := data[..]], pages[p := ts];
    }

    /** Deleting a page that is not there would be a second deletion. */
    method DeletePage(p: PageId)
      requires Valid() && p in pages
      modifies this`bytes, this`pages
      ensures Valid() && pages == old(pages) - {p}
    {
      bytes, pages := bytes - {p}, pages - {p};
    }
  }

  /** Between two moments of a store the pages `ps` were taken as they were. */
  ghost predicate Taking(before: seq<PageId>, from: PageId, ps: seq<PageId>, after: seq<PageId>, to: PageId) {
    && after == before + ps && from <= to
    && (forall i :: 0 <= i < |ps| ==> from <= ps[i] < to)
    && (forall i, j :: 0 <= i < j < |ps| ==> ps[i] < ps[j])
  }

  lemma TakingLater(a: seq<PageId>, x: PageId, ps: seq<PageId>, b: seq<PageId>, y: PageId, z: PageId)
    requires Taking(a, x, ps, b, y) && y <= z
    ensures Taking(a, x, ps, b, z)
  {
  }

  lemma TakingMore(a: seq<PageId>, x: PageId, ps: seq<PageId>, b: seq<PageId>, y: PageId, qs: seq<PageId>, c: seq<PageId>, z: PageId)
    requires Taking(a, x, ps, b, y) && Taking(b, y, qs, c, z)
    ensures Taking(a, x, ps + qs, c, z)
  {
  }

  /** The tuples that pages taken as they are bring along. */
  ghost function Stale(unwritten: PageId -> PageBytes, ids: seq<PageId>): seq<Data> {
    if ids == [] then [] else Stale(unwritten, ids[..|ids| - 1]) + TuplesOn(unwritten(ids[|ids| - 1]))
  }

  lemma StaleAppend(unwritten: PageId -> PageBytes, ids: seq<PageId>, p: PageId)
    ensures Stale(unwritten, ids + [p]) == Stale(unwritten, ids) + TuplesOn(unwritten(p))
  {
    assert (ids + [p])[..|ids|] == ids;
  }

  /** They bring nothing exactly if every one of them reads empty. */
  lemma {:induction false} StaleIsNothing(unwritten: PageId -> PageBytes, ids: seq<PageId>)
    ensures Stale(unwritten, ids) == [] <==> forall p :: p in ids ==> ReadsEmpty(unwritten(p))
  {
    if ids != [] {
      var n := |ids| - 1;
      StaleIsNothing(unwritten, ids[..n]);
      assert ids == ids[..n] + [ids[n]];
      assert |TuplesOn(unwritten(ids[n]))| == NumTuples(unwritten(ids[n]));
    }
  }

  lemma PrefixFits(ts: seq<Data>, n: nat)
    requires n <= |ts| && Used(ts) <= PAGE_SIZE
    ensures Used(ts[..n]) <= PAGE_SIZE
  {
    assert ts == ts[..n] + ts[n..];
    TotalPrefix(ts[..n], ts[n..], n);
    TotalMono(ts, n, |ts|);
  }

  /** The tuples an iterator has not given yet. */
  ghost function RestOf(pages: Pages, ids: seq<PageId>, pageIdx: nat, tupleIdx: nat): seq<Data> {
    if pageIdx < |ids| && tupleIdx <= |Contents(pages, ids[pageIdx..])| then Contents(pages, ids[pageIdx..])[tupleIdx..] else []
  }

  lemma PageDone(pages: Pages, ids: seq<PageId>, i: nat)
    requires i < |ids| && ids[i] in pages && Distinct(ids)
    ensures RestOf(pages, ids, i, |pages[ids[i]]|) == RestOf(pages - {ids[i]}, ids, i + 1, 0)
    ensures IdSet(ids[i..]) == IdSet(ids[i + 1..]) + {ids[i]} && ids[i] !in ids[i + 1..]
  {
    var own := ids[i..];
    assert own == [ids[i]] + ids[i + 1..];
    assert ids[i] !in ids[i + 1..];
    ContentsFrame(pages, pages - {ids[i]}, ids[i + 1..]);
    var rest := Contents(pages, ids[i + 1..]);
    assert own[1..] == ids[i + 1..];
    assert Contents(pages, own) == pages[ids[i]] + rest;
    assert (pages[ids[i]] + rest)[|pages[ids[i]]|..] == rest;
    if i + 1 == |ids| {
      assert rest == [];
    }
  }

  lemma DeletedTwice(pages: Pages, own: set<PageId>, mid: set<PageId>, last: set<PageId>, p: PageId)
    requires own == mid + {p} && last <= mid && p !in mid
    ensures (pages - {p}) - (mid - last) == pages - (own - last)
  {
  }

  lemma TupleGiven(pages: Pages, ids: seq<PageId>, i: nat, k: nat)
    requires i < |ids| && ids[i] in pages && k < |pages[ids[i]]|
    ensures RestOf(pages, ids, i, k) == [pages[ids[i]][k]] + RestOf(pages, ids, i, k + 1)
  {
    var own := ids[i..];
    assert own[0] == ids[i];
    var all := Contents(pages, own);
    assert all[k] == pages[ids[i]][k];
    assert all[k..] == [all[k]] + all[k + 1..];
  }

  class RunIterator {
    var pageIds: seq<PageId>
    var pageIdx: nat
    var tupleIdx: nat

    /** The pages not given back yet. */
    ghost function Own(): seq<PageId>
      reads this
    {
      if pageIdx <= |pageIds| then pageIds[pageIdx..] else []
    }

    ghost predicate Valid(pages: Pages)
      reads this
    {
      && pageIdx <= |pageIds| && Distinct(pageIds)
      && (forall i {:trigger pageIds[i]} :: pageIdx <= i < |pageIds| ==> pageIds[i] in pages)
      && (pageIdx < |pageIds| ==> tupleIdx <= |pages[pageIds[pageIdx]]|)
    }

    ghost function Rest(pages: Pages): seq<Data>
      reads this
    {
      RestOf(pages, pageIds, pageIdx, tupleIdx)
    }

    /** Only the iterator's own pages matter to it. */
    lemma Frame(a: Pages, b: Pages)
      requires Valid(a) && Agree(a, b, Own())
      ensures Valid(b) && Rest(b) == Rest(a)
    {
      var own := Own();
      forall i | pageIdx <= i < |pageIds|
        ensures pageIds[i] in b && a[pageIds[i]] == b[pageIds[i]]
      {
        assert own[i - pageIdx] == pageIds[i] && pageIds[i] in own;
      }
      ContentsFrame(a, b, own);
    }

    constructor (ids: seq<PageId>, ghost pages: Pages)
      requires Distinct(ids) && forall p :: p in ids ==> p in pages
      ensures Valid(pages) && Own() == ids && Rest(pages) == Contents(pages, ids)
    {
      pageIds, pageIdx, tupleIdx := ids, 0, 0;
    }

    /** The next tuple; a page that has been read is deleted on the way. */
    method Next(store: PageStore) returns (t: Option<Data>)
      requires store.Valid() && Valid(store.pages)
      modifies this, store`bytes, store`pages
      ensures store.Valid() && Valid(store.pages) && pageIds == old(pageIds) && old(pageIdx) <= pageIdx
      ensures store.pages == old(store.pages) - (IdSet(old(Own())) - IdSet(Own())) && IdSet(Own()) <= IdSet(old(Own()))
      ensures old(Rest(store.pages)) == (if t.Some? then [t.value] else []) + Rest(store.pages)
      ensures t.None? <==> old(Rest(store.pages)) == []
      ensures t.None? ==> Own() == [] && Rest(store.pages) == []
      ensures t.Some? ==> Used([t.value]) <= PAGE_SIZE
      decreases |pageIds| - pageIdx
    {
      if pageIdx >= |pageIds| {
        return None;
      }
      hide RestOf, Used, HoldsTuples;
      var p := pageIds[pageIdx];
      var count := store.Count(p);
      if tupleIdx >= count {
        ghost var before, own := store.pages, IdSet(Own());
        FinishPage(store);
        ghost var mid := IdSet(Own());
        t := Next(store);
        DeletedTwice(before, own, mid, IdSet(Own()), p);
        return;
      }
      var tuple := store.Get(p, tupleIdx);
      t := Some(tuple);
      TupleGiven(store.pages, pageIds, pageIdx, tupleIdx);
      tupleIdx := tupleIdx + 1;
    }

    /** The current page has been read to the end. */
    method FinishPage(store: PageStore)
      requires store.Valid() && Valid(store.pages) && pageIdx < |pageIds| && pageIds[pageIdx] in store.pages
      requires tupleIdx == |store.pages[pageIds[pageIdx]]|
      modifies this, store`bytes, store`pages
      ensures store.Valid() && Valid(store.pages) && pageIds == old(pageIds) && pageIdx == old(pageIdx) + 1
      ensures store.pages == old(store.pages) - {pageIds[old(pageIdx)]} && Rest(store.pages) == old(Rest(store.pages))
      ensures IdSet(old(Own())) == IdSet(Own()) + {pageIds[old(pageIdx)]} && pageIds[old(pageIdx)] !in IdSet(Own())
    {
      hide RestOf, HoldsTuples;
      PageDone(store.pages, pageIds, pageIdx);
      store.DeletePage(pageIds[pageIdx]);
      pageIdx, tupleIdx := pageIdx + 1, 0;
    }

    /** Gives back the pages that were not read to the end. */
    method Drop(store: PageStore)
      requires store.Valid() && Valid(store.pages)
      modifies store`bytes, store`pages
      ensures store.Valid() && store.pages == old(store.pages) - IdSet(Own())
    {
      hide HoldsTuples;
      var i := pageIdx;
      while i < |pageIds|
        invariant pageIdx <= i <= |pageIds| && store.Valid()
        invariant store.pages == old(store.pages) - IdSet(pageIds[pageIdx..i])
      {
        assert pageIds[pageIdx..i + 1] == pageIds[pageIdx..i] + [pageIds[i]];
        store.DeletePage(pageIds[i]);
        i := i + 1;
      }
      assert pageIds[pageIdx..i] == Own();
    }
  }
}
