/** What a page shows that nobody has written yet, and what that does to a sort:
    a freed slot is handed out with its old bytes. */
module StalePages {
  import opened Common
  import opened DiskManagers
  import opened SortPages
  import opened SortRuns
  import opened ExternalSort
  import opened SortExecutor

  /** The first read of a page: zeros if no slot is free, else the bytes of the
      slot freed last. So the page reads empty exactly if that slot did. */
  method FirstRead(disk: DiskManager, p: PageId) returns (data: PageBytes)
    requires disk.Valid() && p !in disk.pages
    modifies disk
    ensures disk.Valid()
    ensures old(disk.freeSlots) == [] ==> ReadsEmpty(data)
    ensures old(disk.freeSlots) != [] ==>
      var slot := old(disk.freeSlots)[|old(disk.freeSlots)| - 1];
      slot + PAGE_SIZE <= |old(disk.file)| && (ReadsEmpty(data) <==> ReadsEmpty(Slot(old(disk.file), slot)))
  {
    data := disk.ReadPage(p);
  }

  /** The slot freed last, if there is one, shows no tuple. */
  ghost predicate LastFreedEmpty(freeSlots: seq<nat>, file: Data) {
    freeSlots != [] ==>
      var slot := freeSlots[|freeSlots| - 1]; slot + PAGE_SIZE <= |file| && ReadsEmpty(Slot(file, slot))
  }

  /** A sort of tuples that fit one page, on a page the disk has not seen yet, is
      right exactly if no slot is free or the slot freed last shows no tuple. */
  method SortOnePage(disk: DiskManager, s: Sorter, tuples: seq<Tuple>, p: PageId) returns (out: seq<Tuple>, r: Outcome)
    requires disk.Valid() && p !in disk.pages && s.Fit(tuples) && Used(tuples) <= PAGE_SIZE
    modifies disk
    ensures disk.Valid()
    ensures r.Done? ==> (s.SortedFrom(out, tuples) <==> old(LastFreedEmpty(disk.freeSlots, disk.file)))
    ensures old(LastFreedEmpty(disk.freeSlots, disk.file)) && s.order.Ok() ==> r.Done?
  {
    hide HoldsTuples, TuplesOn, Slotted, ReadsEmpty, Stale, Taking, Sorter.SortedFrom, SortedWith, Usable, Used;
    var data := FirstRead(disk, p);
    var store := new PageStore(_ => data);
    ghost var all, firsts;
    out, r, all, firsts := SortAndRead(s, store, tuples, |tuples| + 1);
    EachFits(tuples);
    if ReadsEmpty(data) && s.order.Ok() {
      EmptyIsUsable(s, data);
    }
    if r.Done? {
      FrontTells(s, all, tuples, Stale(store.unwritten, firsts));
    }
  }

  lemma EachFits(tuples: seq<Tuple>)
    requires Used(tuples) <= PAGE_SIZE
    ensures AllFit(tuples)
  {
    hide Used;
    forall i {:trigger tuples[i]} | 0 <= i < |tuples|
      ensures Used([tuples[i]]) <= PAGE_SIZE
    {
      TupleFitsAlone(tuples, i);
    }
  }

  /** One tuple more than were to be sorted is enough to tell. */
  lemma FrontTells(s: Sorter, all: seq<Tuple>, tuples: seq<Tuple>, was: seq<Tuple>)
    requires SortedWith(s, all, tuples, was)
    ensures s.SortedFrom(if |tuples| + 1 <= |all| then all[..|tuples| + 1] else all, tuples) <==> s.SortedFrom(all, tuples)
  {
    if s.SortedFrom(all, tuples) {
      SortedLength(s, all, tuples);
    } else if |tuples| + 1 <= |all| {
      var front := all[..|tuples| + 1];
      if s.SortedFrom(front, tuples) {
        SortedLength(s, front, tuples);
      }
    }
  }

  /** A page read for the first time right after a deletion shows the deleted page. */
  method ReadAfterDelete(disk: DiskManager, p: PageId, q: PageId) returns (data: PageBytes)
    requires disk.Valid() && p in disk.View() && q !in disk.View()
    modifies disk
    ensures disk.Valid() && data == old(disk.View())[p]
  {
    ghost var slot, free := disk.pages[p], disk.freeSlots;
    assert p in disk.pages && disk.View()[p] == Slot(disk.file, slot);
    var ok := disk.DeletePage(p);
    assert disk.freeSlots == free + [slot] && q !in disk.pages by {
      assert q !in disk.View();
    }
    data := disk.ReadPage(q);
  }

  /** A sort of nothing, on a page whose slot a deleted page with the tuple `t`
      had, gives something. */
  method SortOfNothing(disk: DiskManager, s: Sorter, t: Tuple, p: PageId, q: PageId) returns (out: seq<Tuple>)
    requires disk.Valid() && p in disk.View() && q !in disk.View()
    requires HoldsTuples(disk.View()[p], [t]) && s.Sortable(t)
    modifies disk
    ensures disk.Valid() && out != []
    ensures !s.SortedFrom(out, [])
  {
    hide HoldsTuples, TuplesOn, Slotted, ReadsEmpty, Stale;
    var data := ReadAfterDelete(disk, p, q);
    TuplesHeld(data, [t]);
    var store := new PageStore(_ => data);
    ghost var firsts, all;
    var r;
    out, r, all, firsts := SortAndRead(s, store, [], 1);
    assert s.Fit([t]) && AllFit([]);
    StaleIsNothing(store.unwritten, firsts);
    EmptyIsSlotted(data);
    assert r.Done? && firsts[0] in firsts;
    MoreThanNothing(s, all, Stale(store.unwritten, firsts));
  }

  lemma MoreThanNothing(s: Sorter, all: seq<Tuple>, was: seq<Tuple>)
    requires SortedWith(s, all, [], was) && was != []
    ensures all != [] && forall n :: 1 <= n <= |all| ==> !s.SortedFrom(all[..n], [])
  {
    assert s.Entries([]) == [];
    assert |multiset(s.Entries(all))| == |all| && |multiset(s.Entries(was))| == |was|;
    forall n | 1 <= n <= |all|
      ensures !s.SortedFrom(all[..n], [])
    {
      assert |s.Entries(all[..n])| == n;
    }
  }
}
