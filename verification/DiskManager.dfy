/** The disk manager: page ids to slots of one file, freed slots reused first. */
module DiskManagers {
  import opened Common
  import opened Bytes

  type Data = seq<Byte>

  const PAGE_SIZE: nat := 8192
  const DEFAULT_PAGE_CAPACITY: nat := 16

  function Zeros(n: nat): (d: Data)
    ensures |d| == n && forall i :: 0 <= i < n ==> d[i] == 0
  {
    seq(n, _ => 0)
  }

  /** Slots are the pages of the file, in order. */
  function Offset(slot: nat): nat { slot * PAGE_SIZE }

  function Index(offset: nat): nat { offset / PAGE_SIZE }

  /** The content of the slot at `offset`. */
  function Slot(file: Data, offset: nat): Data
    requires offset + PAGE_SIZE <= |file|
  {
    file[offset..offset + PAGE_SIZE]
  }

  function Overwrite(file: Data, offset: nat, data: Data): Data
    requires offset + PAGE_SIZE <= |file| && |data| == PAGE_SIZE
  {
    file[..offset] + data + file[offset + PAGE_SIZE..]
  }

  /** Writing one slot leaves all others alone. */
  lemma OverwriteSlot(file: Data, slot: nat, data: Data, other: nat)
    requires Offset(slot) + PAGE_SIZE <= |file| && |data| == PAGE_SIZE && Offset(other) + PAGE_SIZE <= |file|
    ensures |Overwrite(file, Offset(slot), data)| == |file|
    ensures Slot(Overwrite(file, Offset(slot), data), Offset(other)) ==
      if other == slot then data else Slot(file, Offset(other))
  {
    var f := Overwrite(file, Offset(slot), data);
    if other < slot {
      assert Offset(other) + PAGE_SIZE <= Offset(slot);
    } else if other > slot {
      assert Offset(slot) + PAGE_SIZE <= Offset(other);
      assert forall i :: Offset(slot) + PAGE_SIZE <= i < |file| ==> f[i] == file[i];
    }
  }

  // ---- who owns which slot ---------------------------------------------------------

  ghost predicate PageOk(pages: map<PageId, nat>, owners: seq<Option<PageId>>, p: PageId)
    requires p in pages
  {
    var i := Index(pages[p]);
    i < |owners| && pages[p] == Offset(i) && owners[i] == Some(p)
  }

  ghost predicate FreeOk(owners: seq<Option<PageId>>, offset: nat) {
    var i := Index(offset);
    i < |owners| && offset == Offset(i) && owners[i] == None
  }

  ghost predicate OwnerOk(pages: map<PageId, nat>, free: seq<nat>, i: nat, owner: Option<PageId>) {
    match owner
    case Some(p) => p in pages && pages[p] == Offset(i)
    case None => Offset(i) in free
  }

  /** Each slot handed out so far is owned by a page or free, never both. */
  ghost predicate Layout(pages: map<PageId, nat>, free: seq<nat>, owners: seq<Option<PageId>>) {
    && |pages| + |free| == |owners|
    && (forall p {:trigger PageOk(pages, owners, p)} :: p in pages ==> PageOk(pages, owners, p))
    && (forall j {:trigger FreeOk(owners, free[j])} :: 0 <= j < |free| ==> FreeOk(owners, free[j]))
    && (forall i {:trigger OwnerOk(pages, free, i, owners[i])} ::
          0 <= i < |owners| ==> OwnerOk(pages, free, i, owners[i]))
    && (forall j, k :: 0 <= j < k < |free| ==> free[j] != free[k])
  }

  /** A freed slot is handed out again. */
  lemma ReuseSlot(pages: map<PageId, nat>, free: seq<nat>, owners: seq<Option<PageId>>, p: PageId)
    requires Layout(pages, free, owners) && free != [] && p !in pages
    ensures var offset := free[|free| - 1];
      && Index(offset) < |owners| && offset == Offset(Index(offset))
      && Layout(pages[p := offset], free[..|free| - 1], owners[Index(offset) := Some(p)])
  {
    var last := |free| - 1;
    assert FreeOk(owners, free[last]);
    var i := Index(free[last]);
    var pages', free', owners' := pages[p := free[last]], free[..last], owners[i := Some(p)];
    forall q | q in pages'
      ensures PageOk(pages', owners', q)
    {
      assert q != p ==> PageOk(pages, owners, q);
    }
    forall j | 0 <= j < |free'|
      ensures FreeOk(owners', free'[j])
    {
      assert FreeOk(owners, free[j]) && free[j] != free[last];
    }
    forall k | 0 <= k < |owners'|
      ensures OwnerOk(pages', free', k, owners'[k])
    {
      assert OwnerOk(pages, free, k, owners[k]);
      if k != i && owners[k].None? {
        var m :| 0 <= m < |free| && free[m] == Offset(k);
        assert free'[m] == Offset(k);
      }
    }
  }

  /** With no freed slot left the next slot of the file is handed out. */
  lemma AppendSlot(pages: map<PageId, nat>, free: seq<nat>, owners: seq<Option<PageId>>, p: PageId)
    requires Layout(pages, free, owners) && free == [] && p !in pages
    ensures |owners| == |pages| && Index(Offset(|owners|)) == |owners|
    ensures Layout(pages[p := Offset(|pages|)], free, owners + [Some(p)])
  {
    var pages', owners' := pages[p := Offset(|pages|)], owners + [Some(p)];
    forall q | q in pages'
      ensures PageOk(pages', owners', q)
    {
      assert q != p ==> PageOk(pages, owners, q);
    }
    forall k | 0 <= k < |owners'|
      ensures OwnerOk(pages', free, k, owners'[k])
    {
      assert k < |owners| ==> OwnerOk(pages, free, k, owners[k]);
    }
  }

  /** A deleted page's slot becomes free. */
  lemma FreeSlot(pages: map<PageId, nat>, free: seq<nat>, owners: seq<Option<PageId>>, p: PageId)
    requires Layout(pages, free, owners) && p in pages
    ensures Index(pages[p]) < |owners|
    ensures Layout(pages - {p}, free + [pages[p]], owners[Index(pages[p]) := None])
  {
    assert PageOk(pages, owners, p);
    var i := Index(pages[p]);
    var pages', free', owners' := pages - {p}, free + [pages[p]], owners[i := None];
    assert pages'.Keys == pages.Keys - {p};
    forall q | q in pages'
      ensures PageOk(pages', owners', q)
    {
      assert PageOk(pages, owners, q);
    }
    forall k | 0 <= k < |owners'|
      ensures OwnerOk(pages', free', k, owners'[k])
    {
      assert OwnerOk(pages, free, k, owners[k]);
      if k == i {
        assert free'[|free|] == Offset(i);
      } else if owners[k].None? {
        var m :| 0 <= m < |free| && free[m] == Offset(k);
        assert free'[m] == Offset(k);
      }
    }
    forall j | 0 <= j < |free'|
      ensures FreeOk(owners', free'[j]) && (j < |free| ==> free'[j] != pages[p])
    {
      assert j < |free| ==> FreeOk(owners, free[j]);
    }
  }

  // ---- what the pages hold -----------------------------------------------------------

  ghost predicate Fits(pages: map<PageId, nat>, file: Data) {
    forall p :: p in pages ==> pages[p] + PAGE_SIZE <= |file|
  }

  ghost function ViewOf(pages: map<PageId, nat>, file: Data): map<PageId, Data>
    requires Fits(pages, file)
  {
    map p | p in pages :: Slot(file, pages[p])
  }

  lemma LayoutFits(pages: map<PageId, nat>, free: seq<nat>, owners: seq<Option<PageId>>, file: Data)
    requires Layout(pages, free, owners) && Offset(|owners|) <= |file|
    ensures Fits(pages, file)
  {
    forall p | p in pages
      ensures pages[p] + PAGE_SIZE <= |file|
    {
      assert PageOk(pages, owners, p);
    }
  }

  lemma WriteView(pages: map<PageId, nat>, free: seq<nat>, owners: seq<Option<PageId>>, file: Data, p: PageId, data: Data)
    requires Layout(pages, free, owners) && Fits(pages, file) && p in pages && |data| == PAGE_SIZE
    ensures Fits(pages, Overwrite(file, pages[p], data))
    ensures ViewOf(pages, Overwrite(file, pages[p], data)) == ViewOf(pages, file)[p := data]
  {
    assert PageOk(pages, owners, p);
    forall q | q in pages
      ensures Slot(Overwrite(file, pages[p], data), pages[q]) == if q == p then data else Slot(file, pages[q])
    {
      assert PageOk(pages, owners, q);
      OverwriteSlot(file, Index(pages[p]), data, Index(pages[q]));
    }
  }

  lemma GrowView(pages: map<PageId, nat>, file: Data, file': Data, p: PageId, offset: nat)
    requires Fits(pages, file) && file <= file' && p !in pages && offset + PAGE_SIZE <= |file'|
    ensures Fits(pages[p := offset], file')
    ensures ViewOf(pages[p := offset], file') == ViewOf(pages, file)[p := Slot(file', offset)]
  {
    var pages' := pages[p := offset];
    forall q | q in pages
      ensures Slot(file', pages'[q]) == Slot(file, pages[q])
    {
    }
  }

  lemma WriteTail(pages: map<PageId, nat>, free: seq<nat>, owners: seq<Option<PageId>>, file: Data, p: PageId, data: Data)
    requires Layout(pages, free, owners) && Fits(pages, file) && p in pages && |data| == PAGE_SIZE
    requires forall i :: Offset(|owners|) <= i < |file| ==> file[i] == 0
    ensures var f := Overwrite(file, pages[p], data);
      |f| == |file| && forall i :: Offset(|owners|) <= i < |f| ==> f[i] == 0
  {
    assert PageOk(pages, owners, p);
    assert pages[p] + PAGE_SIZE <= Offset(|owners|);
    var f := Overwrite(file, pages[p], data);
    assert forall i :: pages[p] + PAGE_SIZE <= i < |f| ==> f[i] == file[i];
  }

  class DiskManager {
    var pageCapacity: nat
    var pages: map<PageId, nat>
    var freeSlots: seq<nat>
    var file: Data
    ghost var owners: seq<Option<PageId>>

    /** Live and free offsets are disjoint and together exactly the slots
        0..n-1, all within the file; the rest of the file is still zero. */
    ghost predicate Valid()
      reads this
    {
      && Layout(pages, freeSlots, owners) && Fits(pages, file)
      && 1 <= pageCapacity && |owners| <= pageCapacity
      && |file| == Offset(pageCapacity + 1)
      && (forall i :: Offset(|owners|) <= i < |file| ==> file[i] == 0)
    }

    /** What the allocated pages hold. */
    ghost function View(): map<PageId, Data>
      reads this
      requires Valid()
    {
      ViewOf(pages, file)
    }

    constructor ()
      ensures Valid() && View() == map[] && freeSlots == []
    {
      pageCapacity, pages, freeSlots := DEFAULT_PAGE_CAPACITY, map[], [];
      file, owners := Zeros(Offset(DEFAULT_PAGE_CAPACITY + 1)), [];
    }

    /** Gives page `p` an offset: a freed slot if there is one, else the next
        slot, growing the file when it is full. */
    method AllocateNewPage(ghost p: PageId) returns (offset: nat)
      requires Valid() && p !in pages
      modifies this`pageCapacity, this`freeSlots, this`file, this`owners
      ensures Layout(pages[p := offset], freeSlots, owners) && offset == Offset(Index(offset))
      ensures 1 <= pageCapacity && |owners| <= pageCapacity && |file| == Offset(pageCapacity + 1)
      ensures forall i :: Offset(|owners|) <= i < |file| ==> file[i] == 0
      ensures old(file) <= file && offset + PAGE_SIZE <= |file|
      ensures old(freeSlots) == [] ==> forall i :: offset <= i < |file| ==> file[i] == 0
      ensures old(freeSlots) != [] ==> offset == old(freeSlots)[|old(freeSlots)| - 1] && file == old(file)
    {
      if freeSlots != [] {
        ReuseSlot(pages, freeSlots, owners, p);
        offset := freeSlots[|freeSlots| - 1];
        owners := owners[Index(offset) := Some(p)];
        freeSlots := freeSlots[..|freeSlots| - 1];
        return;
      }
      AppendSlot(pages, freeSlots, owners, p);
      if |pages| >= pageCapacity {
        pageCapacity := pageCapacity * 2;
        file := file + Zeros(Offset(pageCapacity + 1) - |file|);
      }
      offset := Offset(|pages|);
      owners := owners + [Some(p)];
    }

    /** Looks up the slot of a page, giving it one if it has none. */
    method Locate(p: PageId) returns (offset: nat)
      requires Valid()
      modifies this
      ensures Valid() && p in pages && pages[p] == offset && offset + PAGE_SIZE <= |file|
      ensures View() == old(View())[p := Slot(file, offset)]
      ensures p in old(pages) ==> View() == old(View())
      ensures p !in old(pages) && old(freeSlots) == [] ==> Slot(file, offset) == Zeros(PAGE_SIZE)
      ensures p !in old(pages) && old(freeSlots) != [] ==>
        offset == old(freeSlots)[|old(freeSlots)| - 1] && offset + PAGE_SIZE <= |old(file)| && Slot(file, offset) == Slot(old(file), offset)
    {
      if p in pages {
        offset := pages[p];
        return;
      }
      ghost var pages0, file0 := pages, file;
      offset := AllocateNewPage(p);
      pages := pages[p := offset];
      LayoutFits(pages, freeSlots, owners, file);
      GrowView(pages0, file0, file, p, offset);
    }

    method ReadPage(p: PageId) returns (data: Data)
      requires Valid()
      modifies this
      ensures Valid() && |data| == PAGE_SIZE && View() == old(View())[p := data]
      ensures p in old(pages) ==> View() == old(View())
      ensures p !in old(pages) && old(freeSlots) == [] ==> data == Zeros(PAGE_SIZE)
      ensures p !in old(pages) && old(freeSlots) != [] ==>
        var slot := old(freeSlots)[|old(freeSlots)| - 1]; slot + PAGE_SIZE <= |old(file)| && data == Slot(old(file), slot)
    {
      var offset := Locate(p);
      data := Slot(file, offset);
    }

    /** Fails, changing nothing, unless exactly one page of bytes is given. */
    method WritePage(p: PageId, data: Data) returns (ok: bool)
      requires Valid()
      modifies this
      ensures Valid() && (ok <==> |data| == PAGE_SIZE)
      ensures View() == if ok then old(View())[p := data] else old(View())
    {
      if |data| != PAGE_SIZE {
        return false;
      }
      var offset := Locate(p);
      WriteView(pages, freeSlots, owners, file, p, data);
      WriteTail(pages, freeSlots, owners, file, p, data);
      file := Overwrite(file, offset, data);
      ok := true;
    }

    method DeletePage(p: PageId) returns (ok: bool)
      requires Valid()
      modifies this
      ensures Valid() && (ok <==> p in old(pages))
      ensures View() == old(View()) - {p} && file == old(file)
      ensures freeSlots == old(freeSlots) + if ok then [old(pages)[p]] else []
    {
      if p !in pages {
        return false;
      }
      FreeSlot(pages, freeSlots, owners, p);
      var offset := pages[p];
      pages := pages - {p};
      freeSlots := freeSlots + [offset];
      owners := owners[Index(offset) := None];
      ok := true;
    }
  }
}
