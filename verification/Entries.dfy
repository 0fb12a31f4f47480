/** Index entries: a key paired with the row identifier it points at, in the
    order the index pages keep them. */
module Entries {
  import opened Common
  const INVALID_PAGE_ID: PageId := 0

  /** A row identifier: heap page and slot. */
  datatype Rid = Rid(pageId: PageId, slotId: nat)

  /** A full index key `(K, Rid)`. Keys are compared as integers: the bytes of
      a fixed-width key compare like the big-endian number they spell (module
      KeyEncoder). */
  datatype Entry = Entry(key: int, rid: Rid)

  datatype Ordering = Less | Equal | Greater

  function CompareInt(a: int, b: int): Ordering {
    if a < b then Less else if a == b then Equal else Greater
  }

  /** First by page, then by slot. */
  function CompareRid(a: Rid, b: Rid): Ordering {
    var byPage := CompareInt(a.pageId, b.pageId);
    if byPage.Equal? then CompareInt(a.slotId, b.slotId) else byPage
  }

  /** First by key, then by row identifier. */
  function CompareEntry(a: Entry, b: Entry): (o: Ordering)
    ensures o.Less? <==> Lt(a, b)
    ensures o.Equal? <==> a == b
    ensures o.Greater? <==> Lt(b, a)
  {
    var byKey := CompareInt(a.key, b.key);
    if byKey.Equal? then CompareRid(a.rid, b.rid) else byKey
  }

  /** The strict order behind CompareEntry. */
  predicate Lt(a: Entry, b: Entry) {
    || a.key < b.key
    || (a.key == b.key && a.rid.pageId < b.rid.pageId)
    || (a.key == b.key && a.rid.pageId == b.rid.pageId && a.rid.slotId < b.rid.slotId)
  }

  ghost predicate Sorted(s: seq<Entry>) {
    forall i, j :: 0 <= i < j < |s| ==> Lt(s[i], s[j])
  }

  /** `p` splits `s` into the entries before `e` and the entries from `e` on. */
  ghost predicate IsLowerBound(s: seq<Entry>, e: Entry, p: nat) {
    && p <= |s|
    && (forall i :: 0 <= i < p ==> Lt(s[i], e))
    && (forall i :: p <= i < |s| ==> !Lt(s[i], e))
  }

  lemma SortedInsert(s: seq<Entry>, e: Entry, p: nat)
    requires Sorted(s) && IsLowerBound(s, e, p) && e !in s
    ensures Sorted(s[..p] + [e] + s[p..])
  {
    var t := s[..p] + [e] + s[p..];
    forall i | p <= i < |s|
      ensures Lt(e, s[i])
    {
      assert s[i] in s;
      assert CompareEntry(e, s[i]) != Equal;
    }
  }

  lemma SortedRemove(s: seq<Entry>, p: nat)
    requires Sorted(s) && p < |s|
    ensures Sorted(s[..p] + s[p + 1..])
    ensures s[p] !in s[..p] + s[p + 1..]
    ensures forall e :: e in s[..p] + s[p + 1..] <==> e in s && e != s[p]
  {
    var t := s[..p] + s[p + 1..];
    forall e | e in s && e != s[p]
      ensures e in t
    {
      var i :| 0 <= i < |s| && s[i] == e;
      assert i < p ==> t[i] == e;
      assert i > p ==> t[i - 1] == e;
    }
    forall e | e in t
      ensures e in s && e != s[p]
    {
      var i :| 0 <= i < |t| && t[i] == e;
      assert i < p ==> Lt(e, s[p]);
      assert i >= p ==> Lt(s[p], e);
    }
  }

  /** The last of a sorted sequence is its greatest entry, and in it once. */
  lemma LastIsGreatest(s: seq<Entry>, e: Entry)
    requires Sorted(s) && s != []
    ensures e in s[..|s| - 1] <==> e in s && e != s[|s| - 1]
    ensures e in s ==> e == s[|s| - 1] || Lt(e, s[|s| - 1])
  {
    var n := |s| - 1;
    assert s == s[..n] + [s[n]];
  }

  /** Sorted sequences with the same elements are the same sequence. */
  lemma {:induction false} SortedUnique(s: seq<Entry>, t: seq<Entry>)
    requires Sorted(s) && Sorted(t)
    requires forall e :: e in s <==> e in t
    ensures s == t
  {
    assert s != [] ==> s[0] in t;
    assert t != [] ==> t[0] in s;
    if s != [] && t != [] {
      var n, m := |s| - 1, |t| - 1;
      assert !(Lt(s[n], t[m]) && Lt(t[m], s[n]));
      hide Lt;
      LastIsGreatest(s, t[m]);
      LastIsGreatest(t, s[n]);
      assert s[n] in t && t[m] in s;
      assert s[n] == t[m];
      forall e
        ensures e in s[..n] <==> e in t[..m]
      {
        LastIsGreatest(s, e);
        LastIsGreatest(t, e);
      }
      SortedUnique(s[..n], t[..m]);
      assert s == s[..n] + [s[n]] && t == t[..m] + [t[m]];
    }
  }
}
