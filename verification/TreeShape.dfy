/** The shape of a B+ tree stored as a map from page ids to pages.

    Instead of a recursive tree, every page carries its place: the interval of
    entries it is responsible for, its level, and its parent. Well-formedness is
    then a statement about each page and its children, and an operation has to
    account only for the few pages it touches. */
module TreeShape {
  import opened Common
  import opened Entries
  import opened LeafPages
  import opened InternalPages

  datatype Page = LeafNode(leaf: Leaf) | InnerNode(inner: Inner)

  type Store = map<PageId, Page>

  /** An end of an interval of entries. */
  datatype Bound = NegInf | Fin(e: Entry) | PosInf

  predicate Before(a: Bound, b: Bound) {
    match (a, b)
    case (NegInf, NegInf) => false
    case (NegInf, _) => true
    case (Fin(x), Fin(y)) => Lt(x, y)
    case (Fin(_), PosInf) => true
    case _ => false
  }

  /** Where a page belongs: entries from `lo` up to, not including, `hi`. */
  datatype Info = Info(lo: Bound, hi: Bound, level: nat, parent: PageId)

  type Shape = map<PageId, Info>

  predicate AtLeast(e: Entry, lo: Bound) {
    match lo
    case NegInf => true
    case Fin(x) => !Lt(e, x)
    case PosInf => false
  }

  predicate Under(e: Entry, hi: Bound) {
    Before(Fin(e), hi)
  }

  predicate Holds(i: Info, e: Entry) {
    AtLeast(e, i.lo) && Under(e, i.hi)
  }

  // ---- well-formedness ------------------------------------------------------

  /** The place of child `k` of the page `id`. */
  function KidInfo(i: Info, id: PageId, n: Inner, k: nat): Info
    requires n.Shaped() && k < |n.kids| && i.level > 0
  {
    Info(if k == 0 then i.lo else Fin(n.seps[k - 1]),
         if k == |n.seps| then i.hi else Fin(n.seps[k]),
         i.level - 1, id)
  }

  ghost predicate InnerOk(s: Shape, id: PageId, n: Inner)
    requires id in s
  {
    && n.Shaped()
    && s[id].level > 0
    && forall k :: 0 <= k < |n.kids| ==> n.kids[k] in s && s[n.kids[k]] == KidInfo(s[id], id, n, k)
  }

  /** The leaf chain: the next leaf starts where this one ends. */
  ghost predicate ChainOk(s: Shape, id: PageId, next: PageId)
    requires id in s
  {
    if s[id].hi.PosInf? then next == INVALID_PAGE_ID
    else next in s && s[next].level == 0 && s[next].lo == s[id].hi
  }

  ghost predicate LeafOk(s: Shape, id: PageId, l: Leaf)
    requires id in s
  {
    && s[id].level == 0
    && l.tombs == []
    && Sorted(l.entries)
    && (forall i :: 0 <= i < |l.entries| ==> Holds(s[id], l.entries[i]))
    && ChainOk(s, id, l.next)
  }

  ghost predicate PageOk(s: Shape, id: PageId, page: Page)
    requires id in s
  {
    && Before(s[id].lo, s[id].hi)
    && match page {
         case LeafNode(l) => LeafOk(s, id, l)
         case InnerNode(n) => InnerOk(s, id, n)
       }
  }

  /** Every page but the root hangs under its parent. */
  ghost predicate Attached(v: Store, s: Shape, root: PageId, id: PageId)
    requires id in s && root in s
  {
    id != root ==>
      && s[id].level < s[root].level
      && s[id].parent in v
      && v[s[id].parent].InnerNode?
      && id in v[s[id].parent].inner.kids
  }

  /** The stored pages form one tree under `root`: uniform depth, separators
      bounding their children, the leaf chain in order, and no page besides. */
  ghost predicate WF(v: Store, s: Shape, root: PageId) {
    && v.Keys == s.Keys
    && INVALID_PAGE_ID !in s
    && root in s
    && s[root].lo == NegInf && s[root].hi == PosInf
    && (forall id {:trigger PageOk(s, id, v[id])} :: id in s ==> PageOk(s, id, v[id]))
    && (forall id {:trigger Attached(v, s, root, id)} :: id in s ==> Attached(v, s, root, id))
  }

  /** The entries of all leaves. */
  ghost function Contents(v: Store): set<Entry> {
    set id, e | id in v && v[id].LeafNode? && e in v[id].leaf.entries :: e
  }

  function Kids(page: Page): seq<PageId> {
    match page
    case LeafNode(_) => []
    case InnerNode(n) => n.kids
  }

  // ---- intervals do not overlap -----------------------------------------------

  /** Siblings lie in order. */
  lemma {:induction false} KidsOrdered(v: Store, s: Shape, root: PageId, id: PageId, j: nat, k: nat)
    requires WF(v, s, root) && id in v && v[id].InnerNode? && j < k < |v[id].inner.kids|
    ensures var n := v[id].inner;
      && n.kids[j] in s && n.kids[k] in s
      && s[n.kids[j]].hi.Fin? && s[n.kids[k]].lo.Fin?
      && !Lt(s[n.kids[k]].lo.e, s[n.kids[j]].hi.e)
    decreases k - j
  {
    var n := v[id].inner;
    assert PageOk(s, id, v[id]);
    if j + 1 < k {
      KidsOrdered(v, s, root, id, j + 1, k);
      assert PageOk(s, n.kids[j + 1], v[n.kids[j + 1]]);
    }
  }

  /** A child's interval lies within its parent's. */
  lemma KidWithin(v: Store, s: Shape, root: PageId, id: PageId, k: nat, e: Entry)
    requires WF(v, s, root) && id in v && v[id].InnerNode? && k < |v[id].inner.kids|
    requires v[id].inner.kids[k] in s && Holds(s[v[id].inner.kids[k]], e)
    ensures Holds(s[id], e)
  {
    var n := v[id].inner;
    assert PageOk(s, id, v[id]);
    if k > 0 {
      KidsOrdered(v, s, root, id, 0, k);
      assert PageOk(s, n.kids[0], v[n.kids[0]]);
    }
    var last := |n.kids| - 1;
    if k < last {
      KidsOrdered(v, s, root, id, k, last);
      assert PageOk(s, n.kids[last], v[n.kids[last]]);
    }
  }

  /** Two children of one page that both hold an entry are the same child. */
  lemma KidUnique(v: Store, s: Shape, root: PageId, id: PageId, j: nat, k: nat, e: Entry)
    requires WF(v, s, root) && id in v && v[id].InnerNode?
    requires j < |v[id].inner.kids| && k < |v[id].inner.kids|
    requires v[id].inner.kids[j] in s && Holds(s[v[id].inner.kids[j]], e)
    requires v[id].inner.kids[k] in s && Holds(s[v[id].inner.kids[k]], e)
    ensures j == k
  {
    if j < k {
      KidsOrdered(v, s, root, id, j, k);
    } else if k < j {
      KidsOrdered(v, s, root, id, k, j);
    }
  }

  /** On each level exactly one page can hold an entry. */
  lemma {:induction false} Unique(v: Store, s: Shape, root: PageId, a: PageId, b: PageId, e: Entry)
    requires WF(v, s, root) && a in s && b in s && s[a].level == s[b].level
    requires Holds(s[a], e) && Holds(s[b], e)
    ensures a == b
    decreases s[root].level - s[a].level
  {
    assert Attached(v, s, root, a) && Attached(v, s, root, b);
    if a != root && b != root {
      var p, q := s[a].parent, s[b].parent;
      assert PageOk(s, p, v[p]) && PageOk(s, q, v[q]);
      var j :| 0 <= j < |v[p].inner.kids| && v[p].inner.kids[j] == a;
      var k :| 0 <= k < |v[q].inner.kids| && v[q].inner.kids[k] == b;
      KidWithin(v, s, root, p, j, e);
      KidWithin(v, s, root, q, k, e);
      assert Attached(v, s, root, p);
      Unique(v, s, root, p, q, e);
      KidUnique(v, s, root, p, j, k, e);
    }
  }

  /** Two leaves that end at the same bound are the same leaf. */
  lemma UniqueByEnd(v: Store, s: Shape, root: PageId, a: PageId, b: PageId)
    requires WF(v, s, root) && a in s && b in s && s[a].level == s[b].level
    requires s[a].hi == s[b].hi
    ensures a == b
  {
    assert PageOk(s, a, v[a]) && PageOk(s, b, v[b]);
    var x, y := s[a].lo, s[b].lo;
    var h := s[a].hi;
    var e := if x.Fin? && y.Fin? then (if Lt(x.e, y.e) then y.e else x.e)
             else if x.Fin? then x.e else if y.Fin? then y.e
             else if h.Fin? then h.e.(key := h.e.key - 1) else Entry(0, Rid(0, 0));
    Unique(v, s, root, a, b, e);
  }

  /** Two pages of a level that start at the same bound are the same page. */
  lemma UniqueByStart(v: Store, s: Shape, root: PageId, a: PageId, b: PageId)
    requires WF(v, s, root) && a in s && b in s && s[a].level == s[b].level
    requires s[a].lo == s[b].lo
    ensures a == b
  {
    assert PageOk(s, a, v[a]) && PageOk(s, b, v[b]);
    var l := s[a].lo;
    if l.Fin? {
      Unique(v, s, root, a, b, l.e);
    } else {
      var x, y := s[a].hi, s[b].hi;
      var m := if x.Fin? && y.Fin? then (if Lt(x.e, y.e) then x.e else y.e)
               else if x.Fin? then x.e else if y.Fin? then y.e else Entry(0, Rid(0, 0));
      Unique(v, s, root, a, b, m.(key := m.key - 1));
    }
  }

  /** An entry is stored iff the leaf responsible for it stores it. */
  lemma ContentsAt(v: Store, s: Shape, root: PageId, id: PageId, e: Entry)
    requires WF(v, s, root) && id in s && v[id].LeafNode? && Holds(s[id], e)
    ensures e in Contents(v) <==> e in v[id].leaf.entries
  {
    assert PageOk(s, id, v[id]);
    if e in Contents(v) {
      var b :| b in v && v[b].LeafNode? && e in v[b].leaf.entries;
      assert PageOk(s, b, v[b]);
      Unique(v, s, root, id, b, e);
    }
  }
}
