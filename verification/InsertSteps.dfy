/** Why an insertion may let go of its ancestors: what is still latched is
    enough for any split to travel up, and each travelling step keeps the tree
    well formed. */
module InsertSteps {
  import opened Common
  import opened Entries
  import opened LeafPages
  import opened InternalPages
  import opened TreeShape
  import opened TreeSteps
  import opened TreeContents

  /** An insertion below this page cannot split it. */
  predicate InsertSafe(caps: Caps, page: Page) {
    match page
    case LeafNode(l) => |l.entries| + 1 < caps.leaf
    case InnerNode(n) => |n.kids| < caps.inner
  }

  /** The latched pages: only the first can be safe, and it is safe or the root. */
  ghost predicate Retained(caps: Caps, v: Store, root: PageId, ws: seq<PageId>) {
    && ws != []
    && (forall i :: 0 <= i < |ws| ==> ws[i] in v)
    && (ws[0] != root ==> InsertSafe(caps, v[ws[0]]))
    && (forall i :: 1 <= i < |ws| ==> !InsertSafe(caps, v[ws[i]]))
  }

  ghost predicate IdsBelow(v: Store, next: PageId) {
    forall id :: id in v ==> id < next
  }

  lemma FreshId(caps: Caps, v: Store, s: Shape, root: PageId, pages: Store,
                ws: seq<PageId>, sep: Entry, q: PageId, next: PageId)
    requires Pending(caps, v, s, root, pages, ws, sep, q) && IdsBelow(pages, next)
    ensures next !in v && next !in pages && next > q > INVALID_PAGE_ID
  {
    assert v.Keys <= pages.Keys;
  }

  /** The last page of `ws` has been split: in the tree `v` it is still whole,
      in `pages` its halves are at its own id and at `q`, and `sep` waits to be
      put between them in the parent. */
  ghost predicate Pending(caps: Caps, v: Store, s: Shape, root: PageId, pages: Store,
                          ws: seq<PageId>, sep: Entry, q: PageId) {
    && WF(v, s, root) && Path(v, s, root, ws) && Retained(caps, v, root, ws)
    && var o := ws[|ws| - 1];
    && !InsertSafe(caps, v[o])
    && q !in v && q != INVALID_PAGE_ID
    && o in pages && q in pages && pages == v[o := pages[o]][q := pages[q]]
    && Halves(v[o], s[o], pages[o], sep, pages[q], q)
    && Sized(caps, v, root, o) && SizeOk(caps, pages[o], false) && SizeOk(caps, pages[q], false)
  }

  /** The cut that hands the split of the last page of `ws` to its parent. */
  ghost function ParentCut(pages: Store, ws: seq<PageId>, at: nat, sep: Entry, q: PageId): Cutting
    requires |ws| > 1 && ws[|ws| - 1] in pages && q in pages
  {
    var o := ws[|ws| - 1];
    Cutting(o, q, ws[|ws| - 2], at, pages[o], sep, pages[q])
  }

  /** The parent of the split page is the page latched before it. */
  lemma PendingParent(caps: Caps, v: Store, s: Shape, root: PageId, pages: Store,
                      ws: seq<PageId>, sep: Entry, q: PageId) returns (at: nat)
    requires Pending(caps, v, s, root, pages, ws, sep, q) && |ws| > 1
    ensures var p := ws[|ws| - 2];
      && KidAt(v, p, at, ws[|ws| - 1]) && p in s && p in pages && pages[p] == v[p]
      && |v[p].inner.kids| <= caps.inner
  {
    var n := |ws|;
    assert PathLink(v, s, root, ws, n - 2);
    assert PathPage(v, s, ws, n - 2) && PathPage(v, s, ws, n - 1);
    at := FindKid(v, s, root, ws[n - 1]);
  }

  lemma PendingCanCut(caps: Caps, v: Store, s: Shape, root: PageId, pages: Store,
                      ws: seq<PageId>, sep: Entry, q: PageId, at: nat)
    requires Pending(caps, v, s, root, pages, ws, sep, q) && |ws| > 1
    requires KidAt(v, ws[|ws| - 2], at, ws[|ws| - 1])
    ensures CanCut(v, s, root, ParentCut(pages, ws, at, sep, q))
    ensures var p := ws[|ws| - 2]; p != ws[|ws| - 1] && p in pages && pages[p] == v[p] && p in s
  {
    var n := |ws|;
    assert PathLink(v, s, root, ws, n - 2);
    assert PathPage(v, s, ws, n - 2) && PathPage(v, s, ws, n - 1);
  }

  /** Once the parent has taken the separator and the new child, the tree is
      whole again, except perhaps for the parent's size. */
  lemma HandToParent(caps: Caps, v: Store, s: Shape, root: PageId, pages: Store,
                     ws: seq<PageId>, sep: Entry, q: PageId, at: nat)
    requires Pending(caps, v, s, root, pages, ws, sep, q) && |ws| > 1
    requires KidAt(v, ws[|ws| - 2], at, ws[|ws| - 1])
    ensures var c := ParentCut(pages, ws, at, sep, q);
      var w, t := CutStore(v, c), CutShape(s, c);
      && WF(w, t, root) && Contents(w) == Contents(v)
      && w == pages[c.p := InnerNode(v[c.p].inner.Insert(at, sep, q))]
      && Sized(caps, w, root, c.p)
      && SizeOk(caps, v[c.p], c.p == root)
  {
    PendingCanCut(caps, v, s, root, pages, ws, sep, q, at);
    var c := ParentCut(pages, ws, at, sep, q);
    Cut(v, s, root, c);
    CutContents(v, s, root, c);
    CutLevels(v, s, root, c);
    var w := CutStore(v, c);
    forall id | id in w && id != c.p
      ensures SizeOk(caps, w[id], id == root)
    {
      if id != c.o && id != c.q {
        assert w[id] == v[id];
      }
    }
  }

  /** The path above is untouched by the cut. */
  lemma PathAbove(caps: Caps, v: Store, s: Shape, root: PageId, pages: Store,
                  ws: seq<PageId>, sep: Entry, q: PageId, at: nat)
    requires Pending(caps, v, s, root, pages, ws, sep, q) && |ws| > 1
    requires KidAt(v, ws[|ws| - 2], at, ws[|ws| - 1])
    requires |v[ws[|ws| - 2]].inner.kids| >= caps.inner
    ensures var c := ParentCut(pages, ws, at, sep, q);
      var w, t, us := CutStore(v, c), CutShape(s, c), ws[..|ws| - 1];
      && Path(w, t, root, us) && Retained(caps, w, root, us) && !InsertSafe(caps, w[c.p])
  {
    hide PageOk, Attached, InnerOk, LeafOk, WF, Contents;
    PendingCanCut(caps, v, s, root, pages, ws, sep, q, at);
    var c := ParentCut(pages, ws, at, sep, q);
    CutLevels(v, s, root, c);
    PathInit(v, s, root, ws);
    var w, t, us := CutStore(v, c), CutShape(s, c), ws[..|ws| - 1];
    forall i | 0 <= i < |us|
      ensures PathPage(w, t, us, i) && (us[i] == c.p || w[us[i]] == v[us[i]]) && t[us[i]] == s[us[i]]
    {
      assert PathPage(v, s, us, i) && PathPage(v, s, us, |us| - 1);
    }
    forall i | 0 <= i < |us| - 1
      ensures PathLink(w, t, root, us, i)
    {
      assert PathLink(v, s, root, us, i);
      assert PathPage(w, t, us, i) && PathPage(w, t, us, i + 1);
    }
    forall i | 1 <= i < |us|
      ensures !InsertSafe(caps, w[us[i]])
    {
      assert PathPage(w, t, us, i);
      assert us[i] == ws[i] && !InsertSafe(caps, v[ws[i]]);
    }
    assert PathPage(w, t, us, 0) && us[0] == ws[0];
  }

  /** Taking a page's children apart at `m` and joining them gives the page back. */
  lemma TakeDropJoin(n: Inner, m: nat)
    requires n.Shaped() && 1 <= m < |n.kids|
    ensures n.Take(m).Shaped() && n.Drop(m).Shaped()
    ensures n.Take(m).Join(n.seps[m - 1], n.Drop(m)) == n
  {
    assert n.seps == n.seps[..m - 1] + [n.seps[m - 1]] + n.seps[m..];
    assert n.kids == n.kids[..m] + n.kids[m..];
  }

  /** A full parent splits in turn, and the split moves one page up. */
  lemma SplitMovesUp(caps: Caps, v: Store, s: Shape, root: PageId, ws: seq<PageId>,
                     pages: Store, q: PageId)
    requires WF(v, s, root) && Path(v, s, root, ws) && Retained(caps, v, root, ws)
    requires caps.inner >= 3
    requires var p := ws[|ws| - 1];
      && v[p].InnerNode? && v[p].inner.Shaped() && |v[p].inner.kids| == caps.inner + 1
      && Sized(caps, v, root, p) && q !in v && q != INVALID_PAGE_ID
      && var n, m := v[p].inner, (caps.inner + 1) / 2;
      pages == v[p := InnerNode(n.Take(m))][q := InnerNode(n.Drop(m))]
    ensures Pending(caps, v, s, root, pages, ws, v[ws[|ws| - 1]].inner.seps[(caps.inner + 1) / 2 - 1], q)
  {
    var p := ws[|ws| - 1];
    var n, m := v[p].inner, (caps.inner + 1) / 2;
    TakeDropJoin(n, m);
    SepWithin(v, s, root, p, m - 1);
  }

  /** When the root itself has split, a new root over the halves completes the tree. */
  lemma SplitReachesRoot(caps: Caps, v: Store, s: Shape, root: PageId, pages: Store,
                         sep: Entry, q: PageId, r: PageId)
    requires Pending(caps, v, s, root, pages, [root], sep, q) && caps.inner >= 2
    requires r !in v && r != q && r != INVALID_PAGE_ID
    ensures var g := v[r := InnerNode(Inner([], [root]))];
      var c := Cutting(root, q, r, 1, pages[root], sep, pages[q]);
      var w := pages[r := InnerNode(Inner([sep], [root, q]))];
      && root in GrowShape(s, root, r)
      && WF(w, CutShape(GrowShape(s, root, r), c), r)
      && Contents(w) == Contents(v) && Sized(caps, w, r, INVALID_PAGE_ID)
  {
    assert [root][|[root]| - 1] == root;
    var g := v[r := InnerNode(Inner([], [root]))];
    var t := GrowShape(s, root, r);
    GrowRoot(v, s, root, r);
    var c := Cutting(root, q, r, 1, pages[root], sep, pages[q]);
    assert CanCut(g, t, r, c);
    Cut(g, t, r, c);
    CutContents(g, t, r, c);
    var w := pages[r := InnerNode(Inner([sep], [root, q]))];
    assert Inner([], [root]).Insert(1, sep, q) == Inner([sep], [root, q]);
    assert CutStore(g, c) == w;
    assert Contents(g) == Contents(v) by {
      forall e | e in Contents(v) ensures e in Contents(g) {
        var id :| id in v && v[id].LeafNode? && e in v[id].leaf.entries;
        ContentsMember(g, id, e);
      }
    }
    forall id | id in w
      ensures SizeOk(caps, w[id], id == r)
    {
      if id != root && id != q && id != r {
        assert w[id] == v[id];
      }
    }
  }

  /** A leaf cut in two, the right half's first entry between them. */
  lemma HalvesOfLeaf(i: Info, l: Leaf, m: nat, q: PageId)
    requires 0 < m < |l.entries| && Sorted(l.entries) && forall k :: 0 <= k < |l.entries| ==> Holds(i, l.entries[k])
    ensures var es := l.entries;
      Halves(LeafNode(l), i, LeafNode(Leaf(es[..m], [], q)), es[m], LeafNode(Leaf(es[m..], [], l.next)), q)
  {
    var es := l.entries;
    assert es == es[..m] + es[m..];
    assert Holds(i, es[0]) && Holds(i, es[m]) && Lt(es[0], es[m]);
    forall k | 0 <= k < |es| - m
      ensures !Lt(es[m..][k], es[m])
    {
      assert es[m..][k] == es[m + k];
    }
  }

  /** A full leaf splits in the middle. */
  lemma LeafSplits(caps: Caps, v: Store, s: Shape, root: PageId, ws: seq<PageId>, pages: Store, q: PageId)
    requires WF(v, s, root) && Path(v, s, root, ws) && Retained(caps, v, root, ws) && caps.leaf >= 2
    requires var o := ws[|ws| - 1];
      && v[o].LeafNode? && |v[o].leaf.entries| == caps.leaf
      && Sized(caps, v, root, o) && q !in v && q != INVALID_PAGE_ID
      && var es, m := v[o].leaf.entries, caps.leaf / 2;
      pages == v[o := LeafNode(Leaf(es[..m], [], q))][q := LeafNode(Leaf(es[m..], [], v[o].leaf.next))]
    ensures Pending(caps, v, s, root, pages, ws, v[ws[|ws| - 1]].leaf.entries[caps.leaf / 2], q)
  {
    var o := ws[|ws| - 1];
    assert PageOk(s, o, v[o]);
    hide WF, Path, Retained, Attached, InnerOk, Contents, Sized, PathPage, PathLink;
    HalvesOfLeaf(s[o], v[o].leaf, caps.leaf / 2, q);
  }

  /** Replacing the leaf at the end of a path keeps the path. */
  lemma PathLeafReplaced(v: Store, s: Shape, root: PageId, ws: seq<PageId>, l: Leaf)
    requires Path(v, s, root, ws) && v[ws[|ws| - 1]].LeafNode?
    ensures Path(v[ws[|ws| - 1] := LeafNode(l)], s, root, ws)
    ensures forall i :: 0 <= i < |ws| - 1 ==> ws[i] != ws[|ws| - 1]
  {
    var w := v[ws[|ws| - 1] := LeafNode(l)];
    forall i | 0 <= i < |ws|
      ensures PathPage(w, s, ws, i) && (i < |ws| - 1 ==> ws[i] != ws[|ws| - 1])
    {
      assert PathPage(v, s, ws, i);
      if i < |ws| - 1 { assert PathLink(v, s, root, ws, i); }
    }
    forall i | 0 <= i < |ws| - 1
      ensures PathLink(w, s, root, ws, i)
    {
      assert PathLink(v, s, root, ws, i);
    }
  }

  /** An insertion that fills the leaf started from an unsafe leaf, so its
      ancestors are still latched. */
  lemma RetainedAtFullLeaf(caps: Caps, v: Store, s: Shape, root: PageId, ws: seq<PageId>, l: Leaf)
    requires Path(v, s, root, ws) && Retained(caps, v, root, ws) && v[ws[|ws| - 1]].LeafNode?
    requires |v[ws[|ws| - 1]].leaf.entries| + 1 == |l.entries| == caps.leaf
    requires Sized(caps, v, root, INVALID_PAGE_ID) && INVALID_PAGE_ID !in v
    ensures var w := v[ws[|ws| - 1] := LeafNode(l)];
      Path(w, s, root, ws) && Retained(caps, w, root, ws) && Sized(caps, w, root, ws[|ws| - 1])
  {
    PathLeafReplaced(v, s, root, ws, l);
    var w := v[ws[|ws| - 1] := LeafNode(l)];
    forall id | id in w && id != ws[|ws| - 1]
      ensures SizeOk(caps, w[id], id == root)
    {
      assert w[id] == v[id];
    }
  }
}
