/** Rebalancing after a deletion: every merge and redistribution is a join of
    two siblings, possibly followed by a new cut, and the latched ancestors
    suffice for any underflow to travel up. */
module RemoveSteps {
  import opened Common
  import opened Entries
  import opened LeafPages
  import opened InternalPages
  import opened TreeShape
  import opened TreeSteps
  import opened TreeContents
  import opened InsertSteps

  // ---- two siblings share their content anew --------------------------------------

  ghost function JoinedPlace(s: Shape, j: Joining): Info
    requires j.l in s && j.r in s
  {
    s[j.l].(hi := s[j.r].hi)
  }

  ghost function ShareCut(j: Joining, left: Page, sep: Entry, right: Page): Cutting {
    Cutting(j.l, j.r, j.p, j.at, left, sep, right)
  }

  ghost function ShareStore(v: Store, j: Joining, left: Page, sep: Entry, right: Page): Store
    requires j.p in v && v[j.p].InnerNode? && 1 <= j.at <= |v[j.p].inner.seps|
  {
    var n := v[j.p].inner;
    v[j.l := left][j.r := right][j.p := InnerNode(Inner(n.seps[j.at - 1 := sep], n.kids))]
  }

  ghost function ShareShape(v: Store, s: Shape, j: Joining, left: Page, sep: Entry, right: Page): Shape
    requires j.l in s && j.r in s && j.l != j.r && j.r in v
  {
    CutShape(JoinShape(s, j, Kids(v[j.r])), ShareCut(j, left, sep, right))
  }

  /** Siblings `l` and `r` exchange content across a moved separator. */
  lemma Share(v: Store, s: Shape, root: PageId, j: Joining, left: Page, sep: Entry, right: Page)
    requires CanJoin(v, s, root, j) && j.l in s && j.r in s && j.p in s && j.l != j.r
    requires Halves(j.whole, JoinedPlace(s, j), left, sep, right, j.r)
    ensures WF(ShareStore(v, j, left, sep, right), ShareShape(v, s, j, left, sep, right), root)
    ensures Contents(ShareStore(v, j, left, sep, right)) == Contents(v)
  {
    JoinKeys(v, s, root, j);
    Join(v, s, root, j);
    JoinContents(v, s, root, j);
    var w, t, c := JoinStore(v, j), JoinShape(s, j, Kids(v[j.r])), ShareCut(j, left, sep, right);
    var n := v[j.p].inner;
    assert j.r != INVALID_PAGE_ID;
    assert CanCut(w, t, root, c);
    Cut(w, t, root, c);
    CutContents(w, t, root, c);
    assert n.Remove(j.at).Insert(j.at, sep, j.r) == Inner(n.seps[j.at - 1 := sep], n.kids) by {
      assert n.seps == n.seps[..j.at - 1] + [n.seps[j.at - 1]] + n.seps[j.at..];
      assert n.kids == n.kids[..j.at] + [n.kids[j.at]] + n.kids[j.at + 1..];
    }
    assert CutStore(w, c) == ShareStore(v, j, left, sep, right);
  }

  /** Adjacent leaves under one parent are linked. */
  lemma SiblingLeavesLinked(v: Store, s: Shape, root: PageId, j: Joining)
    requires CanJoin(v, s, root, j) && v[j.l].LeafNode?
    ensures v[j.l].leaf.next == j.r
  {
    JoinLevels(v, s, root, j);
    assert PageOk(s, v[j.l].leaf.next, v[v[j.l].leaf.next]);
    UniqueByStart(v, s, root, v[j.l].leaf.next, j.r);
  }

  /** A leaf pair whose entries are divided anew, with the right page's first
      entry as the separator. */
  lemma SiblingsSorted(v: Store, s: Shape, root: PageId, j: Joining)
    requires CanJoin(v, s, root, j) && v[j.l].LeafNode? && j.l in s && j.r in s && j.p in s && j.l != j.r
    ensures Sorted(v[j.l].leaf.entries + v[j.r].leaf.entries)
  {
    Join(v, s, root, j);
    JoinKeys(v, s, root, j);
    assert PageOk(JoinShape(s, j, Kids(v[j.r])), j.l, JoinStore(v, j)[j.l]);
  }

  lemma ShareLeaves(v: Store, s: Shape, root: PageId, j: Joining, left: Leaf, right: Leaf)
    requires CanJoin(v, s, root, j) && v[j.l].LeafNode? && j.l in s && j.r in s && j.p in s && j.l != j.r
    requires left.tombs == right.tombs == [] && left.entries != [] && right.entries != []
    requires left.entries + right.entries == v[j.l].leaf.entries + v[j.r].leaf.entries
    requires left.next == v[j.l].leaf.next && right.next == v[j.r].leaf.next
    ensures Halves(j.whole, JoinedPlace(s, j), LeafNode(left), right.entries[0], LeafNode(right), j.r)
  {
    SiblingLeavesLinked(v, s, root, j);
    Join(v, s, root, j);
    var w, t := JoinStore(v, j), JoinShape(s, j, Kids(v[j.r]));
    JoinKeys(v, s, root, j);
    assert PageOk(t, j.l, w[j.l]);
    var es, m := j.whole.leaf.entries, |left.entries|;
    assert es[0] == left.entries[0] && es[m] == right.entries[0];
    assert Holds(t[j.l], es[0]) && Holds(t[j.l], es[m]) && Lt(es[0], es[m]);
    assert forall i :: 0 <= i < m ==> left.entries[i] == es[i];
    assert forall i :: 0 <= i < |right.entries| ==> right.entries[i] == es[m + i];
  }

  /** An internal pair whose children are divided anew at `m`. */
  lemma ShareInner(v: Store, s: Shape, root: PageId, j: Joining, m: nat)
    requires CanJoin(v, s, root, j) && v[j.l].InnerNode? && j.l in s && j.r in s && j.p in s && j.l != j.r
    requires j.whole.inner.Shaped() && 1 <= m < |j.whole.inner.kids|
    ensures var n := j.whole.inner;
      Halves(j.whole, JoinedPlace(s, j), InnerNode(n.Take(m)), n.seps[m - 1], InnerNode(n.Drop(m)), j.r)
  {
    Join(v, s, root, j);
    JoinKeys(v, s, root, j);
    var w, t := JoinStore(v, j), JoinShape(s, j, Kids(v[j.r]));
    SepWithin(w, t, root, j.l, m - 1);
    TakeDropJoin(j.whole.inner, m);
  }

  // ---- what stays latched during a deletion ------------------------------------------

  predicate DeleteSafe(caps: Caps, page: Page) {
    match page
    case LeafNode(l) => |l.entries| > caps.MinLeaf()
    case InnerNode(n) => |n.kids| > caps.MinInner()
  }

  /** Only the first latched page can be safe, and it is safe or the root. */
  ghost predicate RetainedForDelete(caps: Caps, v: Store, root: PageId, ws: seq<PageId>) {
    && ws != []
    && (forall i :: 0 <= i < |ws| ==> ws[i] in v)
    && (ws[0] != root ==> DeleteSafe(caps, v[ws[0]]))
    && (forall i :: 1 <= i < |ws| ==> !DeleteSafe(caps, v[ws[i]]))
  }

  /** The last page of `ws` may lack one child; everything else is in order, and
      unless it is the root its parent is latched too if it lacks one. */
  ghost predicate Thinned(caps: Caps, v: Store, s: Shape, root: PageId, ws: seq<PageId>) {
    && WF(v, s, root) && Path(v, s, root, ws)
    && var u := ws[|ws| - 1];
    && Sized(caps, v, root, u) && v[u].InnerNode?
    && |v[u].inner.kids| <= caps.inner
    && (if u == root then 1 else caps.MinInner() - 1) <= |v[u].inner.kids|
    && (|ws| == 1 && u != root ==> caps.MinInner() <= |v[u].inner.kids|)
    && (|ws| > 1 ==> RetainedForDelete(caps, v, root, ws[..|ws| - 1]))
  }

  /** Merging two children of the last latched page hands the underflow to it. */
  lemma JoinMovesUp(caps: Caps, v: Store, s: Shape, root: PageId, ws: seq<PageId>, j: Joining, except: PageId)
    requires CanJoin(v, s, root, j) && Path(v, s, root, ws) && RetainedForDelete(caps, v, root, ws)
    requires ws[|ws| - 1] == j.p && Sized(caps, v, root, except) && (except == j.l || except == j.r)
    requires SizeOk(caps, j.whole, false)
    ensures j.l in s && j.r in s && j.r in v && j.l != j.r
    ensures Thinned(caps, JoinStore(v, j), JoinShape(s, j, Kids(v[j.r])), root, ws)
    ensures Contents(JoinStore(v, j)) == Contents(v)
  {
    hide PageOk, Attached, InnerOk, LeafOk;
    JoinLevels(v, s, root, j);
    JoinKeys(v, s, root, j);
    Join(v, s, root, j);
    JoinContents(v, s, root, j);
    var w, t := JoinStore(v, j), JoinShape(s, j, Kids(v[j.r]));
    forall id | id in w && id != j.p
      ensures SizeOk(caps, w[id], id == root)
    {
      assert id != j.l ==> w[id] == v[id];
    }
    assert SizeOk(caps, v[j.p], j.p == root);
    forall i | 0 <= i < |ws|
      ensures PathPage(w, t, ws, i) && t[ws[i]] == s[ws[i]] && (i < |ws| - 1 ==> w[ws[i]] == v[ws[i]])
    {
      assert PathPage(v, s, ws, i);
    }
    forall i | 0 <= i < |ws| - 1
      ensures PathLink(w, t, root, ws, i)
    {
      assert PathLink(v, s, root, ws, i);
      assert PathPage(w, t, ws, i) && PathPage(w, t, ws, i + 1);
    }
    var us := ws[..|ws| - 1];
    forall i | 0 <= i < |us|
      ensures us[i] in w && w[us[i]] == v[ws[i]]
    {
      assert PathPage(w, t, ws, i);
    }
  }

  // ---- small facts the deletion needs ---------------------------------------------------

  lemma SizedAll(caps: Caps, v: Store, root: PageId, except: PageId)
    requires Sized(caps, v, root, except) && except in v && SizeOk(caps, v[except], except == root)
    ensures Sized(caps, v, root, INVALID_PAGE_ID)
  {
  }

  /** A root leaf is the whole tree. */
  lemma RootLeafAlone(v: Store, s: Shape, root: PageId)
    requires WF(v, s, root) && v[root].LeafNode?
    ensures v.Keys == {root}
  {
    assert PageOk(s, root, v[root]);
    forall id | id in v
      ensures id == root
    {
      assert Attached(v, s, root, id);
    }
  }

  /** The parent of the last page on a path is the page before it. */
  lemma PathParent(v: Store, s: Shape, root: PageId, ws: seq<PageId>) returns (at: nat)
    requires WF(v, s, root) && Path(v, s, root, ws) && |ws| > 1
    ensures var p, u := ws[|ws| - 2], ws[|ws| - 1];
      KidAt(v, p, at, u) && p in s && p != u && u != root
    ensures Path(v, s, root, ws[..|ws| - 1])
  {
    var n := |ws|;
    assert PathLink(v, s, root, ws, n - 2);
    assert PathPage(v, s, ws, n - 2) && PathPage(v, s, ws, n - 1);
    at := FindKid(v, s, root, ws[n - 1]);
    PathInit(v, s, root, ws);
  }

  /** Facts about the pages of two adjacent children. */
  lemma SiblingFacts(v: Store, s: Shape, root: PageId, p: PageId, at: nat)
    requires WF(v, s, root) && p in v && v[p].InnerNode? && 1 <= at < |v[p].inner.kids|
    ensures v[p].inner.Shaped()
    ensures var l, r := v[p].inner.kids[at - 1], v[p].inner.kids[at];
      && KidAt(v, p, at, l) && l in v && r in v && l in s && r in s && p in s
      && l != r && l != p && r != p && l != root && r != root
      && (v[l].LeafNode? <==> v[r].LeafNode?)
      && (v[l].LeafNode? ==> v[l].leaf.tombs == [] && v[r].leaf.tombs == [])
      && (v[l].InnerNode? ==> v[l].inner.Shaped() && v[r].inner.Shaped())
  {
    var n := v[p].inner;
    assert PageOk(s, p, v[p]) && Attached(v, s, root, p);
    var l, r := n.kids[at - 1], n.kids[at];
    assert s[l] == KidInfo(s[p], p, n, at - 1) && s[r] == KidInfo(s[p], p, n, at);
    assert PageOk(s, l, v[l]) && PageOk(s, r, v[r]);
    KidsDistinct(v, s, root, p, at - 1, at);
  }

  /** Two adjacent leaves, joined. */
  ghost function LeafJoining(v: Store, p: PageId, at: nat): Joining
    requires p in v && v[p].InnerNode? && 1 <= at < |v[p].inner.kids|
    requires var l, r := v[p].inner.kids[at - 1], v[p].inner.kids[at];
      l in v && r in v && v[l].LeafNode? && v[r].LeafNode?
  {
    var l, r := v[p].inner.kids[at - 1], v[p].inner.kids[at];
    Joining(p, at, l, r, LeafNode(Leaf(v[l].leaf.entries + v[r].leaf.entries, [], v[r].leaf.next)))
  }

  /** Two adjacent internal pages, joined. */
  ghost function InnerJoining(v: Store, p: PageId, at: nat): Joining
    requires p in v && v[p].InnerNode? && 1 <= at < |v[p].inner.kids| && v[p].inner.Shaped()
    requires var l, r := v[p].inner.kids[at - 1], v[p].inner.kids[at];
      l in v && r in v && v[l].InnerNode? && v[r].InnerNode?
  {
    var l, r := v[p].inner.kids[at - 1], v[p].inner.kids[at];
    Joining(p, at, l, r, InnerNode(v[l].inner.Join(v[p].inner.seps[at - 1], v[r].inner)))
  }
}
