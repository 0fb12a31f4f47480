/** The five steps from which every split, merge, redistribution, root growth
    and root shrink is made. Each keeps the tree well formed. */
module TreeSteps {
  import opened Common
  import opened Entries
  import opened LeafPages
  import opened InternalPages
  import opened TreeShape

  // ---- a leaf's entries change -----------------------------------------------

  lemma ReplaceLeaf(v: Store, s: Shape, root: PageId, id: PageId, es: seq<Entry>)
    requires WF(v, s, root) && id in v && v[id].LeafNode?
    requires Sorted(es) && forall i :: 0 <= i < |es| ==> Holds(s[id], es[i])
    ensures WF(v[id := LeafNode(Leaf(es, [], v[id].leaf.next))], s, root)
  {
    var w := v[id := LeafNode(Leaf(es, [], v[id].leaf.next))];
    forall x | x in s
      ensures PageOk(s, x, w[x]) && Attached(w, s, root, x)
    {
      assert PageOk(s, x, v[x]) && Attached(v, s, root, x);
    }
  }

  /** A page that keeps its place stays in order if what it refers to keeps its place. */
  lemma PageKept(s: Shape, t: Shape, x: PageId, page: Page)
    requires x in s && x in t && PageOk(s, x, page)
    requires t[x].lo == s[x].lo && t[x].hi == s[x].hi && t[x].level == s[x].level
    requires page.InnerNode? ==> forall y :: y in s && s[y].parent == x ==> y in t && t[y] == s[y]
    requires page.LeafNode? && !s[x].hi.PosInf? ==>
      page.leaf.next in t && t[page.leaf.next].lo == s[x].hi && t[page.leaf.next].level == 0
    ensures PageOk(t, x, page)
  {
    if page.InnerNode? {
      var n := page.inner;
      forall k | 0 <= k < |n.kids|
        ensures n.kids[k] in t && t[n.kids[k]] == KidInfo(t[x], x, n, k)
      {
        assert s[n.kids[k]] == KidInfo(s[x], x, n, k);
      }
    }
  }

  // ---- one page becomes two adjacent ones --------------------------------------

  /** Page `o`, child `at - 1` of `p`, becomes `left`; a new page `q` holds
      `right`; `sep` goes between them. */
  datatype Cutting = Cutting(o: PageId, q: PageId, p: PageId, at: nat, left: Page, sep: Entry, right: Page)

  /** `whole`, placed at `i`, is `left` and `right` with `sep` between them; `q`
      is the page of `right`. */
  ghost predicate Halves(whole: Page, i: Info, left: Page, sep: Entry, right: Page, q: PageId) {
    && Before(i.lo, Fin(sep)) && Before(Fin(sep), i.hi)
    && match (whole, left, right) {
         case (InnerNode(w), InnerNode(l), InnerNode(r)) =>
           l.Shaped() && r.Shaped() && w == l.Join(sep, r)
         case (LeafNode(w), LeafNode(l), LeafNode(r)) =>
           && w.entries == l.entries + r.entries
           && l.tombs == r.tombs == [] && l.next == q && r.next == w.next
           && (forall i :: 0 <= i < |l.entries| ==> Lt(l.entries[i], sep))
           && (forall i :: 0 <= i < |r.entries| ==> !Lt(r.entries[i], sep))
         case _ => false
       }
  }

  ghost function CutShape(s: Shape, c: Cutting): Shape
    requires c.o in s
  {
    map id | id in s.Keys + {c.q} ::
      if id == c.q then Info(Fin(c.sep), s[c.o].hi, s[c.o].level, s[c.o].parent)
      else if id == c.o then s[id].(hi := Fin(c.sep))
      else if id in Kids(c.right) then s[id].(parent := c.q)
      else s[id]
  }

  /** `p` has `o` as its child `at - 1`. */
  ghost predicate KidAt(v: Store, p: PageId, at: nat, o: PageId) {
    && p in v && v[p].InnerNode? && v[p].inner.Shaped()
    && 1 <= at <= |v[p].inner.kids| && v[p].inner.kids[at - 1] == o
  }

  ghost function CutStore(v: Store, c: Cutting): Store
    requires KidAt(v, c.p, c.at, c.o)
  {
    v[c.o := c.left][c.q := c.right][c.p := InnerNode(v[c.p].inner.Insert(c.at, c.sep, c.q))]
  }

  ghost predicate CanCut(v: Store, s: Shape, root: PageId, c: Cutting) {
    && WF(v, s, root)
    && c.o in s && c.o != root && c.q !in s && c.q != INVALID_PAGE_ID
    && KidAt(v, c.p, c.at, c.o)
    && Halves(v[c.o], s[c.o], c.left, c.sep, c.right, c.q)
  }

  lemma Cut(v: Store, s: Shape, root: PageId, c: Cutting)
    requires CanCut(v, s, root, c)
    ensures WF(CutStore(v, c), CutShape(s, c), root)
  {
    forall x | x in CutShape(s, c)
      ensures PageOk(CutShape(s, c), x, CutStore(v, c)[x])
      ensures Attached(CutStore(v, c), CutShape(s, c), root, x)
    {
      CutEach(v, s, root, c, x);
    }
  }

  lemma CutEach(v: Store, s: Shape, root: PageId, c: Cutting, x: PageId)
    requires CanCut(v, s, root, c) && x in CutShape(s, c)
    ensures PageOk(CutShape(s, c), x, CutStore(v, c)[x])
    ensures Attached(CutStore(v, c), CutShape(s, c), root, x)
  {
    CutLevels(v, s, root, c);
    if x == c.p {
      CutParent(v, s, root, c);
    } else if x == c.o || x == c.q {
      CutHalves(v, s, root, c);
      CutHung(v, s, root, c);
    } else {
      CutOther(v, s, root, c, x);
    }
  }

  /** Where the pages involved in a cut are. */
  ghost predicate CutPlaces(s: Shape, root: PageId, c: Cutting) {
    && c.o in s && c.q !in s && c.p in s && c.o != root && root in s
    && s[c.o].parent == c.p && s[c.p].level == s[c.o].level + 1 && s[c.o].level < s[root].level
    && forall x :: x in Kids(c.right) ==> x in s && s[x].level + 1 == s[c.o].level && s[x].parent == c.o
  }

  lemma CutLevels(v: Store, s: Shape, root: PageId, c: Cutting)
    requires CanCut(v, s, root, c)
    ensures CutPlaces(s, root, c)
    ensures PageOk(s, c.o, v[c.o]) && PageOk(s, c.p, v[c.p]) && Attached(v, s, root, c.p)
  {
    var o, p := c.o, c.p;
    assert PageOk(s, o, v[o]) && PageOk(s, p, v[p]) && Attached(v, s, root, o) && Attached(v, s, root, p);
    assert s[v[p].inner.kids[c.at - 1]] == KidInfo(s[p], p, v[p].inner, c.at - 1);
    if v[o].InnerNode? {
      forall x | x in Kids(c.right)
        ensures x in s && s[x].level + 1 == s[o].level && s[x].parent == o
      {
        var k :| 0 <= k < |c.right.inner.kids| && c.right.inner.kids[k] == x;
        assert v[o].inner.kids[|c.left.inner.kids| + k] == x;
      }
    }
  }

  lemma CutHalves(v: Store, s: Shape, root: PageId, c: Cutting)
    requires CanCut(v, s, root, c)
    ensures PageOk(CutShape(s, c), c.o, c.left) && PageOk(CutShape(s, c), c.q, c.right)
  {
    CutLevels(v, s, root, c);
    if v[c.o].InnerNode? {
      forall j, k | 0 <= j < k < |v[c.o].inner.kids|
        ensures v[c.o].inner.kids[j] != v[c.o].inner.kids[k]
      {
        KidsDistinct(v, s, root, c.o, j, k);
      }
      CutInner(s, v[c.o].inner, root, c);
    } else {
      CutLeaf(s, v[c.o].leaf, c);
    }
  }

  lemma KidsDistinct(v: Store, s: Shape, root: PageId, id: PageId, j: nat, k: nat)
    requires WF(v, s, root) && id in v && v[id].InnerNode? && j < k < |v[id].inner.kids|
    ensures v[id].inner.kids[j] != v[id].inner.kids[k]
  {
    KidsOrdered(v, s, root, id, j, k);
    var kid := v[id].inner.kids[j];
    assert PageOk(s, kid, v[kid]);
  }

  lemma CutLeaf(s: Shape, whole: Leaf, c: Cutting)
    requires c.o in s && c.q !in s && LeafOk(s, c.o, whole) && Halves(LeafNode(whole), s[c.o], c.left, c.sep, c.right, c.q)
    ensures PageOk(CutShape(s, c), c.o, c.left) && PageOk(CutShape(s, c), c.q, c.right)
  {
    var t, es, m := CutShape(s, c), whole.entries, |c.left.leaf.entries|;
    assert t[c.o] == s[c.o].(hi := Fin(c.sep)) && t[c.q] == Info(Fin(c.sep), s[c.o].hi, 0, s[c.o].parent);
    CutChain(s, whole, c);
    HalfSorted(c.left.leaf.entries, c.right.leaf.entries);
    assert forall i :: 0 <= i < m ==> c.left.leaf.entries[i] == es[i];
    assert forall i :: 0 <= i < |c.right.leaf.entries| ==> c.right.leaf.entries[i] == es[m + i];
    hide CutShape, ChainOk, Sorted, Lt;
    assert LeafOk(t, c.o, c.left.leaf) && LeafOk(t, c.q, c.right.leaf);
  }

  /** The left half is linked to the right one, the right one to what came after. */
  lemma CutChain(s: Shape, whole: Leaf, c: Cutting)
    requires c.o in s && c.q !in s && ChainOk(s, c.o, whole.next) && c.left.LeafNode? && c.right.LeafNode?
    requires c.left.leaf.next == c.q && c.right.leaf.next == whole.next && s[c.o].level == 0
    requires s[c.o].hi.Fin? ==> whole.next in s && Before(s[c.o].lo, s[c.o].hi)
    ensures ChainOk(CutShape(s, c), c.o, c.q) && ChainOk(CutShape(s, c), c.q, whole.next)
  {
  }

  lemma HalfSorted(a: seq<Entry>, b: seq<Entry>)
    requires Sorted(a + b)
    ensures Sorted(a) && Sorted(b)
  {
    assert forall i :: 0 <= i < |a| ==> a[i] == (a + b)[i];
    assert forall i :: 0 <= i < |b| ==> b[i] == (a + b)[|a| + i];
  }

  lemma CutInner(s: Shape, whole: Inner, root: PageId, c: Cutting)
    requires CutPlaces(s, root, c) && InnerOk(s, c.o, whole) && Halves(InnerNode(whole), s[c.o], c.left, c.sep, c.right, c.q)
    requires forall j, k :: 0 <= j < k < |whole.kids| ==> whole.kids[j] != whole.kids[k]
    ensures PageOk(CutShape(s, c), c.o, c.left) && PageOk(CutShape(s, c), c.q, c.right)
  {
    var t, l, r := CutShape(s, c), c.left.inner, c.right.inner;
    forall k | 0 <= k < |l.kids|
      ensures l.kids[k] in t && t[l.kids[k]] == KidInfo(t[c.o], c.o, l, k)
    {
      assert whole.kids[k] == l.kids[k];
      assert s[whole.kids[k]] == KidInfo(s[c.o], c.o, whole, k);
      assert forall j :: 0 <= j < |r.kids| ==> whole.kids[|l.kids| + j] == r.kids[j];
    }
    forall k | 0 <= k < |r.kids|
      ensures r.kids[k] in t && t[r.kids[k]] == KidInfo(t[c.q], c.q, r, k)
    {
      assert whole.kids[|l.kids| + k] == r.kids[k];
      assert s[whole.kids[|l.kids| + k]] == KidInfo(s[c.o], c.o, whole, |l.kids| + k);
    }
  }

  lemma OnlyKid(v: Store, s: Shape, root: PageId, p: PageId, at: nat)
    requires WF(v, s, root) && p in v && v[p].InnerNode? && 1 <= at <= |v[p].inner.kids|
    ensures forall k :: 0 <= k < |v[p].inner.kids| && k != at - 1 ==> v[p].inner.kids[k] != v[p].inner.kids[at - 1]
  {
    forall k | 0 <= k < |v[p].inner.kids| && k != at - 1
      ensures v[p].inner.kids[k] != v[p].inner.kids[at - 1]
    {
      if k < at - 1 {
        KidsDistinct(v, s, root, p, k, at - 1);
      } else {
        KidsDistinct(v, s, root, p, at - 1, k);
      }
    }
  }

  lemma CutParent(v: Store, s: Shape, root: PageId, c: Cutting)
    requires CanCut(v, s, root, c)
    ensures PageOk(CutShape(s, c), c.p, CutStore(v, c)[c.p])
    ensures Attached(CutStore(v, c), CutShape(s, c), root, c.p)
  {
    CutLevels(v, s, root, c);
    OnlyKid(v, s, root, c.p, c.at);
    CutParentPage(s, root, v[c.p].inner, c);
    if c.p != root {
      CutAttached(v, s, root, c, c.p);
    }
  }

  lemma CutHung(v: Store, s: Shape, root: PageId, c: Cutting)
    requires CutPlaces(s, root, c) && v.Keys == s.Keys && KidAt(v, c.p, c.at, c.o)
    ensures Attached(CutStore(v, c), CutShape(s, c), root, c.o)
    ensures Attached(CutStore(v, c), CutShape(s, c), root, c.q)
  {
    var m := v[c.p].inner.Insert(c.at, c.sep, c.q);
    assert m.kids[c.at - 1] == c.o && m.kids[c.at] == c.q;
  }

  lemma CutParentPage(s: Shape, root: PageId, n: Inner, c: Cutting)
    requires CutPlaces(s, root, c) && PageOk(s, c.p, InnerNode(n))
    requires 1 <= c.at <= |n.kids| && n.kids[c.at - 1] == c.o
    requires forall k :: 0 <= k < |n.kids| && k != c.at - 1 ==> n.kids[k] != c.o
    ensures PageOk(CutShape(s, c), c.p, InnerNode(n.Insert(c.at, c.sep, c.q)))
  {
    var t, m := CutShape(s, c), n.Insert(c.at, c.sep, c.q);
    assert t[c.p] == s[c.p];
    forall k | 0 <= k < |m.kids|
      ensures m.kids[k] in t && t[m.kids[k]] == KidInfo(t[c.p], c.p, m, k)
    {
      CutKid(s, root, n, c, k);
    }
  }

  /** The children of the parent after a cut, one by one. */
  lemma CutKid(s: Shape, root: PageId, n: Inner, c: Cutting, k: nat)
    requires CutPlaces(s, root, c) && PageOk(s, c.p, InnerNode(n)) && k <= |n.kids|
    requires 1 <= c.at <= |n.kids| && n.kids[c.at - 1] == c.o
    requires forall k :: 0 <= k < |n.kids| && k != c.at - 1 ==> n.kids[k] != c.o
    ensures var t, m := CutShape(s, c), n.Insert(c.at, c.sep, c.q);
      m.kids[k] in t && t[m.kids[k]] == KidInfo(s[c.p], c.p, m, k)
  {
    hide Before, LeafOk, ChainOk;
    var m := n.Insert(c.at, c.sep, c.q);
    assert s[n.kids[c.at - 1]] == KidInfo(s[c.p], c.p, n, c.at - 1);
    if k != c.at {
      var j := if k < c.at then k else k - 1;
      assert m.kids[k] == n.kids[j];
      assert s[n.kids[j]] == KidInfo(s[c.p], c.p, n, j);
    }
  }

  lemma CutOther(v: Store, s: Shape, root: PageId, c: Cutting, x: PageId)
    requires CanCut(v, s, root, c) && x in s && x != c.o && x != c.p
    ensures PageOk(CutShape(s, c), x, v[x]) && Attached(CutStore(v, c), CutShape(s, c), root, x)
  {
    CutLevels(v, s, root, c);
    assert PageOk(s, x, v[x]) && Attached(v, s, root, x);
    CutOtherPage(s, root, c, x, v[x]);
    if x != root {
      CutAttached(v, s, root, c, x);
    }
  }

  lemma CutOtherPage(s: Shape, root: PageId, c: Cutting, x: PageId, page: Page)
    requires CutPlaces(s, root, c) && x in s && x != c.o && x != c.p && PageOk(s, x, page)
    ensures PageOk(CutShape(s, c), x, page)
  {
    PageKept(s, CutShape(s, c), x, page);
  }

  lemma CutAttached(v: Store, s: Shape, root: PageId, c: Cutting, x: PageId)
    requires CutPlaces(s, root, c) && x in s && x != c.o && x != root && Attached(v, s, root, x)
    requires v.Keys == s.Keys && KidAt(v, c.p, c.at, c.o) && Halves(v[c.o], s[c.o], c.left, c.sep, c.right, c.q)
    ensures Attached(CutStore(v, c), CutShape(s, c), root, x)
  {
    var y := s[x].parent;
    var k :| 0 <= k < |v[y].inner.kids| && v[y].inner.kids[k] == x;
    if y == c.o {
      var m := |c.left.inner.kids|;
      assert x == if k < m then c.left.inner.kids[k] else c.right.inner.kids[k - m];
    } else if y == c.p {
      var m := v[c.p].inner.Insert(c.at, c.sep, c.q);
      assert m.kids[if k < c.at then k else k + 1] == x;
    }
  }

  // ---- two adjacent pages become one --------------------------------------------

  /** Children `at - 1` and `at` of `p`, pages `l` and `r`, become the page
      `whole` stored at `l`; `r` is freed. */
  datatype Joining = Joining(p: PageId, at: nat, l: PageId, r: PageId, whole: Page)

  ghost predicate JoinPages(v: Store, j: Joining) {
    && KidAt(v, j.p, j.at, j.l) && j.at < |v[j.p].inner.kids| && v[j.p].inner.kids[j.at] == j.r
    && j.l in v && j.r in v
    && match (v[j.l], v[j.r], j.whole) {
         case (InnerNode(l), InnerNode(r), InnerNode(w)) => w == l.Join(v[j.p].inner.seps[j.at - 1], r)
         case (LeafNode(l), LeafNode(r), LeafNode(w)) => w == Leaf(l.entries + r.entries, [], r.next)
         case _ => false
       }
  }

  ghost predicate CanJoin(v: Store, s: Shape, root: PageId, j: Joining) {
    WF(v, s, root) && JoinPages(v, j)
  }

  ghost function JoinShape(s: Shape, j: Joining, moved: seq<PageId>): Shape
    requires j.l in s && j.r in s
  {
    map id | id in s.Keys - {j.r} ::
      if id == j.l then s[id].(hi := s[j.r].hi)
      else if id in moved then s[id].(parent := j.l)
      else s[id]
  }

  ghost function JoinStore(v: Store, j: Joining): Store
    requires KidAt(v, j.p, j.at, j.l) && j.at < |v[j.p].inner.kids|
  {
    (v - {j.r})[j.l := j.whole][j.p := InnerNode(v[j.p].inner.Remove(j.at))]
  }

  lemma Join(v: Store, s: Shape, root: PageId, j: Joining)
    requires CanJoin(v, s, root, j)
    ensures j.l in s && j.r in s && j.r in v
    ensures WF(JoinStore(v, j), JoinShape(s, j, Kids(v[j.r])), root)
  {
    JoinKeys(v, s, root, j);
    forall x | x in s && x != j.r
      ensures PageOk(JoinShape(s, j, Kids(v[j.r])), x, JoinStore(v, j)[x])
      ensures Attached(JoinStore(v, j), JoinShape(s, j, Kids(v[j.r])), root, x)
    {
      JoinEach(v, s, root, j, x);
    }
  }

  lemma JoinKeys(v: Store, s: Shape, root: PageId, j: Joining)
    requires CanJoin(v, s, root, j)
    ensures j.l in s && j.r in s && j.p in s && j.l != j.r && j.l != root && j.r != root
    ensures JoinStore(v, j).Keys == JoinShape(s, j, Kids(v[j.r])).Keys == s.Keys - {j.r}
    ensures j.p != j.l && j.p != j.r
  {
    JoinLevels(v, s, root, j);
  }

  lemma JoinEach(v: Store, s: Shape, root: PageId, j: Joining, x: PageId)
    requires CanJoin(v, s, root, j) && j.r in s && j.l in s && x in s && x != j.r && root != j.r
    ensures PageOk(JoinShape(s, j, Kids(v[j.r])), x, JoinStore(v, j)[x])
    ensures Attached(JoinStore(v, j), JoinShape(s, j, Kids(v[j.r])), root, x)
  {
    JoinLevels(v, s, root, j);
    if x == j.p {
      JoinParent(v, s, root, j);
    } else if x == j.l {
      JoinWhole(v, s, root, j);
    } else {
      JoinOtherPage(v, s, root, j, x);
    }
    if x != root {
      assert Attached(v, s, root, x);
      JoinAttached(v, s, root, j, x);
    }
  }

  lemma JoinParent(v: Store, s: Shape, root: PageId, j: Joining)
    requires CanJoin(v, s, root, j) && JoinPlaces(s, root, j, Kids(v[j.r]))
    ensures PageOk(JoinShape(s, j, Kids(v[j.r])), j.p, JoinStore(v, j)[j.p])
  {
    assert PageOk(s, j.p, v[j.p]);
    OnlyKid(v, s, root, j.p, j.at);
    OnlyKid(v, s, root, j.p, j.at + 1);
    JoinParentPage(s, root, v[j.p].inner, j, Kids(v[j.r]));
  }

  /** Where the pages involved in a join are; `moved` are the children of `r`. */
  ghost predicate JoinPlaces(s: Shape, root: PageId, j: Joining, moved: seq<PageId>) {
    && j.l in s && j.r in s && j.p in s && root in s
    && j.l != j.r && j.l != root && j.r != root
    && s[j.l].parent == j.p && s[j.p].level == s[j.l].level + 1
    && s[j.r].parent == j.p && s[j.p].level == s[j.r].level + 1
    && s[j.l].hi == s[j.r].lo && s[j.l].hi.Fin?
    && Before(s[j.l].lo, s[j.l].hi) && Before(s[j.r].lo, s[j.r].hi)
    && forall x :: x in moved ==> x in s && s[x].level + 1 == s[j.r].level && s[x].parent == j.r
  }

  lemma JoinLevels(v: Store, s: Shape, root: PageId, j: Joining)
    requires CanJoin(v, s, root, j)
    ensures JoinPlaces(s, root, j, Kids(v[j.r]))
    ensures PageOk(s, j.l, v[j.l]) && PageOk(s, j.r, v[j.r])
    ensures s[j.r].lo == Fin(v[j.p].inner.seps[j.at - 1])
  {
    var n := v[j.p].inner;
    assert PageOk(s, j.p, v[j.p]) && Attached(v, s, root, j.p);
    assert s[n.kids[j.at - 1]] == KidInfo(s[j.p], j.p, n, j.at - 1);
    assert s[n.kids[j.at]] == KidInfo(s[j.p], j.p, n, j.at);
    assert PageOk(s, j.l, v[j.l]) && PageOk(s, j.r, v[j.r]);
  }

  lemma JoinWhole(v: Store, s: Shape, root: PageId, j: Joining)
    requires JoinPages(v, j) && JoinPlaces(s, root, j, Kids(v[j.r]))
    requires PageOk(s, j.l, v[j.l]) && PageOk(s, j.r, v[j.r])
    requires s[j.r].lo == Fin(v[j.p].inner.seps[j.at - 1])
    ensures PageOk(JoinShape(s, j, Kids(v[j.r])), j.l, j.whole)
  {
    if v[j.l].InnerNode? {
      JoinInner(s, root, j, v[j.l].inner, v[j.p].inner.seps[j.at - 1], v[j.r].inner);
    } else {
      JoinLeaf(s, root, j, v[j.l].leaf, v[j.r].leaf);
    }
  }

  lemma JoinLeaf(s: Shape, root: PageId, j: Joining, l: Leaf, r: Leaf)
    requires JoinPlaces(s, root, j, []) && LeafOk(s, j.l, l) && LeafOk(s, j.r, r)
    requires j.whole == LeafNode(Leaf(l.entries + r.entries, [], r.next))
    ensures PageOk(JoinShape(s, j, []), j.l, j.whole)
  {
    var t, es := JoinShape(s, j, []), l.entries + r.entries;
    var mid := s[j.l].hi.e;
    forall i | 0 <= i < |es|
      ensures Holds(t[j.l], es[i]) && if i < |l.entries| then Lt(es[i], mid) else !Lt(es[i], mid)
    {
      assert if i < |l.entries| then Holds(s[j.l], l.entries[i]) else Holds(s[j.r], r.entries[i - |l.entries|]);
    }
    assert ChainOk(t, j.l, r.next);
  }

  lemma JoinInner(s: Shape, root: PageId, j: Joining, l: Inner, sep: Entry, r: Inner)
    requires JoinPlaces(s, root, j, r.kids) && InnerOk(s, j.l, l) && InnerOk(s, j.r, r)
    requires s[j.r].lo == Fin(sep) && j.whole == InnerNode(l.Join(sep, r))
    ensures PageOk(JoinShape(s, j, r.kids), j.l, j.whole)
  {
    var t, w := JoinShape(s, j, r.kids), l.Join(sep, r);
    forall k | 0 <= k < |w.kids|
      ensures w.kids[k] in t && t[w.kids[k]] == KidInfo(t[j.l], j.l, w, k)
    {
      if k < |l.kids| {
        assert w.kids[k] == l.kids[k];
        assert s[l.kids[k]] == KidInfo(s[j.l], j.l, l, k);
      } else {
        assert w.kids[k] == r.kids[k - |l.kids|];
        assert s[r.kids[k - |l.kids|]] == KidInfo(s[j.r], j.r, r, k - |l.kids|);
      }
    }
  }

  lemma JoinParentPage(s: Shape, root: PageId, n: Inner, j: Joining, moved: seq<PageId>)
    requires JoinPlaces(s, root, j, moved) && PageOk(s, j.p, InnerNode(n))
    requires 1 <= j.at < |n.kids| && n.kids[j.at - 1] == j.l && n.kids[j.at] == j.r
    requires forall k :: 0 <= k < |n.kids| && k != j.at - 1 ==> n.kids[k] != j.l
    requires forall k :: 0 <= k < |n.kids| && k != j.at ==> n.kids[k] != j.r
    ensures PageOk(JoinShape(s, j, moved), j.p, InnerNode(n.Remove(j.at)))
  {
    var t, m := JoinShape(s, j, moved), n.Remove(j.at);
    forall k | 0 <= k < |m.kids|
      ensures m.kids[k] in t && t[m.kids[k]] == KidInfo(t[j.p], j.p, m, k)
    {
      var i := if k < j.at then k else k + 1;
      assert m.kids[k] == n.kids[i];
      assert s[n.kids[i]] == KidInfo(s[j.p], j.p, n, i);
      assert s[n.kids[j.at]] == KidInfo(s[j.p], j.p, n, j.at);
    }
  }

  lemma JoinOtherPage(v: Store, s: Shape, root: PageId, j: Joining, x: PageId)
    requires CanJoin(v, s, root, j) && JoinPlaces(s, root, j, Kids(v[j.r]))
    requires x in s && x != j.l && x != j.r && x != j.p
    ensures PageOk(JoinShape(s, j, Kids(v[j.r])), x, v[x])
  {
    assert PageOk(s, x, v[x]);
    if v[x].LeafNode? && !s[x].hi.PosInf? && v[x].leaf.next == j.r {
      UniqueByEnd(v, s, root, x, j.l);
      assert false;
    }
    PageKept(s, JoinShape(s, j, Kids(v[j.r])), x, v[x]);
  }

  lemma JoinAttached(v: Store, s: Shape, root: PageId, j: Joining, x: PageId)
    requires v.Keys == s.Keys && JoinPages(v, j) && JoinPlaces(s, root, j, Kids(v[j.r]))
    requires x in s && x != root && x != j.r && Attached(v, s, root, x)
    ensures Attached(JoinStore(v, j), JoinShape(s, j, Kids(v[j.r])), root, x)
  {
    var y := s[x].parent;
    var k :| 0 <= k < |v[y].inner.kids| && v[y].inner.kids[k] == x;
    if y == j.l {
      assert j.whole.inner.kids[k] == x;
    } else if y == j.r {
      assert j.whole.inner.kids[|v[j.l].inner.kids| + k] == x;
    } else if y == j.p {
      assert v[j.p].inner.Remove(j.at).kids[if k < j.at then k else k - 1] == x;
    }
  }

  // ---- the tree grows or loses a root ---------------------------------------------

  /** A new root `r` over the old one, with the old root as its only child. */
  lemma GrowRoot(v: Store, s: Shape, root: PageId, r: PageId)
    requires WF(v, s, root) && r !in s && r != INVALID_PAGE_ID
    ensures WF(v[r := InnerNode(Inner([], [root]))], GrowShape(s, root, r), r)
  {
    var w, t := v[r := InnerNode(Inner([], [root]))], GrowShape(s, root, r);
    forall x | x in t
      ensures PageOk(t, x, w[x]) && Attached(w, t, r, x)
    {
      if x != r {
        assert PageOk(s, x, v[x]) && Attached(v, s, root, x);
        if v[x].InnerNode? {
          forall k | 0 <= k < |v[x].inner.kids|
            ensures v[x].inner.kids[k] != root
          {
            assert PageOk(s, v[x].inner.kids[k], v[v[x].inner.kids[k]]);
          }
        }
      }
    }
  }

  ghost function GrowShape(s: Shape, root: PageId, r: PageId): Shape
    requires root in s
  {
    s[root := s[root].(parent := r)][r := Info(NegInf, PosInf, s[root].level + 1, INVALID_PAGE_ID)]
  }

  /** A root with one child gives way to that child. */
  lemma ShrinkRoot(v: Store, s: Shape, root: PageId)
    requires WF(v, s, root) && v[root].InnerNode? && |v[root].inner.kids| == 1
    ensures WF(v - {root}, s - {root}, v[root].inner.kids[0])
  {
    var kid := v[root].inner.kids[0];
    var w, t := v - {root}, s - {root};
    assert PageOk(s, root, v[root]);
    forall x | x in t
      ensures PageOk(t, x, w[x]) && Attached(w, t, kid, x)
    {
      assert PageOk(s, x, v[x]) && Attached(v, s, root, x);
      var y := s[x].parent;
      assert PageOk(s, y, v[y]) && Attached(v, s, root, y);
    }
  }
}
