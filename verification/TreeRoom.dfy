/** Which pairs find no room in a tree: those whose leaf is full. And which
    pairs will find none once another pair has been taken out, told from the tree
    as it is before. */
module TreeRoom {
  import opened Common
  import opened Entries
  import opened LeafPages
  import opened InternalPages
  import opened TreeShape
  import opened TreeSteps
  import opened TreeContents
  import opened TreeLeaves
  import opened RemoveSteps

  /** Leaf `id` is responsible for `e`. */
  ghost predicate Routed(v: Store, s: Shape, id: PageId, e: Entry) {
    id in v && id in s && v[id].LeafNode? && Holds(s[id], e)
  }

  /** The leaf responsible for `e` is full. */
  ghost predicate RoutedLeafFull(caps: Caps, v: Store, s: Shape, e: Entry) {
    exists id :: Routed(v, s, id, e) && |v[id].leaf.entries| == caps.leaf
  }

  ghost function Blocked(caps: Caps, v: Store, s: Shape): iset<Entry> {
    iset e: Entry | RoutedLeafFull(caps, v, s, e)
  }

  /** The entries a leaf is responsible for. */
  datatype Span = Span(lo: Bound, hi: Bound)

  ghost function Spans(v: Store, s: Shape): map<PageId, Span> {
    map id | id in v && id in s && v[id].LeafNode? :: Span(s[id].lo, s[id].hi)
  }

  /** Leaves of the same content and places block the same pairs. */
  lemma SameRoom(caps: Caps, v: Store, s: Shape, w: Store, t: Shape)
    requires Leaves(w) == Leaves(v) && Spans(w, t) == Spans(v, s)
    ensures Blocked(caps, w, t) == Blocked(caps, v, s)
  {
    forall e: Entry
      ensures e in Blocked(caps, w, t) <==> e in Blocked(caps, v, s)
    {
      forall id
        ensures Routed(v, s, id, e) && |v[id].leaf.entries| == caps.leaf
           <==> Routed(w, t, id, e) && |w[id].leaf.entries| == caps.leaf
      {
        assert id in Leaves(w) <==> id in Leaves(v);
        assert id in Spans(w, t) <==> id in Spans(v, s);
      }
    }
  }

  // ---- when one pair is taken out ------------------------------------------------------

  /** How a leaf left with too few entries is helped: not at all, by sharing the
      entries of a neighbour, or by merging with one. */
  datatype Repair = Fine | Shares(with: PageId) | Merges(with: PageId)

  function LeafSize(v: Store, id: PageId): nat {
    if id in v && v[id].LeafNode? then |v[id].leaf.entries| else 0
  }

  predicate Hangs(v: Store, s: Shape, id: PageId) {
    id in s && s[id].parent in v && v[s[id].parent].InnerNode? && id in v[s[id].parent].inner.kids
  }

  ghost function PlaceIn(kids: seq<PageId>, id: PageId): (k: nat)
    requires id in kids
    ensures k < |kids| && kids[k] == id
  {
    var k :| 0 <= k < |kids| && kids[k] == id;
    k
  }

  /** What is done for leaf `id` when it is left with `n` entries: a neighbour
      shares if both have more than one page's worth, the left one first;
      otherwise they merge. */
  ghost function RepairOf(caps: Caps, v: Store, s: Shape, root: PageId, id: PageId, n: int): Repair {
    if id == root || n >= caps.MinLeaf() || !Hangs(v, s, id) then Fine
    else RepairAmong(caps, v, v[s[id].parent].inner.kids, PlaceIn(v[s[id].parent].inner.kids, id), n)
  }

  ghost function RepairAmong(caps: Caps, v: Store, kids: seq<PageId>, k: nat, n: int): Repair
    requires k < |kids|
  {
    if k > 0 && LeafSize(v, kids[k - 1]) + n > caps.leaf then Shares(kids[k - 1])
    else if k + 1 < |kids| && LeafSize(v, kids[k + 1]) + n > caps.leaf then Shares(kids[k + 1])
    else if k > 0 then Merges(kids[k - 1])
    else if k + 1 < |kids| then Merges(kids[k + 1])
    else Fine
  }

  /** The leaf responsible for `e` is full, and is not `l` or `r`. */
  ghost predicate FullBeside(caps: Caps, v: Store, s: Shape, l: PageId, r: PageId, e: Entry) {
    exists id :: Routed(v, s, id, e) && id != l && id != r && |v[id].leaf.entries| == caps.leaf
  }

  ghost function BlockedBeside(caps: Caps, v: Store, s: Shape, l: PageId, r: PageId): iset<Entry> {
    iset e: Entry | FullBeside(caps, v, s, l, r, e)
  }

  /** The leaf responsible for `e` is full if `l` and `r` are one leaf of `n` entries. */
  ghost predicate FullMerged(caps: Caps, v: Store, s: Shape, l: PageId, r: PageId, n: int, e: Entry) {
    exists id :: Routed(v, s, id, e) && (if id == l || id == r then n else |v[id].leaf.entries|) == caps.leaf
  }

  ghost function BlockedMerged(caps: Caps, v: Store, s: Shape, l: PageId, r: PageId, n: int): iset<Entry> {
    iset e: Entry | FullMerged(caps, v, s, l, r, n, e)
  }

  /** The pairs that find no room once leaf `id` is left with `n` entries. A leaf
      that shares ends below its capacity; two leaves that merge may fill one. */
  ghost function BlockedAfter(caps: Caps, v: Store, s: Shape, root: PageId, id: PageId, n: int): iset<Entry> {
    match RepairOf(caps, v, s, root, id, n)
    case Fine => BlockedBeside(caps, v, s, id, id)
    case Shares(p) => BlockedBeside(caps, v, s, id, p)
    case Merges(p) => BlockedMerged(caps, v, s, id, p, n + LeafSize(v, p))
  }

  /** `e` finds no room once `d` has been taken out. */
  ghost predicate FullWithout(caps: Caps, v: Store, s: Shape, root: PageId, d: Entry, e: Entry) {
    exists id :: Routed(v, s, id, d) && e in BlockedAfter(caps, v, s, root, id, |v[id].leaf.entries| - 1)
  }

  ghost function BlockedWithout(caps: Caps, v: Store, s: Shape, root: PageId, d: Entry): iset<Entry> {
    iset e: Entry | FullWithout(caps, v, s, root, d, e)
  }

  lemma WithoutIs(caps: Caps, v: Store, s: Shape, root: PageId, id: PageId, d: Entry)
    requires WF(v, s, root) && Routed(v, s, id, d)
    ensures BlockedWithout(caps, v, s, root, d) == BlockedAfter(caps, v, s, root, id, |v[id].leaf.entries| - 1)
  {
    hide BlockedAfter;
    forall b | Routed(v, s, b, d)
      ensures b == id
    {
      assert PageOk(s, b, v[b]) && PageOk(s, id, v[id]);
      Unique(v, s, root, b, id, d);
    }
  }

  /** A leaf that can spare the pair, or has no neighbours, just gets smaller. */
  lemma SparedRoom(caps: Caps, v: Store, s: Shape, root: PageId, id: PageId, d: Entry, l: Leaf)
    requires WF(v, s, root) && Routed(v, s, id, d) && |l.entries| < caps.leaf
    requires id == root || |v[id].leaf.entries| > caps.MinLeaf()
    ensures Blocked(caps, v[id := LeafNode(l)], s) == BlockedWithout(caps, v, s, root, d)
  {
    hide Blocked, BlockedWithout, BlockedBeside, WF;
    WithoutIs(caps, v, s, root, id, d);
    ReplacedRoom(caps, v, s, id, l);
  }

  // ---- what each repair does to it ---------------------------------------------------

  lemma ReplacedRoom(caps: Caps, v: Store, s: Shape, id: PageId, l: Leaf)
    requires id in v && v[id].LeafNode? && |l.entries| < caps.leaf
    ensures Blocked(caps, v[id := LeafNode(l)], s) == BlockedBeside(caps, v, s, id, id)
  {
    var w := v[id := LeafNode(l)];
    forall b, e: Entry
      ensures Routed(w, s, b, e) && |w[b].leaf.entries| == caps.leaf
         <==> Routed(v, s, b, e) && b != id && |v[b].leaf.entries| == caps.leaf
    {
    }
  }

  lemma AloneRoom(caps: Caps, v: Store, s: Shape, id: PageId)
    requires v.Keys == {id}
    ensures BlockedBeside(caps, v, s, id, id) == iset{}
  {
  }

  lemma BesideEither(caps: Caps, v: Store, s: Shape, l: PageId, r: PageId)
    ensures BlockedBeside(caps, v, s, l, r) == BlockedBeside(caps, v, s, r, l)
  {
  }

  lemma MergedEither(caps: Caps, v: Store, s: Shape, l: PageId, r: PageId, n: int)
    ensures BlockedMerged(caps, v, s, l, r, n) == BlockedMerged(caps, v, s, r, l, n)
  {
  }

  /** Two neighbours that shared their entries are not full, and together in
      charge of what they were in charge of. */
  lemma SharedRoom(caps: Caps, v: Store, s: Shape, root: PageId, j: Joining, left: Leaf, sep: Entry, right: Leaf)
    requires CanJoin(v, s, root, j) && v[j.l].LeafNode? && j.l in s && j.r in s && j.p in s && j.l != j.r
    requires 1 <= j.at <= |v[j.p].inner.seps| && |left.entries| < caps.leaf && |right.entries| < caps.leaf
    ensures Blocked(caps, ShareStore(v, j, LeafNode(left), sep, LeafNode(right)), ShareShape(v, s, j, LeafNode(left), sep, LeafNode(right)))
      == BlockedBeside(caps, v, s, j.l, j.r)
  {
    JoinKeys(v, s, root, j);
    var w := ShareStore(v, j, LeafNode(left), sep, LeafNode(right));
    var t := ShareShape(v, s, j, LeafNode(left), sep, LeafNode(right));
    forall b, e: Entry
      ensures Routed(w, t, b, e) && |w[b].leaf.entries| == caps.leaf
         <==> Routed(v, s, b, e) && b != j.l && b != j.r && |v[b].leaf.entries| == caps.leaf
    {
      if b != j.l && b != j.r && b in s {
        assert t[b].lo == s[b].lo && t[b].hi == s[b].hi;
      }
    }
  }

  /** The page two neighbours merged into is in charge of what both were. */
  lemma MergedRoom(caps: Caps, v: Store, s: Shape, root: PageId, j: Joining)
    requires CanJoin(v, s, root, j) && v[j.l].LeafNode? && v[j.r].LeafNode? && j.l in s && j.r in s && j.p in s && j.l != j.r
    ensures Blocked(caps, JoinStore(v, j), JoinShape(s, j, Kids(v[j.r])))
      == BlockedMerged(caps, v, s, j.l, j.r, |v[j.l].leaf.entries| + |v[j.r].leaf.entries|)
  {
    JoinKeys(v, s, root, j);
    JoinLevels(v, s, root, j);
    var w, t, n := JoinStore(v, j), JoinShape(s, j, Kids(v[j.r])), |v[j.l].leaf.entries| + |v[j.r].leaf.entries|;
    assert s[j.l].hi == s[j.r].lo && |w[j.l].leaf.entries| == n by { SpansMeet(v, s, root, j); }
    forall e: Entry
      ensures e in Blocked(caps, w, t) <==> e in BlockedMerged(caps, v, s, j.l, j.r, n)
    {
      assert PageOk(s, j.l, v[j.l]) && PageOk(s, j.r, v[j.r]);
      assert Holds(t[j.l], e) <==> Holds(s[j.l], e) || Holds(s[j.r], e);
      forall b | b != j.l && b != j.r
        ensures Routed(w, t, b, e) <==> Routed(v, s, b, e)
        ensures Routed(v, s, b, e) ==> w[b] == v[b]
      {
      }
      assert Routed(w, t, j.l, e) <==> Routed(v, s, j.l, e) || Routed(v, s, j.r, e);
      assert !Routed(w, t, j.r, e);
    }
  }

  lemma SpansMeet(v: Store, s: Shape, root: PageId, j: Joining)
    requires CanJoin(v, s, root, j) && j.l in s && j.r in s && j.p in s
    ensures s[j.l].hi == s[j.r].lo
  {
    var n := v[j.p].inner;
    assert PageOk(s, j.p, v[j.p]);
    assert s[n.kids[j.at - 1]] == KidInfo(s[j.p], j.p, n, j.at - 1) && s[n.kids[j.at]] == KidInfo(s[j.p], j.p, n, j.at);
  }

  /** Which leaf helps does not depend on what the short leaf still holds. */
  lemma AfterReplaced(caps: Caps, v: Store, s: Shape, root: PageId, id: PageId, l: Leaf, n: int)
    requires WF(v, s, root) && id in v && v[id].LeafNode?
    ensures BlockedAfter(caps, v[id := LeafNode(l)], s, root, id, n) == BlockedAfter(caps, v, s, root, id, n)
  {
    var w := v[id := LeafNode(l)];
    if id != root {
      var at := FindKid(v, s, root, id);
      var p := s[id].parent;
      var kids := v[p].inner.kids;
      assert PageOk(s, p, v[p]);
      assert p != id && w[p] == v[p];
      forall k | 0 <= k < |kids| && k != at - 1
        ensures kids[k] != id
      {
        KidsDistinct(v, s, root, p, if k < at - 1 then k else at - 1, if k < at - 1 then at - 1 else k);
      }
      assert RepairOf(caps, w, s, root, id, n) == RepairOf(caps, v, s, root, id, n);
      var r := RepairOf(caps, v, s, root, id, n);
      assert !r.Fine? ==> r.with != id && LeafSize(w, r.with) == LeafSize(v, r.with);
    }
    BesideReplaced(caps, v, s, id, id, l);
    match RepairOf(caps, v, s, root, id, n) {
      case Fine =>
      case Shares(p) => BesideReplaced(caps, v, s, id, p, l);
      case Merges(p) => MergedReplaced(caps, v, s, id, p, l, n + LeafSize(v, p));
    }
  }

  lemma BesideReplaced(caps: Caps, v: Store, s: Shape, id: PageId, r: PageId, l: Leaf)
    requires id in v && v[id].LeafNode?
    ensures BlockedBeside(caps, v[id := LeafNode(l)], s, id, r) == BlockedBeside(caps, v, s, id, r)
  {
    var w := v[id := LeafNode(l)];
    forall b, e: Entry
      ensures Routed(w, s, b, e) <==> Routed(v, s, b, e)
      ensures b != id && Routed(v, s, b, e) ==> w[b] == v[b]
    {
    }
  }

  lemma MergedReplaced(caps: Caps, v: Store, s: Shape, id: PageId, r: PageId, l: Leaf, n: int)
    requires id in v && v[id].LeafNode?
    ensures BlockedMerged(caps, v[id := LeafNode(l)], s, id, r, n) == BlockedMerged(caps, v, s, id, r, n)
  {
    var w := v[id := LeafNode(l)];
    forall b, e: Entry
      ensures Routed(w, s, b, e) <==> Routed(v, s, b, e)
      ensures b != id && Routed(v, s, b, e) ==> w[b] == v[b]
    {
    }
  }

  /** The children of one page are distinct, so the place of one is clear. */
  lemma RepairIs(caps: Caps, v: Store, s: Shape, root: PageId, id: PageId, k: nat, n: int)
    requires WF(v, s, root) && id in s && id != root && n < caps.MinLeaf() && s[id].parent in v && v[s[id].parent].InnerNode?
    requires k < |v[s[id].parent].inner.kids| && v[s[id].parent].inner.kids[k] == id
    ensures RepairOf(caps, v, s, root, id, n) == RepairAmong(caps, v, v[s[id].parent].inner.kids, k, n)
  {
    var kids := v[s[id].parent].inner.kids;
    var i := PlaceIn(kids, id);
    if i != k {
      KidsDistinct(v, s, root, s[id].parent, if i < k then i else k, if i < k then k else i);
    }
  }

  // ---- what happens above the leaves leaves them alone -----------------------------------

  lemma SharedInnerSpans(v: Store, s: Shape, root: PageId, j: Joining, left: Inner, sep: Entry, right: Inner)
    requires CanJoin(v, s, root, j) && v[j.l].InnerNode? && j.l in s && j.r in s && j.p in s && j.l != j.r
    requires 1 <= j.at <= |v[j.p].inner.seps|
    ensures Spans(ShareStore(v, j, InnerNode(left), sep, InnerNode(right)), ShareShape(v, s, j, InnerNode(left), sep, InnerNode(right)))
      == Spans(v, s)
  {
    JoinKeys(v, s, root, j);
  }

  lemma MergedInnerSpans(v: Store, s: Shape, root: PageId, j: Joining)
    requires CanJoin(v, s, root, j) && v[j.l].InnerNode? && j.l in s && j.r in s && j.p in s && j.l != j.r
    ensures Spans(JoinStore(v, j), JoinShape(s, j, Kids(v[j.r]))) == Spans(v, s)
  {
    JoinKeys(v, s, root, j);
  }

  lemma ShrunkSpans(v: Store, s: Shape, root: PageId)
    requires root in v && v[root].InnerNode?
    ensures Spans(v - {root}, s - {root}) == Spans(v, s)
  {
  }
}
