/** The leaves of a tree, and what one insertion or deletion does to them. This
    is the part of a tree's state that decides which later insertions fail. */
module TreeLeaves {
  import opened Common
  import opened Entries
  import opened LeafPages
  import opened InternalPages
  import opened TreeShape
  import opened TreeSteps
  import opened TreeContents

  type LeafMap = map<PageId, seq<Entry>>

  /** The entries of every leaf, by page. */
  ghost function Leaves(v: Store): LeafMap {
    map id | id in v && v[id].LeafNode? :: v[id].leaf.entries
  }

  // ---- one step -----------------------------------------------------------------

  /** `e` enters one leaf; a leaf that becomes full is split in the middle. */
  ghost predicate InsertStep(caps: Caps, a: LeafMap, e: Entry, b: LeafMap) {
    if a == map[] then exists id :: b == map[id := [e]]
    else exists id, pos: nat :: id in a && IsLowerBound(a[id], e, pos) && Grown(caps, a, id, a[id][..pos] + [e] + a[id][pos..], b)
  }

  ghost predicate Grown(caps: Caps, a: LeafMap, id: PageId, es: seq<Entry>, b: LeafMap) {
    if |es| < caps.leaf then b == a[id := es]
    else |es| == caps.leaf && exists q :: q !in a && b == a[id := es[..caps.MinLeaf()]][q := es[caps.MinLeaf()..]]
  }

  /** `e` leaves its leaf; a leaf that becomes too small is rebalanced with a
      neighbour, and the last leaf of a tree goes when it is empty. */
  ghost predicate RemoveStep(caps: Caps, a: LeafMap, e: Entry, b: LeafMap) {
    exists id, pos :: id in a && 0 <= pos < |a[id]| && a[id][pos] == e
                   && Shrunk(caps, a, id, a[id][..pos] + a[id][pos + 1..], b)
  }

  ghost predicate Shrunk(caps: Caps, a: LeafMap, id: PageId, es: seq<Entry>, b: LeafMap) {
    if a.Keys == {id} then b == if es == [] then map[] else map[id := es]
    else if |es| >= caps.MinLeaf() then b == a[id := es]
    else NeighbourHelps(caps, a[id := es], id, b)
  }

  ghost predicate NeighbourHelps(caps: Caps, a: LeafMap, short: PageId, b: LeafMap) {
    exists l, r :: Rebalanced(caps, a, short, l, r, b)
  }

  /** Two neighbours that fit on one page are merged, others share their entries anew. */
  ghost predicate Rebalanced(caps: Caps, a: LeafMap, short: PageId, l: PageId, r: PageId, b: LeafMap) {
    && l in a && r in a && l != r && (short == l || short == r) && Sorted(a[l] + a[r])
    && if |a[l]| + |a[r]| <= caps.leaf then b == (a - {r})[l := a[l] + a[r]]
       else Shared(caps, a, l, r, b)
  }

  ghost predicate Shared(caps: Caps, a: LeafMap, l: PageId, r: PageId, b: LeafMap)
    requires l in a && r in a
  {
    && b.Keys == a.Keys && b == a[l := b[l]][r := b[r]]
    && b[l] + b[r] == a[l] + a[r]
    && caps.MinLeaf() <= |b[l]| < caps.leaf && caps.MinLeaf() <= |b[r]| < caps.leaf
  }

  // ---- stores and their leaves ------------------------------------------------------

  lemma SetLeaf(v: Store, id: PageId, l: Leaf)
    ensures Leaves(v[id := LeafNode(l)]) == Leaves(v)[id := l.entries]
  {
  }

  lemma SetInner(v: Store, id: PageId, n: Inner)
    requires id in v ==> v[id].InnerNode?
    ensures Leaves(v[id := InnerNode(n)]) == Leaves(v)
  {
  }

  lemma DropPage(v: Store, id: PageId)
    ensures Leaves(v - {id}) == Leaves(v) - {id}
  {
  }

  lemma DropInner(v: Store, id: PageId)
    requires id in v ==> v[id].InnerNode?
    ensures Leaves(v - {id}) == Leaves(v)
  {
  }

  /** Leaves are split as soon as they are full, so insertions alone leave none full. */
  ghost predicate NoFullLeaf(caps: Caps, v: Store) {
    forall id {:trigger v[id]} :: id in v && v[id].LeafNode? ==> |v[id].leaf.entries| < caps.leaf
  }

  lemma NoFullLeafStep(caps: Caps, v: Store, e: Entry, w: Store)
    requires NoFullLeaf(caps, v) && caps.leaf >= 2 && InsertStep(caps, Leaves(v), e, Leaves(w))
    ensures NoFullLeaf(caps, w)
  {
    var a, b := Leaves(v), Leaves(w);
    if a != map[] {
      var id, pos: nat :| id in a && IsLowerBound(a[id], e, pos) && Grown(caps, a, id, a[id][..pos] + [e] + a[id][pos..], b);
    }
    forall k | k in w && w[k].LeafNode?
      ensures |w[k].leaf.entries| < caps.leaf
    {
      assert k in b && b[k] == w[k].leaf.entries;
      assert k in a ==> |v[k].leaf.entries| < caps.leaf;
    }
  }

  /** A leaf of at most three places falls short only when it is empty, and what it
      merges with then is no fuller than before. */
  lemma NoFullLeafRemoved(caps: Caps, v: Store, e: Entry, w: Store)
    requires NoFullLeaf(caps, v) && 2 <= caps.leaf <= 3 && RemoveStep(caps, Leaves(v), e, Leaves(w))
    ensures NoFullLeaf(caps, w)
  {
    var a: LeafMap, b: LeafMap := Leaves(v), Leaves(w);
    assert AllBelow(caps.leaf, a) by {
      forall k | k in a ensures |a[k]| < caps.leaf { assert |v[k].leaf.entries| < caps.leaf; }
    }
    var id, pos :| id in a && 0 <= pos < |a[id]| && a[id][pos] == e && Shrunk(caps, a, id, a[id][..pos] + a[id][pos + 1..], b);
    ShrunkBelow(caps, a, id, a[id][..pos] + a[id][pos + 1..], b);
    forall k | k in w && w[k].LeafNode?
      ensures |w[k].leaf.entries| < caps.leaf
    {
      assert k in b && b[k] == w[k].leaf.entries;
    }
  }

  ghost predicate AllBelow(n: nat, a: LeafMap) {
    forall k :: k in a ==> |a[k]| < n
  }

  lemma ShrunkBelow(caps: Caps, a: LeafMap, id: PageId, es: seq<Entry>, b: LeafMap)
    requires 2 <= caps.leaf <= 3 && AllBelow(caps.leaf, a) && id in a && |es| < caps.leaf && Shrunk(caps, a, id, es, b)
    ensures AllBelow(caps.leaf, b)
  {
    if a.Keys != {id} && |es| < caps.MinLeaf() {
      assert es == [];
      var l, r :| Rebalanced(caps, a[id := es], id, l, r, b);
      MergedBelow(caps, a[id := []], id, l, r, b);
    }
  }

  lemma MergedBelow(caps: Caps, a: LeafMap, id: PageId, l: PageId, r: PageId, b: LeafMap)
    requires AllBelow(caps.leaf, a) && id in a && a[id] == [] && Rebalanced(caps, a, id, l, r, b)
    ensures AllBelow(caps.leaf, b)
  {
    hide Sorted;
    assert |a[l]| + |a[r]| < caps.leaf;
  }

  // ---- what well-formedness says of the leaves ------------------------------------------

  /** No entry of one leaf lies between two entries of another. */
  lemma LeavesApart(v: Store, s: Shape, root: PageId, a: PageId, b: PageId, x: Entry, y: Entry, z: Entry)
    requires WF(v, s, root) && a in Leaves(v) && b in Leaves(v)
    requires x in Leaves(v)[a] && z in Leaves(v)[a] && y in Leaves(v)[b] && !Lt(y, x) && !Lt(z, y)
    ensures a == b
  {
    assert PageOk(s, a, v[a]) && PageOk(s, b, v[b]);
    Unique(v, s, root, a, b, y);
  }

  /** Some leaf is responsible for any entry. */
  lemma {:induction false} SomeLeafHolds(v: Store, s: Shape, root: PageId, id: PageId, e: Entry) returns (leaf: PageId)
    requires WF(v, s, root) && id in s && Holds(s[id], e)
    ensures leaf in v && leaf in s && v[leaf].LeafNode? && Holds(s[leaf], e)
    decreases s[id].level
  {
    assert PageOk(s, id, v[id]);
    if v[id].LeafNode? {
      leaf := id;
    } else {
      var n := v[id].inner;
      var k := ChildFor(n.seps, e, |n.seps|);
      assert s[n.kids[k]] == KidInfo(s[id], id, n, k);
      leaf := SomeLeafHolds(v, s, root, n.kids[k], e);
    }
  }

  lemma {:induction false} ChildFor(seps: seq<Entry>, e: Entry, n: nat) returns (k: nat)
    requires n <= |seps|
    ensures k <= n && (k > 0 ==> !Lt(e, seps[k - 1])) && (k < n ==> Lt(e, seps[k]))
  {
    k := n;
    while k > 0 && Lt(e, seps[k - 1])
      invariant k <= n && (k < n ==> Lt(e, seps[k]))
    {
      k := k - 1;
    }
  }

  /** A leaf that is not the root has company. */
  lemma NotAlone(caps: Caps, v: Store, s: Shape, root: PageId, id: PageId, p: PageId)
    requires WF(v, s, root) && id in v && v[id].LeafNode? && id != root
    requires p == s[id].parent && p in v && v[p].InnerNode? && |v[p].inner.kids| >= 2
    ensures Leaves(v).Keys != {id}
  {
    assert PageOk(s, p, v[p]) && PageOk(s, id, v[id]) && Attached(v, s, root, id);
    var n := v[p].inner;
    var k :| 0 <= k < |n.kids| && n.kids[k] == id;
    var j := if k == 0 then 1 else 0;
    KidsDistinct(v, s, root, p, if j < k then j else k, if j < k then k else j);
    assert s[n.kids[j]] == KidInfo(s[p], p, n, j);
    assert PageOk(s, n.kids[j], v[n.kids[j]]);
    assert n.kids[j] in Leaves(v);
  }
}
