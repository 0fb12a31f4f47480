/** Whole runs of the index against a plain set of pairs, and the runs that do
    not end well. */
module BTreeRuns {
  import opened Common
  import opened Entries
  import opened LeafPages
  import opened InternalPages
  import opened TreeShape
  import opened TreeContents
  import opened TreeLeaves
  import opened TreeRoom
  import opened AscendingKeys
  import opened BTrees

  datatype Op = InsertOp(e: Entry) | RemoveOp(e: Entry)

  datatype Outcome = InsertOutcome(i: InsertResult) | RemoveOutcome(r: RemoveResult)

  /** One moment of a tree. */
  datatype Moment = Moment(pages: Store, shape: Shape, root: PageId)

  /** The places belong to the pages: a tree is empty, or well formed with pages
      of legal sizes. */
  ghost predicate MomentOk(caps: Caps, m: Moment) {
    if m.pages == map[] then m.shape == map[]
    else WF(m.pages, m.shape, m.root) && Sized(caps, m.pages, m.root, INVALID_PAGE_ID)
  }

  ghost function MomentOf(tree: BTree): Moment
    reads tree
  {
    Moment(tree.pages, tree.shape, tree.rootPageId)
  }

  /** The abstract index: what one operation with a given outcome does to the set. */
  ghost function Step(entries: set<Entry>, op: Op, out: Outcome): set<Entry> {
    match op
    case InsertOp(e) => if out == InsertOutcome(Inserted) then entries + {e} else entries
    case RemoveOp(e) => if out == RemoveOutcome(Removed) then entries - {e} else entries
  }

  ghost function After(ops: seq<Op>, outs: seq<Outcome>): set<Entry>
    requires |ops| == |outs|
  {
    if ops == [] then {}
    else var n := |ops| - 1; Step(After(ops[..n], outs[..n]), ops[n], outs[n])
  }

  /** The outcome the abstract index allows; an insertion fails exactly if the
      pair is new and the leaf responsible for it is full at that moment. */
  ghost predicate Agrees(caps: Caps, m: Moment, entries: set<Entry>, op: Op, out: Outcome) {
    match op
    case InsertOp(e) =>
      && out.InsertOutcome?
      && (out.i.Duplicate? <==> e in entries)
      && (out.i.Panicked? <==> e !in entries && RoutedLeafFull(caps, m.pages, m.shape, e))
    case RemoveOp(e) => out.RemoveOutcome? && (out.r.Removed? <==> e in entries)
  }

  /** The leaves move by the step that belongs to the operation, or not at all. What
      finds no room after a deletion is told from the tree before it. */
  ghost predicate Moves(caps: Caps, a: Moment, op: Op, out: Outcome, b: Moment) {
    match op
    case InsertOp(e) =>
      if out == InsertOutcome(Inserted) then InsertStep(caps, Leaves(a.pages), e, Leaves(b.pages)) else a == b
    case RemoveOp(e) =>
      if out == RemoveOutcome(Removed) then
        && RemoveStep(caps, Leaves(a.pages), e, Leaves(b.pages))
        && Blocked(caps, b.pages, b.shape) == BlockedWithout(caps, a.pages, a.shape, a.root, e)
      else a == b
  }

  /** `ms` are the moments before, between and after the operations. */
  ghost predicate Faithful(caps: Caps, ops: seq<Op>, outs: seq<Outcome>, ms: seq<Moment>) {
    && |outs| == |ops| && |ms| == |ops| + 1 && ms[0].pages == map[]
    && (forall i :: 0 <= i < |ms| ==> MomentOk(caps, ms[i]))
    && (forall i :: 0 <= i < |ms| ==> Contents(ms[i].pages) == After(ops[..i], outs[..i]))
    && (forall i :: 0 <= i < |ops| ==> Agrees(caps, ms[i], After(ops[..i], outs[..i]), ops[i], outs[i]))
    && (forall i :: 0 <= i < |ops| ==> Moves(caps, ms[i], ops[i], outs[i], ms[i + 1]))
  }

  lemma FaithfulStart(caps: Caps, m: Moment)
    requires m.pages == map[] && m.shape == map[]
    ensures Faithful(caps, [], [], [m])
  {
  }

  lemma FaithfulStep(caps: Caps, ops: seq<Op>, outs: seq<Outcome>, ms: seq<Moment>, op: Op, out: Outcome, m: Moment)
    requires Faithful(caps, ops, outs, ms)
    requires Agrees(caps, ms[|ops|], After(ops, outs), op, out) && Moves(caps, ms[|ops|], op, out, m)
    requires Contents(m.pages) == Step(After(ops, outs), op, out) && MomentOk(caps, m)
    ensures Faithful(caps, ops + [op], outs + [out], ms + [m])
    ensures After(ops + [op], outs + [out]) == Step(After(ops, outs), op, out)
  {
    hide Faithful, Agrees, Moves, Contents, Step, MomentOk;
    var n := |ops|;
    var ops', outs' := ops + [op], outs + [out];
    assert |outs| == n && |ms| == n + 1 by { FaithfulLengths(caps, ops, outs, ms); }
    assert ops'[..n] == ops && outs'[..n] == outs && ops'[..n + 1] == ops' && outs'[..n + 1] == outs';
    assert ops[..n] == ops && outs[..n] == outs;
    forall i | 0 <= i <= n
      ensures ops'[..i] == ops[..i] && outs'[..i] == outs[..i]
    {
    }
    MomentsStep(caps, ops, outs, ms, op, out, m);
  }

  lemma FaithfulLengths(caps: Caps, ops: seq<Op>, outs: seq<Outcome>, ms: seq<Moment>)
    requires Faithful(caps, ops, outs, ms)
    ensures |outs| == |ops| && |ms| == |ops| + 1
  {
  }

  lemma MomentsStep(caps: Caps, ops: seq<Op>, outs: seq<Outcome>, ms: seq<Moment>, op: Op, out: Outcome, m: Moment)
    requires |outs| == |ops| && |ms| == |ops| + 1
    requires var ops', outs' := ops + [op], outs + [out];
      && (forall i :: 0 <= i <= |ops| ==> ops'[..i] == ops[..i] && outs'[..i] == outs[..i])
      && ops'[..|ops| + 1] == ops' && outs'[..|ops| + 1] == outs' && ops[..|ops|] == ops && outs[..|ops|] == outs
    requires Faithful(caps, ops, outs, ms)
    requires Agrees(caps, ms[|ops|], After(ops, outs), op, out) && Moves(caps, ms[|ops|], op, out, m)
    requires Contents(m.pages) == After(ops + [op], outs + [out]) && MomentOk(caps, m)
    ensures Faithful(caps, ops + [op], outs + [out], ms + [m])
  {
    hide Agrees, Moves, After, Contents, MomentOk;
    var ops', outs', ms' := ops + [op], outs + [out], ms + [m];
    forall i | 0 <= i < |ms'|
      ensures Contents(ms'[i].pages) == After(ops'[..i], outs'[..i]) && MomentOk(caps, ms'[i])
    {
      if i <= |ops| { assert ms'[i] == ms[i]; }
    }
    forall i | 0 <= i < |ops'|
      ensures Agrees(caps, ms'[i], After(ops'[..i], outs'[..i]), ops'[i], outs'[i])
      ensures Moves(caps, ms'[i], ops'[i], outs'[i], ms'[i + 1])
    {
      if i < |ops| { assert ms'[i] == ms[i] && ms'[i + 1] == ms[i + 1]; }
    }
  }

  /** Any run from the empty tree behaves like a set of pairs. Insert reports a
      duplicate iff the pair is present and fails iff it is absent and its leaf
      is full; remove succeeds iff the pair is present; the tree holds what the
      set holds. A run of insertions never fails, and with at most three places
      in a leaf no run does. */
  method Run(leafMax: nat, internalMax: nat, ops: seq<Op>)
      returns (tree: BTree, outs: seq<Outcome>, ghost ms: seq<Moment>)
    requires leafMax >= 2 && internalMax >= 3
    ensures tree.Valid() && Faithful(Caps(leafMax, internalMax), ops, outs, ms)
    ensures tree.Entries() == After(ops, outs) && ms[|ops|] == MomentOf(tree)
    ensures leafMax <= 3 || (forall i :: 0 <= i < |ops| ==> ops[i].InsertOp?) ==>
      forall i :: 0 <= i < |ops| ==> outs[i] != InsertOutcome(Panicked)
  {
    hide Faithful, After, Step, Agrees, Moves, NoFullLeaf, MomentOk;
    tree := new BTree(leafMax, internalMax);
    outs, ms := [], [MomentOf(tree)];
    StartOk(tree);
    FaithfulStart(tree.Capacity(), ms[0]);
    EmptyRun();
    var i := 0;
    assert ops[..0] == [];
    while i < |ops|
      invariant i <= |ops| && |outs| == i && |ms| == i + 1 && fresh(tree) && tree.Valid()
      invariant tree.leafMax == leafMax && tree.internalMax == internalMax
      invariant Faithful(tree.Capacity(), ops[..i], outs, ms) && tree.Entries() == After(ops[..i], outs)
      invariant ms[i] == MomentOf(tree)
      invariant leafMax <= 3 || (forall k :: 0 <= k < i ==> ops[k].InsertOp?) ==>
        NoFullLeaf(tree.Capacity(), tree.pages) && forall k :: 0 <= k < i ==> outs[k] != InsertOutcome(Panicked)
    {
      var out := Apply(tree, ops[i]);
      FaithfulStep(tree.Capacity(), ops[..i], outs, ms, ops[i], out, MomentOf(tree));
      assert ops[..i + 1] == ops[..i] + [ops[i]];
      outs, ms := outs + [out], ms + [MomentOf(tree)];
      i := i + 1;
    }
    assert ops[..i] == ops;
  }

  lemma EmptyRun()
    ensures After([], []) == {}
  {
  }

  lemma StartOk(tree: BTree)
    requires tree.Valid() && tree.pages == map[]
    ensures MomentOf(tree).pages == map[] && MomentOf(tree).shape == map[]
  {
  }

  lemma TreeMoment(tree: BTree)
    requires tree.Valid()
    ensures MomentOk(tree.Capacity(), MomentOf(tree))
  {
  }

  method Apply(tree: BTree, op: Op) returns (out: Outcome)
    requires tree.Valid()
    modifies tree
    ensures tree.Valid() && MomentOk(tree.Capacity(), MomentOf(tree))
    ensures Agrees(tree.Capacity(), old(MomentOf(tree)), old(tree.Entries()), op, out)
    ensures Moves(tree.Capacity(), old(MomentOf(tree)), op, out, MomentOf(tree))
    ensures tree.Entries() == Step(old(tree.Entries()), op, out)
    ensures (op.InsertOp? || tree.leafMax <= 3) && old(NoFullLeaf(tree.Capacity(), tree.pages)) ==>
      out != InsertOutcome(Panicked) && NoFullLeaf(tree.Capacity(), tree.pages)
  {
    hide InsertStep, RemoveStep, NoFullLeaf, Blocked, BlockedWithout, RoutedLeafFull, MomentOk, WF, Sized, Contents;
    ghost var before := tree.pages;
    match op {
      case InsertOp(e) =>
        NoFullLeafRoute(tree, e);
        var r := tree.Insert(e);
        out := InsertOutcome(r);
      case RemoveOp(e) =>
        var r := tree.Remove(e);
        out := RemoveOutcome(r);
        if r.Removed? && tree.leafMax <= 3 && NoFullLeaf(tree.Capacity(), before) {
          NoFullLeafRemoved(tree.Capacity(), before, e, tree.pages);
        }
    }
    TreeMoment(tree);
  }

  lemma NoFullLeafRoute(tree: BTree, e: Entry)
    ensures NoFullLeaf(tree.Capacity(), tree.pages) ==>
      !RoutedLeafFull(tree.Capacity(), tree.pages, tree.shape, e)
  {
  }

  // ---- runs that fail -----------------------------------------------------------------

  function Numbered(k: int): Entry { Entry(k, Rid(1, 0)) }

  ghost function Numbers(n: nat): seq<Entry> {
    seq(n, k requires 0 <= k < n => Numbered(k))
  }

  lemma NumbersGrow(n: nat)
    ensures Numbers(n + 1) == Numbers(n) + [Numbered(n)] && Numbered(n) !in Numbers(n)
    ensures forall x :: x in Numbers(n) ==> Lt(x, Numbered(n))
  {
  }

  /** One insertion more than a leaf has places for, in ascending order, then the
      first pair deleted, then another one inserted. */
  function FailingOps(leafMax: nat): seq<Op> {
    seq(leafMax + 1, k requires 0 <= k < leafMax + 1 => InsertOp(Numbered(k)))
    + [RemoveOp(Numbered(0)), InsertOp(Numbered(leafMax + 1))]
  }

  lemma {:induction false} AscendingRun(caps: Caps, outs: seq<Outcome>, ms: seq<Moment>, i: nat)
    requires caps.leaf >= 4 && i <= caps.leaf + 1 && Faithful(caps, FailingOps(caps.leaf), outs, ms)
    ensures Ascended(caps, Leaves(ms[i].pages), Numbers(i))
  {
    if i > 0 {
      AscendingRun(caps, outs, ms, i - 1);
      AscendingRunStep(caps, outs, ms, i - 1);
    } else {
      assert Leaves(ms[0].pages) == map[];
    }
  }

  lemma AscendingRunStep(caps: Caps, outs: seq<Outcome>, ms: seq<Moment>, i: nat)
    requires caps.leaf >= 4 && i <= caps.leaf && Faithful(caps, FailingOps(caps.leaf), outs, ms)
    requires Ascended(caps, Leaves(ms[i].pages), Numbers(i))
    ensures Ascended(caps, Leaves(ms[i + 1].pages), Numbers(i + 1))
  {
    var ops, m, m', e := FailingOps(caps.leaf), ms[i], ms[i + 1], Numbered(i);
    assert ops[i] == InsertOp(e) && Contents(m.pages) == After(ops[..i], outs[..i]);
    assert Agrees(caps, m, After(ops[..i], outs[..i]), ops[i], outs[i]) && Moves(caps, m, ops[i], outs[i], m') && MomentOk(caps, m');
    hide Faithful, Contents, Ascended, InsertStep, After;
    NumbersGrow(i);
    AscendedMembers(caps, m.pages, Numbers(i));
    assert outs[i] == InsertOutcome(Inserted);
    AscendedAfter(caps, m.pages, m', Numbers(i), e);
  }

  lemma AscendedAfter(caps: Caps, v: Store, m: Moment, es: seq<Entry>, e: Entry)
    requires Ascended(caps, Leaves(v), es) && |es| <= caps.leaf && MomentOk(caps, m)
    requires (forall x :: x in es ==> Lt(x, e)) && InsertStep(caps, Leaves(v), e, Leaves(m.pages))
    ensures Ascended(caps, Leaves(m.pages), es + [e])
  {
    NotEmptied(caps, Leaves(v), e, Leaves(m.pages));
    assert m.pages != map[];
    AscendStep(caps, m.pages, m.shape, m.root, Leaves(v), es, e);
  }

  /** From capacity 4 on, every faithful answer to these operations ends in the
      failure of the last insertion. */
  lemma FailingRun(caps: Caps, outs: seq<Outcome>, ms: seq<Moment>)
    requires caps.leaf >= 4 && caps.inner >= 3 && Faithful(caps, FailingOps(caps.leaf), outs, ms)
    ensures |outs| == caps.leaf + 3 && outs[caps.leaf + 2] == InsertOutcome(Panicked)
  {
    hide Faithful, Agrees, Moves, MomentOk;
    var n := caps.leaf + 1;
    var ops := FailingOps(caps.leaf);
    FaithfulLengths(caps, ops, outs, ms);
    AscendingRun(caps, outs, ms, n);
    FaithfulAt(caps, ops, outs, ms, n);
    FaithfulAt(caps, ops, outs, ms, n + 1);
    AfterStep(ops[..n], outs[..n], ops[n], outs[n]);
    assert ops[..n + 1] == ops[..n] + [ops[n]] && outs[..n + 1] == outs[..n] + [outs[n]];
    LastFails(caps, ms[n], ms[n + 1], After(ops[..n], outs[..n]), n, outs[n], outs[n + 1]);
  }

  lemma FaithfulAt(caps: Caps, ops: seq<Op>, outs: seq<Outcome>, ms: seq<Moment>, i: nat)
    requires Faithful(caps, ops, outs, ms) && i < |ops|
    ensures |outs| == |ops| && |ms| == |ops| + 1
    ensures Agrees(caps, ms[i], After(ops[..i], outs[..i]), ops[i], outs[i]) && Moves(caps, ms[i], ops[i], outs[i], ms[i + 1])
    ensures MomentOk(caps, ms[i]) && MomentOk(caps, ms[i + 1]) && Contents(ms[i].pages) == After(ops[..i], outs[..i])
  {
  }

  lemma LastFails(caps: Caps, a: Moment, b: Moment, entries: set<Entry>, n: nat, out: Outcome, last: Outcome)
    requires caps.leaf >= 4 && caps.inner >= 3 && n == caps.leaf + 1 && MomentOk(caps, a)
    requires Ascended(caps, Leaves(a.pages), Numbers(n)) && Contents(a.pages) == entries
    requires Agrees(caps, a, entries, RemoveOp(Numbered(0)), out) && Moves(caps, a, RemoveOp(Numbered(0)), out, b)
    requires Agrees(caps, b, Step(entries, RemoveOp(Numbered(0)), out), InsertOp(Numbered(n)), last)
    ensures last == InsertOutcome(Panicked)
  {
    hide Ascended, Contents, WF, Sized, RemoveStep, BlockedWithout, RoutedLeafFull;
    var d, e := Numbered(0), Numbered(n);
    assert Numbers(n)[0] == d && d in Numbers(n);
    NumbersGrow(n);
    AscendedMembers(caps, a.pages, Numbers(n));
    assert out == RemoveOutcome(Removed);
    NoPages(a.pages, d);
    FullOnMerge(caps, a.pages, a.shape, a.root, Numbers(n), d, e);
    assert e in Blocked(caps, b.pages, b.shape);
  }

  lemma NoPages(v: Store, d: Entry)
    requires d in Contents(v)
    ensures v != map[]
  {
  }

  lemma AfterStep(ops: seq<Op>, outs: seq<Outcome>, op: Op, out: Outcome)
    requires |ops| == |outs|
    ensures After(ops + [op], outs + [out]) == Step(After(ops, outs), op, out)
  {
    assert (ops + [op])[..|ops|] == ops && (outs + [out])[..|outs|] == outs;
  }

  /** The run, on a tree. */
  method MergeFillsLeaf(leafMax: nat, internalMax: nat) returns (outs: seq<Outcome>)
    requires leafMax >= 4 && internalMax >= 3
    ensures |outs| == leafMax + 3 && outs[leafMax + 2] == InsertOutcome(Panicked)
  {
    hide Faithful, After;
    var tree;
    ghost var ms;
    tree, outs, ms := Run(leafMax, internalMax, FailingOps(leafMax));
    FailingRun(Caps(leafMax, internalMax), outs, ms);
  }

  // ---- internal pages of capacity 2 ----------------------------------------------------

  /** Splitting a full internal page leaves the left half with at least two
      children iff the page capacity is at least 3. */
  lemma TwoChildrenIffCapacityThree(max: nat, whole: Inner)
    requires max >= 2 && whole.Shaped() && |whole.kids| == max + 1
    ensures |whole.Take((max + 1) / 2).kids| >= 2 <==> max >= 3
    ensures |whole.Drop((max + 1) / 2).kids| >= 2
  {
  }

  /** With capacity 2 the root page over the leaves 1 and 2 splits when leaf 3
      arrives, and leaf 1 is left without a sibling: the tree is well-formed,
      and the parent of leaf 1 has no other child. Deleting the only pair of leaf 1
      makes it too small, and the search for a sibling to help finds none. */
  method LeafWithoutSibling(e1: Entry, e2: Entry, e3: Entry) returns (pages: Store, ghost shape: Shape, hasSibling: bool)
    requires Lt(e1, e2) && Lt(e2, e3)
    ensures WF(pages, shape, 6)
    ensures 1 in pages && 1 in shape && pages[1].LeafNode? && shape[1].parent in pages
    ensures pages[shape[1].parent] == InnerNode(Inner([], [1]))
    ensures pages[1].leaf.entries == [e1] && 0 < Caps(2, 2).MinLeaf() && !hasSibling
  {
    var left, right, promoted := SplitCapacityTwo(e2, e3);
    pages, shape := LonelyTree(e1, e2, e3, left, right, promoted), LonelyShape(e2, e3);
    LonelyIsWellFormed(e1, e2, e3);
    var parent := new InternalPage.FromData(2, left);
    assert parent.Data().kids[0] == 1;
    var found, leafIdx := parent.ValueIdx(1);
    hasSibling := leafIdx >= 1 || leafIdx + 1 < parent.size;
  }

  method SplitCapacityTwo(e2: Entry, e3: Entry) returns (left: Inner, right: Inner, promoted: Entry)
    ensures left == Inner([], [1]) && right == Inner([e3], [2, 3]) && promoted == e2
  {
    ghost var d := Inner([e2], [1, 2]);
    var page := new InternalPage.FromData(2, Inner([e2], [1, 2]));
    var sibling := new InternalPage.Init(2);
    assert page.Data().kids[1] == 2;
    promoted, left, right := SplitTwo(page, sibling, 2, e3, 3);
    assert d.Insert(2, e3, 3) == Inner([e2, e3], [1, 2, 3]);
  }

  method SplitTwo(page: InternalPage, sibling: InternalPage, after: PageId, key: Entry, val: PageId)
      returns (promoted: Entry, left: Inner, right: Inner)
    requires page.Valid() && sibling.Valid() && page != sibling && page.keys != sibling.keys && page.values != sibling.values
    requires page.size == page.maxSize == sibling.maxSize == 2 && sibling.size == 0
    requires page.values[1] == after && page.values[0] != after
    modifies page`size, page.keys, page.values, sibling`size, sibling.keys, sibling.values
    ensures var whole := old(page.Data()).Insert(2, key, val);
      left == whole.Take(1) && right == whole.Drop(1) && promoted == whole.seps[0]
  {
    ghost var whole := page.Data().Insert(2, key, val);
    ghost var at;
    promoted, at := page.SplitInsertAfter(sibling, after, key, val);
    assert at == 2;
    left := page.Data();
    assert left == whole.Take(1);
    right := sibling.Data();
  }

  function LonelyTree(e1: Entry, e2: Entry, e3: Entry, left: Inner, right: Inner, promoted: Entry): Store {
    map[1 := LeafNode(Leaf([e1], [], 2)), 2 := LeafNode(Leaf([e2], [], 3)), 3 := LeafNode(Leaf([e3], [], INVALID_PAGE_ID)),
        4 := InnerNode(left), 5 := InnerNode(right), 6 := InnerNode(Inner([promoted], [4, 5]))]
  }

  ghost function LonelyShape(e2: Entry, e3: Entry): Shape {
    map[1 := Info(NegInf, Fin(e2), 0, 4), 2 := Info(Fin(e2), Fin(e3), 0, 5), 3 := Info(Fin(e3), PosInf, 0, 5),
        4 := Info(NegInf, Fin(e2), 1, 6), 5 := Info(Fin(e2), PosInf, 1, 6), 6 := Info(NegInf, PosInf, 2, INVALID_PAGE_ID)]
  }

  lemma LonelyPages(e1: Entry, e2: Entry, e3: Entry)
    requires Lt(e1, e2) && Lt(e2, e3)
    ensures var v, s := LonelyTree(e1, e2, e3, Inner([], [1]), Inner([e3], [2, 3]), e2), LonelyShape(e2, e3);
      && PageOk(s, 1, v[1]) && PageOk(s, 2, v[2]) && PageOk(s, 3, v[3])
      && PageOk(s, 4, v[4]) && PageOk(s, 5, v[5]) && PageOk(s, 6, v[6])
  {
  }

  lemma LonelyIsWellFormed(e1: Entry, e2: Entry, e3: Entry)
    requires Lt(e1, e2) && Lt(e2, e3)
    ensures WF(LonelyTree(e1, e2, e3, Inner([], [1]), Inner([e3], [2, 3]), e2), LonelyShape(e2, e3), 6)
  {
    LonelyPages(e1, e2, e3);
    hide PageOk;
    var v, s := LonelyTree(e1, e2, e3, Inner([], [1]), Inner([e3], [2, 3]), e2), LonelyShape(e2, e3);
    assert Attached(v, s, 6, 1) && Attached(v, s, 6, 4) && Attached(v, s, 6, 5) by {
      assert v[4].inner.kids[0] == 1 && v[6].inner.kids[0] == 4 && v[6].inner.kids[1] == 5;
    }
    assert Attached(v, s, 6, 2) && Attached(v, s, 6, 3) by {
      assert v[5].inner.kids[0] == 2 && v[5].inner.kids[1] == 3;
    }
  }
}
