/** The LRU-K replacement policy: evict the frame whose k-th last access lies
    furthest back. */
module LruKReplacers {
  import opened Common
  /** Timestamps of the last k accesses, oldest first. */
  datatype Node = Node(history: seq<nat>, evictable: bool)

  /** How far back the k-th last access lies; infinitely far with fewer than k. */
  datatype Distance = Infinite | Finite(d: int)

  function BackwardDistance(accesses: seq<nat>, k: nat, now: nat): Distance
    requires k > 0
  {
    if |accesses| < k then Infinite else Finite(now - accesses[|accesses| - k])
  }

  /** A frame with accesses `a` is to be evicted before one with accesses `b`:
      larger distance first; among infinite ones, the older last access. */
  ghost predicate EvictBefore(a: seq<nat>, b: seq<nat>, k: nat, now: nat)
    requires k > 0
  {
    match (BackwardDistance(a, k, now), BackwardDistance(b, k, now))
    case (Infinite, Infinite) => a != [] && b != [] && a[|a| - 1] < b[|b| - 1]
    case (Infinite, Finite(_)) => true
    case (Finite(x), Finite(y)) => x > y
    case _ => false
  }

  function LastK(accesses: seq<nat>, k: nat): seq<nat> {
    if |accesses| <= k then accesses else accesses[|accesses| - k..]
  }

  function Evictable(nodes: map<nat, Node>): set<nat> {
    set f | f in nodes && nodes[f].evictable
  }

  ghost predicate Disjoint(a: seq<nat>, b: seq<nat>) {
    forall i, j :: 0 <= i < |a| && 0 <= j < |b| ==> a[i] != b[j]
  }

  ghost predicate Ascending(a: seq<nat>, now: nat) {
    && (forall i, j :: 0 <= i < j < |a| ==> a[i] < a[j])
    && (forall i :: 0 <= i < |a| ==> a[i] <= now)
  }

  ghost predicate NodeOk(node: Node, accesses: seq<nat>, k: nat, now: nat) {
    accesses != [] && Ascending(accesses, now) && node.history == LastK(accesses, k)
  }

  /** Every node keeps exactly the last k accesses of its frame. */
  ghost predicate Consistent(nodes: map<nat, Node>, accesses: map<nat, seq<nat>>, k: nat, now: nat) {
    && k > 0 && nodes.Keys == accesses.Keys
    && (forall f {:trigger NodeOk(nodes[f], accesses[f], k, now)} :: f in nodes ==> NodeOk(nodes[f], accesses[f], k, now))
    && (forall f, g {:trigger Disjoint(accesses[f], accesses[g])} ::
          f in accesses && g in accesses && f != g ==> Disjoint(accesses[f], accesses[g]))
  }

  /** A frame's history after an access at time `now`. */
  function Recorded(history: seq<nat>, k: nat, now: nat): seq<nat>
    requires k > 0
  {
    (if |history| + 1 > k then history[1..] else history) + [now]
  }

  lemma HistoryRecorded(all: seq<nat>, k: nat, now: nat)
    requires k > 0 && Ascending(all, now)
    ensures Recorded(LastK(all, k), k, now + 1) == LastK(all + [now + 1], k)
    ensures Ascending(all + [now + 1], now + 1)
  {
    if |all| > k {
      assert LastK(all, k)[1..] == all[|all| - k + 1..];
    }
  }

  lemma RecordKeeps(nodes: map<nat, Node>, accesses: map<nat, seq<nat>>, k: nat, now: nat, frame: nat, node: Node)
    requires Consistent(nodes, accesses, k, now)
    requires var all := if frame in accesses then accesses[frame] else [];
      node.history == Recorded(LastK(all, k), k, now + 1)
    ensures var all := if frame in accesses then accesses[frame] else [];
      Consistent(nodes[frame := node], accesses[frame := all + [now + 1]], k, now + 1)
  {
    var all := if frame in accesses then accesses[frame] else [];
    assert frame in accesses ==> NodeOk(nodes[frame], accesses[frame], k, now);
    HistoryRecorded(all, k, now);
    var nodes', accesses' := nodes[frame := node], accesses[frame := all + [now + 1]];
    forall f | f in nodes'
      ensures NodeOk(nodes'[f], accesses'[f], k, now + 1)
    {
      if f != frame {
        assert NodeOk(nodes[f], accesses[f], k, now);
      }
    }
    forall f, g | f in accesses' && g in accesses' && f != g
      ensures Disjoint(accesses'[f], accesses'[g])
    {
      RecordDisjoint(nodes, accesses, k, now, frame, f, g);
    }
  }

  lemma RecordDisjoint(nodes: map<nat, Node>, accesses: map<nat, seq<nat>>, k: nat, now: nat, frame: nat, f: nat, g: nat)
    requires Consistent(nodes, accesses, k, now) && f != g
    requires f == frame || f in accesses
    requires g == frame || g in accesses
    ensures var all := if frame in accesses then accesses[frame] else [];
      var accesses' := accesses[frame := all + [now + 1]];
      Disjoint(accesses'[f], accesses'[g])
  {
    if f in accesses && g in accesses {
      assert Disjoint(accesses[f], accesses[g]);
    }
    assert f in nodes ==> NodeOk(nodes[f], accesses[f], k, now);
    assert g in nodes ==> NodeOk(nodes[g], accesses[g], k, now);
  }

  lemma HistoryIsLast(nodes: map<nat, Node>, accesses: map<nat, seq<nat>>, k: nat, now: nat, frame: nat)
    requires Consistent(nodes, accesses, k, now)
    ensures k > 0 && nodes.Keys == accesses.Keys
    ensures (if frame in nodes then nodes[frame].history else []) == LastK(if frame in accesses then accesses[frame] else [], k)
  {
    assert frame in nodes ==> NodeOk(nodes[frame], accesses[frame], k, now);
  }

  lemma RecordedIs(history: seq<nat>, k: nat, now: nat)
    requires k > 0
    ensures Recorded(history, k, now) == (if |history| + 1 > k then history[1..] else history) + [now]
  {
  }

  lemma EvictableUpdate(nodes: map<nat, Node>, frame: nat, node: Node)
    ensures Evictable(nodes[frame := node]) ==
      if node.evictable then Evictable(nodes) + {frame} else Evictable(nodes) - {frame}
    ensures |Evictable(nodes[frame := node])| == |Evictable(nodes)|
      + (if node.evictable && frame !in Evictable(nodes) then 1 else 0)
      - (if !node.evictable && frame in Evictable(nodes) then 1 else 0)
  {
    var e := Evictable(nodes);
    assert Evictable(nodes[frame := node]) == if node.evictable then e + {frame} else e - {frame};
  }

  lemma SameEvictable(nodes: map<nat, Node>, frame: nat, node: Node)
    requires node.evictable <==> frame in nodes && nodes[frame].evictable
    ensures |Evictable(nodes[frame := node])| == |Evictable(nodes)|
  {
    EvictableUpdate(nodes, frame, node);
  }

  lemma EvictableRemove(nodes: map<nat, Node>, frame: nat)
    requires frame in Evictable(nodes)
    ensures Evictable(nodes - {frame}) == Evictable(nodes) - {frame}
    ensures |Evictable(nodes - {frame})| == |Evictable(nodes)| - 1
  {
    assert Evictable(nodes - {frame}) == Evictable(nodes) - {frame};
  }

  /** The order in which `evict` compares nodes. */
  predicate KeyLess(a: Node, b: Node, k: nat)
    requires a.history != [] && b.history != []
  {
    var fa, fb := |a.history| >= k, |b.history| >= k;
    if fa != fb then fb
    else if fa then a.history[0] < b.history[0]
    else a.history[|a.history| - 1] < b.history[|b.history| - 1]
  }

  /** Comparing nodes is comparing backward distances, and never ties. */
  lemma KeyLessIsDistance(nodes: map<nat, Node>, accesses: map<nat, seq<nat>>, k: nat, now: nat, f: nat, g: nat)
    requires Consistent(nodes, accesses, k, now) && f in nodes && g in nodes && f != g
    ensures nodes[f].history != [] && nodes[g].history != []
    ensures KeyLess(nodes[f], nodes[g], k) <==> EvictBefore(accesses[f], accesses[g], k, now)
    ensures EvictBefore(accesses[f], accesses[g], k, now) || EvictBefore(accesses[g], accesses[f], k, now)
  {
    var a, b := accesses[f], accesses[g];
    assert NodeOk(nodes[f], a, k, now) && NodeOk(nodes[g], b, k, now);
    assert Disjoint(a, b);
    assert |a| >= k ==> nodes[f].history[0] == a[|a| - k];
    assert |b| >= k ==> nodes[g].history[0] == b[|b| - k];
    if |a| < k && |b| < k {
      assert a[|a| - 1] != b[|b| - 1];
    } else if |a| >= k && |b| >= k {
      assert a[|a| - k] != b[|b| - k];
    }
  }

  lemma EvictBeforeTransitive(a: seq<nat>, b: seq<nat>, c: seq<nat>, k: nat, now: nat)
    requires k > 0 && EvictBefore(a, b, k, now) && EvictBefore(b, c, k, now)
    ensures EvictBefore(a, c, k, now) && !EvictBefore(b, a, k, now)
  {
  }

  /** Every other evictable frame should outlive `f`. */
  ghost predicate IsVictim(nodes: map<nat, Node>, accesses: map<nat, seq<nat>>, k: nat, now: nat, f: nat)
    requires Consistent(nodes, accesses, k, now)
  {
    && f in Evictable(nodes)
    && forall g :: g in Evictable(nodes) && g != f ==> EvictBefore(accesses[f], accesses[g], k, now)
  }

  /** So the choice does not depend on the order in which nodes are visited. */
  lemma VictimUnique(nodes: map<nat, Node>, accesses: map<nat, seq<nat>>, k: nat, now: nat, f: nat, g: nat)
    requires Consistent(nodes, accesses, k, now)
    requires IsVictim(nodes, accesses, k, now, f) && IsVictim(nodes, accesses, k, now, g)
    ensures f == g
  {
    if f != g {
      EvictBeforeTransitive(accesses[f], accesses[g], accesses[f], k, now);
    }
  }

  method ChooseVictim(nodes: map<nat, Node>, k: nat, ghost accesses: map<nat, seq<nat>>, ghost now: nat)
      returns (victim: Option<nat>)
    requires Consistent(nodes, accesses, k, now)
    ensures victim.None? <==> Evictable(nodes) == {}
    ensures victim.Some? ==> IsVictim(nodes, accesses, k, now, victim.value)
  {
    victim := None;
    var remaining := nodes.Keys;
    while remaining != {}
      invariant remaining <= nodes.Keys
      invariant victim.None? ==> Evictable(nodes) <= remaining
      invariant victim.Some? ==> victim.value in Evictable(nodes) && victim.value !in remaining
      invariant victim.Some? ==> forall g :: g in Evictable(nodes) && g !in remaining && g != victim.value ==>
        EvictBefore(accesses[victim.value], accesses[g], k, now)
      decreases remaining
    {
      var f :| f in remaining;
      if nodes[f].evictable {
        if victim.None? {
          victim := Some(f);
        } else {
          var best := victim.value;
          KeyLessIsDistance(nodes, accesses, k, now, f, best);
          if KeyLess(nodes[f], nodes[best], k) {
            forall g | g in Evictable(nodes) && g !in remaining && g != best
              ensures EvictBefore(accesses[f], accesses[g], k, now)
            {
              EvictBeforeTransitive(accesses[f], accesses[best], accesses[g], k, now);
            }
            victim := Some(f);
          }
        }
      }
      remaining := remaining - {f};
    }
  }

  class LruKReplacer {
    const replacerSize: nat
    const k: nat
    var nodes: map<nat, Node>
    var currentTimestamp: nat
    var currSize: nat
    /** All access times of a frame since it entered. */
    ghost var accesses: map<nat, seq<nat>>

    ghost predicate Valid()
      reads this
    {
      && Consistent(nodes, accesses, k, currentTimestamp)
      && (forall f :: f in nodes ==> f < replacerSize)
      && currSize == |Evictable(nodes)|
    }

    constructor (numFrames: nat, k: nat)
      requires k > 0
      ensures Valid() && nodes == map[] && accesses == map[] && currentTimestamp == currSize == 0 && replacerSize == numFrames && this.k == k
    {
      this.replacerSize, this.k := numFrames, k;
      nodes, currentTimestamp, currSize, accesses := map[], 0, 0, map[];
    }

    method RecordAccess(frame: nat)
      requires Valid() && frame < replacerSize
      modifies this
      ensures Valid() && currentTimestamp == old(currentTimestamp) + 1
      ensures nodes == old(nodes)[frame := Node(Recorded(old(HistoryOf(frame)), k, currentTimestamp), old(IsEvictable(frame)))]
      ensures accesses == old(accesses)[frame := old(AccessesOf(frame)) + [currentTimestamp]]
    {
      hide Consistent, NodeOk, LastK, Recorded, Evictable;
      HistoryIsLast(nodes, accesses, k, currentTimestamp, frame);
      currentTimestamp := currentTimestamp + 1;
      var node := if frame in nodes then nodes[frame] else Node([], false);
      var history := node.history;
      if |history| + 1 > k {
        history := history[1..];
      }
      history := history + [currentTimestamp];
      RecordedIs(node.history, k, currentTimestamp);
      RecordKeeps(nodes, accesses, k, currentTimestamp - 1, frame, Node(history, node.evictable));
      SameEvictable(nodes, frame, Node(history, node.evictable));
      nodes := nodes[frame := Node(history, node.evictable)];
      accesses := accesses[frame := (if frame in accesses then accesses[frame] else []) + [currentTimestamp]];
    }

    function HistoryOf(frame: nat): seq<nat>
      reads this
    {
      if frame in nodes then nodes[frame].history else []
    }

    predicate IsEvictable(frame: nat)
      reads this
    {
      frame in nodes && nodes[frame].evictable
    }

    ghost function AccessesOf(frame: nat): seq<nat>
      reads this
    {
      if frame in accesses then accesses[frame] else []
    }

    method SetEvictable(frame: nat, evictable: bool)
      requires Valid() && frame in nodes
      modifies this`nodes, this`currSize
      ensures Valid() && nodes == old(nodes)[frame := Node(old(nodes)[frame].history, evictable)]
    {
      var node := nodes[frame];
      EvictableUpdate(nodes, frame, Node(node.history, evictable));
      ghost var nodes0 := nodes;
      nodes := nodes[frame := Node(node.history, evictable)];
      forall f | f in nodes
        ensures NodeOk(nodes[f], accesses[f], k, currentTimestamp)
      {
        assert NodeOk(nodes0[f], accesses[f], k, currentTimestamp);
      }
      if node.evictable != evictable {
        if evictable {
          currSize := currSize + 1;
        } else {
          currSize := currSize - 1;
        }
      }
    }

    /** Evicts the one evictable frame that every other evictable frame should
        outlive. */
    method Evict() returns (victim: Option<nat>)
      requires Valid()
      modifies this`nodes, this`currSize, this`accesses
      ensures Valid()
      ensures victim.None? <==> old(Evictable(nodes)) == {}
      ensures victim.None? ==> nodes == old(nodes) && accesses == old(accesses)
      ensures victim.Some? ==>
        && IsVictim(old(nodes), old(accesses), k, currentTimestamp, victim.value)
        && nodes == old(nodes) - {victim.value} && accesses == old(accesses) - {victim.value}
    {
      victim := ChooseVictim(nodes, k, accesses, currentTimestamp);
      if victim.Some? {
        EvictableRemove(nodes, victim.value);
        nodes := nodes - {victim.value};
        accesses := accesses - {victim.value};
        currSize := currSize - 1;
      }
    }

    method Remove(frame: nat)
      requires Valid() && frame in nodes && nodes[frame].evictable
      modifies this`nodes, this`currSize, this`accesses
      ensures Valid() && nodes == old(nodes) - {frame} && accesses == old(accesses) - {frame}
    {
      EvictableRemove(nodes, frame);
      nodes := nodes - {frame};
      accesses := accesses - {frame};
      currSize := currSize - 1;
    }

    /** The number of evictable frames. */
    function Size(): (n: nat)
      requires Valid()
      reads this
      ensures n == |Evictable(nodes)|
    {
      currSize
    }
  }
}
