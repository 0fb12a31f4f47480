/** What the tree steps do to the set of stored entries and to page sizes. */
module TreeContents {
  import opened Common
  import opened Entries
  import opened LeafPages
  import opened InternalPages
  import opened TreeShape
  import opened TreeSteps

  // ---- stored entries ----------------------------------------------------------

  lemma ContentsMember(v: Store, id: PageId, e: Entry)
    requires id in v && v[id].LeafNode? && e in v[id].leaf.entries
    ensures e in Contents(v)
  {
  }

  lemma CutContents(v: Store, s: Shape, root: PageId, c: Cutting)
    requires CanCut(v, s, root, c)
    ensures Contents(CutStore(v, c)) == Contents(v)
  {
    var w := CutStore(v, c);
    CutLevels(v, s, root, c);
    forall e | e in Contents(v)
      ensures e in Contents(w)
    {
      var id :| id in v && v[id].LeafNode? && e in v[id].leaf.entries;
      if id == c.o {
        assert e in c.left.leaf.entries || e in c.right.leaf.entries;
        ContentsMember(w, if e in c.left.leaf.entries then c.o else c.q, e);
      } else {
        ContentsMember(w, id, e);
      }
    }
    forall e | e in Contents(w)
      ensures e in Contents(v)
    {
      var id :| id in w && w[id].LeafNode? && e in w[id].leaf.entries;
      ContentsMember(v, if id == c.q then c.o else id, e);
    }
  }

  lemma JoinContents(v: Store, s: Shape, root: PageId, j: Joining)
    requires CanJoin(v, s, root, j)
    ensures Contents(JoinStore(v, j)) == Contents(v)
  {
    var w := JoinStore(v, j);
    JoinKeys(v, s, root, j);
    forall e | e in Contents(v)
      ensures e in Contents(w)
    {
      var id :| id in v && v[id].LeafNode? && e in v[id].leaf.entries;
      ContentsMember(w, if id == j.r then j.l else id, e);
    }
    forall e | e in Contents(w)
      ensures e in Contents(v)
    {
      var id :| id in w && w[id].LeafNode? && e in w[id].leaf.entries;
      if id == j.l {
        assert e in v[j.l].leaf.entries || e in v[j.r].leaf.entries;
        ContentsMember(v, if e in v[j.l].leaf.entries then j.l else j.r, e);
      } else {
        ContentsMember(v, id, e);
      }
    }
  }

  /** Putting an entry into the leaf responsible for it adds exactly that entry. */
  lemma InsertContents(v: Store, s: Shape, root: PageId, id: PageId, pos: nat, e: Entry)
    requires WF(v, s, root) && id in v && v[id].LeafNode? && Holds(s[id], e)
    requires IsLowerBound(v[id].leaf.entries, e, pos) && e !in v[id].leaf.entries
    ensures var es := v[id].leaf.entries[..pos] + [e] + v[id].leaf.entries[pos..];
      var w := v[id := LeafNode(Leaf(es, [], v[id].leaf.next))];
      WF(w, s, root) && Contents(w) == Contents(v) + {e}
  {
    var es := v[id].leaf.entries[..pos] + [e] + v[id].leaf.entries[pos..];
    var w := v[id := LeafNode(Leaf(es, [], v[id].leaf.next))];
    assert PageOk(s, id, v[id]);
    SortedInsert(v[id].leaf.entries, e, pos);
    ReplaceLeaf(v, s, root, id, es);
    forall x | x in Contents(w)
      ensures x in Contents(v) + {e}
    {
      var b :| b in w && w[b].LeafNode? && x in w[b].leaf.entries;
      if x != e { ContentsMember(v, b, x); }
    }
    forall x | x in Contents(v) + {e}
      ensures x in Contents(w)
    {
      if x == e {
        assert es[pos] == e;
        ContentsMember(w, id, e);
      } else {
        var b :| b in v && v[b].LeafNode? && x in v[b].leaf.entries;
        ContentsMember(w, b, x);
      }
    }
  }

  /** Taking an entry out of the leaf responsible for it removes exactly that entry. */
  lemma RemoveContents(v: Store, s: Shape, root: PageId, id: PageId, pos: nat, e: Entry)
    requires WF(v, s, root) && id in v && v[id].LeafNode? && Holds(s[id], e)
    requires pos < |v[id].leaf.entries| && v[id].leaf.entries[pos] == e
    ensures var es := v[id].leaf.entries[..pos] + v[id].leaf.entries[pos + 1..];
      var w := v[id := LeafNode(Leaf(es, [], v[id].leaf.next))];
      WF(w, s, root) && Contents(w) == Contents(v) - {e}
  {
    var old_ := v[id].leaf.entries;
    var es := old_[..pos] + old_[pos + 1..];
    var w := v[id := LeafNode(Leaf(es, [], v[id].leaf.next))];
    assert PageOk(s, id, v[id]);
    SortedRemove(old_, pos);
    ReplaceLeaf(v, s, root, id, es);
    ContentsAt(w, s, root, id, e);
    forall x | x in Contents(w)
      ensures x in Contents(v) - {e}
    {
      var b :| b in w && w[b].LeafNode? && x in w[b].leaf.entries;
      ContentsMember(v, b, x);
    }
    forall x | x in Contents(v) - {e}
      ensures x in Contents(w)
    {
      var b :| b in v && v[b].LeafNode? && x in v[b].leaf.entries;
      ContentsMember(w, b, x);
    }
  }

  // ---- page sizes -----------------------------------------------------------------

  /** Capacities: a leaf holds up to `leaf` entries, an internal page up to
      `inner` children. */
  datatype Caps = Caps(leaf: nat, inner: nat) {
    function MinLeaf(): nat { leaf / 2 }
    function MinInner(): nat { (inner + 1) / 2 }
  }

  ghost predicate SizeOk(caps: Caps, page: Page, isRoot: bool) {
    match page
    case LeafNode(l) => (if isRoot then 1 else caps.MinLeaf()) <= |l.entries| <= caps.leaf
    case InnerNode(n) => (if isRoot then 2 else caps.MinInner()) <= |n.kids| <= caps.inner
  }

  /** Every page but `except` has a legal size. */
  ghost predicate Sized(caps: Caps, v: Store, root: PageId, except: PageId) {
    forall id {:trigger v[id]} :: id in v && id != except ==> SizeOk(caps, v[id], id == root)
  }

  // ---- going down -------------------------------------------------------------------

  /** Following the separators reaches the child that holds the entry. */
  lemma DescendStep(v: Store, s: Shape, root: PageId, id: PageId, k: nat, e: Entry)
    requires WF(v, s, root) && id in v && v[id].InnerNode? && Holds(s[id], e)
    requires k < |v[id].inner.kids| && v[id].inner.Shaped()
    requires k > 0 ==> !Lt(e, v[id].inner.seps[k - 1])
    requires k + 1 < |v[id].inner.kids| ==> Lt(e, v[id].inner.seps[k])
    ensures var kid := v[id].inner.kids[k];
      && kid in v && Holds(s[kid], e) && kid != root
      && s[kid].parent == id && s[kid].level + 1 == s[id].level
  {
    var kid := v[id].inner.kids[k];
    assert PageOk(s, id, v[id]) && Attached(v, s, root, id);
    assert s[kid] == KidInfo(s[id], id, v[id].inner, k);
  }

  /** A page path: each page is the parent of the one after it. */
  ghost predicate Path(v: Store, s: Shape, root: PageId, ws: seq<PageId>) {
    && ws != [] && ws[|ws| - 1] in s && ws[|ws| - 1] in v
    && (forall i :: 0 <= i < |ws| ==> PathPage(v, s, ws, i))
    && (forall i :: 0 <= i < |ws| - 1 ==> PathLink(v, s, root, ws, i))
  }

  ghost predicate PathPage(v: Store, s: Shape, ws: seq<PageId>, i: nat)
    requires i < |ws| && ws[|ws| - 1] in s
  {
    ws[i] in v && ws[i] in s && s[ws[i]].level == s[ws[|ws| - 1]].level + |ws| - 1 - i
  }

  ghost predicate PathLink(v: Store, s: Shape, root: PageId, ws: seq<PageId>, i: nat)
    requires i < |ws| - 1
  {
    && ws[i] in v && v[ws[i]].InnerNode?
    && ws[i + 1] in s && s[ws[i + 1]].parent == ws[i] && ws[i + 1] != root
  }

  lemma PathInit(v: Store, s: Shape, root: PageId, ws: seq<PageId>)
    requires Path(v, s, root, ws) && |ws| > 1
    ensures Path(v, s, root, ws[..|ws| - 1])
  {
    var us := ws[..|ws| - 1];
    var n := |ws|;
    assert PathPage(v, s, ws, n - 2);
    forall i | 0 <= i < |us|
      ensures PathPage(v, s, us, i)
    {
      assert PathPage(v, s, ws, i);
    }
    forall i | 0 <= i < |us| - 1
      ensures PathLink(v, s, root, us, i)
    {
      assert PathLink(v, s, root, ws, i);
    }
  }

  lemma PathPush(v: Store, s: Shape, root: PageId, ws: seq<PageId>, kid: PageId)
    requires Path(v, s, root, ws) && v[ws[|ws| - 1]].InnerNode?
    requires kid in v && kid in s && kid != root
    requires s[kid].parent == ws[|ws| - 1] && s[kid].level + 1 == s[ws[|ws| - 1]].level
    ensures Path(v, s, root, ws + [kid])
  {
    var us := ws + [kid];
    var n := |ws|;
    forall i | 0 <= i < |us|
      ensures PathPage(v, s, us, i)
    {
      if i < n { assert PathPage(v, s, ws, i); }
    }
    forall i | 0 <= i < |us| - 1
      ensures PathLink(v, s, root, us, i)
    {
      if i < n - 1 { assert PathLink(v, s, root, ws, i); }
    }
  }

  /** A child is found among its parent's children. */
  lemma FindKid(v: Store, s: Shape, root: PageId, id: PageId) returns (at: nat)
    requires WF(v, s, root) && id in s && id != root
    ensures KidAt(v, s[id].parent, at, id) && s[id].parent in s
  {
    assert Attached(v, s, root, id);
    var p := s[id].parent;
    assert PageOk(s, p, v[p]);
    var k :| 0 <= k < |v[p].inner.kids| && v[p].inner.kids[k] == id;
    at := k + 1;
  }

  /** The separators of a page lie strictly inside its interval. */
  lemma SepWithin(v: Store, s: Shape, root: PageId, id: PageId, k: nat)
    requires WF(v, s, root) && id in v && v[id].InnerNode? && k < |v[id].inner.seps|
    ensures Before(s[id].lo, Fin(v[id].inner.seps[k])) && Before(Fin(v[id].inner.seps[k]), s[id].hi)
  {
    var n := v[id].inner;
    assert PageOk(s, id, v[id]);
    var last := |n.kids| - 1;
    assert s[n.kids[k + 1]] == KidInfo(s[id], id, n, k + 1);
    assert s[n.kids[0]] == KidInfo(s[id], id, n, 0) && s[n.kids[last]] == KidInfo(s[id], id, n, last);
    KidsOrdered(v, s, root, id, 0, k + 1);
    if k + 1 < last {
      KidsOrdered(v, s, root, id, k + 1, last);
    }
    assert PageOk(s, n.kids[0], v[n.kids[0]]) && PageOk(s, n.kids[last], v[n.kids[last]])
      && PageOk(s, n.kids[k + 1], v[n.kids[k + 1]]);
  }
}
