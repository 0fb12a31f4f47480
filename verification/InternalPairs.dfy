/** Rebalancing two sibling internal pages under their parent. */
module InternalPairs {
  import opened Common
  import opened Entries
  import opened InternalPages

  ghost predicate Pair(parent: InternalPage, left: InternalPage, right: InternalPage)
    reads parent, left, right
  {
    && parent.Valid() && left.Valid() && right.Valid()
    && parent != left && parent != right && left != right
    && parent.keys != left.keys && parent.keys != right.keys && left.keys != right.keys
    && parent.values != left.values && parent.values != right.values && left.values != right.values
    && left.maxSize == right.maxSize && left.size >= 1 && right.size >= 1
  }

  /** Both pages as one, the parent's separator between them. */
  ghost function Whole(parent: Inner, left: Inner, right: Inner, rightIdx: nat): Inner
    requires 1 <= rightIdx <= |parent.seps|
  {
    left.Join(parent.seps[rightIdx - 1], right)
  }

  /** Appends the right page's children, and with them the parent's separator. */
  method MergeInternalRightIntoLeft(parent: InternalPage, left: InternalPage, right: InternalPage, rightIdx: nat)
    requires Pair(parent, left, right) && 1 <= rightIdx < parent.size
    requires left.size + right.size <= left.maxSize
    modifies left`size, left.keys, left.values, parent`size, parent.keys, parent.values
    ensures left.Valid() && left.size == old(left.size) + right.size
    ensures left.Data() == old(Whole(parent.Data(), left.Data(), right.Data(), rightIdx))
    ensures parent.Valid() && parent.size == old(parent.size) - 1
    ensures parent.Data() == old(parent.Data()).Remove(rightIdx)
  {
    AppendAll(left, parent.keys[rightIdx], right);
    assert left.Data() == old(Whole(parent.Data(), left.Data(), right.Data(), rightIdx));
    parent.RemoveAt(rightIdx);
  }

  method AppendAll(left: InternalPage, sep: Entry, right: InternalPage)
    requires left.Valid() && right.Valid() && left.keys != right.keys && left.values != right.values && left != right
    requires left.size >= 1 && right.size >= 1 && left.size + right.size <= left.maxSize
    modifies left`size, left.keys, left.values
    ensures left.Valid() && left.size == old(left.size) + right.size
    ensures left.Data() == old(left.Data()).Join(sep, right.Data())
  {
    ghost var n, d, r := left.size, left.Data(), right.Data();
    CopyAll(left, sep, right);
    left.size := left.size + right.size;
    Appended(d.kids, r.kids, left.values[..left.size]);
    Appended(d.seps + [sep], r.seps, left.keys[1..left.size]);
  }

  lemma Appended<T>(s: seq<T>, t: seq<T>, whole: seq<T>)
    requires |whole| == |s| + |t|
    requires forall k :: 0 <= k < |s| ==> whole[k] == s[k]
    requires forall k :: 0 <= k < |t| ==> whole[|s| + k] == t[k]
    ensures whole == s + t
  {
  }

  method CopyAll(left: InternalPage, sep: Entry, right: InternalPage)
    requires left.Valid() && right.Valid() && left.keys != right.keys && left.values != right.values && left != right
    requires left.size >= 1 && right.size >= 1 && left.size + right.size <= left.maxSize
    modifies left.keys, left.values
    ensures left.values[..left.size] == old(left.values[..left.size])
    ensures left.keys[..left.size] == old(left.keys[..left.size]) && left.keys[left.size] == sep
    ensures left.values[left.size..left.size + right.size] == right.values[..right.size]
    ensures left.keys[left.size + 1..left.size + right.size] == right.keys[1..right.size]
  {
    var leftSize := left.size;
    left.keys[leftSize] := sep;
    left.values[leftSize] := right.values[0];
    for i := 1 to right.size
      invariant left.values[..leftSize] == old(left.values[..leftSize])
      invariant left.keys[..leftSize] == old(left.keys[..leftSize]) && left.keys[leftSize] == sep
      invariant left.values[leftSize..leftSize + i] == right.values[..i]
      invariant left.keys[leftSize + 1..leftSize + i] == right.keys[1..i]
    {
      left.keys[leftSize + i] := right.keys[i];
      left.values[leftSize + i] := right.values[i];
    }
  }

  /** Lends a short page one child of a sibling that can spare one; the
      separators rotate through the parent. Together the pages hold what they
      held, cut one child further to the right or to the left. */
  method TryRedistributeInternalPair(parent: InternalPage, left: InternalPage, right: InternalPage, rightIdx: nat)
      returns (done: bool)
    requires Pair(parent, left, right) && 1 <= rightIdx < parent.size
    modifies left`size, left.keys, left.values, right`size, right.keys, right.values, parent.keys
    ensures Pair(parent, left, right)
    ensures done <==> old((left.size < left.MinSize() && right.size > right.MinSize())
                       || (right.size < right.MinSize() && left.size > left.MinSize()))
    ensures !done ==>
      left.Data() == old(left.Data()) && right.Data() == old(right.Data()) && parent.Data() == old(parent.Data())
    ensures done ==>
      var whole := old(Whole(parent.Data(), left.Data(), right.Data(), rightIdx));
      var m := if old(left.size) < left.MinSize() then old(left.size) + 1 else old(left.size) - 1;
      && 1 <= m < |whole.kids| && whole.Shaped()
      && left.Data() == whole.Take(m) && right.Data() == whole.Drop(m)
      && parent.Data() == old(parent.Data()).(seps := old(parent.Data()).seps[rightIdx - 1 := whole.seps[m - 1]])
  {
    if left.size < left.MinSize() && right.size > right.MinSize() {
      BorrowFromRight(parent, left, right, rightIdx);
      done := true;
    } else if right.size < right.MinSize() && left.size > left.MinSize() {
      BorrowFromLeft(parent, left, right, rightIdx);
      done := true;
    } else {
      done := false;
    }
  }

  method BorrowFromRight(parent: InternalPage, left: InternalPage, right: InternalPage, rightIdx: nat)
    requires Pair(parent, left, right) && 1 <= rightIdx < parent.size
    requires left.size < left.maxSize && right.size > 1
    modifies left`size, left.keys, left.values, right`size, right.keys, right.values, parent.keys
    ensures Pair(parent, left, right)
    ensures var whole, m := old(Whole(parent.Data(), left.Data(), right.Data(), rightIdx)), old(left.size) + 1;
      && 1 <= m < |whole.kids| && whole.Shaped()
      && left.Data() == whole.Take(m) && right.Data() == whole.Drop(m)
      && parent.Data() == old(parent.Data()).(seps := old(parent.Data()).seps[rightIdx - 1 := whole.seps[m - 1]])
  {
    ghost var l, r, sep := left.Data(), right.Data(), parent.Data().seps[rightIdx - 1];
    var up := right.keys[1];
    assert up == r.seps[0];
    AppendChild(left, parent.keys[rightIdx], right.values[0]);
    parent.SetIndexKeyAt(rightIdx, up);
    DropFirstChild(right);
    RotateRight(l, r, sep);
  }

  lemma RotateRight(l: Inner, r: Inner, sep: Entry)
    requires l.Shaped() && r.Shaped() && |r.kids| > 1
    ensures var whole, m := l.Join(sep, r), |l.kids| + 1;
      && whole.Take(m) == Inner(l.seps + [sep], l.kids + [r.kids[0]])
      && whole.Drop(m) == Inner(r.seps[1..], r.kids[1..])
      && whole.seps[m - 1] == r.seps[0]
  {
  }

  method AppendChild(page: InternalPage, sep: Entry, kid: PageId)
    requires page.Valid() && 1 <= page.size < page.maxSize
    modifies page`size, page.keys, page.values
    ensures page.Valid() && page.size == old(page.size) + 1
    ensures page.Data() == Inner(old(page.Data()).seps + [sep], old(page.Data()).kids + [kid])
  {
    page.keys[page.size] := sep;
    page.values[page.size] := kid;
    page.size := page.size + 1;
  }

  method DropFirstChild(page: InternalPage)
    requires page.Valid() && page.size > 1
    modifies page`size, page.keys, page.values
    ensures page.Valid() && page.size == old(page.size) - 1
    ensures page.Data() == Inner(old(page.Data()).seps[1..], old(page.Data()).kids[1..])
  {
    ghost var ks, vs := page.keys[..page.size], page.values[..page.size];
    ShiftDown(page);
    page.size := page.size - 1;
    Closed(vs, page.values[..page.size], 0);
    ClosedFrom1(ks, page.keys[..page.size], 1);
  }

  method ShiftDown(page: InternalPage)
    requires page.Valid() && page.size > 1
    modifies page.keys, page.values
    ensures forall k :: 0 <= k < page.size - 1 ==> page.values[k] == old(page.values[..page.size])[k + 1]
    ensures forall k :: 1 <= k < page.size - 1 ==> page.keys[k] == old(page.keys[..page.size])[k + 1]
  {
    ghost var ks, vs := page.keys[..page.size], page.values[..page.size];
    page.values[0] := page.values[1];
    for i := 1 to page.size - 1
      invariant forall k :: 0 <= k < i ==> page.values[k] == vs[k + 1]
      invariant forall k :: 1 <= k < i ==> page.keys[k] == ks[k + 1]
      invariant forall k :: i <= k < page.size ==> page.keys[k] == ks[k] && page.values[k] == vs[k]
    {
      page.keys[i] := page.keys[i + 1];
      page.values[i] := page.values[i + 1];
    }
  }

  method BorrowFromLeft(parent: InternalPage, left: InternalPage, right: InternalPage, rightIdx: nat)
    requires Pair(parent, left, right) && 1 <= rightIdx < parent.size
    requires right.size < right.maxSize && left.size > 1
    modifies left`size, right`size, right.keys, right.values, parent.keys
    ensures Pair(parent, left, right)
    ensures var whole, m := old(Whole(parent.Data(), left.Data(), right.Data(), rightIdx)), old(left.size) - 1;
      && 1 <= m < |whole.kids| && whole.Shaped()
      && left.Data() == whole.Take(m) && right.Data() == whole.Drop(m)
      && parent.Data() == old(parent.Data()).(seps := old(parent.Data()).seps[rightIdx - 1 := whole.seps[m - 1]])
  {
    ghost var l, r, sep := left.Data(), right.Data(), parent.Data().seps[rightIdx - 1];
    var last := left.size - 1;
    var up := left.keys[last];
    assert up == l.seps[last - 1];
    PrependChild(right, left.values[last], parent.keys[rightIdx]);
    parent.SetIndexKeyAt(rightIdx, up);
    DropLastChild(left);
    RotateLeft(l, r, sep);
  }

  method DropLastChild(page: InternalPage)
    requires page.Valid() && page.size > 1
    modifies page`size
    ensures page.Valid() && page.size == old(page.size) - 1
    ensures page.Data() == old(page.Data()).Take(page.size)
  {
    ghost var before := page.Data();
    page.size := page.size - 1;
    assert page.values[..page.size] == before.kids[..page.size];
    assert page.keys[1..page.size] == before.seps[..page.size - 1];
  }

  lemma RotateLeft(l: Inner, r: Inner, sep: Entry)
    requires l.Shaped() && r.Shaped() && |l.kids| > 1
    ensures var whole, m := l.Join(sep, r), |l.kids| - 1;
      && whole.Take(m) == l.Take(m)
      && whole.Drop(m) == Inner([sep] + r.seps, [l.kids[m]] + r.kids)
      && whole.seps[m - 1] == l.seps[m - 1]
  {
  }

  method PrependChild(page: InternalPage, kid: PageId, sep: Entry)
    requires page.Valid() && 1 <= page.size < page.maxSize
    modifies page`size, page.keys, page.values
    ensures page.Valid() && page.size == old(page.size) + 1
    ensures page.Data() == Inner([sep] + old(page.Data()).seps, [kid] + old(page.Data()).kids)
  {
    ghost var ks, vs := page.keys[..page.size], page.values[..page.size];
    ShiftUp(page);
    page.values[0] := kid;
    page.keys[1] := sep;
    page.size := page.size + 1;
    Opened(vs, page.values[..page.size], 0, kid);
    OpenedFrom1(ks, page.keys[..page.size], 1, sep);
  }

  method ShiftUp(page: InternalPage)
    requires page.Valid() && 1 <= page.size < page.maxSize
    modifies page.keys, page.values
    ensures forall k :: 1 <= k <= page.size ==> page.values[k] == old(page.values[..page.size])[k - 1]
    ensures forall k :: 2 <= k <= page.size ==> page.keys[k] == old(page.keys[..page.size])[k - 1]
  {
    ghost var ks, vs := page.keys[..page.size], page.values[..page.size];
    for i := page.size downto 0
      invariant forall k :: 0 <= k <= i && k < page.size ==> page.values[k] == vs[k] && page.keys[k] == ks[k]
      invariant forall k :: i < k <= page.size ==> page.values[k] == vs[k - 1]
      invariant forall k :: i < k <= page.size && k > 1 ==> page.keys[k] == ks[k - 1]
    {
      page.values[i + 1] := page.values[i];
      if i + 1 > 1 {
        page.keys[i + 1] := page.keys[i];
      }
    }
  }
}
