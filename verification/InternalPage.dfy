/** Internal pages of the B+ tree index: child pointers separated by entries.
    Key slot 0 is unused, so a page with n children has n - 1 separators. */
module InternalPages {
  import opened Common
  import opened Entries

  /** What an internal page holds: separator `i` lies between children `i` and
      `i + 1`. */
  datatype Inner = Inner(seps: seq<Entry>, kids: seq<PageId>) {

    ghost predicate Shaped() {
      |kids| == |seps| + 1
    }

    /** Child `kid` inserted at slot `at`, with `sep` as the separator before it. */
    function Insert(at: nat, sep: Entry, kid: PageId): Inner
      requires 1 <= at <= |kids| && |kids| == |seps| + 1
    {
      Inner(seps[..at - 1] + [sep] + seps[at - 1..], kids[..at] + [kid] + kids[at..])
    }

    /** Slot `at` removed, with the separator before it. */
    function Remove(at: nat): Inner
      requires 1 <= at < |kids| && |kids| == |seps| + 1
    {
      Inner(seps[..at - 1] + seps[at..], kids[..at] + kids[at + 1..])
    }

    /** The first `m` children, and the separators between them. */
    function Take(m: nat): Inner
      requires 1 <= m <= |kids| && |kids| == |seps| + 1
    {
      Inner(seps[..m - 1], kids[..m])
    }

    /** The children from slot `m` on, and the separators between them. */
    function Drop(m: nat): Inner
      requires 1 <= m < |kids| && |kids| == |seps| + 1
    {
      Inner(seps[m..], kids[m..])
    }

    /** The children of both pages, `sep` between them. */
    function Join(sep: Entry, right: Inner): Inner {
      Inner(seps + [sep] + right.seps, kids + right.kids)
    }
  }

  const ZERO_KEY := Entry(0, Rid(0, 0))

  /** A latched internal page: `size` of `maxSize` slots are used. */
  class InternalPage {
    const maxSize: nat
    var keys: array<Entry>
    var values: array<PageId>
    var size: nat

    ghost predicate Valid()
      reads this
    {
      keys.Length == maxSize && values.Length == maxSize && size <= maxSize
    }

    /** The page's content as a value. */
    function Data(): Inner
      reads this, keys, values
      requires Valid() && size >= 1
    {
      Inner(keys[1..size], values[..size])
    }

    constructor Init(maxSize: nat)
      ensures Valid() && fresh(keys) && fresh(values)
      ensures this.maxSize == maxSize && size == 0
    {
      this.maxSize := maxSize;
      keys := new Entry[maxSize](_ => ZERO_KEY);
      values := new PageId[maxSize](_ => INVALID_PAGE_ID);
      size := 0;
    }

    /** Latches the page whose bytes are `d`. */
    constructor FromData(maxSize: nat, d: Inner)
      requires d.Shaped() && |d.kids| <= maxSize
      ensures Valid() && fresh(keys) && fresh(values)
      ensures this.maxSize == maxSize && size == |d.kids| && Data() == d
    {
      this.maxSize := maxSize;
      keys := new Entry[maxSize](i requires 0 <= i => if 1 <= i < |d.kids| then d.seps[i - 1] else ZERO_KEY);
      values := new PageId[maxSize](i requires 0 <= i => if i < |d.kids| then d.kids[i] else INVALID_PAGE_ID);
      size := |d.kids|;
      new;
      assert keys[1..size] == d.seps;
      assert values[..size] == d.kids;
    }

    function MinSize(): nat
      reads this
    {
      (maxSize + 1) / 2
    }

    method SetIndexKeyAt(idx: nat, key: Entry)
      requires Valid() && 1 <= idx < size
      modifies keys
      ensures Valid() && Data() == old(Data()).(seps := old(Data()).seps[idx - 1 := key])
    {
      keys[idx] := key;
    }

    /** First slot holding `value`. */
    method ValueIdx(value: PageId) returns (found: bool, idx: nat)
      requires Valid()
      ensures found <==> value in values[..size]
      ensures found ==> idx < size && values[idx] == value && value !in values[..idx]
    {
      idx := 0;
      while idx < size
        invariant idx <= size && value !in values[..idx]
      {
        if values[idx] == value {
          return true, idx;
        }
        idx := idx + 1;
      }
      found := false;
    }

    /** The child whose interval holds the full index key `e`. */
    method FindChildIdxForInsert(e: Entry) returns (idx: nat)
      requires Valid() && size > 0
      ensures idx < size
      ensures idx > 0 ==> !Lt(e, Data().seps[idx - 1])
      ensures idx + 1 < size ==> Lt(e, Data().seps[idx])
    {
      var left, right := 0, size;
      while right - left > 1
        invariant left < right <= size
        invariant left > 0 ==> !Lt(e, keys[left])
        invariant right < size ==> Lt(e, keys[right])
      {
        var mid := left + (right - left) / 2;
        if !CompareEntry(keys[mid], e).Greater? {
          left := mid;
        } else {
          right := mid;
        }
      }
      idx := left;
    }

    /** The first child that could hold an entry with key `key`. */
    method FindChildIdx(key: int) returns (idx: nat)
      requires Valid() && size > 0
      ensures idx < size
      ensures idx > 0 ==> Data().seps[idx - 1].key < key
      ensures idx + 1 < size ==> Data().seps[idx].key >= key
    {
      var left, right := 0, size;
      while right - left > 1
        invariant left < right <= size
        invariant left > 0 ==> keys[left].key < key
        invariant right < size ==> keys[right].key >= key
      {
        var mid := left + (right - left) / 2;
        if CompareInt(keys[mid].key, key).Less? {
          left := mid;
        } else {
          right := mid;
        }
      }
      idx := right - 1;
    }

    /** Inserts the child `val` right after the child `after`. */
    method InsertAfter(after: PageId, key: Entry, val: PageId) returns (ghost at: nat)
      requires Valid() && 1 <= size < maxSize && after in values[..size]
      modifies this`size, keys, values
      ensures Valid() && size == old(size) + 1
      ensures 1 <= at <= old(size) && old(values[at - 1]) == after
      ensures Data() == old(Data()).Insert(at, key, val)
    {
      var found, afterIdx := ValueIdx(after);
      at := afterIdx + 1;
      InsertSlot(afterIdx + 1, key, val);
    }

    /** Shifts the slots from `at` on by one and fills slot `at`. */
    method InsertSlot(at: nat, key: Entry, val: PageId)
      requires Valid() && 1 <= at <= size < maxSize
      modifies this`size, keys, values
      ensures Valid() && size == old(size) + 1
      ensures Data() == old(Data()).Insert(at, key, val)
    {
      ghost var ks, vs := keys[..size], values[..size];
      for i := size downto at
        modifies keys, values
        invariant forall k :: 0 <= k < i ==> keys[k] == ks[k] && values[k] == vs[k]
        invariant forall k :: i < k <= size ==> keys[k] == ks[k - 1] && values[k] == vs[k - 1]
      {
        keys[i + 1] := keys[i];
        values[i + 1] := values[i];
      }
      keys[at] := key;
      values[at] := val;
      size := size + 1;
      Opened(vs, values[..size], at, val);
      OpenedFrom1(ks, keys[..size], at, key);
    }

    method RemoveAt(at: nat)
      requires Valid() && 1 <= at < size
      modifies this`size, keys, values
      ensures Valid() && size == old(size) - 1
      ensures Data() == old(Data()).Remove(at)
    {
      ghost var ks, vs := keys[..size], values[..size];
      for i := at to size - 1
        modifies keys, values
        invariant forall k :: 0 <= k < at || i <= k < size ==> keys[k] == ks[k] && values[k] == vs[k]
        invariant forall k :: at <= k < i ==> keys[k] == ks[k + 1] && values[k] == vs[k + 1]
      {
        keys[i] := keys[i + 1];
        values[i] := values[i + 1];
      }
      size := size - 1;
      Closed(vs, values[..size], at);
      ClosedFrom1(ks, keys[..size], at);
    }

    /** Fills the fresh page `recipient` with `first` in slot 0 and then the
        slots from `from` on of this page. */
    method CopyTail(recipient: InternalPage, first: PageId, from: nat)
      requires Valid() && recipient.Valid() && 1 <= from <= size
      requires keys != recipient.keys && values != recipient.values && this != recipient
      requires size - from + 1 <= recipient.maxSize
      modifies recipient`size, recipient.keys, recipient.values
      ensures recipient.Valid() && recipient.size == size - from + 1
      ensures recipient.Data() == Inner(keys[from..size], [first] + values[from..size])
    {
      recipient.values[0] := first;
      var n := 1;
      for i := from to size
        modifies recipient.keys, recipient.values
        invariant n == i - from + 1
        invariant recipient.values[0] == first
        invariant forall k :: 1 <= k < n ==>
          recipient.keys[k] == keys[from + k - 1] && recipient.values[k] == values[from + k - 1]
      {
        recipient.keys[n] := keys[i];
        recipient.values[n] := values[i];
        n := n + 1;
      }
      recipient.size := n;
      assert recipient.keys[1..n] == keys[from..size];
      assert recipient.values[..n] == [first] + values[from..size];
    }

    /** Splits a full page around the insertion of `val` after `after`, and
        returns the separator that moves up. Whichever of the three cases
        applies, the result is: insert, cut at (max + 1) / 2, promote the
        separator at the cut. */
    method SplitInsertAfter(recipient: InternalPage, after: PageId, key: Entry, val: PageId)
        returns (promoted: Entry, ghost at: nat)
      requires Valid() && recipient.Valid() && this != recipient
      requires keys != recipient.keys && values != recipient.values
      requires size == maxSize == recipient.maxSize >= 2 && recipient.size == 0
      requires after in values[..size]
      modifies this`size, keys, values, recipient`size, recipient.keys, recipient.values
      ensures Valid() && recipient.Valid()
      ensures 1 <= at <= old(size) && old(values[at - 1]) == after
      ensures var whole, m := old(Data()).Insert(at, key, val), (maxSize + 1) / 2;
        && size == m && recipient.size == maxSize + 1 - m
        && Data() == whole.Take(m)
        && recipient.Data() == whole.Drop(m)
        && promoted == whole.seps[m - 1]
    {
      var found, afterIdx := ValueIdx(after);
      var insertIdx := afterIdx + 1;
      at := insertIdx;
      var leftSize := (size + 1) / 2;
      if insertIdx < leftSize {
        promoted := SplitLow(recipient, insertIdx, leftSize, key, val);
      } else if insertIdx == leftSize {
        CutAt(Data(), leftSize, key, val);
        promoted := key;
        CopyTail(recipient, val, leftSize);
        size := leftSize;
        assert Data() == old(Data()).Take(leftSize);
      } else {
        promoted := SplitHigh(recipient, insertIdx, leftSize, key, val);
      }
    }

    /** The new child stays on the left of the cut at `m`. */
    method SplitLow(recipient: InternalPage, at: nat, m: nat, key: Entry, val: PageId) returns (promoted: Entry)
      requires Valid() && recipient.Valid() && this != recipient
      requires keys != recipient.keys && values != recipient.values
      requires 1 <= at < m < size == maxSize == recipient.maxSize
      modifies this`size, keys, values, recipient`size, recipient.keys, recipient.values
      ensures Valid() && recipient.Valid()
      ensures size == m && recipient.size == maxSize + 1 - m
      ensures Data() == old(Data()).Insert(at, key, val).Take(m)
      ensures recipient.Data() == old(Data()).Insert(at, key, val).Drop(m)
      ensures promoted == old(Data()).Insert(at, key, val).seps[m - 1]
    {
      CutAbove(Data(), at, m, key, val);
      promoted := keys[m - 1];
      CopyTail(recipient, values[m - 1], m);
      size := m - 1;
      assert Data() == old(Data()).Take(m - 1);
      InsertSlot(at, key, val);
    }

    /** The new child goes to the right of the cut at `m`. */
    method SplitHigh(recipient: InternalPage, at: nat, m: nat, key: Entry, val: PageId) returns (promoted: Entry)
      requires Valid() && recipient.Valid() && this != recipient
      requires keys != recipient.keys && values != recipient.values
      requires 1 <= m < at <= size == maxSize == recipient.maxSize
      modifies this`size, keys, values, recipient`size, recipient.keys, recipient.values
      ensures Valid() && recipient.Valid()
      ensures size == m && recipient.size == maxSize + 1 - m
      ensures Data() == old(Data()).Insert(at, key, val).Take(m)
      ensures recipient.Data() == old(Data()).Insert(at, key, val).Drop(m)
      ensures promoted == old(Data()).Insert(at, key, val).seps[m - 1]
    {
      hide Inner.Insert;
      CutBelow(Data(), at, m, key, val);
      promoted := keys[m];
      CopyTail(recipient, values[m], m + 1);
      size := m;
      assert Data() == old(Data()).Take(m);
      assert recipient.Data() == old(Data()).Drop(m);
      recipient.InsertSlot(at - m, key, val);
    }
  }

  // ---- slots opened and closed ----------------------------------------------

  /** Everything from slot `at` on moved up by one, and `x` is in the gap. */
  lemma Opened<T>(s: seq<T>, t: seq<T>, at: nat, x: T)
    requires at <= |s| && |t| == |s| + 1 && t[at] == x
    requires forall k :: 0 <= k < at ==> t[k] == s[k]
    requires forall k :: at < k < |t| ==> t[k] == s[k - 1]
    ensures t == s[..at] + [x] + s[at..]
  {
  }

  /** The same behind an unused slot 0. */
  lemma OpenedFrom1<T>(s: seq<T>, t: seq<T>, at: nat, x: T)
    requires 1 <= at <= |s| && |t| == |s| + 1 && t[at] == x
    requires forall k :: 1 <= k < at ==> t[k] == s[k]
    requires forall k :: at < k < |t| ==> t[k] == s[k - 1]
    ensures t[1..] == s[1..][..at - 1] + [x] + s[1..][at - 1..]
  {
    Opened(s[1..], t[1..], at - 1, x);
  }

  /** Everything behind slot `at` moved down by one. */
  lemma Closed<T>(s: seq<T>, t: seq<T>, at: nat)
    requires at < |s| && |t| == |s| - 1
    requires forall k :: 0 <= k < at ==> t[k] == s[k]
    requires forall k :: at <= k < |t| ==> t[k] == s[k + 1]
    ensures t == s[..at] + s[at + 1..]
  {
  }

  lemma ClosedFrom1<T>(s: seq<T>, t: seq<T>, at: nat)
    requires 1 <= at < |s| && |t| == |s| - 1
    requires forall k :: 1 <= k < at ==> t[k] == s[k]
    requires forall k :: at <= k < |t| ==> t[k] == s[k + 1]
    ensures t[1..] == s[1..][..at - 1] + s[1..][at..]
  {
    Closed(s[1..], t[1..], at - 1);
  }

  // ---- inserting and then cutting ------------------------------------------

  lemma CutAbove(d: Inner, at: nat, m: nat, key: Entry, val: PageId)
    requires d.Shaped() && 1 <= at < m < |d.kids|
    ensures var whole := d.Insert(at, key, val);
      && whole.Take(m) == d.Take(m - 1).Insert(at, key, val)
      && whole.Drop(m) == Inner(d.seps[m - 1..], [d.kids[m - 1]] + d.kids[m..])
      && whole.seps[m - 1] == d.seps[m - 2]
  {
    var whole := d.Insert(at, key, val);
    assert whole.kids[m..] == [d.kids[m - 1]] + d.kids[m..];
    assert whole.kids[..m] == d.kids[..m - 1][..at] + [val] + d.kids[..m - 1][at..];
  }

  lemma CutAt(d: Inner, m: nat, key: Entry, val: PageId)
    requires d.Shaped() && 1 <= m <= |d.kids|
    ensures var whole := d.Insert(m, key, val);
      && whole.Take(m) == d.Take(m)
      && whole.Drop(m) == Inner(d.seps[m - 1..], [val] + d.kids[m..])
      && whole.seps[m - 1] == key
  {
  }

  lemma CutBelow(d: Inner, at: nat, m: nat, key: Entry, val: PageId)
    requires d.Shaped() && 1 <= m < at <= |d.kids|
    ensures var whole := d.Insert(at, key, val);
      && whole.Take(m) == d.Take(m)
      && whole.Drop(m) == d.Drop(m).Insert(at - m, key, val)
      && whole.seps[m - 1] == d.seps[m - 1]
  {
  }
}
