/** The whole external sort: what it reads back is the stable sort of its input,
    and wherever the reader stops, every page it used is gone again. */
module SortExecutor {
  import opened Common
  import opened Values
  import opened Expressions
  import opened SortOrder
  import opened MergeOrder
  import opened SortRuns
  import opened ExternalSort
  import Disk = DiskManagers
  import opened SortPages
  import opened Plans
  import Tuples

  function Flat<T>(xs: seq<seq<T>>): seq<T> {
    if xs == [] then [] else Flat(xs[..|xs| - 1]) + xs[|xs| - 1]
  }

  lemma FlatAppend<T>(xs: seq<seq<T>>, x: seq<T>)
    ensures Flat(xs + [x]) == Flat(xs) + x
  {
    assert (xs + [x])[..|xs|] == xs;
  }

  lemma {:induction false} FlatConcat<T>(xs: seq<seq<T>>, ys: seq<seq<T>>)
    ensures Flat(xs + ys) == Flat(xs) + Flat(ys)
  {
    if ys == [] {
      assert xs + ys == xs;
    } else {
      var n := |ys| - 1;
      FlatConcat(xs, ys[..n]);
      assert xs + ys == (xs + ys[..n]) + [ys[n]] && ys == ys[..n] + [ys[n]];
      FlatAppend(xs + ys[..n], ys[n]);
      FlatAppend(ys[..n], ys[n]);
    }
  }

  lemma {:induction false} FlatMember<T>(xs: seq<seq<T>>, i: nat, p: T)
    requires i < |xs| && p in xs[i]
    ensures p in Flat(xs)
  {
    var n := |xs| - 1;
    if i < n {
      FlatMember(xs[..n], i, p);
    }
  }

  lemma FlatOne<T>(x: seq<T>)
    ensures Flat([x]) == x
  {
    FlatAppend([], x);
    assert [] + [x] == [x];
  }

  lemma FlatPair<T>(x: seq<T>, y: seq<T>, rest: seq<seq<T>>)
    ensures Flat([x, y] + rest) == (x + y) + Flat(rest)
  {
    FlatConcat([x, y], rest);
    FlatAppend([x], y);
    FlatOne(x);
    assert [x] + [y] == [x, y];
  }

  // ---- sorting the pages one by one -------------------------------------------------------------

  method SortPage(s: Sorter, store: PageStore, p: PageId)
    requires store.Valid() && p in store.pages && s.Fit(store.pages[p])
    modifies store`bytes, store`pages
    ensures store.Valid() && store.pages == old(store.pages)[p := s.SortBy(old(store.pages)[p])]
  {
    var ts := store.Read(p);
    var sorted := s.SortBy(ts);
    UsedPermutation(ts, sorted);
    store.Rewrite(p, sorted);
  }

  /** Run `i` is made of input `i`. */
  ghost predicate RunsOk(s: Sorter, clean: bool, pages: Pages, runs: seq<seq<PageId>>, inputs: seq<seq<Tuple>>) {
    && |runs| == |inputs|
    && forall i {:trigger runs[i]} :: 0 <= i < |runs| ==> RunOk(s, clean, Contents(pages, runs[i]), inputs[i])
  }

  lemma RunFits(s: Sorter, clean: bool, pages: Pages, runs: seq<seq<PageId>>, inputs: seq<seq<Tuple>>, i: nat)
    requires RunsOk(s, clean, pages, runs, inputs) && i < |runs|
    ensures RunOk(s, clean, Contents(pages, runs[i]), inputs[i]) && s.Fit(Contents(pages, runs[i]))
  {
  }

  lemma RunsWeaken(s: Sorter, clean: bool, clean': bool, pages: Pages, runs: seq<seq<PageId>>, inputs: seq<seq<Tuple>>)
    requires RunsOk(s, clean, pages, runs, inputs) && (clean' ==> clean)
    ensures RunsOk(s, clean', pages, runs, inputs)
  {
  }

  lemma RunsFrame(s: Sorter, clean: bool, a: Pages, b: Pages, runs: seq<seq<PageId>>, inputs: seq<seq<Tuple>>)
    requires RunsOk(s, clean, a, runs, inputs) && Agree(a, b, Flat(runs))
    ensures RunsOk(s, clean, b, runs, inputs)
  {
    hide *;
    forall i | 0 <= i < |runs|
      ensures Contents(a, runs[i]) == Contents(b, runs[i])
    {
      RunFrame(a, b, runs, i);
    }
    RunsSame(s, clean, a, b, runs, inputs);
  }

  lemma RunFrame(a: Pages, b: Pages, runs: seq<seq<PageId>>, i: nat)
    requires i < |runs| && Agree(a, b, Flat(runs))
    ensures Contents(a, runs[i]) == Contents(b, runs[i])
  {
    forall p | p in runs[i]
      ensures p in Flat(runs)
    {
      FlatMember(runs, i, p);
    }
    ContentsFrame(a, b, runs[i]);
  }

  lemma RunsSame(s: Sorter, clean: bool, a: Pages, b: Pages, runs: seq<seq<PageId>>, inputs: seq<seq<Tuple>>)
    requires RunsOk(s, clean, a, runs, inputs) && forall i {:trigger runs[i]} :: 0 <= i < |runs| ==> Contents(a, runs[i]) == Contents(b, runs[i])
    ensures RunsOk(s, clean, b, runs, inputs)
  {
  }

  lemma RunsAppend(s: Sorter, clean: bool, pages: Pages, runs: seq<seq<PageId>>, inputs: seq<seq<Tuple>>, run: seq<PageId>, input: seq<Tuple>)
    requires RunsOk(s, clean, pages, runs, inputs) && RunOk(s, clean, Contents(pages, run), input)
    ensures RunsOk(s, clean, pages, runs + [run], inputs + [input])
  {
  }

  /** One sorted page as a run. */
  lemma PageRun(s: Sorter, pages: Pages, p: PageId, ts: seq<Tuple>)
    requires p in pages && s.Fit(ts) && pages[p] == s.SortBy(ts)
    ensures RunOk(s, true, Contents(pages, [p]), ts)
  {
    assert Contents(pages, [p]) == pages[p];
    s.SortByIsStable(ts);
    SortedRunOk(s, true, pages[p], ts);
  }

  /** Sorts every page where it is; each becomes a run of its own. */
  method BuildInitialRuns(s: Sorter, store: PageStore, ids: seq<PageId>, ghost base: Pages)
    returns (runs: seq<seq<PageId>>, ghost inputs: seq<seq<Tuple>>)
    requires store.Valid() && Held(store.pages, base, ids) && s.Fit(Contents(store.pages, ids))
    modifies store`bytes, store`pages
    ensures store.Valid() && Held(store.pages, base, ids)
    ensures Flat(runs) == ids && Flat(inputs) == Contents(old(store.pages), ids) && RunsOk(s, true, store.pages, runs, inputs)
    ensures |runs| == |ids|
  {
    hide Held, Used, Flat, Contents, RunsOk, RunOk, Agree, Distinct;
    runs, inputs := [], [];
    NoRuns(s, true, store.pages);
    var i := 0;
    while i < |ids|
      invariant i == |runs| <= |ids| && store.Valid() && Held(store.pages, base, ids)
      invariant Flat(runs) == ids[..i] && Flat(inputs) == Contents(old(store.pages), ids[..i]) && RunsOk(s, true, store.pages, runs, inputs)
      invariant Agree(old(store.pages), store.pages, ids[i..])
    {
      ghost var pages := store.pages;
      HeldPages(pages, base, ids);
      var p := ids[i];
      NextPage(s, old(store.pages), pages, ids, i);
      SortPage(s, store, p);
      HeldUpdate(pages, base, ids, p, store.pages[p]);
      AgreeApart(pages, store.pages, ids, i);
      RunsFrame(s, true, pages, store.pages, runs, inputs);
      PageRun(s, store.pages, p, pages[p]);
      RunsAppend(s, true, store.pages, runs, inputs, [p], pages[p]);
      FlatAppend(runs, [p]);
      FlatAppend(inputs, pages[p]);
      AgreeRest(old(store.pages), pages, store.pages, ids, i);
      runs, inputs := runs + [[p]], inputs + [pages[p]];
      assert ids[..i + 1] == ids[..i] + [p];
      i := i + 1;
    }
    assert ids[..i] == ids;
  }

  lemma NoRuns(s: Sorter, clean: bool, pages: Pages)
    ensures RunsOk(s, clean, pages, [], []) && Flat<PageId>([]) == [] && Flat<Tuple>([]) == [] && Contents(pages, []) == []
    ensures forall ids: seq<PageId> :: ids[0..] == ids && Agree(pages, pages, ids)
  {
  }

  /** The page about to be sorted still holds what was written to it. */
  lemma NextPage(s: Sorter, before: Pages, pages: Pages, ids: seq<PageId>, i: nat)
    requires i < |ids| && s.Fit(Contents(before, ids)) && Agree(before, pages, ids[i..]) && ids[i] in pages
    ensures s.Fit(pages[ids[i]]) && Contents(before, ids[..i + 1]) == Contents(before, ids[..i]) + pages[ids[i]]
  {
    assert ids[i] == ids[i..][0] && ids[i] in ids[i..];
    assert ids[..i + 1] == ids[..i] + [ids[i]] && ids == ids[..i + 1] + ids[i + 1..];
    ContentsConcat(before, ids[..i], [ids[i]]);
    ContentsConcat(before, ids[..i + 1], ids[i + 1..]);
    assert Contents(before, [ids[i]]) == before[ids[i]] == pages[ids[i]];
    FitParts(s, Contents(before, ids[..i + 1]), Contents(before, ids[i + 1..]));
    FitParts(s, Contents(before, ids[..i]), pages[ids[i]]);
  }

  lemma AgreeApart(a: Pages, b: Pages, ids: seq<PageId>, i: nat)
    requires i < |ids| && Distinct(ids) && ids[i] in a && ids[i] in b && b == a[ids[i] := b[ids[i]]]
    ensures Agree(a, b, ids[..i])
  {
  }

  lemma AgreeRest(before: Pages, a: Pages, b: Pages, ids: seq<PageId>, i: nat)
    requires i < |ids| && Distinct(ids) && Agree(before, a, ids[i..]) && ids[i] in a && ids[i] in b && b == a[ids[i] := b[ids[i]]]
    ensures Agree(before, b, ids[i + 1..])
  {
    forall p | p in ids[i + 1..]
      ensures (p in before <==> p in b) && (p in before ==> before[p] == b[p])
    {
      assert p in ids[i..] && p != ids[i];
    }
  }

  // ---- merging passes ----------------------------------------------------------------------------

  /** Replacing some runs by the run made of them. */
  lemma HeldReplace(pages: Pages, base: Pages, a: seq<PageId>, x: seq<PageId>, b: seq<PageId>, pages': Pages, y: seq<PageId>)
    requires Held(pages, base, a + x + b) && Held(pages', pages - IdSet(x), y)
    ensures Held(pages', base, a + y + b) && Agree(pages, pages', a) && Agree(pages, pages', b)
  {
    DistinctParts(a + x, b);
    DistinctParts(a, x);
    var rest := pages - IdSet(x);
    assert IdSet(a + x + b) == IdSet(a) + IdSet(x) + IdSet(b);
    assert IdSet(a + x) == IdSet(a) + IdSet(x);
    assert IdSet(a + y + b) == IdSet(a) + IdSet(y) + IdSet(b);
    assert rest.Keys == base.Keys + IdSet(a) + IdSet(b);
    forall p | p in rest
      ensures p in pages' && pages'[p] == pages[p] && p !in IdSet(y)
    {
      assert rest[p] == pages'[p];
    }
    DistinctJoin(a, y);
    assert IdSet(a + y) == IdSet(a) + IdSet(y);
    DistinctJoin(a + y, b);
    forall p | p in a || p in b
      ensures p in rest
    {
      assert p in IdSet(a) || p in IdSet(b);
    }
    forall p | p in base
      ensures pages'[p] == base[p]
    {
      assert p in rest && pages[p] == base[p];
    }
  }

  lemma DistinctJoin(a: seq<PageId>, b: seq<PageId>)
    requires Distinct(a) && Distinct(b) && IdSet(a) !! IdSet(b)
    ensures Distinct(a + b)
  {
    forall i, j | 0 <= i < |a| && 0 <= j < |b|
      ensures a[i] != b[j]
    {
      assert a[i] in IdSet(a) && b[j] in IdSet(b);
    }
  }

  /** The runs to merge, taken apart from the other pages. */
  lemma HeldApart(pages: Pages, base: Pages, a: seq<PageId>, x: seq<PageId>, b: seq<PageId>)
    requires Held(pages, base, a + x + b)
    ensures Held(pages, pages - IdSet(x), x)
  {
    DistinctParts(a + x, b);
    DistinctParts(a, x);
    forall p | p in x
      ensures p in pages
    {
      assert p in IdSet(a + x + b);
    }
  }

  /** Merging two sorted runs sorts their inputs together; what the first page
      brought along stays in front. */
  lemma MergedFrom(s: Sorter, clean: bool, a: seq<Tuple>, ina: seq<Tuple>, b: seq<Tuple>, inb: seq<Tuple>, was: seq<Tuple>, out: seq<Tuple>)
    requires RunOk(s, clean, a, ina) && RunOk(s, clean, b, inb) && s.Fit(was) && s.Fit(out)
    requires s.order.FitAll(s.Entries(a)) && s.order.FitAll(s.Entries(b))
    requires s.Entries(out) == s.Entries(was) + s.order.Merge(s.Entries(a), s.Entries(b))
    ensures RunOk(s, clean && was == [], out, was + (ina + inb))
  {
    s.EntriesConcat(ina, inb);
    s.EntriesConcat(was, ina + inb);
    s.FitEntries(ina);
    s.FitEntries(inb);
    FitTogether(s, ina, inb);
    FitTogether(s, was, ina + inb);
    MergeKeepsAll(s.order, s.Entries(a), s.Entries(b));
    if clean && was == [] {
      assert s.Entries(was) == [] && was + (ina + inb) == ina + inb;
      assert s.Entries(out) == s.order.Merge(s.Entries(a), s.Entries(b));
      MergeIsStable(s.order, s.Entries(ina), s.Entries(inb));
    }
  }

  lemma FitTogether(s: Sorter, a: seq<Tuple>, b: seq<Tuple>)
    requires s.Fit(a) && s.Fit(b)
    ensures s.Fit(a + b)
  {
    forall i | 0 <= i < |a + b|
      ensures s.Sortable((a + b)[i])
    {
      assert (a + b)[i] == if i < |a| then a[i] else b[i - |a|];
    }
  }

  lemma {:induction false} MergeKeepsAll(c: Comparator, a: seq<SortEntry>, b: seq<SortEntry>)
    requires c.Ok() && c.FitAll(a) && c.FitAll(b)
    ensures multiset(c.Merge(a, b)) == multiset(a) + multiset(b)
    decreases |a| + |b|
  {
    hide Comparator.Le;
    if a != [] && b != [] {
      if c.Le(a[0], b[0]) {
        MergeKeepsAll(c, a[1..], b);
        assert a == [a[0]] + a[1..];
      } else {
        MergeKeepsAll(c, a, b[1..]);
        assert b == [b[0]] + b[1..];
      }
    }
  }

  lemma RunsSplit(s: Sorter, clean: bool, pages: Pages, runs: seq<seq<PageId>>, inputs: seq<seq<Tuple>>, n: nat)
    requires RunsOk(s, clean, pages, runs, inputs) && n <= |runs|
    ensures RunsOk(s, clean, pages, runs[..n], inputs[..n]) && RunsOk(s, clean, pages, runs[n..], inputs[n..])
  {
  }

  /** The inputs of some runs are the inputs of others and what came along. */
  ghost predicate Grown(now: seq<Tuple>, before: seq<Tuple>, was: seq<Tuple>) {
    multiset(now) == multiset(before) + multiset(was) && (was == [] ==> now == before)
  }

  lemma GrownTwice(a: seq<Tuple>, b: seq<Tuple>, c: seq<Tuple>, x: seq<Tuple>, y: seq<Tuple>)
    requires Grown(b, a, x) && Grown(c, b, y)
    ensures Grown(c, a, x + y)
  {
    assert x == [] ==> x + y == y;
    assert y == [] ==> x + y == x;
  }

  lemma GrownInside(l: seq<Tuple>, was: seq<Tuple>, x: seq<Tuple>, r: seq<Tuple>)
    ensures Grown(l + (was + x) + r, l + x + r, was)
  {
    assert was == [] ==> was + x == x;
  }

  /** Merges the first two of the current runs and puts the result behind the runs
      of the next pass. */
  method MergePair(s: Sorter, ghost clean: bool, store: PageStore, done: seq<seq<PageId>>, todo: seq<seq<PageId>>,
                   ghost doneIn: seq<seq<Tuple>>, ghost todoIn: seq<seq<Tuple>>, ghost base: Pages)
    returns (done': seq<seq<PageId>>, ok: bool, ghost doneIn': seq<seq<Tuple>>)
    requires store.Valid() && |todo| >= 2 && Held(store.pages, base, Flat(done) + Flat(todo))
    requires RunsOk(s, clean, store.pages, done, doneIn) && RunsOk(s, clean, store.pages, todo, todoIn)
    modifies store
    ensures store.Valid() && (ok <==> Usable(s, store.unwritten(old(store.nextPageId)))) && |done'| == |done| + 1
    ensures Taking(old(store.taken), old(store.nextPageId), [old(store.nextPageId)], store.taken, store.nextPageId)
    ensures ok ==> Held(store.pages, base, Flat(done') + Flat(todo[2..])) && |todo| == |todoIn|
    ensures ok ==>
      var was := TuplesOn(store.unwritten(old(store.nextPageId)));
      && RunsOk(s, clean && was == [], store.pages, done', doneIn')
      && RunsOk(s, clean && was == [], store.pages, todo[2..], todoIn[2..])
      && Grown(Flat(doneIn') + Flat(todoIn[2..]), Flat(doneIn) + Flat(todoIn), was)
  {
    hide Held, Used, Flat, Contents, Agree, Distinct, RunOk, Slotted, TuplesOn, Grown;
    ghost var pages, was := store.pages, TuplesOn(store.unwritten(store.nextPageId));
    ghost var x, rest := todo[0] + todo[1], todo[2..];
    RunsSplit(s, clean, pages, todo, todoIn, 2);
    PairApart(todo);
    PairApart(todoIn);
    assert Flat(done) + Flat(todo) == Flat(done) + x + Flat(rest);
    HeldApart(pages, base, Flat(done), x, Flat(rest));
    RunFits(s, clean, pages, todo, todoIn, 0);
    RunFits(s, clean, pages, todo, todoIn, 1);
    var out;
    out, ok := MergeSortedRuns(s, store, todo[0], todo[1], pages - IdSet(x));
    done', doneIn' := done + [out], doneIn + [was + (todoIn[0] + todoIn[1])];
    if !ok {
      return;
    }
    HeldReplace(pages, base, Flat(done), x, Flat(rest), store.pages, out);
    MergedFrom(s, clean, Contents(pages, todo[0]), todoIn[0], Contents(pages, todo[1]), todoIn[1], was, Contents(store.pages, out));
    RunsFrame(s, clean, pages, store.pages, done, doneIn);
    RunsFrame(s, clean, pages, store.pages, rest, todoIn[2..]);
    RunsWeaken(s, clean, clean && was == [], store.pages, done, doneIn);
    RunsWeaken(s, clean, clean && was == [], store.pages, rest, todoIn[2..]);
    RunsAppend(s, clean && was == [], store.pages, done, doneIn, out, was + (todoIn[0] + todoIn[1]));
    FlatAppend(done, out);
    FlatAppend(doneIn, was + (todoIn[0] + todoIn[1]));
    GrownInside(Flat(doneIn), was, todoIn[0] + todoIn[1], Flat(todoIn[2..]));
    assert Flat(doneIn) + (todoIn[0] + todoIn[1]) + Flat(todoIn[2..]) == Flat(doneIn) + Flat(todoIn);
  }

  lemma PairApart<T>(xs: seq<seq<T>>)
    requires |xs| >= 2
    ensures Flat(xs) == (xs[0] + xs[1]) + Flat(xs[2..])
  {
    assert xs == [xs[0], xs[1]] + xs[2..];
    FlatPair(xs[0], xs[1], xs[2..]);
  }

  /** A state of the merging: the runs `done` in this pass and those `todo`, and
      the first pages `firsts` taken so far. */
  ghost predicate Passing(s: Sorter, clean: bool, store: PageStore, base: Pages, done: seq<seq<PageId>>, todo: seq<seq<PageId>>,
                          doneIn: seq<seq<Tuple>>, todoIn: seq<seq<Tuple>>, input: seq<Tuple>, firsts: seq<PageId>)
    reads store
  {
    && Held(store.pages, base, Flat(done) + Flat(todo))
    && var now := clean && Stale(store.unwritten, firsts) == [];
    && RunsOk(s, now, store.pages, done, doneIn) && RunsOk(s, now, store.pages, todo, todoIn)
    && Grown(Flat(doneIn) + Flat(todoIn), input, Stale(store.unwritten, firsts))
  }

  /** One pass: runs two by two, an odd one at the end as it is. */
  method MergePass(s: Sorter, ghost clean: bool, store: PageStore, runs: seq<seq<PageId>>, ghost inputs: seq<seq<Tuple>>,
                   ghost base: Pages, ghost input: seq<Tuple>, ghost firsts: seq<PageId>)
    returns (next: seq<seq<PageId>>, ok: bool, ghost nextIn: seq<seq<Tuple>>, ghost firsts': seq<PageId>)
    requires store.Valid() && |runs| >= 2 && Passing(s, clean, store, base, [], runs, [], inputs, input, firsts)
    modifies store
    ensures store.Valid() && 1 <= |next| < |runs| && firsts <= firsts'
    ensures Taking(old(store.taken), old(store.nextPageId), firsts'[|firsts|..], store.taken, store.nextPageId)
    ensures ok ==> Passing(s, clean, store, base, [], next, [], nextIn, input, firsts')
    ensures (forall p {:trigger p in firsts} :: p in firsts ==> Usable(s, store.unwritten(p))) ==>
      if ok then forall p {:trigger p in firsts'} :: p in firsts' ==> Usable(s, store.unwritten(p))
      else firsts' != [] && !Usable(s, store.unwritten(firsts'[|firsts'| - 1]))
  {
    hide Held, Used, Flat, Contents, Agree, Distinct, RunsOk, Usable, Passing;
    next, nextIn, firsts', ok := [], [], firsts, true;
    var current: seq<seq<PageId>> := runs;
    ghost var currentIn: seq<seq<Tuple>> := inputs;
    while current != []
      invariant ok && store.Valid() && Passing(s, clean, store, base, next, current, nextIn, currentIn, input, firsts')
      invariant firsts <= firsts' && Taking(old(store.taken), old(store.nextPageId), firsts'[|firsts|..], store.taken, store.nextPageId)
      invariant (forall p {:trigger p in firsts} :: p in firsts ==> Usable(s, store.unwritten(p))) ==>
        forall p {:trigger p in firsts'} :: p in firsts' ==> Usable(s, store.unwritten(p))
      invariant 2 * |next| + |current| == |runs| || (current == [] && 2 * |next| == |runs| + 1)
      decreases |current|
    {
      if |current| == 1 {
        PassLast(s, clean, store, base, next, current, nextIn, currentIn, input, firsts');
        next, nextIn := next + [current[0]], nextIn + [currentIn[0]];
        current, currentIn := [], [];
      } else {
        ghost var before, taken, nextId := firsts', store.taken, store.nextPageId;
        next, current, ok, nextIn, currentIn, firsts' := PassPair(s, clean, store, next, current, nextIn, currentIn, base, input, before);
        assert firsts' == before + [nextId];
        TakingMore(old(store.taken), old(store.nextPageId), before[|firsts|..], taken, nextId, [nextId], store.taken, store.nextPageId);
        assert firsts'[|firsts|..] == before[|firsts|..] + [nextId];
        if !ok {
          return;
        }
      }
    }
    PassDone(s, clean, store, base, next, nextIn, currentIn, input, firsts');
  }

  lemma PassLast(s: Sorter, clean: bool, store: PageStore, base: Pages, done: seq<seq<PageId>>, todo: seq<seq<PageId>>,
                 doneIn: seq<seq<Tuple>>, todoIn: seq<seq<Tuple>>, input: seq<Tuple>, firsts: seq<PageId>)
    requires Passing(s, clean, store, base, done, todo, doneIn, todoIn, input, firsts) && |todo| == 1
    ensures |todoIn| == 1 && Passing(s, clean, store, base, done + [todo[0]], [], doneIn + [todoIn[0]], [], input, firsts)
  {
    hide Held, Used, Flat, Contents, RunsOk, RunOk, Grown;
    ghost var now := clean && Stale(store.unwritten, firsts) == [];
    LastRun(s, now, store.pages, todo, todoIn);
    FlatAppend(done, todo[0]);
    FlatAppend(doneIn, todoIn[0]);
    RunsAppend(s, now, store.pages, done, doneIn, todo[0], todoIn[0]);
    NoRuns(s, now, store.pages);
    assert Flat(done + [todo[0]]) + [] == Flat(done) + Flat(todo) && Flat(doneIn + [todoIn[0]]) + [] == Flat(doneIn) + Flat(todoIn);
  }

  /** Two runs of a pass. */
  method PassPair(s: Sorter, ghost clean: bool, store: PageStore, done: seq<seq<PageId>>, todo: seq<seq<PageId>>,
                  ghost doneIn: seq<seq<Tuple>>, ghost todoIn: seq<seq<Tuple>>, ghost base: Pages, ghost input: seq<Tuple>, ghost firsts: seq<PageId>)
    returns (done': seq<seq<PageId>>, todo': seq<seq<PageId>>, ok: bool,
             ghost doneIn': seq<seq<Tuple>>, ghost todoIn': seq<seq<Tuple>>, ghost firsts': seq<PageId>)
    requires store.Valid() && |todo| >= 2 && Passing(s, clean, store, base, done, todo, doneIn, todoIn, input, firsts)
    modifies store
    ensures store.Valid() && |done'| == |done| + 1 && todo' == todo[2..]
    ensures firsts' == firsts + [old(store.nextPageId)] && (ok <==> Usable(s, store.unwritten(firsts'[|firsts|])))
    ensures Taking(old(store.taken), old(store.nextPageId), [old(store.nextPageId)], store.taken, store.nextPageId)
    ensures ok ==> Passing(s, clean, store, base, done', todo', doneIn', todoIn', input, firsts')
  {
    hide Held, Used, Flat, Contents, RunsOk, Grown, TuplesOn, Slotted, Usable, Stale;
    ghost var p, was := store.nextPageId, Stale(store.unwritten, firsts);
    done', ok, doneIn' := MergePair(s, clean && was == [], store, done, todo, doneIn, todoIn, base);
    firsts' := firsts + [p];
    todo' := todo[2..];
    todoIn' := if |todoIn| >= 2 then todoIn[2..] else [];
    if ok {
      ghost var more := TuplesOn(store.unwritten(p));
      StaleAppend(store.unwritten, firsts, p);
      assert was + more == [] <==> was == [] && more == [];
      GrownTwice(input, Flat(doneIn) + Flat(todoIn), Flat(doneIn') + Flat(todoIn'), was, more);
    }
  }

  lemma PassDone(s: Sorter, clean: bool, store: PageStore, base: Pages, done: seq<seq<PageId>>, doneIn: seq<seq<Tuple>>,
                 noneIn: seq<seq<Tuple>>, input: seq<Tuple>, firsts: seq<PageId>)
    requires Passing(s, clean, store, base, done, [], doneIn, noneIn, input, firsts)
    ensures Passing(s, clean, store, base, [], done, [], doneIn, input, firsts)
  {
    hide Held, Used, Contents, RunOk, Grown;
    assert noneIn == [];
    assert Flat(done) + [] == [] + Flat(done) && Flat(doneIn) + [] == [] + Flat(doneIn);
  }

  lemma LastRun(s: Sorter, clean: bool, pages: Pages, runs: seq<seq<PageId>>, inputs: seq<seq<Tuple>>)
    requires RunsOk(s, clean, pages, runs, inputs) && |runs| == 1
    ensures |inputs| == 1 && RunOk(s, clean, Contents(pages, runs[0]), inputs[0])
    ensures Flat(runs) == runs[0] && Flat(inputs) == inputs[0]
  {
    assert runs == [runs[0]] && inputs == [inputs[0]];
    FlatOne(runs[0]);
    FlatOne(inputs[0]);
  }

  // ---- the sort ------------------------------------------------------------------------------------

  /** The tuples `ts` come from sorting `input` on pages that brought `was` along. */
  ghost predicate SortedWith(s: Sorter, ts: seq<Tuple>, input: seq<Tuple>, was: seq<Tuple>) {
    && s.Fit(ts) && s.Fit(input)
    && multiset(s.Entries(ts)) == multiset(s.Entries(input)) + multiset(s.Entries(was))
    && (was == [] ==> s.SortedFrom(ts, input))
  }

  /** Some pages were added and are still there. */
  ghost predicate Leaks(pages: Pages, base: Pages) {
    exists leaked :: Held(pages, base, leaked) && leaked != []
  }

  /** Sorts. Fails on a tuple that fits no page, and then keeps the pages it had
      written. `firsts` are the pages it took as they were. */
  method Sort(s: Sorter, store: PageStore, tuples: seq<Tuple>) returns (it: RunIterator?, r: Outcome, ghost firsts: seq<PageId>)
    requires store.Valid() && s.Fit(tuples)
    modifies store
    ensures store.Valid() && (it != null <==> r.Done?)
    ensures r.Done? ==> fresh(it) && it.Valid(store.pages) && Held(store.pages, old(store.pages), it.Own())
    ensures r.Done? ==> AllFit(tuples) && SortedWith(s, it.Rest(store.pages), tuples, Stale(store.unwritten, firsts))
    ensures r.TupleTooBig? ==> !AllFit(tuples) && Leaks(store.pages, old(store.pages))
    ensures firsts != [] && firsts[0] == old(store.nextPageId)
    ensures Taking(old(store.taken), old(store.nextPageId), firsts, store.taken, store.nextPageId)
    ensures Used(TuplesOn(store.unwritten(firsts[0])) + tuples) <= Disk.PAGE_SIZE ==> |firsts| == 1
    ensures if r.Unusable? then !Usable(s, store.unwritten(firsts[|firsts| - 1]))
      else forall p {:trigger p in firsts} :: p in firsts ==> Usable(s, store.unwritten(p))
  {
    hide Held, Used, Flat, Contents, Agree, Distinct, RunsOk, RunOk, AllFit, Usable, Passing, SortedWith, TuplesOn, Stale;
    ghost var base, first := store.pages, store.nextPageId;
    var ids: seq<PageId>;
    ids, r := FillPages(s, store, tuples);
    it, firsts := null, [first];
    if !r.Done? {
      assert r.TupleTooBig? ==> Leaks(store.pages, base);
      return;
    }
    ghost var was := TuplesOn(store.unwritten(first));
    UsableFits(s, store.unwritten(first));
    FitTogether(s, was, tuples);
    var runs: seq<seq<PageId>>;
    ghost var inputs: seq<seq<Tuple>>;
    runs, inputs := BuildInitialRuns(s, store, ids, base);
    FirstPass(s, store, base, runs, inputs, tuples, first);
    while |runs| > 1
      invariant store.Valid() && |runs| >= 1 && firsts != [] && firsts[0] == first && (|ids| == 1 ==> |runs| == 1 && |firsts| == 1)
      invariant Taking(old(store.taken), old(store.nextPageId), firsts, store.taken, store.nextPageId)
      invariant Passing(s, true, store, base, [], runs, [], inputs, tuples, firsts)
      invariant forall p {:trigger p in firsts} :: p in firsts ==> Usable(s, store.unwritten(p))
      decreases |runs|
    {
      var ok: bool;
      ghost var before, taken, nextId := firsts, store.taken, store.nextPageId;
      runs, ok, inputs, firsts := MergePass(s, true, store, runs, inputs, base, tuples, firsts);
      TakingMore(old(store.taken), old(store.nextPageId), before, taken, nextId, firsts[|before|..], store.taken, store.nextPageId);
      assert firsts == before + firsts[|before|..];
      if !ok {
        return null, Unusable, firsts;
      }
    }
    SortDone(s, store, base, runs, inputs, tuples, firsts);
    HeldPages(store.pages, base, runs[0]);
    it := new RunIterator(runs[0], store.pages);
  }

  lemma UsableFits(s: Sorter, data: PageBytes)
    requires Usable(s, data)
    ensures s.Fit(TuplesOn(data))
  {
  }

  lemma FirstPass(s: Sorter, store: PageStore, base: Pages, runs: seq<seq<PageId>>, inputs: seq<seq<Tuple>>, tuples: seq<Tuple>, first: PageId)
    requires Held(store.pages, base, Flat(runs)) && RunsOk(s, true, store.pages, runs, inputs)
    requires Flat(inputs) == TuplesOn(store.unwritten(first)) + tuples
    ensures Passing(s, true, store, base, [], runs, [], inputs, tuples, [first])
  {
    hide Held, Used, Contents, RunOk, TuplesOn;
    ghost var was := TuplesOn(store.unwritten(first));
    StaleAppend(store.unwritten, [], first);
    assert [] + [first] == [first] && Stale(store.unwritten, [first]) == was by {
      assert [] + was == was;
    }
    assert [] + Flat(runs) == Flat(runs) && [] + Flat(inputs) == Flat(inputs);
    assert was == [] ==> was + tuples == tuples;
    RunsWeaken(s, true, was == [], store.pages, runs, inputs);
    NoRuns(s, was == [], store.pages);
  }

  lemma SortDone(s: Sorter, store: PageStore, base: Pages, runs: seq<seq<PageId>>, inputs: seq<seq<Tuple>>, tuples: seq<Tuple>, firsts: seq<PageId>)
    requires Passing(s, true, store, base, [], runs, [], inputs, tuples, firsts) && |runs| == 1 && s.Fit(tuples)
    ensures Held(store.pages, base, runs[0])
    ensures SortedWith(s, Contents(store.pages, runs[0]), tuples, Stale(store.unwritten, firsts))
  {
    hide Held, Used, Contents, Stale, TuplesOn;
    var was := Stale(store.unwritten, firsts);
    LastRun(s, was == [], store.pages, runs, inputs);
    assert [] + runs[0] == runs[0] && [] + inputs[0] == inputs[0] && Flat<PageId>([]) == [] && Flat<Tuple>([]) == [];
    EntriesMultiset(s, inputs[0], tuples + was);
    s.EntriesConcat(tuples, was);
  }

  /** The entries of the same tuples are the same entries. */
  lemma {:induction false} EntriesMultiset(s: Sorter, a: seq<Tuple>, b: seq<Tuple>)
    requires multiset(a) == multiset(b)
    ensures multiset(s.Entries(a)) == multiset(s.Entries(b))
  {
    if a == [] {
      assert |multiset(b)| == 0;
      assert b == [];
    } else {
      var i := SameLast(a, b);
      var n := |a| - 1;
      EntriesMultiset(s, a[..n], b[..i] + b[i + 1..]);
      EntriesTakeOut(s, a[..n], a[n], b[..i], b[i + 1..]);
    }
  }

  lemma SameLast(a: seq<Tuple>, b: seq<Tuple>) returns (i: nat)
    requires multiset(a) == multiset(b) && a != []
    ensures i < |b| && a == a[..|a| - 1] + [a[|a| - 1]] && b == b[..i] + ([a[|a| - 1]] + b[i + 1..])
    ensures multiset(a[..|a| - 1]) == multiset(b[..i] + b[i + 1..])
  {
    var n := |a| - 1;
    assert a == a[..n] + [a[n]];
    assert a[n] in multiset(b);
    i :| 0 <= i < |b| && b[i] == a[n];
    TakeOut(b, i);
  }

  lemma EntriesTakeOut(s: Sorter, a: seq<Tuple>, x: Tuple, l: seq<Tuple>, r: seq<Tuple>)
    requires multiset(s.Entries(a)) == multiset(s.Entries(l + r))
    ensures multiset(s.Entries(a + [x])) == multiset(s.Entries(l + ([x] + r)))
  {
    hide Sorter.Entries;
    EntriesAdd(s, a, [x]);
    EntriesAdd(s, l, [x] + r);
    EntriesAdd(s, [x], r);
    EntriesAdd(s, l, r);
  }

  lemma EntriesAdd(s: Sorter, a: seq<Tuple>, b: seq<Tuple>)
    ensures multiset(s.Entries(a + b)) == multiset(s.Entries(a)) + multiset(s.Entries(b))
  {
    s.EntriesConcat(a, b);
  }

  /** The sort is right exactly if every page it took as it was reads empty. */
  lemma SortedIffClean(s: Sorter, ts: seq<Tuple>, tuples: seq<Tuple>, unwritten: PageId -> PageBytes, firsts: seq<PageId>)
    requires SortedWith(s, ts, tuples, Stale(unwritten, firsts))
    ensures s.SortedFrom(ts, tuples) <==> forall p :: p in firsts ==> ReadsEmpty(unwritten(p))
  {
    hide TuplesOn, ReadsEmpty, Stale;
    var was := Stale(unwritten, firsts);
    StaleIsNothing(unwritten, firsts);
    if s.SortedFrom(ts, tuples) {
      assert |s.Entries(ts)| == |s.Entries(tuples)|;
      assert |multiset(s.Entries(ts))| == |s.Entries(ts)| && |multiset(s.Entries(tuples))| == |s.Entries(tuples)|;
      assert |multiset(s.Entries(was))| == |was|;
    }
  }

  /** What fits one page takes one page, if the page has nothing on it. */
  lemma OnePage(unwritten: PageId -> PageBytes, tuples: seq<Tuple>, firsts: seq<PageId>)
    requires firsts != [] && (Used(TuplesOn(unwritten(firsts[0])) + tuples) <= Disk.PAGE_SIZE ==> |firsts| == 1)
    ensures Used(tuples) <= Disk.PAGE_SIZE ==>
      ((forall p :: p in firsts ==> ReadsEmpty(unwritten(p))) <==> ReadsEmpty(unwritten(firsts[0])))
  {
    EmptyIsSlotted(unwritten(firsts[0]));
    if ReadsEmpty(unwritten(firsts[0])) {
      assert TuplesOn(unwritten(firsts[0])) + tuples == tuples;
    }
  }

  /** However much of the result is read, it is the front of what was sorted, and
      dropping the iterator leaves the page store as it was found. */
  method SortAndRead(s: Sorter, store: PageStore, tuples: seq<Tuple>, n: nat)
    returns (out: seq<Tuple>, r: Outcome, ghost all: seq<Tuple>, ghost firsts: seq<PageId>)
    requires store.Valid() && s.Fit(tuples)
    modifies store
    ensures store.Valid() && (r.Done? ==> store.pages == old(store.pages))
    ensures r.Done? ==> AllFit(tuples) && out == if n <= |all| then all[..n] else all
    ensures r.Done? ==> SortedWith(s, all, tuples, Stale(store.unwritten, firsts))
    ensures r.Done? ==> (s.SortedFrom(all, tuples) <==> forall p :: p in firsts ==> ReadsEmpty(store.unwritten(p)))
    ensures r.Done? && Used(tuples) <= Disk.PAGE_SIZE ==> (s.SortedFrom(all, tuples) <==> ReadsEmpty(store.unwritten(old(store.nextPageId))))
    ensures r.TupleTooBig? ==> !AllFit(tuples)
    ensures firsts != [] && firsts[0] == old(store.nextPageId)
    ensures Taking(old(store.taken), old(store.nextPageId), firsts, store.taken, store.nextPageId)
    ensures Used(TuplesOn(store.unwritten(firsts[0])) + tuples) <= Disk.PAGE_SIZE ==> |firsts| == 1
    ensures if r.Unusable? then !Usable(s, store.unwritten(firsts[|firsts| - 1]))
      else forall p {:trigger p in firsts} :: p in firsts ==> Usable(s, store.unwritten(p))
  {
    hide Held, Used, Flat, Contents, Agree, RestOf, AllFit, Distinct, SortedWith, Stale, Usable, Taking, TuplesOn, ReadsEmpty, Sorter.SortedFrom;
    ghost var base := store.pages;
    var it;
    it, r, firsts := Sort(s, store, tuples);
    out, all := [], [];
    if r.Done? {
      all := it.Rest(store.pages);
      SortedIffClean(s, all, tuples, store.unwritten, firsts);
      OnePage(store.unwritten, tuples, firsts);
      out := ReadSome(store, it, n, base);
    }
  }

  /** On pages that all read empty the sort fails only on a tuple too big for a
      page, and gives the stable sort. */
  method SortClean(s: Sorter, store: PageStore, tuples: seq<Tuple>, n: nat) returns (out: seq<Tuple>, r: Outcome)
    requires store.Valid() && s.Fit(tuples) && store.Clean() && s.order.Ok()
    modifies store
    ensures store.Valid() && r == if AllFit(tuples) then Done else TupleTooBig
    ensures r.Done? ==> store.pages == old(store.pages) && |out| == if n <= |tuples| then n else |tuples|
    ensures r.Done? ==> s.order.FitAll(s.Entries(tuples)) && s.Entries(out) == s.order.StableSort(s.Entries(tuples))[..|out|]
  {
    hide AllFit, SortedWith, Usable, Stale, ReadsEmpty, Slotted, TuplesOn;
    ghost var all, firsts;
    out, r, all, firsts := SortAndRead(s, store, tuples, n);
    forall p: PageId
      ensures Usable(s, store.unwritten(p))
    {
      EmptyIsUsable(s, store.unwritten(p));
    }
    if r.Done? {
      SortedIffClean(s, all, tuples, store.unwritten, firsts);
      SortedLength(s, all, tuples);
      EntriesPrefix(s, all, out);
    }
  }

  /** Reads up to `n` tuples and then drops the iterator. */
  method ReadSome(store: PageStore, it: RunIterator, n: nat, ghost base: Pages) returns (out: seq<Tuple>)
    requires store.Valid() && it.Valid(store.pages) && Held(store.pages, base, it.Own())
    modifies store`bytes, store`pages, it
    ensures store.Valid() && store.pages == base
    ensures var all := old(it.Rest(store.pages)); out == if n <= |all| then all[..n] else all
  {
    hide Held, Used, Contents, Agree, RestOf;
    ghost var all := it.Rest(store.pages);
    out := [];
    var more := true;
    while |out| < n && more
      invariant store.Valid() && it.Valid(store.pages) && Held(store.pages, base, it.Own())
      invariant out + it.Rest(store.pages) == all && (!more ==> it.Rest(store.pages) == [])
      invariant |out| <= n
      decreases n - |out|, more
    {
      ghost var pages, own := store.pages, it.Own();
      var t := it.Next(store);
      OwnDistinct(it.pageIds, it.pageIdx);
      HeldReads(pages, base, own, it.Own());
      if t.None? {
        more := false;
      } else {
        out := out + [t.value];
      }
    }
    HeldDropped(store.pages, base, it.Own());
    it.Drop(store);
  }

  lemma OwnDistinct(ids: seq<PageId>, i: nat)
    requires Distinct(ids) && i <= |ids|
    ensures Distinct(ids[i..])
  {
  }

  lemma SortedLength(s: Sorter, all: seq<Tuple>, tuples: seq<Tuple>)
    requires s.SortedFrom(all, tuples)
    ensures |all| == |tuples|
  {
    assert |s.Entries(all)| == |all|;
  }

  lemma EntriesPrefix(s: Sorter, all: seq<Tuple>, out: seq<Tuple>)
    requires |out| <= |all| && out == all[..|out|]
    ensures s.Entries(out) == s.Entries(all)[..|out|]
  {
  }

  lemma HeldReads(pages: Pages, base: Pages, own: seq<PageId>, own': seq<PageId>)
    requires Held(pages, base, own) && IdSet(own') <= IdSet(own) && Distinct(own')
    ensures Held(pages - (IdSet(own) - IdSet(own')), base, own')
  {
  }

  lemma HeldDropped(pages: Pages, base: Pages, own: seq<PageId>)
    requires Held(pages, base, own)
    ensures pages - IdSet(own) == base
  {
  }

  // ---- sorting rows -------------------------------------------------------------------------------

  function RowOf(schema: Tuples.Schema, t: Tuple): Row {
    if Tuples.AllReadable(t, schema) then Tuples.GetValues(t, schema) else []
  }

  /** ORDER BY over the rows some schema decodes from tuples. */
  function RowSorter(fp: FloatOps, os: seq<OrderBy>, schema: Tuples.Schema): Sorter {
    Sorter(Comparator(fp, SortTypes(os), os),
           t => SortEntry(ProjectRow(fp, OrderExprs(os), RowOf(schema, t)), RowOf(schema, t)))
  }

  /** A row that can be sorted: it fits the schema, and its keys compare. */
  ghost predicate SortableRow(fp: FloatOps, os: seq<OrderBy>, schema: Tuples.Schema, row: Row) {
    && Tuples.Matches(row, schema) && Tuples.TupleSize(row, schema) < 0x1_0000_0000
    && KeyFits(ProjectRow(fp, OrderExprs(os), row), SortTypes(os))
  }

  ghost predicate Encodes(schema: Tuples.Schema, t: Tuple, row: Row) {
    Tuples.AllReadable(t, schema) && Tuples.GetValues(t, schema) == row && |t| == Tuples.TupleSize(row, schema)
  }

  method EncodeRows(schema: Tuples.Schema, rows: seq<Row>) returns (ts: seq<Tuple>)
    requires Tuples.SchemaOk(schema)
    requires forall i {:trigger rows[i]} :: 0 <= i < |rows| ==>
      Tuples.Matches(rows[i], schema) && Tuples.TupleSize(rows[i], schema) < 0x1_0000_0000
    ensures |ts| == |rows| && forall i {:trigger ts[i]} :: 0 <= i < |rows| ==> Encodes(schema, ts[i], rows[i])
  {
    hide Tuples.SchemaOk, Tuples.AllReadable, Tuples.GetValues;
    ts := [];
    var i := 0;
    while i < |rows|
      invariant i == |ts| <= |rows|
      invariant forall k {:trigger ts[k]} :: 0 <= k < i ==> Encodes(schema, ts[k], rows[k])
    {
      var data := Tuples.FromValues(rows[i], schema);
      assert Encodes(schema, data[..], rows[i]);
      ts := ts + [data[..]];
      i := i + 1;
    }
  }

  ghost predicate RowsFit(schema: Tuples.Schema, rows: seq<Row>) {
    forall i {:trigger rows[i]} :: 0 <= i < |rows| ==> InfoAt(1) + Tuples.TupleSize(rows[i], schema) <= Disk.PAGE_SIZE
  }

  lemma EncodedEntries(fp: FloatOps, os: seq<OrderBy>, schema: Tuples.Schema, ts: seq<Tuple>, rows: seq<Row>)
    requires |ts| == |rows| && forall i {:trigger ts[i]} :: 0 <= i < |rows| ==> Encodes(schema, ts[i], rows[i])
    requires forall i {:trigger rows[i]} :: 0 <= i < |rows| ==> SortableRow(fp, os, schema, rows[i])
    ensures RowSorter(fp, os, schema).Entries(ts) == WithKeys(fp, os, rows)
    ensures RowSorter(fp, os, schema).Fit(ts) && (AllFit(ts) <==> RowsFit(schema, rows))
  {
    var s := RowSorter(fp, os, schema);
    forall i | 0 <= i < |ts|
      ensures s.entryOf(ts[i]) == SortEntry(ProjectRow(fp, OrderExprs(os), rows[i]), rows[i])
      ensures s.Sortable(ts[i]) && Used([ts[i]]) == InfoAt(1) + Tuples.TupleSize(rows[i], schema)
    {
      assert Encodes(schema, ts[i], rows[i]) && SortableRow(fp, os, schema, rows[i]);
      TotalOne(ts[i]);
    }
  }

  /** Sorting rows through encoded tuples on pages is sorting the rows, and leaves
      no page behind; it fails exactly if some row is too big for a page. */
  method SortRowsOnPages(fp: FloatOps, os: seq<OrderBy>, schema: Tuples.Schema, store: PageStore, rows: seq<Row>)
    returns (sorted: seq<Row>, r: Outcome)
    requires store.Valid() && store.Clean() && Tuples.SchemaOk(schema)
    requires forall i {:trigger rows[i]} :: 0 <= i < |rows| ==> SortableRow(fp, os, schema, rows[i])
    modifies store
    ensures store.Valid() && r == if RowsFit(schema, rows) then Done else TupleTooBig
    ensures r.Done? ==> store.pages == old(store.pages) && sorted == SortRows(fp, os, rows)
  {
    hide Used, Tuples.SchemaOk, Tuples.AllReadable, Tuples.GetValues, AllFit, WithKeys, ReadsEmpty;
    var ts := EncodeRows(schema, rows);
    EncodedEntries(fp, os, schema, ts, rows);
    var s := RowSorter(fp, os, schema);
    var out: seq<Tuple>;
    out, r := SortClean(s, store, ts, |ts|);
    sorted := [];
    if r.Done? {
      DecodedRows(fp, os, schema, rows, out);
      sorted := seq(|out|, i requires 0 <= i < |out| => RowOf(schema, out[i]));
    }
  }

  lemma DecodedRows(fp: FloatOps, os: seq<OrderBy>, schema: Tuples.Schema, rows: seq<Row>, out: seq<Tuple>)
    requires var s := RowSorter(fp, os, schema);
      && |out| == |rows| && s.order.Ok() && s.order.FitAll(WithKeys(fp, os, rows))
      && s.Entries(out) == s.order.StableSort(WithKeys(fp, os, rows))[..|out|]
    ensures seq(|out|, i requires 0 <= i < |out| => RowOf(schema, out[i])) == SortRows(fp, os, rows)
  {
    var s := RowSorter(fp, os, schema);
    var all := s.order.StableSort(WithKeys(fp, os, rows));
    assert all[..|out|] == all;
    forall i | 0 <= i < |out|
      ensures RowOf(schema, out[i]) == all[i].row
    {
      assert s.Entries(out)[i] == s.entryOf(out[i]);
    }
  }

  /** Sorts rows through pages of the buffer pool. */
  method SortOnPages(db: Db, os: seq<OrderBy>, types: seq<SqlType>, rows: seq<Row>) returns (sorted: seq<Row>)
    requires PagesClean(db) && Sortable(db.fp, os, types, rows)
    ensures sorted == SortRows(db.fp, os, rows)
  {
    var schema := Tuples.NewSchema(types);
    var store := new PageStore(db.unwritten);
    SortableOnPages(db.fp, os, schema, rows);
    assert store.Clean();
    hide Sortable, PagesClean, Tuples.SchemaOk, SortableRow, RowsFit;
    var r;
    sorted, r := SortRowsOnPages(db.fp, os, schema, store, rows);
  }

  lemma SortableOnPages(fp: FloatOps, os: seq<OrderBy>, schema: Tuples.Schema, rows: seq<Row>)
    requires Tuples.SchemaOk(schema) && Sortable(fp, os, Tuples.TypesOf(schema.columns), rows)
    ensures forall i {:trigger rows[i]} :: 0 <= i < |rows| ==> SortableRow(fp, os, schema, rows[i])
    ensures RowsFit(schema, rows)
  {
    forall i | 0 <= i < |rows|
      ensures SortableRow(fp, os, schema, rows[i]) && InfoAt(1) + Tuples.TupleSize(rows[i], schema) <= Disk.PAGE_SIZE
    {
      Tuples.RowSizeIsTupleSize(rows[i], schema);
    }
  }
}
