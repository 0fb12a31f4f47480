/** What a stopped operator still has to produce, and what each of its steps
    takes off it. */
module ExecutorSteps {
  import opened Common
  import opened Entries
  import opened Values
  import opened Expressions
  import opened Plans
  import KeyEncoder

  lemma {:induction false} FilterConcat(fp: FloatOps, p: Option<Expr>, a: seq<Row>, b: seq<Row>)
    ensures FilterRows(fp, p, a + b) == FilterRows(fp, p, a) + FilterRows(fp, p, b)
  {
    if a == [] {
      assert a + b == b;
    } else {
      assert (a + b)[1..] == a[1..] + b;
      FilterConcat(fp, p, a[1..], b);
    }
  }

  lemma DecidesSuffix(fp: FloatOps, p: Option<Expr>, a: seq<Row>, b: seq<Row>)
    requires Decides(fp, p, a + b)
    ensures Decides(fp, p, a) && Decides(fp, p, b)
  {
    forall i | 0 <= i < |a| && p.Some?
      ensures Keep(fp, p.value, [a[i]]).Ok?
    {
      assert (a + b)[i] == a[i];
    }
    forall i | 0 <= i < |b| && p.Some?
      ensures Keep(fp, p.value, [b[i]]).Ok?
    {
      assert (a + b)[|a| + i] == b[i];
    }
  }

  lemma EvaluatesSuffix(fp: FloatOps, es: seq<Expr>, a: seq<Row>, b: seq<Row>)
    requires Evaluates(fp, es, a + b)
    ensures Evaluates(fp, es, a) && Evaluates(fp, es, b)
  {
    forall i | 0 <= i < |a|
      ensures EvaluateAll(fp, es, [a[i]]).Ok?
    {
      assert (a + b)[i] == a[i];
    }
    forall i | 0 <= i < |b|
      ensures EvaluateAll(fp, es, [b[i]]).Ok?
    {
      assert (a + b)[|a| + i] == b[i];
    }
  }

  // ---- joins ------------------------------------------------------------------------------------

  /** The rows the current left row still contributes, given the matches to come. */
  function Current(schema: seq<SqlType>, t: JoinType, left: Row, matched: bool, rest: seq<Row>): seq<Row> {
    if t.Left? && !matched && rest == [] then [PadRow(schema, left)] else rest
  }

  /** Producing some of the matches. */
  lemma CurrentStep(schema: seq<SqlType>, t: JoinType, left: Row, matched: bool, out: seq<Row>, rest: seq<Row>)
    ensures out + Current(schema, t, left, matched || out != [], rest) == Current(schema, t, left, matched, out + rest)
  {
  }

  lemma PairFetch(left: Row, heap: seq<HeapRow>, rids: seq<Rid>)
    requires rids != []
    ensures var row := RowAt(heap, rids[0]);
      Pair(left, FetchRows(heap, rids))
      == (if row.Some? && !row.value.deleted then [left + row.value.values] else []) + Pair(left, FetchRows(heap, rids[1..]))
  {
  }

  lemma {:induction false} JoinConcat(fp: FloatOps, schema: seq<SqlType>, t: JoinType, p: Option<Expr>, a: seq<Row>, b: seq<Row>, rights: seq<Row>)
    ensures JoinRows(fp, schema, t, p, a + b, rights) == JoinRows(fp, schema, t, p, a, rights) + JoinRows(fp, schema, t, p, b, rights)
  {
    if a == [] {
      assert a + b == b;
    } else {
      hide MatchRows, Padded;
      assert (a + b)[1..] == a[1..] + b;
      JoinConcat(fp, schema, t, p, a[1..], b, rights);
      Associate(Padded(schema, t, a[0], MatchRows(fp, p, a[0], rights)), JoinRows(fp, schema, t, p, a[1..], rights),
                JoinRows(fp, schema, t, p, b, rights));
    }
  }

  /** A nested-loop join as a value: what it joins, and where it stopped. */
  datatype Loop = Loop(fp: FloatOps, schema: seq<SqlType>, joinType: JoinType, on: Option<Expr>, rights: seq<Row>,
                       outer: seq<Row>, offset: nat, matched: bool, inner: seq<Row>)
  {
    function Joined(lefts: seq<Row>): seq<Row> {
      JoinRows(fp, schema, joinType, on, lefts, rights)
    }

    /** What the current left row still contributes. */
    function Head(rightTodo: seq<Row>): seq<Row>
      requires offset < |outer|
    {
      Current(schema, joinType, outer[offset], matched, MatchRows(fp, on, outer[offset], inner + rightTodo))
    }

    /** The rows still to come, given what the two sides still have. */
    function Todo(leftTodo: seq<Row>, rightTodo: seq<Row>): seq<Row> {
      if offset < |outer| then Head(rightTodo) + (Joined(outer[offset + 1..]) + Joined(leftTodo)) else Joined(leftTodo)
    }

    /** The predicate fails on none of the pairs still to come. */
    ghost predicate Decides(leftTodo: seq<Row>, rightTodo: seq<Row>) {
      && JoinDecides(fp, on, leftTodo, rights)
      && (offset < |outer| ==> JoinDecides(fp, on, outer[offset..], rights) && JoinDecides(fp, on, [outer[offset]], inner + rightTodo))
    }

    /** A new batch of left rows, the right side starting over. */
    function Refill(batch: seq<Row>): Loop {
      this.(outer := batch, offset := 0, matched := false)
    }

    lemma RowStart(leftTodo: seq<Row>)
      requires offset <= |outer| && inner == [] && !matched
      ensures Todo(leftTodo, rights) == Joined(outer[offset..]) + Joined(leftTodo)
    {
      var rows := outer[offset..];
      if rows != [] {
        assert rows[0] == outer[offset] && rows[1..] == outer[offset + 1..] && inner + rights == rights;
        assert Joined(rows) == Head(rights) + Joined(rows[1..]);
        Associate(Head(rights), Joined(rows[1..]), Joined(leftTodo));
      }
    }

    lemma RefillKeeps(batch: seq<Row>, leftTodo: seq<Row>, rightTodo: seq<Row>)
      requires offset >= |outer| && inner == [] && batch != [] && Decides(batch + leftTodo, rightTodo)
      ensures Refill(batch).Todo(leftTodo, rights) == Todo(batch + leftTodo, rightTodo)
      ensures Refill(batch).Decides(leftTodo, rights)
    {
      Refill(batch).RowStart(leftTodo);
      assert batch[0..] == batch && [] + rights == rights;
      JoinConcat(fp, schema, joinType, on, batch, leftTodo, rights);
      JoinDecidesParts(fp, on, batch, leftTodo, rights);
      JoinDecidesParts(fp, on, [batch[0]], batch[1..], rights);
      assert batch == [batch[0]] + batch[1..];
    }

    /** The right side is used up: the left row may need padding, the next one follows. */
    function Advance(): Loop {
      this.(offset := offset + 1, matched := false)
    }

    function Padding(): seq<Row>
      requires offset < |outer|
    {
      if joinType.Left? && !matched then [PadRow(schema, outer[offset])] else []
    }

    lemma AdvanceDecides(leftTodo: seq<Row>)
      requires offset < |outer| && Decides(leftTodo, [])
      ensures Advance().Decides(leftTodo, rights) || inner != []
    {
      var rest := outer[offset + 1..];
      assert [] + rights == rights;
      if rest != [] {
        assert outer[offset..] == [outer[offset]] + rest;
        JoinDecidesParts(fp, on, [outer[offset]], rest, rights);
        assert rest == [rest[0]] + rest[1..];
        JoinDecidesParts(fp, on, [rest[0]], rest[1..], rights);
      }
    }

    lemma AdvanceKeeps(leftTodo: seq<Row>)
      requires offset < |outer| && inner == [] && Decides(leftTodo, [])
      ensures Padding() + Advance().Todo(leftTodo, rights) == Todo(leftTodo, [])
      ensures Advance().Decides(leftTodo, rights)
    {
      AdvanceDecides(leftTodo);
      Advance().RowStart(leftTodo);
      assert inner + [] == [];
      assert Head([]) == Padding();
    }

    /** One right row is tried. */
    function Try(): Loop
      requires inner != [] && offset < |outer|
    {
      this.(inner := inner[1..], matched := matched || Keeps(fp, on, [outer[offset], inner[0]]))
    }

    /** The row the try produces. */
    function Tried(): seq<Row>
      requires inner != [] && offset < |outer|
    {
      if Keeps(fp, on, [outer[offset], inner[0]]) then [outer[offset] + inner[0]] else []
    }

    lemma TryHead(rightTodo: seq<Row>)
      requires inner != [] && offset < |outer|
      ensures Tried() + Try().Head(rightTodo) == Head(rightTodo)
    {
      var all := inner + rightTodo;
      assert all[0] == inner[0] && all[1..] == inner[1..] + rightTodo;
      CurrentStep(schema, joinType, outer[offset], matched, Tried(), MatchRows(fp, on, outer[offset], all[1..]));
    }

    lemma TryDecides(leftTodo: seq<Row>, rightTodo: seq<Row>)
      requires offset < |outer| && inner != [] && Decides(leftTodo, rightTodo)
      ensures on.Some? ==> Keep(fp, on.value, [outer[offset], inner[0]]).Ok?
      ensures Try().Decides(leftTodo, rightTodo)
    {
      var all := inner + rightTodo;
      assert all[0] == inner[0] && all[1..] == inner[1..] + rightTodo;
      assert [outer[offset]][0] == outer[offset];
      forall j | 0 <= j < |all[1..]| && on.Some?
        ensures Keep(fp, on.value, [outer[offset], all[1..][j]]).Ok?
      {
        assert all[1..][j] == all[j + 1];
      }
    }

    lemma TryKeeps(leftTodo: seq<Row>, rightTodo: seq<Row>)
      requires offset < |outer| && inner != [] && Decides(leftTodo, rightTodo)
      ensures on.Some? ==> Keep(fp, on.value, [outer[offset], inner[0]]).Ok?
      ensures Tried() + Try().Todo(leftTodo, rightTodo) == Todo(leftTodo, rightTodo)
      ensures Try().Decides(leftTodo, rightTodo)
    {
      TryHead(rightTodo);
      TryDecides(leftTodo, rightTodo);
      Associate(Tried(), Try().Head(rightTodo), Joined(outer[offset + 1..]) + Joined(leftTodo));
    }

    /** Taking a batch from the right side changes nothing. */
    lemma FetchKeeps(batch: seq<Row>, leftTodo: seq<Row>, rightTodo: seq<Row>)
      requires inner == []
      ensures this.(inner := batch).Todo(leftTodo, rightTodo) == Todo(leftTodo, batch + rightTodo)
      ensures Decides(leftTodo, batch + rightTodo) ==> this.(inner := batch).Decides(leftTodo, rightTodo)
    {
      assert [] + (batch + rightTodo) == batch + rightTodo;
    }
  }

  lemma JoinDecidesParts(fp: FloatOps, p: Option<Expr>, a: seq<Row>, b: seq<Row>, rights: seq<Row>)
    requires JoinDecides(fp, p, a + b, rights)
    ensures JoinDecides(fp, p, a, rights) && JoinDecides(fp, p, b, rights)
  {
    forall i, j | 0 <= i < |a| && 0 <= j < |rights| && p.Some?
      ensures Keep(fp, p.value, [a[i], rights[j]]).Ok?
    {
      assert (a + b)[i] == a[i];
    }
    forall i, j | 0 <= i < |b| && 0 <= j < |rights| && p.Some?
      ensures Keep(fp, p.value, [b[i], rights[j]]).Ok?
    {
      assert (a + b)[|a| + i] == b[i];
    }
  }

  // ---- index joins -----------------------------------------------------------------------------------

  lemma {:induction false} IndexJoinConcat(fp: FloatOps, schema: seq<SqlType>, t: JoinType, table: Table, index: Index, es: seq<Expr>,
                                           keyTypes: seq<SqlType>, childSchema: seq<SqlType>, a: seq<Row>, b: seq<Row>)
    ensures IndexJoinRows(fp, schema, t, table, index, es, keyTypes, childSchema, a + b)
      == IndexJoinRows(fp, schema, t, table, index, es, keyTypes, childSchema, a)
         + IndexJoinRows(fp, schema, t, table, index, es, keyTypes, childSchema, b)
  {
    hide Padded, IndexMatches;
    if a == [] {
      assert a + b == b;
    } else {
      hide OuterRows;
      assert (a + b)[1..] == a[1..] + b;
      IndexJoinConcat(fp, schema, t, table, index, es, keyTypes, childSchema, a[1..], b);
      Associate(OuterRows(fp, schema, t, table, index, es, keyTypes, childSchema, a[0]),
                  IndexJoinRows(fp, schema, t, table, index, es, keyTypes, childSchema, a[1..]),
                  IndexJoinRows(fp, schema, t, table, index, es, keyTypes, childSchema, b));
    }
  }

  lemma KeysBuildParts(fp: FloatOps, es: seq<Expr>, keyTypes: seq<SqlType>, childSchema: seq<SqlType>, a: seq<Row>, b: seq<Row>)
    requires KeysBuild(fp, es, keyTypes, childSchema, a + b)
    ensures KeysBuild(fp, es, keyTypes, childSchema, a) && KeysBuild(fp, es, keyTypes, childSchema, b)
  {
    forall i | 0 <= i < |a|
      ensures OuterKey(fp, es, keyTypes, childSchema, a[i]).Some?
      ensures var key := OuterKey(fp, es, keyTypes, childSchema, a[i]).value; NoNulls(key) ==> KeyEncoder.KeyOk(key)
    {
      assert (a + b)[i] == a[i];
    }
    forall i | 0 <= i < |b|
      ensures OuterKey(fp, es, keyTypes, childSchema, b[i]).Some?
      ensures var key := OuterKey(fp, es, keyTypes, childSchema, b[i]).value; NoNulls(key) ==> KeyEncoder.KeyOk(key)
    {
      assert (a + b)[|a| + i] == b[i];
    }
  }

  /** An index join as a value: what it joins, and where it stopped. `rids` is
      what is left of the current lookup, None before it. */
  datatype Probe = Probe(fp: FloatOps, schema: seq<SqlType>, joinType: JoinType, table: Table, index: Index, es: seq<Expr>,
                         keyTypes: seq<SqlType>, childSchema: seq<SqlType>,
                         outer: seq<Row>, offset: nat, matched: bool, rids: Option<seq<Rid>>)
  {
    function Joined(outers: seq<Row>): seq<Row> {
      IndexJoinRows(fp, schema, joinType, table, index, es, keyTypes, childSchema, outers)
    }

    function Key(outer: Row): Row {
      KeyOrEmpty(OuterKey(fp, es, keyTypes, childSchema, outer))
    }

    function Pending(): seq<Rid>
      requires offset < |outer|
    {
      if rids.Some? then rids.value else LookupRids(index, Key(outer[offset]))
    }

    /** What the current outer row still contributes. */
    function Head(): seq<Row>
      requires offset < |outer|
    {
      Current(schema, joinType, outer[offset], matched, Pair(outer[offset], FetchRows(table.heap, Pending())))
    }

    function Todo(outerTodo: seq<Row>): seq<Row> {
      if offset < |outer| then Head() + (Joined(outer[offset + 1..]) + Joined(outerTodo)) else Joined(outerTodo)
    }

    ghost predicate Builds(outerTodo: seq<Row>) {
      && KeysBuild(fp, es, keyTypes, childSchema, outerTodo)
      && (offset < |outer| ==> KeysBuild(fp, es, keyTypes, childSchema, outer[offset..]))
      && (rids.None? ==> !matched)
    }

    function Refill(batch: seq<Row>): Probe {
      this.(outer := batch, offset := 0, matched := false, rids := None)
    }

    lemma RowStart(outerTodo: seq<Row>)
      requires offset <= |outer| && rids.None? && !matched
      ensures Todo(outerTodo) == Joined(outer[offset..]) + Joined(outerTodo)
    {
      var rows := outer[offset..];
      if rows != [] {
        assert rows[0] == outer[offset] && rows[1..] == outer[offset + 1..];
        assert Joined(rows) == Head() + Joined(rows[1..]);
        Associate(Head(), Joined(rows[1..]), Joined(outerTodo));
      }
    }

    lemma RefillKeeps(batch: seq<Row>, outerTodo: seq<Row>)
      requires offset >= |outer| && batch != [] && Builds(batch + outerTodo)
      ensures Refill(batch).Todo(outerTodo) == Todo(batch + outerTodo) && Refill(batch).Builds(outerTodo)
    {
      Refill(batch).RowStart(outerTodo);
      assert batch[0..] == batch;
      IndexJoinConcat(fp, schema, joinType, table, index, es, keyTypes, childSchema, batch, outerTodo);
      KeysBuildParts(fp, es, keyTypes, childSchema, batch, outerTodo);
    }

    /** Looking the key up. */
    function Lookup(): Probe
      requires offset < |outer|
    {
      this.(rids := Some(Pending()))
    }

    lemma LookupKeeps(outerTodo: seq<Row>)
      requires offset < |outer| && Builds(outerTodo)
      ensures Lookup().Todo(outerTodo) == Todo(outerTodo) && Lookup().Builds(outerTodo)
      ensures var key := OuterKey(fp, es, keyTypes, childSchema, outer[offset]);
        key.Some? && (NoNulls(key.value) ==> KeyEncoder.KeyOk(key.value))
    {
      assert outer[offset..][0] == outer[offset];
    }

    /** One row identifier is fetched. */
    function Fetched(): seq<Row>
      requires offset < |outer| && rids.Some? && rids.value != []
    {
      var row := RowAt(table.heap, rids.value[0]);
      if row.Some? && !row.value.deleted then [outer[offset] + row.value.values] else []
    }

    function Fetch(): Probe
      requires offset < |outer| && rids.Some? && rids.value != []
    {
      this.(rids := Some(rids.value[1..]), matched := matched || Fetched() != [])
    }

    lemma FetchHead()
      requires offset < |outer| && rids.Some? && rids.value != []
      ensures Fetched() + Fetch().Head() == Head()
    {
      PairFetch(outer[offset], table.heap, rids.value);
      CurrentStep(schema, joinType, outer[offset], matched, Fetched(), Pair(outer[offset], FetchRows(table.heap, rids.value[1..])));
    }

    lemma FetchKeeps(outerTodo: seq<Row>)
      requires offset < |outer| && rids.Some? && rids.value != [] && Builds(outerTodo)
      ensures Fetched() + Fetch().Todo(outerTodo) == Todo(outerTodo) && Fetch().Builds(outerTodo)
    {
      FetchHead();
      Associate(Fetched(), Fetch().Head(), Joined(outer[offset + 1..]) + Joined(outerTodo));
    }

    /** The lookup is used up. */
    function Advance(): Probe {
      this.(offset := offset + 1, matched := false, rids := None)
    }

    function Padding(): seq<Row>
      requires offset < |outer|
    {
      if joinType.Left? && !matched then [PadRow(schema, outer[offset])] else []
    }

    lemma AdvanceBuilds(outerTodo: seq<Row>)
      requires offset < |outer| && Builds(outerTodo)
      ensures Advance().Builds(outerTodo)
    {
      var rest := outer[offset + 1..];
      assert outer[offset..] == [outer[offset]] + rest;
      KeysBuildParts(fp, es, keyTypes, childSchema, [outer[offset]], rest);
    }

    lemma AdvanceKeeps(outerTodo: seq<Row>)
      requires offset < |outer| && rids == Some([]) && Builds(outerTodo)
      ensures Padding() + Advance().Todo(outerTodo) == Todo(outerTodo)
      ensures Advance().Builds(outerTodo)
    {
      AdvanceBuilds(outerTodo);
      Advance().RowStart(outerTodo);
      assert Head() == Padding();
    }
  }
}
