/** Order-preserving encoding of one- and two-column index keys. */
module KeyEncoder {
  import opened Bytes
  import opened Entries
  import opened Values

  /** Flip the sign bit of a positive number, all bits of a negative one. */
  function EncodeF64(bits: Bits64): Bits64 {
    if bits < SIGN then bits + SIGN else 0xffff_ffff_ffff_ffff - bits
  }

  predicate Indexable(t: SqlType) { !t.Varchar? }

  /** The bytes of one key column. `v ^ MIN` on a signed integer adds half the
      range to it. */
  function EncodeValue(v: Value): (bs: seq<Byte>)
    requires v.Ok() && !v.Null? && Indexable(v.Type())
    ensures |bs| == v.Type().InlineSize()
  {
    Widths();
    match v
    case Bool(b) => [if b then 1 else 0]
    case Int(w, i) => BigEndian(i + w.IntBound(), w.InlineSize())
    case Float(bits) => BigEndian(EncodeF64(bits), 8)
  }

  predicate KeyOk(vs: seq<Value>) {
    forall k :: 0 <= k < |vs| ==> vs[k].Ok() && !vs[k].Null? && Indexable(vs[k].Type())
  }

  /** The columns of a key, one after the other. */
  function EncodeKey(vs: seq<Value>): seq<Byte>
    requires KeyOk(vs)
  {
    if vs == [] then [] else EncodeValue(vs[0]) + EncodeKey(vs[1..])
  }

  predicate SameTypes(a: seq<Value>, b: seq<Value>) {
    |a| == |b| && forall k :: 0 <= k < |a| ==> a[k].Type() == b[k].Type()
  }

  /** Fills a key's bytes, the second column right behind the first. */
  method EncodeTwoColKey(first: Value, second: Value, n: nat) returns (data: array<Byte>)
    requires KeyOk([first, second]) && n == first.Type().InlineSize() + second.Type().InlineSize()
    ensures fresh(data) && data[..] == EncodeKey([first, second])
  {
    hide EncodeValue, Value.Type, SqlType.InlineSize;
    ghost var key := [first, second];
    assert key[0] == first && key[1] == second;
    data := new Byte[n](_ => 0);
    var firstLen := first.Type().InlineSize();
    var a, b := EncodeValue(first), EncodeValue(second);
    forall k | 0 <= k < firstLen {
      data[k] := a[k];
    }
    forall k | firstLen <= k < n {
      data[k] := b[k - firstLen];
    }
    assert key[1..] == [second] && [second][0] == second && [second][1..] == [];
    assert EncodeKey([second]) == b;
    assert data[..] == a + b;
  }

  // ---- the order keys are meant to have -------------------------------------------------

  /** totalOrder of section 5.10 of IEEE 754-2008, for binary64: negative NaNs,
      negative numbers, -0, +0, positive numbers, positive NaNs. */
  predicate TotalOrderLess(a: Bits64, b: Bits64) {
    if a >= SIGN && b < SIGN then true
    else if a < SIGN && b >= SIGN then false
    else if IsNan(a) != IsNan(b) then (if a < SIGN then IsNan(b) else IsNan(a))
    else if IsNan(a) then (if a < SIGN then a < b else a > b)
    else Rank(a) < Rank(b)
  }

  function CompareValue(a: Value, b: Value): Ordering
    requires a.Ok() && b.Ok() && a.Type() == b.Type() && !a.Null? && !b.Null? && Indexable(a.Type())
  {
    match (a, b)
    case (Bool(x), Bool(y)) => if !x && y then Less else if x == y then Equal else Greater
    case (Int(_, x), Int(_, y)) => CompareInt(x, y)
    case (Float(x), Float(y)) => if TotalOrderLess(x, y) then Less else if x == y then Equal else Greater
  }

  /** Lexicographic order of tuples. */
  function CompareKey(a: seq<Value>, b: seq<Value>): Ordering
    requires SameTypes(a, b) && KeyOk(a) && KeyOk(b)
  {
    if a == [] then Equal
    else
      var c := CompareValue(a[0], b[0]);
      if c.Equal? then CompareKey(a[1..], b[1..]) else c
  }

  // ---- encoding keeps the order ------------------------------------------------------------

  lemma EncodeF64Monotone(a: Bits64, b: Bits64)
    ensures EncodeF64(a) < EncodeF64(b) <==> TotalOrderLess(a, b)
    ensures EncodeF64(a) == EncodeF64(b) <==> a == b
  {
  }

  lemma EncodeValueOrder(a: Value, b: Value)
    requires a.Ok() && b.Ok() && a.Type() == b.Type() && !a.Null? && !b.Null? && Indexable(a.Type())
    ensures CompareBytes(EncodeValue(a), EncodeValue(b)) == CompareValue(a, b)
  {
    hide EncodeF64, TotalOrderLess, IsNan, Rank, BigEndian, Number, Pow256;
    match (a, b)
    case (Bool(x), Bool(y)) => EncodeBoolOrder(x, y);
    case (Int(w, x), Int(_, y)) =>
      Widths();
      BigEndianOrder(x + w.IntBound(), y + w.IntBound(), w.InlineSize());
    case (Float(x), Float(y)) =>
      Widths();
      BigEndianOrder(EncodeF64(x), EncodeF64(y), 8);
      EncodeF64Monotone(x, y);
  }

  lemma EncodeBoolOrder(x: bool, y: bool)
    ensures CompareBytes(EncodeValue(Bool(x)), EncodeValue(Bool(y))) == CompareValue(Bool(x), Bool(y))
  {
    assert EncodeValue(Bool(x))[1..] == [] && EncodeValue(Bool(y))[1..] == [];
  }

  lemma BigEndianOrder(m: nat, n: nat, w: nat)
    requires m < Pow256(w) && n < Pow256(w)
    ensures CompareBytes(BigEndian(m, w), BigEndian(n, w)) == CompareInt(m, n)
  {
    CompareBytesIsNumeric(BigEndian(m, w), BigEndian(n, w));
    NumberBigEndian(m, w);
    NumberBigEndian(n, w);
  }

  lemma {:induction false} ComparePrefix(a: seq<Byte>, b: seq<Byte>, c: seq<Byte>, d: seq<Byte>)
    requires |a| == |b|
    ensures CompareBytes(a + c, b + d) == if CompareBytes(a, b).Equal? then CompareBytes(c, d) else CompareBytes(a, b)
  {
    if a == [] {
      assert a + c == c && b + d == d;
    } else {
      ComparePrefix(a[1..], b[1..], c, d);
      assert (a + c)[1..] == a[1..] + c && (b + d)[1..] == b[1..] + d;
    }
  }

  /** Byte order of encoded keys is value order, column by column. */
  lemma {:induction false} EncodeKeyOrder(a: seq<Value>, b: seq<Value>)
    requires SameTypes(a, b) && KeyOk(a) && KeyOk(b)
    ensures |EncodeKey(a)| == |EncodeKey(b)|
    ensures CompareBytes(EncodeKey(a), EncodeKey(b)) == CompareKey(a, b)
  {
    if a != [] {
      EncodeKeyOrder(a[1..], b[1..]);
      EncodeValueOrder(a[0], b[0]);
      ComparePrefix(EncodeValue(a[0]), EncodeValue(b[0]), EncodeKey(a[1..]), EncodeKey(b[1..]));
    }
  }

  lemma {:induction false} CompareKeyEqual(a: seq<Value>, b: seq<Value>)
    requires SameTypes(a, b) && KeyOk(a) && KeyOk(b)
    ensures CompareKey(a, b).Equal? <==> a == b
  {
    if a != [] {
      CompareKeyEqual(a[1..], b[1..]);
      assert a == [a[0]] + a[1..] && b == [b[0]] + b[1..];
    }
  }

  /** The integer an index keeps for a key: what the key's bytes spell. */
  function KeyNumber(vs: seq<Value>): nat
    requires KeyOk(vs)
  {
    Number(EncodeKey(vs))
  }

  /** Integer keys are faithful: they order as the keys do, and no two keys
      share one. */
  lemma KeyNumberOrder(a: seq<Value>, b: seq<Value>)
    requires SameTypes(a, b) && KeyOk(a) && KeyOk(b)
    ensures CompareInt(KeyNumber(a), KeyNumber(b)) == CompareKey(a, b)
    ensures KeyNumber(a) == KeyNumber(b) <==> a == b
  {
    EncodeKeyOrder(a, b);
    CompareBytesIsNumeric(EncodeKey(a), EncodeKey(b));
    CompareKeyEqual(a, b);
  }
}
