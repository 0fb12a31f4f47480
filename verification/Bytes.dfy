/** Bytes, fixed-width numbers in both byte orders, and byte-wise comparison. */
module Bytes {
  import opened Entries

  type Byte = x: int | 0 <= x < 256

  function Pow256(w: nat): (p: nat)
    ensures p > 0
  {
    if w == 0 then 1 else 256 * Pow256(w - 1)
  }

  lemma Widths()
    ensures Pow256(1) == 0x100 && Pow256(2) == 0x1_0000 && Pow256(4) == 0x1_0000_0000 && Pow256(8) == 0x1_0000_0000_0000_0000
  {
    assert Pow256(2) == 256 * Pow256(1);
    assert Pow256(3) == 256 * Pow256(2) && Pow256(4) == 256 * Pow256(3);
    assert Pow256(5) == 256 * Pow256(4) && Pow256(6) == 256 * Pow256(5);
    assert Pow256(7) == 256 * Pow256(6) && Pow256(8) == 256 * Pow256(7);
  }

  /** The number a byte string spells, most significant byte first. */
  function Number(bs: seq<Byte>): (n: nat) {
    if bs == [] then 0 else bs[0] * Pow256(|bs| - 1) + Number(bs[1..])
  }

  function BigEndian(n: nat, w: nat): (bs: seq<Byte>)
    requires n < Pow256(w)
    ensures |bs| == w
  {
    if w == 0 then []
    else
      DivBound(n, w);
      [n / Pow256(w - 1)] + BigEndian(n % Pow256(w - 1), w - 1)
  }

  lemma DivBound(n: nat, w: nat)
    requires w > 0 && n < Pow256(w)
    ensures 0 <= n / Pow256(w - 1) < 256 && 0 <= n % Pow256(w - 1) < Pow256(w - 1)
  {
    var p := Pow256(w - 1);
    MulMono(256, n / p, p);
  }

  lemma MulMono(a: nat, b: nat, p: nat)
    ensures a <= b ==> a * p <= b * p
  {
  }

  lemma Distribute(a: nat, p: nat, x: nat, q: nat)
    ensures (a * p + x) * q == a * (p * q) + x * q
  {
  }

  lemma {:induction false} NumberBelow(bs: seq<Byte>)
    ensures Number(bs) < Pow256(|bs|)
  {
    if bs != [] {
      NumberBelow(bs[1..]);
      MulMono(bs[0], 255, Pow256(|bs| - 1));
    }
  }

  lemma {:induction false} NumberBigEndian(n: nat, w: nat)
    requires n < Pow256(w)
    ensures Number(BigEndian(n, w)) == n
  {
    if w > 0 {
      DivBound(n, w);
      NumberBigEndian(n % Pow256(w - 1), w - 1);
      assert BigEndian(n, w)[1..] == BigEndian(n % Pow256(w - 1), w - 1);
    }
  }

  lemma {:induction false} NumberConcat(a: seq<Byte>, b: seq<Byte>)
    ensures Number(a + b) == Number(a) * Pow256(|b|) + Number(b)
  {
    if a == [] {
      assert a + b == b;
    } else {
      assert (a + b)[1..] == a[1..] + b;
      NumberConcat(a[1..], b);
      PowSum(|a| - 1, |b|);
      Distribute(a[0], Pow256(|a| - 1), Number(a[1..]), Pow256(|b|));
      assert Number(a + b) == a[0] * Pow256(|a| - 1 + |b|) + Number(a[1..] + b);
    }
  }

  lemma {:induction false} PowSum(m: nat, n: nat)
    ensures Pow256(m + n) == Pow256(m) * Pow256(n)
  {
    if m > 0 {
      PowSum(m - 1, n);
      assert 256 * (Pow256(m - 1) * Pow256(n)) == (256 * Pow256(m - 1)) * Pow256(n);
    }
  }

  /** How byte slices compare: the first difference decides, then the length. */
  function CompareBytes(a: seq<Byte>, b: seq<Byte>): Ordering {
    if a == [] then (if b == [] then Equal else Less)
    else if b == [] then Greater
    else if a[0] != b[0] then CompareInt(a[0], b[0])
    else CompareBytes(a[1..], b[1..])
  }

  lemma HeadDecides(x: nat, y: nat, p: nat, m: nat, n: nat)
    requires m < p && n < p
    ensures CompareInt(x * p + m, y * p + n) == if x != y then CompareInt(x, y) else CompareInt(m, n)
  {
    MulMono(x + 1, y, p);
    MulMono(y + 1, x, p);
  }

  /** Strings of one width compare like the numbers they spell. */
  lemma {:induction false} CompareBytesIsNumeric(a: seq<Byte>, b: seq<Byte>)
    requires |a| == |b|
    ensures CompareBytes(a, b) == CompareInt(Number(a), Number(b))
  {
    if a != [] {
      CompareBytesIsNumeric(a[1..], b[1..]);
      NumberBelow(a[1..]);
      NumberBelow(b[1..]);
      HeadDecides(a[0], b[0], Pow256(|a| - 1), Number(a[1..]), Number(b[1..]));
    }
  }

  lemma {:induction false} CompareBytesOrder(a: seq<Byte>, b: seq<Byte>)
    ensures CompareBytes(a, b).Equal? <==> a == b
    ensures CompareBytes(a, b).Less? <==> CompareBytes(b, a).Greater?
  {
    if a != [] && b != [] {
      CompareBytesOrder(a[1..], b[1..]);
      assert a == [a[0]] + a[1..] && b == [b[0]] + b[1..];
    }
  }

  lemma {:induction false} CompareBytesTransitive(a: seq<Byte>, b: seq<Byte>, c: seq<Byte>)
    requires !CompareBytes(a, b).Greater? && !CompareBytes(b, c).Greater?
    ensures !CompareBytes(a, c).Greater?
    ensures CompareBytes(a, b).Less? || CompareBytes(b, c).Less? ==> CompareBytes(a, c).Less?
  {
    if a != [] && b != [] && c != [] && a[0] == b[0] == c[0] {
      CompareBytesTransitive(a[1..], b[1..], c[1..]);
    }
  }

  /** A number's bytes, least significant first. */
  function LittleEndian(n: nat, w: nat): (bs: seq<Byte>)
    requires n < Pow256(w)
    ensures |bs| == w
  {
    if w == 0 then [] else [n % 256] + LittleEndian(n / 256, w - 1)
  }

  function LittleNumber(bs: seq<Byte>): (n: nat) {
    if bs == [] then 0 else bs[0] + 256 * LittleNumber(bs[1..])
  }

  lemma {:induction false} LittleRoundTrip(n: nat, w: nat)
    requires n < Pow256(w)
    ensures LittleNumber(LittleEndian(n, w)) == n
  {
    if w > 0 {
      LittleRoundTrip(n / 256, w - 1);
      assert LittleEndian(n, w)[1..] == LittleEndian(n / 256, w - 1);
    }
  }
}
