/** SQL types and values. A Decimal is the 64 bits of its binary64 encoding. */
module Values {
  import opened Bytes

  datatype SqlType = Boolean | SmallInt | Integer | BigInt | Decimal | Varchar {
    predicate IsInlined() { !Varchar? }

    /** Bytes in the fixed-size part of a tuple. */
    function InlineSize(): nat {
      match this
      case Boolean => 1
      case SmallInt => 2
      case Integer => 4
      case BigInt => 8
      case Decimal => 8
      case Varchar => 4
    }

    /** Values of an integer type lie in [-IntBound, IntBound). */
    function IntBound(): int {
      match this
      case SmallInt => 0x8000
      case Integer => 0x8000_0000
      case BigInt => 0x8000_0000_0000_0000
      case _ => 0
    }
  }

  type Bits64 = x: nat | x < 0x1_0000_0000_0000_0000

  const SIGN: nat := 0x8000_0000_0000_0000

  datatype Value =
    | Bool(b: bool)
    | Int(width: SqlType, i: int)
    | Float(bits: Bits64)
    | Text(s: seq<Byte>)
    | Null(nullType: SqlType)
  {
    function Type(): SqlType {
      match this
      case Bool(_) => Boolean
      case Int(w, _) => w
      case Float(_) => Decimal
      case Text(_) => Varchar
      case Null(t) => t
    }

    /** An integer value fits its width; a string's length fits 32 bits. */
    predicate Ok() {
      match this
      case Int(w, i) => (w.SmallInt? || w.Integer? || w.BigInt?) && -w.IntBound() <= i < w.IntBound()
      case Text(s) => |s| < 0x1_0000_0000
      case _ => true
    }
  }

  // ---- binary64 comparison -------------------------------------------------------------

  predicate IsNan(bits: Bits64) {
    bits % SIGN > 0x7ff0_0000_0000_0000
  }

  /** Orders all bit patterns that are not NaN as the numbers they encode; both
      zeros get rank 0. */
  function Rank(bits: Bits64): int {
    if bits < SIGN then bits else -(bits - SIGN)
  }

  predicate FloatLess(a: Bits64, b: Bits64) {
    !IsNan(a) && !IsNan(b) && Rank(a) < Rank(b)
  }

  predicate FloatEqual(a: Bits64, b: Bits64) {
    !IsNan(a) && !IsNan(b) && Rank(a) == Rank(b)
  }
}
