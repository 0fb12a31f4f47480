/** Tuples: the byte layout of a row, written once and read back by column. */
module Tuples {
  import opened Bytes
  import opened Values

  // ---- schemas ----------------------------------------------------------------------------

  datatype Column = Column(sqlType: SqlType, valueOffset: nat)

  /** Columns with their offsets, the size of the fixed part, and which columns
      keep their payload outside it. */
  datatype Schema = Schema(inlinedSize: nat, columns: seq<Column>, uninlined: seq<nat>)

  function BitmapSize(columns: nat): nat { (columns + 7) / 8 }

  /** Which of the first `n` columns are not inlined. */
  function UninlinedOf(types: seq<SqlType>, n: nat): (idxs: seq<nat>)
    requires n <= |types|
    ensures forall k :: 0 <= k < |idxs| ==> idxs[k] < n && types[idxs[k]].Varchar?
  {
    if n == 0 then [] else UninlinedOf(types, n - 1) + if types[n - 1].Varchar? then [n - 1] else []
  }

  function TypesOf(columns: seq<Column>): (types: seq<SqlType>)
    ensures |types| == |columns| && forall i :: 0 <= i < |types| ==> types[i] == columns[i].sqlType
  {
    seq(|columns|, i requires 0 <= i < |columns| => columns[i].sqlType)
  }

  /** The slot of column `i` ends where the next one starts. */
  ghost predicate EndsAt(columns: seq<Column>, end: nat, i: nat)
    requires i < |columns|
  {
    columns[i].valueOffset + columns[i].sqlType.InlineSize() == if i + 1 < |columns| then columns[i + 1].valueOffset else end
  }

  function SlotEnd(s: Schema, i: nat): nat
    requires i < |s.columns|
  {
    s.columns[i].valueOffset + s.columns[i].sqlType.InlineSize()
  }

  /** The null bitmap, then one slot per column, back to back. */
  ghost predicate SchemaOk(s: Schema) {
    && LaidOut(s.columns, BitmapSize(|s.columns|), s.inlinedSize)
    && s.uninlined == UninlinedOf(TypesOf(s.columns), |s.columns|)
  }

  /** Slots fill the bytes from `start` to `end` in order. */
  ghost predicate LaidOut(columns: seq<Column>, start: nat, end: nat) {
    && (if columns == [] then end else columns[0].valueOffset) == start
    && (forall i {:trigger EndsAt(columns, end, i)} :: 0 <= i < |columns| ==> EndsAt(columns, end, i))
  }

  lemma LaidOutAppend(columns: seq<Column>, start: nat, end: nat, t: SqlType)
    requires LaidOut(columns, start, end)
    ensures LaidOut(columns + [Column(t, end)], start, end + t.InlineSize())
  {
    var columns', end' := columns + [Column(t, end)], end + t.InlineSize();
    forall i | 0 <= i < |columns'|
      ensures EndsAt(columns', end', i)
    {
      assert i < |columns| ==> EndsAt(columns, end, i);
    }
  }

  method NewSchema(types: seq<SqlType>) returns (s: Schema)
    ensures SchemaOk(s) && TypesOf(s.columns) == types
  {
    var offset: nat := BitmapSize(|types|);
    var columns: seq<Column> := [];
    var uninlined: seq<nat> := [];
    var i: nat := 0;
    while i < |types|
      invariant i == |columns| <= |types|
      invariant forall k :: 0 <= k < i ==> columns[k].sqlType == types[k]
      invariant LaidOut(columns, BitmapSize(|types|), offset)
      invariant uninlined == UninlinedOf(types, i)
    {
      if !types[i].IsInlined() {
        uninlined := uninlined + [i];
      }
      LaidOutAppend(columns, BitmapSize(|types|), offset, types[i]);
      columns := columns + [Column(types[i], offset)];
      offset := offset + types[i].InlineSize();
      i := i + 1;
    }
    s := Schema(offset, columns, uninlined);
    assert TypesOf(columns) == types;
  }

  lemma {:induction false} SlotFirst(s: Schema, i: nat)
    requires SchemaOk(s) && i < |s.columns|
    ensures BitmapSize(|s.columns|) <= s.columns[i].valueOffset
  {
    if i > 0 {
      SlotFirst(s, i - 1);
      assert EndsAt(s.columns, s.inlinedSize, i - 1);
    }
  }

  lemma {:induction false} SlotLast(s: Schema, j: nat)
    requires SchemaOk(s) && j < |s.columns|
    ensures SlotEnd(s, j) <= s.inlinedSize
    decreases |s.columns| - j
  {
    assert EndsAt(s.columns, s.inlinedSize, j);
    if j + 1 < |s.columns| {
      SlotLast(s, j + 1);
    }
  }

  lemma {:induction false} SlotOrder(s: Schema, i: nat, j: nat)
    requires SchemaOk(s) && i < j < |s.columns|
    ensures SlotEnd(s, i) <= s.columns[j].valueOffset
  {
    assert EndsAt(s.columns, s.inlinedSize, j - 1);
    if i + 1 < j {
      SlotOrder(s, i, j - 1);
    }
  }

  /** Slots lie behind the bitmap, in order and apart from each other. */
  lemma SlotsApart(s: Schema, i: nat, j: nat)
    requires SchemaOk(s) && i <= j < |s.columns|
    ensures BitmapSize(|s.columns|) <= s.columns[i].valueOffset && SlotEnd(s, j) <= s.inlinedSize
    ensures i < j ==> SlotEnd(s, i) <= s.columns[j].valueOffset
    ensures EndsAt(s.columns, s.inlinedSize, i) && EndsAt(s.columns, s.inlinedSize, j)
  {
    SlotFirst(s, i);
    SlotLast(s, j);
    if i < j {
      SlotOrder(s, i, j);
    }
  }

  // ---- the null bitmap -----------------------------------------------------------------------

  /** Bitwise or and bitwise and. */
  function Or(a: nat, b: nat): nat {
    if a == 0 && b == 0 then 0 else 2 * Or(a / 2, b / 2) + if a % 2 == 1 || b % 2 == 1 then 1 else 0
  }

  function And(a: nat, b: nat): nat {
    if a == 0 || b == 0 then 0 else 2 * And(a / 2, b / 2) + if a % 2 == 1 && b % 2 == 1 then 1 else 0
  }

  /** `1 << bit`. */
  function Mask(bit: nat): (m: nat)
    ensures m > 0
  {
    if bit == 0 then 1 else 2 * Mask(bit - 1)
  }

  lemma {:induction false} OrBelow(a: nat, b: nat, n: nat)
    requires a < Mask(n) && b < Mask(n)
    ensures Or(a, b) < Mask(n)
  {
    if n > 0 {
      OrBelow(a / 2, b / 2, n - 1);
    }
  }

  /** Setting one bit sets that bit and leaves the others. */
  lemma {:induction false} OrMask(b: nat, bit: nat, other: nat)
    ensures And(Or(b, Mask(bit)), Mask(other)) != 0 <==> other == bit || And(b, Mask(other)) != 0
  {
    var x := Or(b, Mask(bit));
    if bit > 0 && other > 0 {
      OrMask(b / 2, bit - 1, other - 1);
      assert x / 2 == Or(b / 2, Mask(bit - 1));
    } else if bit == 0 && other > 0 {
      assert x / 2 == Or(b / 2, 0);
      OrZero(b / 2);
    }
  }

  lemma {:induction false} OrZero(b: nat)
    ensures Or(b, 0) == b
  {
    if b > 0 {
      OrZero(b / 2);
    }
  }

  predicate TestBit(b: Byte, bit: nat) {
    And(b, Mask(bit)) != 0
  }

  function SetBit(b: Byte, bit: nat): Byte
    requires bit < 8
  {
    MaskMono(bit, 7);
    assert Mask(8) == 256 by { assert Mask(8) == 2 * Mask(7) && Mask(7) == 2 * Mask(6) && Mask(6) == 2 * Mask(5) && Mask(5) == 2 * Mask(4); }
    OrBelow(b, Mask(bit), 8);
    Or(b, Mask(bit))
  }

  lemma {:induction false} MaskMono(a: nat, b: nat)
    requires a <= b
    ensures Mask(a) <= Mask(b)
  {
    if a < b {
      MaskMono(a, b - 1);
    }
  }

  predicate IsNull(data: seq<Byte>, col: nat)
    requires col / 8 < |data|
  {
    TestBit(data[col / 8], col % 8)
  }

  // ---- values to bytes and back --------------------------------------------------------------

  function Serialize(v: Value): (bs: seq<Byte>)
    requires v.Ok() && !v.Null?
    ensures |bs| == if v.Text? then 4 + |v.s| else v.Type().InlineSize()
  {
    Widths();
    match v
    case Bool(b) => [if b then 1 else 0]
    case Int(w, i) => LittleEndian(if i >= 0 then i else i + 2 * w.IntBound(), w.InlineSize())
    case Float(bits) => LittleEndian(bits, 8)
    case Text(s) => LittleEndian(|s|, 4) + s
  }

  /** Reading is in bounds. */
  predicate HasPayload(bs: seq<Byte>, t: SqlType) {
    |bs| >= t.InlineSize() && (t.Varchar? ==> |bs| >= 4 + LittleNumber(bs[..4]))
  }

  function Deserialize(bs: seq<Byte>, t: SqlType): Value
    requires HasPayload(bs, t)
  {
    var n := LittleNumber(bs[..t.InlineSize()]);
    match t
    case Boolean => Bool(bs[0] != 0)
    case Decimal => Float(n % (2 * SIGN))
    case Varchar => Text(bs[4..4 + n])
    case _ => Int(t, if n < t.IntBound() then n else n - 2 * t.IntBound())
  }

  /** Reading back what was written, whatever follows it. */
  lemma SerializeRoundTrip(v: Value, rest: seq<Byte>)
    requires v.Ok() && !v.Null?
    ensures HasPayload(Serialize(v) + rest, v.Type()) && Deserialize(Serialize(v) + rest, v.Type()) == v
  {
    hide LittleEndian, Pow256;
    Widths();
    var bs := Serialize(v) + rest;
    match v
    case Bool(b) =>
    case Int(w, i) =>
      var n := if i >= 0 then i else i + 2 * w.IntBound();
      LittleRoundTrip(n, w.InlineSize());
      assert bs[..w.InlineSize()] == LittleEndian(n, w.InlineSize());
    case Float(bits) =>
      LittleRoundTrip(bits, 8);
      assert bs[..8] == LittleEndian(bits, 8);
    case Text(s) =>
      LittleRoundTrip(|s|, 4);
      assert bs[..4] == LittleEndian(|s|, 4);
      assert bs[4..4 + |s|] == s;
  }

  // ---- reading a tuple ---------------------------------------------------------------------------

  /** Where the bytes of column `i` start. */
  function PayloadStart(data: seq<Byte>, s: Schema, i: nat): nat
    requires i < |s.columns| && s.columns[i].valueOffset + s.columns[i].sqlType.InlineSize() <= |data|
  {
    var c := s.columns[i];
    if c.sqlType.IsInlined() then c.valueOffset else LittleNumber(data[c.valueOffset..c.valueOffset + 4])
  }

  /** Reading column `i` stays in bounds. */
  predicate Readable(data: seq<Byte>, s: Schema, i: nat) {
    && i < |s.columns| && i / 8 < |data|
    && (IsNull(data, i)
        || (s.columns[i].valueOffset + s.columns[i].sqlType.InlineSize() <= |data|
            && PayloadStart(data, s, i) <= |data| && HasPayload(data[PayloadStart(data, s, i)..], s.columns[i].sqlType)))
  }

  function GetValue(data: seq<Byte>, s: Schema, i: nat): Value
    requires Readable(data, s, i)
  {
    if IsNull(data, i) then Null(s.columns[i].sqlType)
    else Deserialize(data[PayloadStart(data, s, i)..], s.columns[i].sqlType)
  }

  function GetValues(data: seq<Byte>, s: Schema): seq<Value>
    requires forall i :: 0 <= i < |s.columns| ==> Readable(data, s, i)
  {
    seq(|s.columns|, i requires 0 <= i < |s.columns| => GetValue(data, s, i))
  }

  // ---- writing a tuple ---------------------------------------------------------------------------

  predicate Matches(values: seq<Value>, s: Schema) {
    |values| == |s.columns| && forall i :: 0 <= i < |values| ==> values[i].Ok() && values[i].Type() == s.columns[i].sqlType
  }

  function VariableSize(v: Value): nat {
    if v.Text? then |v.s| + 4 else 0
  }

  /** Bytes the variable-length columns among the first `n` take. */
  function VariableBytes(values: seq<Value>, n: nat): nat
    requires n <= |values|
  {
    if n == 0 then 0 else VariableBytes(values, n - 1) + VariableSize(values[n - 1])
  }

  function TupleSize(values: seq<Value>, s: Schema): nat {
    s.inlinedSize + VariableBytes(values, |values|)
  }

  /** Bytes the slots of the first `n` columns take. */
  function SlotBytes(types: seq<SqlType>, n: nat): nat
    requires n <= |types|
  {
    if n == 0 then 0 else SlotBytes(types, n - 1) + types[n - 1].InlineSize()
  }

  /** Bytes a row takes as a tuple. */
  function RowSize(values: seq<Value>, types: seq<SqlType>): nat {
    BitmapSize(|types|) + SlotBytes(types, |types|) + VariableBytes(values, |values|)
  }

  lemma {:induction false} SlotStarts(s: Schema, i: nat)
    requires SchemaOk(s) && i < |s.columns|
    ensures s.columns[i].valueOffset == BitmapSize(|s.columns|) + SlotBytes(TypesOf(s.columns), i)
  {
    if i > 0 {
      SlotStarts(s, i - 1);
      assert EndsAt(s.columns, s.inlinedSize, i - 1);
    }
  }

  lemma RowSizeIsTupleSize(values: seq<Value>, s: Schema)
    requires SchemaOk(s)
    ensures TupleSize(values, s) == RowSize(values, TypesOf(s.columns))
  {
    if s.columns != [] {
      var n := |s.columns| - 1;
      SlotStarts(s, n);
      assert EndsAt(s.columns, s.inlinedSize, n);
    }
  }

  function SumOver(values: seq<Value>, idxs: seq<nat>): nat
    requires forall k :: 0 <= k < |idxs| ==> idxs[k] < |values|
  {
    if idxs == [] then 0
    else SumOver(values, idxs[..|idxs| - 1]) + VariableSize(values[idxs[|idxs| - 1]])
  }

  lemma {:induction false} SumOverUninlined(values: seq<Value>, types: seq<SqlType>, n: nat)
    requires n <= |values| == |types| && forall i :: 0 <= i < |values| ==> values[i].Type() == types[i]
    ensures SumOver(values, UninlinedOf(types, n)) == VariableBytes(values, n)
  {
    if n > 0 {
      SumOverUninlined(values, types, n - 1);
      var idxs := UninlinedOf(types, n - 1);
      if types[n - 1].Varchar? {
        assert (idxs + [n - 1])[..|idxs|] == idxs;
      } else {
        assert !values[n - 1].Text?;
        assert idxs + [] == idxs;
      }
    }
  }

  /** Bytes outside [lo, hi) are the same. */
  ghost predicate SameOutside(a: seq<Byte>, b: seq<Byte>, lo: nat, hi: nat) {
    |a| == |b| && forall k :: 0 <= k < |a| && !(lo <= k < hi) ==> a[k] == b[k]
  }

  lemma SameSlice(a: seq<Byte>, b: seq<Byte>, lo: nat, hi: nat, x: nat, y: nat)
    requires SameOutside(a, b, lo, hi) && x <= y <= |a| && (y <= lo || hi <= x)
    ensures a[x..y] == b[x..y]
  {
  }

  /** What a column leaves in the bytes: its slot, and a payload at some place. */
  datatype Image = Image(slot: seq<Byte>, at: nat, payload: seq<Byte>)

  function ImageOf(v: Value, at: nat): (image: Image)
    requires v.Ok() && at < 0x1_0000_0000
    ensures image.at == at
  {
    if v.Null? then Image([], at, [])
    else if v.Text? then Image(OffsetBytes(at), at, Serialize(v))
    else Image(Serialize(v), at, [])
  }

  /** The slot stands at `offset`, the payload within [lo, hi). */
  ghost predicate Placed(data: seq<Byte>, offset: nat, lo: nat, hi: nat, x: Image) {
    && offset + |x.slot| <= |data| && data[offset..offset + |x.slot|] == x.slot
    && (x.payload != [] ==>
          lo <= x.at && x.at + |x.payload| <= hi && hi <= |data| && data[x.at..x.at + |x.payload|] == x.payload)
  }

  /** Writing at [x, y), away from slot and payload, leaves a column placed. */
  lemma PlacedKeeps(a: seq<Byte>, b: seq<Byte>, offset: nat, lo: nat, hi: nat, hi': nat, image: Image, x: nat, y: nat)
    requires Placed(a, offset, lo, hi, image) && SameOutside(a, b, x, y) && hi <= hi' <= |a|
    requires y <= offset || offset + |image.slot| <= x
    requires image.payload != [] ==> y <= lo || hi <= x
    ensures Placed(b, offset, lo, hi', image)
  {
    SameSlice(a, b, x, y, offset, offset + |image.slot|);
    if image.payload != [] {
      SameSlice(a, b, x, y, image.at, image.at + |image.payload|);
    }
  }

  /** A placed column with its null bit reads back. */
  lemma PlacedReads(data: seq<Byte>, s: Schema, i: nat, v: Value, at: nat, hi: nat)
    requires i < |s.columns| && v.Ok() && v.Type() == s.columns[i].sqlType && at < 0x1_0000_0000
    requires i / 8 < |data| && (IsNull(data, i) <==> v.Null?)
    requires Placed(data, s.columns[i].valueOffset, s.inlinedSize, hi, ImageOf(v, at))
    ensures Readable(data, s, i) && GetValue(data, s, i) == v
  {
    hide Serialize;
    hide Deserialize;
    if v.Text? {
      Widths();
      LittleRoundTrip(at, 4);
      ReadsAt(data, at, v);
    } else if !v.Null? {
      ReadsAt(data, s.columns[i].valueOffset, v);
    }
  }

  lemma ReadsAt(data: seq<Byte>, start: nat, v: Value)
    requires v.Ok() && !v.Null? && start + |Serialize(v)| <= |data| && data[start..start + |Serialize(v)|] == Serialize(v)
    ensures HasPayload(data[start..], v.Type()) && Deserialize(data[start..], v.Type()) == v
  {
    var rest := data[start + |Serialize(v)|..];
    assert data[start..] == Serialize(v) + rest;
    SerializeRoundTrip(v, rest);
  }

  /** Puts bytes at a place in the buffer. */
  method CopyTo(data: array<Byte>, at: nat, bytes: seq<Byte>)
    requires at + |bytes| <= data.Length
    modifies data
    ensures SameOutside(old(data[..]), data[..], at, at + |bytes|) && data[..][at..at + |bytes|] == bytes
  {
    forall k | 0 <= k < |bytes| {
      data[at + k] := bytes[k];
    }
  }

  ghost predicate ColumnOk(data: seq<Byte>, s: Schema, values: seq<Value>, images: seq<Image>, j: nat, hi: nat)
    requires Matches(values, s) && j < |images| <= |values|
  {
    && images[j].at == s.inlinedSize + VariableBytes(values, j) < 0x1_0000_0000
    && images[j] == ImageOf(values[j], images[j].at)
    && Placed(data, s.columns[j].valueOffset, s.inlinedSize, hi, images[j])
  }

  /** The columns written so far are in place, with payloads before `hi`. */
  ghost predicate Progress(data: seq<Byte>, s: Schema, values: seq<Value>, images: seq<Image>, hi: nat)
    requires Matches(values, s)
  {
    && |images| <= |values| && s.inlinedSize <= hi <= |data|
    && (forall j {:trigger ColumnOk(data, s, values, images, j, hi)} :: 0 <= j < |images| ==> ColumnOk(data, s, values, images, j, hi))
  }

  /** Exactly the null columns among the first `n` have their bit set. */
  ghost predicate BitsOk(data: seq<Byte>, values: seq<Value>, n: nat) {
    && BitmapSize(|values|) <= |data|
    && (forall j {:trigger IsNull(data, j)} :: 0 <= j < |values| ==> (IsNull(data, j) <==> j < n && values[j].Null?))
  }

  /** Writing at [x, y), behind all slots and payloads so far or before them all. */
  lemma ProgressKeeps(a: seq<Byte>, b: seq<Byte>, s: Schema, values: seq<Value>, images: seq<Image>, hi: nat, hi': nat, x: nat, y: nat)
    requires SchemaOk(s) && Matches(values, s) && Progress(a, s, values, images, hi) && hi <= hi' <= |a|
    requires SameOutside(a, b, x, y)
    requires
      || y <= BitmapSize(|values|)
      || (|images| < |values| && s.columns[|images|].valueOffset <= x && y <= s.inlinedSize)
      || hi <= x
    ensures Progress(b, s, values, images, hi')
  {
    forall j | 0 <= j < |images|
      ensures ColumnOk(b, s, values, images, j, hi')
    {
      assert ColumnOk(a, s, values, images, j, hi);
      SlotsApart(s, j, if |images| < |values| then |images| else j);
      PlacedKeeps(a, b, s.columns[j].valueOffset, s.inlinedSize, hi, hi', images[j], x, y);
    }
  }

  lemma BitsKeep(a: seq<Byte>, b: seq<Byte>, values: seq<Value>, n: nat, x: nat, y: nat)
    requires BitsOk(a, values, n) && SameOutside(a, b, x, y) && BitmapSize(|values|) <= x
    requires n < |values| && !values[n].Null?
    ensures BitsOk(b, values, n + 1)
  {
    forall j | 0 <= j < |values|
      ensures IsNull(b, j) <==> j < n + 1 && values[j].Null?
    {
      assert a[j / 8] == b[j / 8] && (IsNull(a, j) <==> j < n && values[j].Null?);
    }
  }

  lemma BitsSet(a: seq<Byte>, b: seq<Byte>, values: seq<Value>, n: nat)
    requires BitsOk(a, values, n) && n < |values| && values[n].Null? && b == a[n / 8 := SetBit(a[n / 8], n % 8)]
    ensures BitsOk(b, values, n + 1)
  {
    forall j | 0 <= j < |values|
      ensures IsNull(b, j) <==> j < n + 1 && values[j].Null?
    {
      OrMask(a[n / 8], n % 8, j % 8);
      assert IsNull(a, j) <==> j < n && values[j].Null?;
    }
  }

  lemma ColumnStays(data: seq<Byte>, s: Schema, values: seq<Value>, images: seq<Image>, image: Image, j: nat, hi: nat)
    requires Matches(values, s) && j < |images| < |values| && ColumnOk(data, s, values, images, j, hi)
    ensures ColumnOk(data, s, values, images + [image], j, hi)
  {
    assert (images + [image])[j] == images[j];
  }

  lemma ColumnAdded(data: seq<Byte>, s: Schema, values: seq<Value>, images: seq<Image>, hi: nat, at: nat)
    requires Matches(values, s) && |images| < |values|
    requires at == s.inlinedSize + VariableBytes(values, |images|) < 0x1_0000_0000
    requires Placed(data, s.columns[|images|].valueOffset, s.inlinedSize, hi, ImageOf(values[|images|], at))
    ensures ColumnOk(data, s, values, images + [ImageOf(values[|images|], at)], |images|, hi)
  {
    hide Placed, ImageOf;
    assert (images + [ImageOf(values[|images|], at)])[|images|] == ImageOf(values[|images|], at);
  }

  /** Adding the image of the column just written. */
  lemma ProgressNext(data: seq<Byte>, s: Schema, values: seq<Value>, images: seq<Image>, hi: nat, at: nat)
    requires Matches(values, s) && Progress(data, s, values, images, hi) && |images| < |values|
    requires at == s.inlinedSize + VariableBytes(values, |images|) < 0x1_0000_0000
    requires Placed(data, s.columns[|images|].valueOffset, s.inlinedSize, hi, ImageOf(values[|images|], at))
    ensures Progress(data, s, values, images + [ImageOf(values[|images|], at)], hi)
  {
    hide ColumnOk, Placed, ImageOf, Serialize;
    var image := ImageOf(values[|images|], at);
    ColumnAdded(data, s, values, images, hi, at);
    forall j | 0 <= j < |images|
      ensures ColumnOk(data, s, values, images + [image], j, hi)
    {
      assert ColumnOk(data, s, values, images, j, hi);
      ColumnStays(data, s, values, images, image, j, hi);
    }
  }

  /** The size of a tuple, summed over the columns that are not inlined. */
  method MeasureTuple(values: seq<Value>, s: Schema) returns (size: nat)
    requires SchemaOk(s) && Matches(values, s)
    ensures size == TupleSize(values, s)
  {
    size := s.inlinedSize;
    var k := 0;
    while k < |s.uninlined|
      invariant k <= |s.uninlined| && size == s.inlinedSize + SumOver(values, s.uninlined[..k])
    {
      assert s.uninlined[..k + 1][..k] == s.uninlined[..k];
      size := size + VariableSize(values[s.uninlined[k]]);
      k := k + 1;
    }
    assert s.uninlined[..k] == s.uninlined;
    SumOverUninlined(values, TypesOf(s.columns), |values|);
  }

  lemma {:induction false} VariableBytesMono(values: seq<Value>, m: nat, n: nat)
    requires m <= n <= |values|
    ensures VariableBytes(values, m) <= VariableBytes(values, n)
  {
    if m < n {
      VariableBytesMono(values, m, n - 1);
    }
  }

  predicate AllReadable(data: seq<Byte>, s: Schema) {
    forall i :: 0 <= i < |s.columns| ==> Readable(data, s, i)
  }

  /** Writes a row. Every value reads back from its column, whatever the mix of
      inlined, variable-length and null columns. */
  method FromValues(values: seq<Value>, s: Schema) returns (data: array<Byte>)
    requires SchemaOk(s) && Matches(values, s) && TupleSize(values, s) < 0x1_0000_0000
    ensures fresh(data) && data.Length == TupleSize(values, s)
    ensures AllReadable(data[..], s) && GetValues(data[..], s) == values
    ensures LaidOutAs(data[..], s, values)
  {
    var size := MeasureTuple(values, s);
    data := new Byte[size](_ => 0);
    StartBits(data[..], s, values);
    ghost var images := WriteColumns(data, s, values);
    ProgressReads(data[..], s, values, images, size);
    ProgressLayout(data[..], s, values, images, size);
  }

  // ---- the layout, byte by byte ------------------------------------------------------------------

  /** The bits of a byte, lowest first. */
  const BITS: seq<nat> := [1, 2, 4, 8, 16, 32, 64, 128]

  /** The number stands at `at` in `width` bytes, lowest byte first, a negative one
      in two's complement. */
  predicate NumberAt(data: seq<Byte>, at: nat, width: nat, n: int) {
    at + width <= |data| && LittleNumber(data[at..at + width]) == n % Pow256(width)
  }

  /** A value in a place of its own. */
  ghost predicate StandsAt(data: seq<Byte>, at: nat, v: Value) {
    match v
    case Bool(b) => at < |data| && data[at] == if b then 1 else 0
    case Int(w, i) => NumberAt(data, at, w.InlineSize(), i)
    case Float(bits) => NumberAt(data, at, 8, bits)
    case Text(s) => NumberAt(data, at, 4, |s|) && at + 4 + |s| <= |data| && data[at + 4..at + 4 + |s|] == s
    case Null(_) => true
  }

  /** Column i: bit i of the bitmap says whether it is null; a value of fixed size
      stands in the slot, a text behind all slots and the texts before it, its
      place in the slot. */
  ghost predicate ColumnLaidOut(data: seq<Byte>, s: Schema, values: seq<Value>, i: nat)
    requires Matches(values, s) && i < |values|
  {
    var slot := s.columns[i].valueOffset;
    && i / 8 < |data| && (data[i / 8] / BITS[i % 8] % 2 == 1 <==> values[i].Null?)
    && if values[i].Text? then
         NumberAt(data, slot, 4, s.inlinedSize + VariableBytes(values, i)) && StandsAt(data, s.inlinedSize + VariableBytes(values, i), values[i])
       else StandsAt(data, slot, values[i])
  }

  ghost predicate LaidOutAs(data: seq<Byte>, s: Schema, values: seq<Value>)
    requires Matches(values, s)
  {
    forall i {:trigger values[i]} :: 0 <= i < |values| ==> ColumnLaidOut(data, s, values, i)
  }

  lemma LittleAt(data: seq<Byte>, at: nat, n: int, width: nat)
    requires 0 <= n + Pow256(width) && n < Pow256(width) && at + width <= |data|
    requires data[at..at + width] == LittleEndian(if n >= 0 then n else n + Pow256(width), width)
    ensures NumberAt(data, at, width, n)
  {
    LittleRoundTrip(if n >= 0 then n else n + Pow256(width), width);
    Modulo(n, Pow256(width));
  }

  lemma Modulo(n: int, p: nat)
    requires p > 0 && 0 <= n + p && n < p
    ensures n % p == if n >= 0 then n else n + p
  {
  }

  lemma SerializedStands(data: seq<Byte>, at: nat, v: Value)
    requires v.Ok() && !v.Null? && at + |Serialize(v)| <= |data| && data[at..at + |Serialize(v)|] == Serialize(v)
    ensures StandsAt(data, at, v)
  {
    Widths();
    match v
    case Bool(b) => assert data[at] == data[at..at + 1][0];
    case Int(w, i) =>
      LittleAt(data, at, i, w.InlineSize());
    case Float(bits) => LittleAt(data, at, bits, 8);
    case Text(s) =>
      var length := LittleEndian(|s|, 4);
      TwoParts(data, at, length, s);
      LittleAt(data, at, |s|, 4);
  }

  lemma TwoParts(data: seq<Byte>, at: nat, a: seq<Byte>, b: seq<Byte>)
    requires at + |a + b| <= |data| && data[at..at + |a + b|] == a + b
    ensures data[at..at + |a|] == a && data[at + |a|..at + |a| + |b|] == b
  {
    var slice := data[at..at + |a + b|];
    assert data[at..at + |a|] == slice[..|a|] && data[at + |a|..at + |a| + |b|] == slice[|a|..];
  }

  /** A bit of a number, as division has it. */
  lemma {:induction false} AndMask(b: nat, bit: nat)
    ensures And(b, Mask(bit)) != 0 <==> b / Mask(bit) % 2 == 1
  {
    if bit > 0 {
      AndMask(b / 2, bit - 1);
      HalfThenDivide(b, Mask(bit - 1));
    }
  }

  lemma HalfThenDivide(b: nat, m: nat)
    requires m > 0
    ensures b / (2 * m) == b / 2 / m
  {
    var q, r := b / 2 / m, 2 * (b / 2 % m) + b % 2;
    assert b == q * (2 * m) + r && r < 2 * m;
    Quotient(b, 2 * m, q, r);
  }

  lemma Quotient(b: nat, d: nat, q: nat, r: nat)
    requires r < d && b == q * d + r
    ensures b / d == q
  {
    if b / d < q {
      MulMono(b / d + 1, q, d);
    } else if b / d > q {
      MulMono(q + 1, b / d, d);
    }
  }

  lemma MaskIs(bit: nat)
    requires bit < 8
    ensures Mask(bit) == BITS[bit]
  {
    assert Mask(4) == 2 * Mask(3) && Mask(5) == 2 * Mask(4) && Mask(6) == 2 * Mask(5) && Mask(7) == 2 * Mask(6);
  }

  lemma ColumnLayout(data: seq<Byte>, s: Schema, values: seq<Value>, images: seq<Image>, i: nat, hi: nat)
    requires Matches(values, s) && i < |images| <= |values| && ColumnOk(data, s, values, images, i, hi)
    requires i / 8 < |data| && (IsNull(data, i) <==> values[i].Null?)
    ensures ColumnLaidOut(data, s, values, i)
  {
    hide Serialize, StandsAt, And, Mask;
    AndMask(data[i / 8], i % 8);
    MaskIs(i % 8);
    var slot, at := s.columns[i].valueOffset, images[i].at;
    if values[i].Text? {
      Widths();
      LittleAt(data, slot, at, 4);
      SerializedStands(data, at, values[i]);
    } else if !values[i].Null? {
      SerializedStands(data, slot, values[i]);
    } else {
      NullStands(data, slot, values[i]);
    }
  }

  lemma NullStands(data: seq<Byte>, at: nat, v: Value)
    requires v.Null?
    ensures StandsAt(data, at, v)
  {
  }

  lemma ProgressLayout(data: seq<Byte>, s: Schema, values: seq<Value>, images: seq<Image>, hi: nat)
    requires Matches(values, s) && Progress(data, s, values, images, hi) && |images| == |values| && BitsOk(data, values, |values|)
    ensures LaidOutAs(data, s, values)
  {
    hide ColumnOk, ColumnLaidOut;
    forall i | 0 <= i < |values|
      ensures ColumnLaidOut(data, s, values, i)
    {
      assert ColumnOk(data, s, values, images, i, hi) && (IsNull(data, i) <==> values[i].Null?);
      ColumnLayout(data, s, values, images, i, hi);
    }
  }

  lemma StartBits(data: seq<Byte>, s: Schema, values: seq<Value>)
    requires SchemaOk(s) && Matches(values, s) && |data| == TupleSize(values, s) && forall k :: 0 <= k < |data| ==> data[k] == 0
    ensures BitsOk(data, values, 0)
  {
    if values != [] {
      SlotsApart(s, 0, |values| - 1);
    }
  }

  lemma ProgressReads(data: seq<Byte>, s: Schema, values: seq<Value>, images: seq<Image>, hi: nat)
    requires Matches(values, s) && Progress(data, s, values, images, hi) && |images| == |values| && BitsOk(data, values, |values|)
    ensures AllReadable(data, s) && GetValues(data, s) == values
  {
    forall j | 0 <= j < |values|
      ensures Readable(data, s, j) && GetValue(data, s, j) == values[j]
    {
      assert ColumnOk(data, s, values, images, j, hi) && (IsNull(data, j) <==> values[j].Null?);
      PlacedReads(data, s, j, values[j], images[j].at, hi);
    }
  }

  method WriteColumns(data: array<Byte>, s: Schema, values: seq<Value>) returns (ghost images: seq<Image>)
    requires SchemaOk(s) && Matches(values, s) && data.Length == TupleSize(values, s) < 0x1_0000_0000
    requires BitsOk(data[..], values, 0)
    modifies data
    ensures |images| == |values| && Progress(data[..], s, values, images, data.Length) && BitsOk(data[..], values, |values|)
  {
    images := [];
    var varOffset := s.inlinedSize;
    var i: nat := 0;
    while i < |values|
      invariant i == |images| <= |values| && varOffset == s.inlinedSize + VariableBytes(values, i)
      invariant Progress(data[..], s, values, images, varOffset) && BitsOk(data[..], values, i)
    {
      varOffset, images := WriteColumn(data, s, values, i, varOffset, images);
      i := i + 1;
    }
  }

  method WriteColumn(data: array<Byte>, s: Schema, values: seq<Value>, i: nat, varOffset: nat, ghost images: seq<Image>)
    returns (varOffset': nat, ghost images': seq<Image>)
    requires SchemaOk(s) && Matches(values, s) && i == |images| < |values|
    requires data.Length == TupleSize(values, s) < 0x1_0000_0000 && varOffset == s.inlinedSize + VariableBytes(values, i)
    requires Progress(data[..], s, values, images, varOffset) && BitsOk(data[..], values, i)
    modifies data
    ensures |images'| == i + 1 && varOffset' == s.inlinedSize + VariableBytes(values, i + 1)
    ensures Progress(data[..], s, values, images', varOffset') && BitsOk(data[..], values, i + 1)
  {
    hide BitsOk, ImageOf, SchemaOk, Serialize, ColumnOk;
    varOffset' := varOffset + VariableSize(values[i]);
    images' := images + [ImageOf(values[i], varOffset)];
    if values[i].Null? {
      WriteNull(data, s, values, i, varOffset, images);
    } else if s.columns[i].sqlType.IsInlined() {
      WriteInlined(data, s, values, i, varOffset, images);
    } else {
      VariableBytesMono(values, i + 1, |values|);
      WriteVariable(data, s, values, i, varOffset, images);
    }
  }

  method WriteNull(data: array<Byte>, s: Schema, values: seq<Value>, i: nat, ghost hi: nat, ghost images: seq<Image>)
    requires SchemaOk(s) && Matches(values, s) && i == |images| < |values| && values[i].Null?
    requires hi == s.inlinedSize + VariableBytes(values, i) < 0x1_0000_0000
    requires Progress(data[..], s, values, images, hi) && BitsOk(data[..], values, i)
    modifies data
    ensures Progress(data[..], s, values, images + [ImageOf(values[i], hi)], hi) && BitsOk(data[..], values, i + 1)
  {
    SlotsApart(s, i, i);
    ghost var before := data[..];
    data[i / 8] := SetBit(data[i / 8], i % 8);
    BitsSet(before, data[..], values, i);
    ProgressKeeps(before, data[..], s, values, images, hi, hi, i / 8, i / 8 + 1);
    ProgressNext(data[..], s, values, images, hi, hi);
  }

  /** Writes a fixed-size column in place. */
  method WriteInlined(data: array<Byte>, s: Schema, values: seq<Value>, i: nat, ghost hi: nat, ghost images: seq<Image>)
    requires SchemaOk(s) && Matches(values, s) && i == |images| < |values| && !values[i].Null? && values[i].Type().IsInlined()
    requires Progress(data[..], s, values, images, hi) && BitsOk(data[..], values, i)
    requires hi == s.inlinedSize + VariableBytes(values, i) < 0x1_0000_0000
    modifies data
    ensures Progress(data[..], s, values, images + [ImageOf(values[i], hi)], hi) && BitsOk(data[..], values, i + 1)
  {
    WriteSlot(data, s, values, i, Serialize(values[i]), hi, images);
    ProgressNext(data[..], s, values, images, hi, hi);
  }

  /** Writes an offset in place and the payload behind what is used so far. */
  method WriteVariable(data: array<Byte>, s: Schema, values: seq<Value>, i: nat, varOffset: nat, ghost images: seq<Image>)
    requires SchemaOk(s) && Matches(values, s) && i == |images| < |values| && values[i].Text?
    requires varOffset == s.inlinedSize + VariableBytes(values, i)
    requires varOffset + VariableSize(values[i]) <= data.Length < 0x1_0000_0000
    requires Progress(data[..], s, values, images, varOffset) && BitsOk(data[..], values, i)
    modifies data
    ensures Progress(data[..], s, values, images + [ImageOf(values[i], varOffset)], varOffset + VariableSize(values[i]))
    ensures BitsOk(data[..], values, i + 1)
  {
    ghost var slot := s.columns[i].valueOffset;
    SlotsApart(s, i, i);
    WriteSlot(data, s, values, i, OffsetBytes(varOffset), varOffset, images);
    ghost var middle := data[..];
    var bytes := Serialize(values[i]);
    CopyTo(data, varOffset, bytes);
    SameSlice(middle, data[..], varOffset, varOffset + |bytes|, slot, slot + 4);
    VariableWritten(middle, data[..], s, values, images, i, varOffset, bytes);
  }

  function OffsetBytes(at: nat): (bs: seq<Byte>)
    requires at < 0x1_0000_0000
    ensures |bs| == 4
  {
    Widths();
    LittleEndian(at, 4)
  }

  method WriteSlot(data: array<Byte>, s: Schema, values: seq<Value>, i: nat, bytes: seq<Byte>, ghost hi: nat, ghost images: seq<Image>)
    requires SchemaOk(s) && Matches(values, s) && i == |images| < |values| && !values[i].Null?
    requires |bytes| == s.columns[i].sqlType.InlineSize()
    requires Progress(data[..], s, values, images, hi) && BitsOk(data[..], values, i)
    modifies data
    ensures Progress(data[..], s, values, images, hi) && BitsOk(data[..], values, i + 1)
    ensures SlotEnd(s, i) <= data.Length && data[..][s.columns[i].valueOffset..SlotEnd(s, i)] == bytes
  {
    SlotsApart(s, i, i);
    ghost var before := data[..];
    CopyTo(data, s.columns[i].valueOffset, bytes);
    ProgressKeeps(before, data[..], s, values, images, hi, hi, s.columns[i].valueOffset, SlotEnd(s, i));
    BitsKeep(before, data[..], values, i, s.columns[i].valueOffset, SlotEnd(s, i));
  }

  lemma TextPlaced(data: seq<Byte>, offset: nat, lo: nat, v: Value, at: nat)
    requires v.Ok() && v.Text? && lo <= at < 0x1_0000_0000 && at + |Serialize(v)| <= |data| && data[at..at + |Serialize(v)|] == Serialize(v)
    requires offset + 4 <= |data| && data[offset..offset + 4] == OffsetBytes(at)
    ensures Placed(data, offset, lo, at + |Serialize(v)|, ImageOf(v, at))
  {
    hide Serialize, OffsetBytes;
  }

  lemma VariableWritten(middle: seq<Byte>, data: seq<Byte>, s: Schema, values: seq<Value>, images: seq<Image>,
                        n: nat, at: nat, bytes: seq<Byte>)
    requires SchemaOk(s) && Matches(values, s) && n == |images| < |values| && values[n].Text? && bytes == Serialize(values[n])
    requires Progress(middle, s, values, images, at) && BitsOk(middle, values, n + 1)
    requires at == s.inlinedSize + VariableBytes(values, n) < 0x1_0000_0000
    requires at + |bytes| <= |data| && BitmapSize(|values|) <= at
    requires SameOutside(middle, data, at, at + |bytes|) && data[at..at + |bytes|] == bytes
    requires s.columns[n].valueOffset + 4 <= s.inlinedSize
    requires data[s.columns[n].valueOffset..s.columns[n].valueOffset + 4] == OffsetBytes(at)
    ensures Progress(data, s, values, images + [ImageOf(values[n], at)], at + |bytes|)
    ensures BitsOk(data, values, n + 1)
  {
    hide ColumnOk, Placed, Serialize, SchemaOk, LaidOut, ImageOf, VariableBytes;
    ProgressKeeps(middle, data, s, values, images, at, at + |bytes|, at, at + |bytes|);
    TextPlaced(data, s.columns[n].valueOffset, s.inlinedSize, values[n], at);
    ProgressNext(data, s, values, images, at + |bytes|, at);
    forall j | 0 <= j < |values|
      ensures IsNull(data, j) <==> IsNull(middle, j)
    {
      assert data[j / 8] == middle[j / 8];
    }
  }
}
