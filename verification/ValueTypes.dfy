/**
 The types behind the payloads of an `encoded_value`, as number ranges: what
 each of them can hold, in how many bytes, and that every value of the type
 written as plain base-256 digits is read back.
 */
module ValueTypes {
  import opened Basics
  import opened Leb128
  import opened EncodedValues
  import opened ValueGrammar

  /** The values of the decoded type: i8, i16, u16, i32, i64, the bit patterns of f32 and f64, and u32 indices. */
  predicate InType(k: Kind, v: int) {
    match k
    case Byte => -0x80 <= v <= 0x7F
    case Short => -0x8000 <= v <= 0x7FFF
    case Char => 0 <= v <= 0xFFFF
    case Int => -0x8000_0000 <= v <= 0x7FFF_FFFF
    case Long => -0x8000_0000_0000_0000 <= v <= 0x7FFF_FFFF_FFFF_FFFF
    case Double => 0 <= v <= 0xFFFF_FFFF_FFFF_FFFF
    case _ => 0 <= v <= 0xFFFF_FFFF
  }

  /** Numbers of `w` bytes in two's complement. */
  predicate SignedIn(v: int, w: nat) {
    || (w == 1 && -0x80 <= v <= 0x7F)
    || (w == 2 && -0x8000 <= v <= 0x7FFF)
    || (w == 3 && -0x80_0000 <= v <= 0x7F_FFFF)
    || (w == 4 && -0x8000_0000 <= v <= 0x7FFF_FFFF)
    || (w == 5 && -0x80_0000_0000 <= v <= 0x7F_FFFF_FFFF)
    || (w == 6 && -0x8000_0000_0000 <= v <= 0x7FFF_FFFF_FFFF)
    || (w == 7 && -0x80_0000_0000_0000 <= v <= 0x7F_FFFF_FFFF_FFFF)
    || (w == 8 && -0x8000_0000_0000_0000 <= v <= 0x7FFF_FFFF_FFFF_FFFF)
  }

  /** Numbers of `w` bytes, up to four. */
  predicate UnsignedIn(v: int, w: nat) {
    || (w == 1 && 0 <= v <= 0xFF)
    || (w == 2 && 0 <= v <= 0xFFFF)
    || (w == 3 && 0 <= v <= 0xFF_FFFF)
    || (w == 4 && 0 <= v <= 0xFFFF_FFFF)
  }

  /** Bit patterns of f32 whose bytes below the top `w` are zero. */
  predicate TopOfFloat(v: int, w: nat) {
    || (w == 1 && v % 0x100_0000 == 0)
    || (w == 2 && v % 0x1_0000 == 0)
    || (w == 3 && v % 0x100 == 0)
    || w == 4
  }

  predicate TopOfDouble(v: int, w: nat) {
    || (w == 1 && v % 0x100_0000_0000_0000 == 0)
    || (w == 2 && v % 0x1_0000_0000_0000 == 0)
    || (w == 3 && v % 0x100_0000_0000 == 0)
    || (w == 4 && v % 0x1_0000_0000 == 0)
    || (w == 5 && v % 0x100_0000 == 0)
    || (w == 6 && v % 0x1_0000 == 0)
    || (w == 7 && v % 0x100 == 0)
    || w == 8
  }

  predicate HeldBy(k: Kind, v: int, w: nat) {
    match k
    case Byte => SignedIn(v, w)
    case Short => SignedIn(v, w)
    case Int => SignedIn(v, w)
    case Long => SignedIn(v, w)
    case Float => TopOfFloat(v, w)
    case Double => TopOfDouble(v, w)
    case _ => UnsignedIn(v, w)
  }

  /** A header byte for the full width: three bits of width less one, five bits of tag. */
  function FullHeader(k: Kind): byte {
    match k
    case Byte => 0x00
    case Short => 0x22
    case Char => 0x23
    case Int => 0x64
    case Long => 0xE6
    case Float => 0x70
    case Double => 0xF1
    case MethodType => 0x75
    case MethodHandle => 0x76
    case String => 0x77
    case Type => 0x78
    case Field => 0x79
    case Method => 0x7A
    case Enum => 0x7B
  }

  /** A value can be written in `w` bytes exactly when it is of the type and those bytes hold it. */
  lemma WidthsExact(k: Kind, v: int, w: nat)
    ensures Fits(k, v, w) <==> InType(k, v) && w <= FullHeader(k) / 32 + 1 && HeldBy(k, v, w)
  {
  }

  /** Every value of the type can be written, and nothing else can. */
  lemma EveryValueFits(k: Kind, v: int)
    ensures InType(k, v) <==> exists w :: Fits(k, v, w)
  {
    hide Fits;
    WidthsExact(k, v, MaxSize(k));
    if w :| Fits(k, v, w) {
      WidthsExact(k, v, w);
    }
  }

  // ----- digits -----

  /** Digit `i` of `v` to base 256, of a negative number in two's complement. */
  function Digit(v: int, i: nat): byte
    requires i < 8
  {
    v / Pow256(i) % 256
  }

  function Digits(v: int, n: nat): (bs: seq<byte>)
    requires n <= 8
    ensures |bs| == n
  {
    seq(n, i requires 0 <= i < n => Digit(v, i))
  }

  lemma DivDiv(x: int, i: nat)
    requires i < 7
    ensures x / 256 / Pow256(i) == x / Pow256(i + 1)
  {
  }

  lemma {:induction false} EncodedDigits(x: nat, n: nat, i: nat)
    requires i < n <= 8
    ensures ToLittleEndian(x, n)[i] == Digit(x, i)
    decreases n
  {
    if i > 0 {
      EncodedDigits(x / 256, n - 1, i - 1);
      DivDiv(x, i - 1);
    }
  }

  /** Adding 256^n does not change the digits below n. */
  lemma ComplementDigits(v: int, n: nat, i: nat)
    requires i < n <= 8
    ensures Digit(v + Pow256(n), i) == Digit(v, i)
  {
    var q := Pow256(n - 1 - i);
    PowSplit(n - 1 - i, i);
    PowSplit(1, n - 1);
    assert Pow256(n) == (256 * q) * Pow256(i);
    DivUnique(v + (256 * q) * Pow256(i), Pow256(i), v / Pow256(i) + 256 * q);
    assert (v / Pow256(i) + 256 * q) % 256 == v / Pow256(i) % 256;
  }

  /** At full width, whatever the type, the payload is the digits of the value. */
  lemma FullPayload(k: Kind, v: int)
    requires InType(k, v)
    ensures Fits(k, v, MaxSize(k)) && PayloadBytes(k, v, MaxSize(k)) == Digits(v, MaxSize(k))
  {
    hide ToLittleEndian, Digit;
    WidthsExact(k, v, MaxSize(k));
    var n := MaxSize(k);
    forall i | 0 <= i < n ensures PayloadBytes(k, v, n)[i] == Digit(v, i) {
      if v < 0 {
        EncodedDigits(v + Pow256(n), n, i);
        ComplementDigits(v, n, i);
      } else {
        EncodedDigits(v, n, i);
      }
    }
  }

  /** Every value of every type, written as its header byte and its digits, is what the grammar reads there. */
  lemma TypedValueReadsBack(k: Kind, v: int, data: seq<byte>, pos: nat, budget: nat)
    requires InType(k, v) && pos < |data| && data[pos] == FullHeader(k)
    requires HasAt(data, pos + 1, Digits(v, FullHeader(k) / 32 + 1))
    ensures ParseValue(data, pos, budget) == Ok(Read(Scalar(k, v), pos + 1 + (FullHeader(k) / 32 + 1)))
  {
    hide Digits, Payload, PayloadBytes, Fits;
    HeaderParts(k);
    FullPayload(k, v);
    PayloadRoundTrip(k, v, MaxSize(k));
  }

  lemma HeaderParts(k: Kind)
    ensures FullHeader(k) / 32 + 1 == MaxSize(k) && KindOf(FullHeader(k) % 32) == Some(k)
  {
  }

  /** Headers that are whole values, and headers no value starts with. */
  lemma BareHeaders(data: seq<byte>, pos: nat, budget: nat)
    requires pos < |data|
    ensures data[pos] == 0x1E ==> ParseValue(data, pos, budget) == Ok(Read(Null, pos + 1))
    ensures data[pos] == 0x1F ==> ParseValue(data, pos, budget) == Ok(Read(Boolean(false), pos + 1))
    ensures data[pos] == 0x3F ==> ParseValue(data, pos, budget) == Ok(Read(Boolean(true), pos + 1))
    ensures data[pos] % 32 in {0x01, 0x05, 0x12, 0x13, 0x14} || 0x07 <= data[pos] % 32 <= 0x0F ==>
              ParseValue(data, pos, budget) == Err(UnknownOpcode(data[pos] % 32, pos % TWO_32))
  {
  }

  /** The smallest composites: an array without values, and an annotation of type `ty` without elements. */
  lemma EmptyComposites(data: seq<byte>, pos: nat, budget: nat, ty: byte)
    requires ty < 128 && budget > 0
    ensures HasAt(data, pos, [0x1C, 0]) ==> ParseValue(data, pos, budget) == Ok(Read(Array([]), pos + 2))
    ensures HasAt(data, pos, [0x1D, ty, 0]) ==>
              ParseValue(data, pos, budget) == Ok(Read(Annotation(ty, NoElements), pos + 3))
  {
    hide Uleb, HasAt;
    if HasAt(data, pos, [0x1C, 0]) {
      HasAtFits(data, pos, [0x1C, 0]);
      assert data[pos + 1] == [0x1C, 0][1];
      SmallUleb(data, pos + 1);
      assert data[pos] == [0x1C, 0][0];
      assert ParseArray(data, pos + 1, budget - 1) == Ok(Read(Array([]), pos + 2));
      assert Primitive(data, pos) == Ok(None);
      assert ParseComposite(data, pos, budget - 1) == ParseArray(data, pos + 1, budget - 1);
    }
    if HasAt(data, pos, [0x1D, ty, 0]) {
      HasAtFits(data, pos, [0x1D, ty, 0]);
      assert data[pos + 1] == [0x1D, ty, 0][1] && data[pos + 2] == [0x1D, ty, 0][2];
      SmallUleb(data, pos + 1);
      SmallUleb(data, pos + 2);
      assert data[pos] == [0x1D, ty, 0][0];
      assert ParseAnnotation(data, pos + 1, budget - 1) == Ok(Read(Annotation(ty, NoElements), pos + 3));
      assert Primitive(data, pos) == Ok(None);
      assert ParseComposite(data, pos, budget - 1) == ParseAnnotation(data, pos + 1, budget - 1);
    }
  }

  /** A width the type does not have is refused, whatever follows. */
  lemma ExcessWidthRefused(k: Kind, w: nat, data: seq<byte>, pos: nat, budget: nat)
    requires pos < |data| && FullHeader(k) / 32 + 1 < w <= 8 && data[pos] == FullHeader(k) % 32 + 32 * (w - 1)
    ensures ParseValue(data, pos, budget) == Err(EncodedValueSize(w))
  {
    hide FullHeader, KindOf, MaxSize, Payload;
    HeaderParts(k);
    assert data[pos] / 32 + 1 == w && data[pos] % 32 == FullHeader(k) % 32;
  }
}
