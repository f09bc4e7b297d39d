/**
 The `encoded_value` tree of src/annotation.rs and its fixed-width payloads
 ("encoded_value encoding" in the Dalvik Executable format).

 The fourteen primitives that carry a payload share one constructor; they
 differ in header tag, greatest width and byte layout. Floats are their bit
 patterns. An annotation's elements are a list: the parser's `BTreeMap` is the
 list in strictly ascending name order, a list in any other order is what a
 file may hold on disk.
 */
module EncodedValues {
  import opened Basics

  datatype Kind =
    | Byte | Short | Char | Int | Long | Float | Double
    | MethodType | MethodHandle | String | Type | Field | Method | Enum

  datatype EncodedValue =
    | Scalar(kind: Kind, value: int)
    | Array(values: seq<EncodedValue>)
    | Annotation(typeIdx: nat, elements: Elements)
    | Null
    | Boolean(b: bool)

  datatype Elements = NoElements | Element(name: nat, value: EncodedValue, rest: Elements)

  /** How payload bytes become a value: sign-extended, zero-extended, or moved to the high end. */
  datatype Layout = Signed | Unsigned | RightExtended

  const TAG_ARRAY: byte := 0x1c
  const TAG_ANNOTATION: byte := 0x1d
  const TAG_NULL: byte := 0x1e
  const TAG_BOOLEAN: byte := 0x1f

  function KindOf(tag: nat): Option<Kind> {
    if tag == 0x00 then Some(Byte)
    else if tag == 0x02 then Some(Short)
    else if tag == 0x03 then Some(Char)
    else if tag == 0x04 then Some(Int)
    else if tag == 0x06 then Some(Long)
    else if tag == 0x10 then Some(Float)
    else if tag == 0x11 then Some(Double)
    else if tag == 0x15 then Some(MethodType)
    else if tag == 0x16 then Some(MethodHandle)
    else if tag == 0x17 then Some(String)
    else if tag == 0x18 then Some(Type)
    else if tag == 0x19 then Some(Field)
    else if tag == 0x1a then Some(Method)
    else if tag == 0x1b then Some(Enum)
    else None
  }

  function Tag(k: Kind): (t: nat)
    ensures t < 0x1c && KindOf(t) == Some(k)
  {
    match k
    case Byte => 0x00
    case Short => 0x02
    case Char => 0x03
    case Int => 0x04
    case Long => 0x06
    case Float => 0x10
    case Double => 0x11
    case MethodType => 0x15
    case MethodHandle => 0x16
    case String => 0x17
    case Type => 0x18
    case Field => 0x19
    case Method => 0x1a
    case Enum => 0x1b
  }

  lemma TagOfKind(tag: nat)
    ensures KindOf(tag).Some? ==> Tag(KindOf(tag).value) == tag
  {
  }

  /** Greatest accepted payload width, in bytes; also the width of the decoded type. */
  function MaxSize(k: Kind): (n: nat)
    ensures 1 <= n <= 8
  {
    match k
    case Byte => 1
    case Short => 2
    case Char => 2
    case Long => 8
    case Double => 8
    case _ => 4
  }

  function LayoutOf(k: Kind): Layout {
    match k
    case Byte => Signed
    case Short => Signed
    case Int => Signed
    case Long => Signed
    case Float => RightExtended
    case Double => RightExtended
    case _ => Unsigned
  }

  /** 256^k. */
  function Pow256(k: nat): (m: nat)
    requires k <= 8
    ensures m > 0
  {
    if k == 0 then 1
    else if k == 1 then 0x100
    else if k == 2 then 0x1_0000
    else if k == 3 then 0x100_0000
    else if k == 4 then 0x1_0000_0000
    else if k == 5 then 0x100_0000_0000
    else if k == 6 then 0x1_0000_0000_0000
    else if k == 7 then 0x100_0000_0000_0000
    else 0x1_0000_0000_0000_0000
  }

  function LittleEndian(bs: seq<byte>): nat {
    if bs == [] then 0 else bs[0] + 256 * LittleEndian(bs[1..])
  }

  function ToLittleEndian(x: nat, n: nat): (bs: seq<byte>)
    ensures |bs| == n
  {
    if n == 0 then [] else [x % 256] + ToLittleEndian(x / 256, n - 1)
  }

  lemma {:induction false} LittleEndianBound(bs: seq<byte>)
    requires |bs| <= 8
    ensures LittleEndian(bs) < Pow256(|bs|)
  {
    if bs != [] {
      LittleEndianBound(bs[1..]);
    }
  }

  lemma {:induction false} LittleEndianAppend(bs: seq<byte>, b: byte)
    requires |bs| < 8
    ensures LittleEndian(bs + [b]) == LittleEndian(bs) + b * Pow256(|bs|)
  {
    if bs != [] {
      LittleEndianAppend(bs[1..], b);
      assert (bs + [b])[1..] == bs[1..] + [b];
    }
  }

  lemma {:induction false} DecodeEncodeLittleEndian(x: nat, n: nat)
    requires n <= 8 && x < Pow256(n)
    ensures LittleEndian(ToLittleEndian(x, n)) == x
  {
    if n > 0 {
      DecodeEncodeLittleEndian(x / 256, n - 1);
      assert ToLittleEndian(x, n)[1..] == ToLittleEndian(x / 256, n - 1);
    }
  }

  lemma LowByte(b: byte, rest: nat)
    ensures (b + 256 * rest) % 256 == b && (b + 256 * rest) / 256 == rest
  {
  }

  lemma {:induction false} EncodeDecodeLittleEndian(bs: seq<byte>)
    ensures ToLittleEndian(LittleEndian(bs), |bs|) == bs
  {
    if bs != [] {
      EncodeDecodeLittleEndian(bs[1..]);
      LowByte(bs[0], LittleEndian(bs[1..]));
      assert [bs[0]] + bs[1..] == bs;
    }
  }

  /** Two's-complement reading of `|bs|` bytes. */
  function SignExtendBytes(bs: seq<byte>): int
    requires |bs| <= 8
  {
    var u := LittleEndian(bs);
    if 2 * u >= Pow256(|bs|) then u - Pow256(|bs|) else u
  }

  /** The value of a payload of kind `k`. */
  function Payload(k: Kind, bs: seq<byte>): int
    requires 1 <= |bs| <= MaxSize(k)
  {
    match LayoutOf(k)
    case Signed => SignExtendBytes(bs)
    case Unsigned => LittleEndian(bs)
    case RightExtended => LittleEndian(bs) * Pow256(MaxSize(k) - |bs|)
  }

  /** `v` of kind `k` can be written in `w` payload bytes. */
  predicate Fits(k: Kind, v: int, w: nat) {
    && 1 <= w <= MaxSize(k)
    && match LayoutOf(k)
       case Signed => 0 <= 2 * v + Pow256(w) && 2 * v < Pow256(w)
       case Unsigned => 0 <= v < Pow256(w)
       case RightExtended => 0 <= v < Pow256(MaxSize(k)) && v % Pow256(MaxSize(k) - w) == 0
  }

  function PayloadBytes(k: Kind, v: int, w: nat): (bs: seq<byte>)
    requires Fits(k, v, w)
    ensures |bs| == w
  {
    match LayoutOf(k)
    case Signed => ToLittleEndian(if v < 0 then v + Pow256(w) else v, w)
    case Unsigned => ToLittleEndian(v, w)
    case RightExtended => ToLittleEndian(v / Pow256(MaxSize(k) - w), w)
  }

  lemma PowSplit(a: nat, b: nat)
    requires a + b <= 8
    ensures Pow256(a) * Pow256(b) == Pow256(a + b)
  {
  }

  lemma ScaleBack(x: nat, m: nat)
    requires m > 0
    ensures x * m / m == x && (x * m) % m == 0
  {
    DivUnique(x * m, m, x);
  }

  /** Every payload written in a width that fits reads back. */
  lemma PayloadRoundTrip(k: Kind, v: int, w: nat)
    requires Fits(k, v, w)
    ensures Payload(k, PayloadBytes(k, v, w)) == v
  {
    if LayoutOf(k) == RightExtended {
      var m := Pow256(MaxSize(k) - w);
      PowSplit(w, MaxSize(k) - w);
      ExactQuotient(v, m, Pow256(w));
      DecodeEncodeLittleEndian(v / m, w);
    } else {
      DecodeEncodeLittleEndian(if v < 0 then v + Pow256(w) else v, w);
    }
  }

  lemma ExactQuotient(v: nat, m: nat, p: nat)
    requires m > 0 && v % m == 0 && v < p * m
    ensures v / m * m == v && v / m < p
  {
    var q := v / m;
    assert v == q * m;
    MulMonotone(p, q, m);
  }

  /** Every payload that can be read is the written form, at its own width, of the value read. */
  lemma PayloadReprint(k: Kind, bs: seq<byte>)
    requires 1 <= |bs| <= MaxSize(k)
    ensures Fits(k, Payload(k, bs), |bs|)
    ensures PayloadBytes(k, Payload(k, bs), |bs|) == bs
  {
    LittleEndianBound(bs);
    EncodeDecodeLittleEndian(bs);
    if LayoutOf(k) == RightExtended {
      ScaledPayload(LittleEndian(bs), |bs|, MaxSize(k));
    }
  }

  lemma ScaledPayload(u: nat, n: nat, max: nat)
    requires 1 <= n <= max <= 8 && u < Pow256(n)
    ensures var m := Pow256(max - n);
            u * m < Pow256(max) && (u * m) % m == 0 && u * m / m == u
  {
    var m := Pow256(max - n);
    ScaleBack(u, m);
    PowSplit(n, max - n);
    MulStrict(u, Pow256(n), m);
  }

  /** Where a read of `size` bytes at `pos` first leaves the input. */
  function FirstMissing(data: seq<byte>, pos: nat): nat {
    if pos < |data| then |data| else pos
  }

  /** `read_uint`: the OR of bytes at disjoint shifts is their sum. */
  method ReadUint(data: seq<byte>, pos: nat, size: nat) returns (r: Result<nat>)
    requires 1 <= size <= 8
    ensures r == if pos + size <= |data| then Ok(LittleEndian(data[pos..pos + size]))
                 else Err(ScrollRead(FirstMissing(data, pos)))
  {
    var val := 0;
    for i := 0 to size
      invariant i > 0 ==> pos + i <= |data|
      invariant pos + i <= |data| ==> val == LittleEndian(data[pos..pos + i])
    {
      var p := pos + i;
      if p >= |data| {
        return Err(ScrollRead(p));
      }
      assert data[pos..p + 1] == data[pos..p] + [data[p]];
      LittleEndianAppend(data[pos..p], data[p]);
      val := val + data[p] * Pow256(i);
    }
    return Ok(val);
  }

  lemma ShiftPair(u: nat, size: nat)
    requires 1 <= size <= 8 && u < Pow256(size)
    ensures var m := Pow256(8 - size);
            var shifted := (u * m) % Pow256(8);
            (if 2 * shifted >= Pow256(8) then shifted - Pow256(8) else shifted) / m ==
            if 2 * u >= Pow256(size) then u - Pow256(size) else u
  {
    var m := Pow256(8 - size);
    PowSplit(size, 8 - size);
    assert u * m < Pow256(size) * m;
    if 2 * u >= Pow256(size) {
      assert 2 * (u * m) == (2 * u) * m >= Pow256(size) * m;
      assert (u - Pow256(size)) * m == u * m - Pow256(8);
      DivUnique(u * m - Pow256(8), m, u - Pow256(size));
    } else {
      assert 2 * (u * m) == (2 * u) * m <= (Pow256(size) - 1) * m;
      DivUnique(u * m, m, u);
    }
  }

  /** `read_int`: accumulate, then shift left and arithmetically right by the missing bytes. */
  method ReadInt(data: seq<byte>, pos: nat, size: nat) returns (r: Result<int>)
    requires 1 <= size <= 8
    ensures r == if pos + size <= |data| then Ok(SignExtendBytes(data[pos..pos + size]))
                 else Err(ScrollRead(FirstMissing(data, pos)))
  {
    var u :- ReadUint(data, pos, size);
    LittleEndianBound(data[pos..pos + size]);
    ShiftPair(u, size);
    var m := Pow256(8 - size);
    var shifted := (u * m) % Pow256(8);
    var signed := if 2 * shifted >= Pow256(8) then shifted - Pow256(8) else shifted;
    return Ok(signed / m);
  }

  lemma RightExtendAppend(bs: seq<byte>, b: byte, pad: nat)
    requires |bs| < 8 && |bs| + pad <= 8
    ensures LittleEndian(bs + [b]) * Pow256(pad) == LittleEndian(bs) * Pow256(pad) + b * Pow256(pad + |bs|)
  {
    LittleEndianAppend(bs, b);
    PowSplit(|bs|, pad);
    Distribute(LittleEndian(bs), b, Pow256(|bs|), Pow256(pad));
  }

  lemma Distribute(u: nat, b: nat, p: nat, m: nat)
    ensures (u + b * p) * m == u * m + b * (p * m)
  {
    assert (b * p) * m == b * (p * m);
  }

  /** `read_uint_right_extend`: the bytes land at the high end of 64 bits. */
  method ReadUintRightExtend(data: seq<byte>, pos: nat, size: nat) returns (r: Result<nat>)
    requires 1 <= size <= 8
    ensures r == if pos + size <= |data| then Ok(LittleEndian(data[pos..pos + size]) * Pow256(8 - size))
                 else Err(ScrollRead(FirstMissing(data, pos)))
  {
    var val := 0;
    for i := 0 to size
      invariant i > 0 ==> pos + i <= |data|
      invariant pos + i <= |data| ==> val == LittleEndian(data[pos..pos + i]) * Pow256(8 - size)
    {
      var p := pos + i;
      if p >= |data| {
        return Err(ScrollRead(p));
      }
      assert data[pos..p + 1] == data[pos..p] + [data[p]];
      RightExtendAppend(data[pos..p], data[p], 8 - size);
      val := val + data[p] * Pow256(8 - size + i);
    }
    return Ok(val);
  }

  /** The narrowing cast of each decode arm: `as i8`, `as u16`, `>> 32 as u32`, and so on. */
  function Narrow(k: Kind, raw: int): int {
    var m := Pow256(MaxSize(k));
    match LayoutOf(k)
    case Signed => (var u := raw % m; if 2 * u >= m then u - m else u)
    case Unsigned => raw % m
    case RightExtended => (raw / Pow256(8 - MaxSize(k))) % m
  }

  /** The 64-bit word each decode arm reads before narrowing. */
  function Raw(k: Kind, bs: seq<byte>): int
    requires 1 <= |bs| <= 8
  {
    match LayoutOf(k)
    case Signed => SignExtendBytes(bs)
    case Unsigned => LittleEndian(bs)
    case RightExtended => LittleEndian(bs) * Pow256(8 - |bs|)
  }

  /** No accepted width makes a narrowing cast lose bits. */
  lemma NarrowingIsExact(k: Kind, bs: seq<byte>)
    requires 1 <= |bs| <= MaxSize(k)
    ensures Narrow(k, Raw(k, bs)) == Payload(k, bs)
  {
    LittleEndianBound(bs);
    var n, max := |bs|, MaxSize(k);
    match LayoutOf(k) {
      case Signed => SignedNarrowing(SignExtendBytes(bs), n, max);
      case Unsigned =>
        PowMonotone(n, max);
        ModSmall(LittleEndian(bs), Pow256(max));
      case RightExtended => RightNarrowing(LittleEndian(bs), n, max);
    }
  }

  lemma PowMonotone(a: nat, b: nat)
    requires a <= b <= 8
    ensures Pow256(a) <= Pow256(b)
  {
  }

  lemma SignedNarrowing(v: int, n: nat, max: nat)
    requires n <= max <= 8 && 0 <= 2 * v + Pow256(n) && 2 * v < Pow256(n)
    ensures var u := v % Pow256(max);
            v == if 2 * u >= Pow256(max) then u - Pow256(max) else u
  {
    PowMonotone(n, max);
    var m := Pow256(max);
    DivUnique(v, m, if v < 0 then -1 else 0);
    assert v == (v / m) * m + v % m;
  }

  lemma RightNarrowing(u: nat, n: nat, max: nat)
    requires 1 <= n <= max <= 8 && u < Pow256(n)
    ensures (u * Pow256(8 - n) / Pow256(8 - max)) % Pow256(max) == u * Pow256(max - n)
  {
    PowSplit(max - n, 8 - max);
    PowSplit(n, max - n);
    ScaledWord(u, Pow256(max - n), Pow256(8 - max), Pow256(n));
  }

  lemma ScaledWord(u: nat, a: nat, b: nat, p: nat)
    requires a > 0 && b > 0 && u < p
    ensures u * (a * b) == u * a * b
    ensures u * a < p * a
    ensures (u * (a * b) / b) % (p * a) == u * a
  {
    MulAssociative(u, a, b);
    ScaleBack(u * a, b);
    MulStrict(u, p, a);
    ModSmall(u * a, p * a);
  }

  lemma MulAssociative(u: nat, a: nat, b: nat)
    ensures u * (a * b) == u * a * b
  {
  }

  lemma MulStrict(u: nat, p: nat, a: nat)
    requires u < p && a > 0
    ensures u * a < p * a
  {
  }

  lemma ModSmall(x: nat, m: nat)
    requires x < m
    ensures x % m == x
  {
  }

  function Header(data: seq<byte>, pos: nat): Result<byte> {
    if pos < |data| then Ok(data[pos]) else Err(ScrollRead(pos))
  }

  /** One non-composite value at `pos`; `None` for the two composite tags. */
  function Primitive(data: seq<byte>, pos: nat): (r: Result<Option<Read<EncodedValue>>>)
    ensures r.Ok? ==> pos < |data|
    ensures r.Ok? && r.value.Some? ==> pos < r.value.value.next <= |data|
    ensures r.Ok? ==> (r.value.None? <==> data[pos] % 32 == TAG_ARRAY || data[pos] % 32 == TAG_ANNOTATION)
    ensures r.Err? ==> r.error != WorkStackExhausted
  {
    var header :- Header(data, pos);
    var tag, size := header % 32, header / 32 + 1;
    match KindOf(tag)
    case Some(k) =>
      if size > MaxSize(k) then Err(EncodedValueSize(size))
      else if pos + 1 + size > |data| then Err(ScrollRead(|data|))
      else Ok(Some(Read(Scalar(k, Payload(k, data[pos + 1..pos + 1 + size])), pos + 1 + size)))
    case None =>
      if tag == TAG_ARRAY || tag == TAG_ANNOTATION then Ok(None)
      else if tag == TAG_NULL then Ok(Some(Read(Null, pos + 1)))
      else if tag == TAG_BOOLEAN then Ok(Some(Read(Boolean(header / 32 != 0), pos + 1)))
      else Err(UnknownOpcode(tag, pos % TWO_32))
  }

  /** `decode_primitive_encoded_value`, through the three readers and the narrowing casts. */
  method DecodePrimitive(data: seq<byte>, pos: nat) returns (r: Result<Option<Read<EncodedValue>>>)
    ensures r == Primitive(data, pos)
  {
    if pos >= |data| {
      return Err(ScrollRead(pos));
    }
    var header := data[pos];
    var tag, arg := header % 32, header / 32;
    var size := arg + 1;
    match KindOf(tag) {
      case Some(k) =>
        if size > MaxSize(k) {
          return Err(EncodedValueSize(size));
        }
        var raw: int;
        match LayoutOf(k) {
          case Signed => raw :- ReadInt(data, pos + 1, size);
          case Unsigned => raw :- ReadUint(data, pos + 1, size);
          case RightExtended => raw :- ReadUintRightExtend(data, pos + 1, size);
        }
        NarrowingIsExact(k, data[pos + 1..pos + 1 + size]);
        return Ok(Some(Read(Scalar(k, Narrow(k, raw)), pos + 1 + size)));
      case None =>
        if tag == TAG_ARRAY || tag == TAG_ANNOTATION {
          return Ok(None);
        } else if tag == TAG_NULL {
          return Ok(Some(Read(Null, pos + 1)));
        } else if tag == TAG_BOOLEAN {
          return Ok(Some(Read(Boolean(arg != 0), pos + 1)));
        } else {
          return Err(UnknownOpcode(tag, pos % TWO_32));
        }
    }
  }
}
