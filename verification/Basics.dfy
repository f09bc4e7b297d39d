/**
 Vocabulary shared by all the parsers: bytes, the typed error, the result of a
 read, and the checked-arithmetic helpers of src/error.rs.

 A cursor is a `nat`: a Rust slice holds fewer than 2^63 bytes and every cursor
 below is proved to stay within the slice, so the `usize` additions of the
 source cannot overflow. Arithmetic the source keeps in `u32` is bounded
 explicitly.
 */
module Basics {

  type byte = x: int | 0 <= x < 256

  const U16_MAX: nat := 0xFFFF
  const U32_MAX: nat := 0xFFFF_FFFF
  const TWO_32: nat := 0x1_0000_0000
  const I32_MAX: int := 0x7FFF_FFFF
  const I32_MIN: int := -0x8000_0000

  type u32 = x: int | 0 <= x <= 0xFFFF_FFFF

  datatype Option<+T> = None | Some(value: T)

  /** The variants of `DexError` that the modelled code can return. */
  datatype DexError =
    | ScrollRead(offset: nat)
    | InvalidUleb128(offset: nat)
    | BoundCountExceeded(got: nat, dataLen: nat)
    | ArithmeticOverflow
    | WorkStackExhausted
    | UnknownOpcode(opcode: nat, offset: nat)
    | EncodedValueSize(size: nat)
    | InvalidInstruction(offset: nat)
    | InvalidAccessFlags(raw: nat)
    | InvalidDebugRegister(ulebValue: nat, registersSize: nat)
    | OffsetOutOfBounds(offset: nat, fileSize: nat)
    | Truncated(offset: nat)

  datatype Result<+T> = Ok(value: T) | Err(error: DexError) {
    predicate IsFailure() {
      Err?
    }

    function PropagateFailure<U>(): Result<U>
      requires Err?
    {
      Err(error)
    }

    function Extract(): T
      requires Ok?
    {
      value
    }
  }

  /** A decoded value and the position of the first byte after it. */
  datatype Read<+T> = Read(value: T, next: nat)

  /** `x as i32` on a 32-bit pattern, and the wrap-around of i32 arithmetic. */
  function WrapI32(x: int): (r: int)
    ensures I32_MIN <= r <= I32_MAX
    ensures (r - x) % TWO_32 == 0
  {
    var u := x % TWO_32;
    if u > I32_MAX then u - TWO_32 else u
  }

  lemma WrapInRange(x: int)
    requires I32_MIN <= x <= I32_MAX
    ensures WrapI32(x) == x
  {
  }

  /** The amplification guard: a count must fit the input at its stride. */
  function BoundCount(count: nat, stride: nat, dataLen: nat): (r: Result<nat>)
    requires stride > 0
    ensures r.Ok? ==> r.value == count
  {
    if count <= dataLen / stride then
      Ok(count)
    else
      Err(BoundCountExceeded(count, dataLen))
  }

  /** The guard admits exactly the counts whose items fit the input. */
  lemma BoundIsCapacity(count: nat, stride: nat, dataLen: nat)
    requires stride > 0
    ensures BoundCount(count, stride, dataLen).Ok? <==> count * stride <= dataLen
  {
    var q, rest := dataLen / stride, dataLen % stride;
    assert dataLen == q * stride + rest;
    if count <= q {
      ScaledLess(count, q, stride);
    } else {
      ScaledLess(q + 1, count, stride);
    }
  }

  lemma ScaledLess(a: nat, b: nat, stride: nat)
    requires a <= b
    ensures a * stride <= b * stride
  {
  }

  lemma DivUnique(n: int, m: nat, q: int)
    requires m > 0 && q * m <= n < q * m + m
    ensures n / m == q
  {
    var d := n / m - q;
    assert d * m == (n / m) * m - q * m;
    MulMonotone(1, d, m);
    MulMonotone(d, -1, m);
  }

  lemma MulMonotone(a: int, b: int, m: nat)
    ensures a <= b ==> a * m <= b * m
  {
  }

  function SafeAddU32(a: nat, b: nat): (r: Result<nat>)
    ensures r.Ok? <==> a + b <= U32_MAX
    ensures r.Ok? ==> r.value == a + b
  {
    if a + b <= U32_MAX then Ok(a + b) else Err(ArithmeticOverflow)
  }

  function SafeMulU32(a: nat, b: nat): (r: Result<nat>)
    ensures r.Ok? <==> a * b <= U32_MAX
    ensures r.Ok? ==> r.value == a * b
  {
    if a * b <= U32_MAX then Ok(a * b) else Err(ArithmeticOverflow)
  }

  /** `data` holds exactly `bs` from position `pos` on. */
  predicate HasAt(data: seq<byte>, pos: nat, bs: seq<byte>) {
    pos + |bs| <= |data| && data[pos..pos + |bs|] == bs
  }

  lemma HasAtConcat(data: seq<byte>, pos: nat, a: seq<byte>, b: seq<byte>)
    ensures HasAt(data, pos, a + b) <==> HasAt(data, pos, a) && HasAt(data, pos + |a|, b)
  {
    if pos + |a + b| <= |data| {
      var w := data[pos..pos + |a + b|];
      assert w[..|a|] == data[pos..pos + |a|];
      assert w[|a|..] == data[pos + |a|..pos + |a| + |b|];
      assert w == w[..|a|] + w[|a|..];
    }
  }

  lemma HasAtSplit(data: seq<byte>, pos: nat, a: seq<byte>, b: seq<byte>)
    requires HasAt(data, pos, a + b)
    ensures HasAt(data, pos, a) && HasAt(data, pos + |a|, b)
  {
    HasAtConcat(data, pos, a, b);
  }

  /** A window of a window: the bytes [from, to) of `data`, seen again in `copy`. */
  lemma HasAtSub(copy: seq<byte>, at: nat, data: seq<byte>, from: nat, to: nat, i: nat, j: nat)
    requires from <= i <= j <= to <= |data|
    requires HasAt(copy, at, data[from..to])
    ensures HasAt(copy, at + (i - from), data[i..j])
  {
    var w := data[from..to];
    forall k | i <= k < j
      ensures copy[at + (k - from)] == data[k]
    {
      assert copy[at..at + |w|][k - from] == w[k - from];
    }
  }

  lemma HasAtFits(copy: seq<byte>, at: nat, bs: seq<byte>)
    requires HasAt(copy, at, bs)
    ensures at + |bs| <= |copy|
    ensures forall i :: 0 <= i < |bs| ==> copy[at + i] == bs[i]
  {
    forall i | 0 <= i < |bs| ensures copy[at + i] == bs[i] {
      assert copy[at..at + |bs|][i] == bs[i];
    }
  }

  // ----- ordered sets -----

  predicate IsGreatest(s: set<nat>, m: nat) {
    m in s && forall x :: x in s ==> x <= m
  }

  function Greatest(s: set<nat>): (m: nat)
    requires s != {}
    ensures m in s && forall x :: x in s ==> x <= m
  {
    GreatestExists(s);
    var m :| IsGreatest(s, m);
    m
  }

  lemma {:induction false} GreatestExists(s: set<nat>)
    requires s != {}
    ensures exists m :: IsGreatest(s, m)
    decreases |s|
  {
    var y :| y in s;
    var rest := s - {y};
    if rest == {} {
      assert s == {y};
      assert IsGreatest(s, y);
    } else {
      GreatestExists(rest);
      var m :| IsGreatest(rest, m);
      var g := if y <= m then m else y;
      forall x | x in s ensures x <= g {
        assert x == y || x in rest;
      }
      assert IsGreatest(s, g);
    }
  }
}
