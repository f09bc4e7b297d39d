/**
 The variable-length integers of section 7.6 of the DWARF standard, as the
 cross-check reader of src/cfg_oracle.rs decodes them: at most five bytes, the
 bits past the 32nd dropped.
 */
module Leb128 {
  import opened Basics

  /** Number of bytes of the LEB128 item at `pos` with at most `left` bytes; 0 when it runs off the end. */
  function LebLen(data: seq<byte>, pos: nat, left: nat): (n: nat)
    requires left >= 1
    ensures n <= left && (n > 0 ==> pos + n <= |data|)
    decreases left
  {
    if pos >= |data| then 0
    else if data[pos] < 128 || left == 1 then 1
    else
      var n := LebLen(data, pos + 1, left - 1);
      if n == 0 then 0 else n + 1
  }

  /** Base-128 value of the low seven bits of each byte, least significant first. */
  function GroupsValue(groups: seq<byte>): nat {
    if groups == [] then 0 else groups[0] % 128 + 128 * GroupsValue(groups[1..])
  }

  /** The same with the top group taken as a seven-bit two's-complement digit. */
  function SignedGroupsValue(groups: seq<byte>): int
    requires groups != []
  {
    if |groups| == 1 then
      var g := groups[0] % 128;
      if g >= 64 then g - 128 else g
    else
      groups[0] % 128 + 128 * SignedGroupsValue(groups[1..])
  }

  function Uleb(data: seq<byte>, pos: nat): (r: Result<Read<nat>>)
    ensures r.Ok? ==> pos < r.value.next <= |data| && r.value.next <= pos + 5 && r.value.value <= U32_MAX
    ensures r.Err? ==> r.error == InvalidUleb128(pos)
  {
    var n := LebLen(data, pos, 5);
    if n == 0 then Err(InvalidUleb128(pos))
    else Ok(Read(GroupsValue(data[pos..pos + n]) % TWO_32, pos + n))
  }

  function Sleb(data: seq<byte>, pos: nat): (r: Result<Read<int>>)
    ensures r.Ok? ==> pos < r.value.next <= |data| && r.value.next <= pos + 5
    ensures r.Ok? ==> I32_MIN <= r.value.value <= I32_MAX
    ensures r.Err? ==> r.error == InvalidUleb128(pos)
  {
    var n := LebLen(data, pos, 5);
    if n == 0 then Err(InvalidUleb128(pos))
    else Ok(Read(WrapI32(SignedGroupsValue(data[pos..pos + n])), pos + n))
  }

  /** 2^(7k). */
  function Shift(k: nat): (m: nat)
    requires k <= 5
    ensures m > 0
  {
    if k == 0 then 1
    else if k == 1 then 0x80
    else if k == 2 then 0x4000
    else if k == 3 then 0x20_0000
    else if k == 4 then 0x1000_0000
    else 0x8_0000_0000
  }

  lemma {:induction false} GroupsAppend(groups: seq<byte>, b: byte)
    requires |groups| <= 4
    ensures GroupsValue(groups + [b]) == GroupsValue(groups) + Shift(|groups|) * (b % 128)
    ensures GroupsValue(groups) < Shift(|groups|)
  {
    if groups != [] {
      GroupsAppend(groups[1..], b);
      assert (groups + [b])[1..] == groups[1..] + [b];
    }
  }

  /** `(b & 0x7f).wrapping_shl(7k)` in 32 bits. */
  function Group(b: byte, k: nat): nat
    requires k <= 4
  {
    (b % 128 * Shift(k)) % TWO_32
  }

  /** One more group, with the shift's wrap at 32 bits: only a fifth group can lose bits. */
  lemma GroupsAppendWrapped(groups: seq<byte>, b: byte)
    requires |groups| <= 4
    ensures GroupsValue(groups) + Group(b, |groups|) == GroupsValue(groups + [b]) % TWO_32
    ensures |groups| < 4 ==> GroupsValue(groups + [b]) < TWO_32
  {
    hide GroupsValue;
    GroupsAppend(groups, b);
    ShiftWraps(GroupsValue(groups), b % 128, |groups|);
  }

  lemma ShiftWraps(v: nat, g: nat, k: nat)
    requires k <= 4 && g < 128 && v < Shift(k)
    ensures v + (g * Shift(k)) % TWO_32 == (v + Shift(k) * g) % TWO_32
    ensures k < 4 ==> v + Shift(k) * g < TWO_32
  {
    if k == 4 {
      var hi, lo := g / 16, g % 16;
      assert g * 0x1000_0000 == hi * TWO_32 + lo * 0x1000_0000;
      assert v + lo * 0x1000_0000 < TWO_32;
      assert (v + g * 0x1000_0000) % TWO_32 == v + lo * 0x1000_0000;
    } else if k == 3 {
      assert g * 0x20_0000 < 0x1000_0000;
    }
  }

  lemma {:induction false} SignedFromUnsigned(groups: seq<byte>)
    requires 1 <= |groups| <= 5
    ensures SignedGroupsValue(groups) == GroupsValue(groups)
                                         - (if groups[|groups| - 1] % 128 >= 64 then Shift(|groups|) else 0)
  {
    if |groups| > 1 {
      SignedFromUnsigned(groups[1..]);
    } else {
      assert groups[1..] == [];
    }
  }

  /** `signed |= !0 << shift` when fewer than 32 bits were read and bit 6 of the last byte is set. */
  function SignExtend(bits: nat, groups: nat, terminal: byte): int
    requires groups <= 5
  {
    WrapI32(bits) - (if groups < 5 && terminal % 128 >= 64 then Shift(groups) else 0)
  }

  /** Sign-extending the accumulated bits gives the two's-complement value of the groups. */
  lemma SignExtension(groups: seq<byte>)
    requires 1 <= |groups| <= 5
    ensures SignExtend(GroupsValue(groups) % TWO_32, |groups|, groups[|groups| - 1]) ==
            WrapI32(SignedGroupsValue(groups))
  {
    hide GroupsValue, SignedGroupsValue;
    SignedFromUnsigned(groups);
    var init := groups[..|groups| - 1];
    assert groups == init + [groups[|groups| - 1]];
    GroupsAppend(init, groups[|groups| - 1]);
    SignWraps(GroupsValue(init), groups[|groups| - 1] % 128, |init|);
  }

  lemma SignWraps(v: nat, g: nat, k: nat)
    requires k <= 4 && g < 128 && v < Shift(k)
    ensures var u := v + Shift(k) * g;
            WrapI32(u - (if g >= 64 then Shift(k + 1) else 0)) ==
            WrapI32(u % TWO_32) - (if k < 4 && g >= 64 then Shift(k + 1) else 0)
  {
    var u := v + Shift(k) * g;
    if k == 4 {
      assert (u - 8 * TWO_32) % TWO_32 == u % TWO_32;
    } else {
      assert u < Shift(k + 1) <= 0x1000_0000;
    }
  }

  lemma LebLenUnfold(data: seq<byte>, pos: nat, i: nat)
    requires i < 5 && pos + i < |data|
    requires forall k :: pos <= k < pos + i ==> data[k] >= 128
    ensures data[pos + i] < 128 || i == 4 ==> LebLen(data, pos, 5) == i + 1
  {
    LebLenStep(data, pos, 5, i);
  }

  lemma {:induction false} LebLenStep(data: seq<byte>, pos: nat, left: nat, i: nat)
    requires i < left && pos + i <= |data|
    requires forall k :: pos <= k < pos + i ==> data[k] >= 128
    ensures LebLen(data, pos, left) ==
            var n := LebLen(data, pos + i, left - i);
            if n == 0 then 0 else n + i
    decreases i
  {
    if i > 0 {
      LebLenStep(data, pos + 1, left - 1, i - 1);
    }
  }

  /** State of a reader after the continuation bytes [pos, cur). */
  ghost predicate Accumulated(data: seq<byte>, pos: nat, cur: nat, result: nat) {
    && pos <= cur <= pos + 4 && (cur > pos ==> cur <= |data|)
    && (forall k :: pos <= k < cur ==> data[k] >= 128)
    && (cur <= |data| ==> result == GroupsValue(data[pos..cur]))
  }

  /** Adding the group at `cur`: the state of the reader, or its end. */
  lemma Accumulate(data: seq<byte>, pos: nat, cur: nat, result: nat)
    requires Accumulated(data, pos, cur, result)
    ensures cur >= |data| ==> LebLen(data, pos, 5) == 0
    ensures cur < |data| ==>
              var more := result + Group(data[cur], cur - pos);
              if data[cur] < 128 || cur == pos + 4
              then LebLen(data, pos, 5) == cur + 1 - pos && more == GroupsValue(data[pos..cur + 1]) % TWO_32
              else Accumulated(data, pos, cur + 1, more)
  {
    hide GroupsValue, LebLen, Group;
    if cur >= |data| {
      UnterminatedLeb(data, pos, cur - pos);
    } else {
      assert data[pos..cur + 1] == data[pos..cur] + [data[cur]];
      GroupsAppendWrapped(data[pos..cur], data[cur]);
      LebLenUnfold(data, pos, cur - pos);
      if data[cur] >= 128 && cur < pos + 4 {
        SmallMod(GroupsValue(data[pos..cur + 1]));
      }
    }
  }

  lemma SmallMod(x: nat)
    ensures x < TWO_32 ==> x % TWO_32 == x
  {
  }

  lemma NothingAccumulated(data: seq<byte>, pos: nat)
    ensures Accumulated(data, pos, pos, 0)
  {
    assert GroupsValue([]) == 0;
  }

  lemma AccumulatedRange(data: seq<byte>, pos: nat, cur: nat, result: nat)
    requires Accumulated(data, pos, cur, result)
    ensures pos <= cur <= pos + 4
  {
  }

  /** `read_uleb128`: the OR of disjoint bit groups is their sum. */
  method ReadUleb128(data: seq<byte>, pos: nat) returns (r: Result<Read<nat>>)
    ensures r == Uleb(data, pos)
  {
    hide GroupsValue, LebLen, Group, Accumulated;
    var result: nat, shift: nat, cur: nat := 0, 0, pos;
    NothingAccumulated(data, pos);
    while true
      invariant shift == cur - pos && Accumulated(data, pos, cur, result)
      decreases pos + 5 - cur
    {
      AccumulatedRange(data, pos, cur, result);
      Accumulate(data, pos, cur, result);
      if cur >= |data| {
        return Err(InvalidUleb128(pos));
      }
      var b := data[cur];
      result := result + Group(b, shift);
      cur := cur + 1;
      shift := shift + 1;
      if b < 128 || shift == 5 {
        return Ok(Read(result, cur));
      }
    }
  }

  lemma UnterminatedLeb(data: seq<byte>, pos: nat, i: nat)
    requires i < 5 && pos + i >= |data|
    requires i > 0 ==> pos + i <= |data|
    requires forall k :: pos <= k < pos + i ==> data[k] >= 128
    ensures LebLen(data, pos, 5) == 0
  {
    if i > 0 {
      LebLenStep(data, pos, 5, i);
    }
  }

  /** `read_sleb128`: accumulate unsigned, then sign-extend from the last group unless all 32 bits were read. */
  method ReadSleb128(data: seq<byte>, pos: nat) returns (r: Result<Read<int>>)
    ensures r == Sleb(data, pos)
  {
    hide GroupsValue, SignedGroupsValue, LebLen, Group, SignExtend, WrapI32, Accumulated;
    var result: nat, shift: nat, cur: nat := 0, 0, pos;
    NothingAccumulated(data, pos);
    while true
      invariant shift == cur - pos && Accumulated(data, pos, cur, result)
      decreases pos + 5 - cur
    {
      AccumulatedRange(data, pos, cur, result);
      Accumulate(data, pos, cur, result);
      if cur >= |data| {
        return Err(InvalidUleb128(pos));
      }
      var b := data[cur];
      result := result + Group(b, shift);
      cur := cur + 1;
      shift := shift + 1;
      if b < 128 || shift == 5 {
        SignExtension(data[pos..cur]);
        return Ok(Read(SignExtend(result, shift, b), cur));
      }
    }
  }

  /** The encoder `push_uleb`, as the list of bytes it appends. */
  function EncodeUleb(v: nat): (bs: seq<byte>)
    ensures |bs| >= 1
  {
    if v < 128 then [v] else [v % 128 + 128] + EncodeUleb(v / 128)
  }

  method PushUleb(v: nat, out: seq<byte>) returns (r: seq<byte>)
    requires v <= U32_MAX
    ensures r == out + EncodeUleb(v)
  {
    var x := v;
    r := out;
    while true
      invariant r + EncodeUleb(x) == out + EncodeUleb(v)
      decreases x
    {
      var b: byte := x % 128;
      x := x / 128;
      if x != 0 {
        r := r + [b + 128];
      } else {
        return r + [b];
      }
    }
  }

  /** Least number of seven-bit groups that hold `v`. */
  function MinimalLen(v: nat): nat
    requires v <= U32_MAX
  {
    if v < 0x80 then 1 else if v < 0x4000 then 2 else if v < 0x20_0000 then 3 else if v < 0x1000_0000 then 4 else 5
  }

  /** Reading inverts encoding, whatever surrounds the encoded bytes, and the encoding has the minimal length. */
  lemma UlebRoundTrip(v: nat, data: seq<byte>, pos: nat)
    requires v <= U32_MAX
    requires HasAt(data, pos, EncodeUleb(v))
    ensures |EncodeUleb(v)| == MinimalLen(v)
    ensures Uleb(data, pos) == Ok(Read(v, pos + |EncodeUleb(v)|))
  {
    EncodedShape(v, data, pos, 5);
  }

  lemma {:induction false} EncodedShape(v: nat, data: seq<byte>, pos: nat, left: nat)
    requires 1 <= left <= 5 && v < 2 * Shift(left) && v <= U32_MAX
    requires left < 5 ==> v < Shift(left)
    requires HasAt(data, pos, EncodeUleb(v))
    ensures |EncodeUleb(v)| == MinimalLen(v) <= left
    ensures LebLen(data, pos, left) == |EncodeUleb(v)|
    ensures GroupsValue(EncodeUleb(v)) == v
    decreases left
  {
    hide HasAt;
    var bs := EncodeUleb(v);
    HasAtFits(data, pos, bs);
    assert data[pos + 0] == bs[0];
    if v >= 128 {
      HasAtSplit(data, pos, [v % 128 + 128], EncodeUleb(v / 128));
      EncodedShape(v / 128, data, pos + 1, left - 1);
      assert bs[1..] == EncodeUleb(v / 128);
    } else {
      assert bs[1..] == [];
    }
  }

  /** No padding group, and no bits dropped from a fifth byte. */
  predicate MinimalUleb(data: seq<byte>, pos: nat)
    requires Uleb(data, pos).Ok?
  {
    var next := Uleb(data, pos).value.next;
    && (next == pos + 1 || data[next - 1] != 0)
    && (next == pos + 5 ==> data[next - 1] < 16)
  }

  /** The bytes read are the encoder's own exactly when they are minimal. */
  lemma MinimalUlebIsEncoded(data: seq<byte>, pos: nat)
    requires Uleb(data, pos).Ok?
    ensures MinimalUleb(data, pos) <==> HasAt(data, pos, EncodeUleb(Uleb(data, pos).value.value))
  {
    if MinimalUleb(data, pos) {
      MinimalIsEncoded(data, pos);
    }
    if HasAt(data, pos, EncodeUleb(Uleb(data, pos).value.value)) {
      EncodedIsMinimal(Uleb(data, pos).value.value, data, pos);
    }
  }

  lemma MinimalIsEncoded(data: seq<byte>, pos: nat)
    requires Uleb(data, pos).Ok? && MinimalUleb(data, pos)
    ensures HasAt(data, pos, EncodeUleb(Uleb(data, pos).value.value))
  {
    hide LebLen, GroupsValue, EncodeUleb;
    var bs := data[pos..Uleb(data, pos).value.next];
    LebShape(data, pos, 5);
    EncodeGroups(bs);
    GroupsFit(bs);
  }

  lemma GroupsFit(bs: seq<byte>)
    requires |bs| <= 5 && (|bs| == 5 ==> bs[4] < 16)
    ensures GroupsValue(bs) < TWO_32
  {
    if |bs| == 5 {
      assert bs == bs[..4] + [bs[4]];
      GroupsAppend(bs[..4], bs[4]);
    } else {
      GroupsAppend(bs, 0);
    }
  }

  lemma EncodedIsMinimal(v: nat, data: seq<byte>, pos: nat)
    requires v <= U32_MAX && HasAt(data, pos, EncodeUleb(v))
    ensures Uleb(data, pos).Ok? && MinimalUleb(data, pos)
  {
    hide LebLen, GroupsValue, EncodeUleb;
    var bs := EncodeUleb(v);
    UlebRoundTrip(v, data, pos);
    EncodedShape(v, data, pos, 5);
    EncodedEnd(v);
    assert data[pos + |bs| - 1] == data[pos..pos + |bs|][|bs| - 1] == bs[|bs| - 1];
    if |bs| == 5 {
      TopGroupBound(bs);
    }
  }

  lemma TopGroupBound(bs: seq<byte>)
    requires |bs| == 5 && bs[4] < 128 && GroupsValue(bs) <= U32_MAX
    ensures bs[4] < 16
  {
    assert bs == bs[..4] + [bs[4]];
    GroupsAppend(bs[..4], bs[4]);
  }

  lemma {:induction false} LebShape(data: seq<byte>, pos: nat, left: nat)
    requires left >= 1 && LebLen(data, pos, left) > 0
    ensures var n := LebLen(data, pos, left);
            && (forall k :: pos <= k < pos + n - 1 ==> data[k] >= 128)
            && (n < left ==> data[pos + n - 1] < 128)
    decreases left
  {
    if LebLen(data, pos, left) > 1 {
      LebShape(data, pos + 1, left - 1);
    }
  }

  lemma {:induction false} EncodeGroups(bs: seq<byte>)
    requires |bs| >= 1 && bs[|bs| - 1] < 128
    requires forall k :: 0 <= k < |bs| - 1 ==> bs[k] >= 128
    requires |bs| > 1 ==> bs[|bs| - 1] != 0
    ensures EncodeUleb(GroupsValue(bs)) == bs
    ensures |bs| > 1 ==> GroupsValue(bs) >= 128
    ensures bs[|bs| - 1] != 0 ==> GroupsValue(bs) >= 1
  {
    if |bs| > 1 {
      EncodeGroups(bs[1..]);
    } else {
      assert bs[1..] == [];
    }
  }

  lemma {:induction false} EncodedEnd(v: nat)
    ensures var bs := EncodeUleb(v);
            bs[|bs| - 1] < 128 && (|bs| == 1 || bs[|bs| - 1] != 0) && (v > 0 ==> bs[|bs| - 1] != 0)
    decreases v
  {
    if v >= 128 {
      EncodedEnd(v / 128);
    }
  }

  /** A reader consults only the bytes it consumes. */
  lemma UlebLocal(data: seq<byte>, pos: nat, copy: seq<byte>, at: nat)
    requires Uleb(data, pos).Ok?
    requires HasAt(copy, at, data[pos..Uleb(data, pos).value.next])
    ensures Uleb(copy, at) == Ok(Read(Uleb(data, pos).value.value, at + (Uleb(data, pos).value.next - pos)))
  {
    LebLenLocal(data, pos, copy, at, 5);
  }

  lemma SlebLocal(data: seq<byte>, pos: nat, copy: seq<byte>, at: nat)
    requires Sleb(data, pos).Ok?
    requires HasAt(copy, at, data[pos..Sleb(data, pos).value.next])
    ensures Sleb(copy, at) == Ok(Read(Sleb(data, pos).value.value, at + (Sleb(data, pos).value.next - pos)))
  {
    LebLenLocal(data, pos, copy, at, 5);
  }

  /** Bytes that encode a value on their own encode it wherever they stand. */
  lemma SlebPrinted(data: seq<byte>, pos: nat, value: int, sleb: seq<byte>)
    requires Sleb(sleb, 0) == Ok(Read(value, |sleb|)) && HasAt(data, pos, sleb)
    ensures Sleb(data, pos) == Ok(Read(value, pos + |sleb|))
  {
    assert sleb[0..|sleb|] == sleb;
    SlebLocal(sleb, 0, data, pos);
  }

  lemma {:induction false} LebLenLocal(data: seq<byte>, pos: nat, copy: seq<byte>, at: nat, left: nat)
    requires left >= 1 && LebLen(data, pos, left) > 0
    requires HasAt(copy, at, data[pos..pos + LebLen(data, pos, left)])
    ensures LebLen(copy, at, left) == LebLen(data, pos, left)
    decreases left
  {
    var n := LebLen(data, pos, left);
    assert copy[at] == copy[at..at + n][0] == data[pos];
    if n > 1 {
      HasAtSub(copy, at, data, pos, pos + n, pos + 1, pos + n);
      LebLenLocal(data, pos + 1, copy, at + 1, left - 1);
    }
  }

  // ----- one-byte encodings, and failure -----

  lemma SmallUleb(data: seq<byte>, pos: nat)
    requires pos < |data| && data[pos] < 128
    ensures Uleb(data, pos) == Ok(Read(data[pos], pos + 1))
  {
    var bs := data[pos..pos + 1];
    assert bs[1..] == [];
    assert GroupsValue(bs) == data[pos];
    assert LebLen(data, pos, 5) == 1;
  }

  lemma SmallSleb(data: seq<byte>, pos: nat)
    requires pos < |data| && data[pos] < 64
    ensures Sleb(data, pos) == Ok(Read(data[pos], pos + 1))
  {
    var bs := data[pos..pos + 1];
    assert bs[1..] == [];
    assert SignedGroupsValue(bs) == data[pos];
    assert LebLen(data, pos, 5) == 1;
    WrapInRange(data[pos]);
  }

  /** Reading fails exactly when the input ends inside the number: fewer than five bytes, all of them continued. */
  lemma LebFailsAtEnd(data: seq<byte>, pos: nat)
    ensures Uleb(data, pos).Err? <==> |data| < pos + 5 && forall k :: pos <= k < |data| ==> data[k] >= 128
    ensures Sleb(data, pos).Err? <==> Uleb(data, pos).Err?
  {
    hide GroupsValue, SignedGroupsValue, WrapI32;
    NoLeb(data, pos, 5);
  }

  lemma {:induction false} NoLeb(data: seq<byte>, pos: nat, left: nat)
    requires left > 0
    ensures LebLen(data, pos, left) == 0 <==> |data| < pos + left && forall k :: pos <= k < |data| ==> data[k] >= 128
    decreases left
  {
    if pos < |data| && left > 1 {
      NoLeb(data, pos + 1, left - 1);
    }
  }

  // ----- a signed encoder -----

  /** The shortest SLEB128: seven bits at a time, rounding down, until the rest is the sign of the last group. */
  function EncodeSleb(v: int): (bs: seq<byte>)
    ensures |bs| >= 1
    decreases if v < 0 then -v else v
  {
    if -64 <= v < 64 then [v % 128] else [v % 128 + 128] + EncodeSleb(v / 128)
  }

  lemma {:induction false} EncodedSigned(v: int)
    ensures SignedGroupsValue(EncodeSleb(v)) == v
    decreases if v < 0 then -v else v
  {
    if !(-64 <= v < 64) {
      EncodedSigned(v / 128);
      assert EncodeSleb(v)[1..] == EncodeSleb(v / 128);
    }
  }

  /** Range of the numbers that `left` groups hold. */
  function HalfRange(left: nat): int
    requires 1 <= left <= 5
  {
    if left == 1 then 64
    else if left == 2 then 0x2000
    else if left == 3 then 0x10_0000
    else if left == 4 then 0x800_0000
    else 0x4_0000_0000
  }

  lemma {:induction false} EncodedSignedLen(v: int, left: nat)
    requires 1 <= left <= 5 && -HalfRange(left) <= v < HalfRange(left)
    ensures |EncodeSleb(v)| <= left && LebLen(EncodeSleb(v), 0, left) == |EncodeSleb(v)|
    decreases left
  {
    if !(-64 <= v < 64) {
      EncodedSignedLen(v / 128, left - 1);
      var rest := EncodeSleb(v / 128);
      LebLenShift([v % 128 + 128] + rest, rest, left - 1);
    }
  }

  lemma {:induction false} LebLenShift(data: seq<byte>, rest: seq<byte>, left: nat)
    requires left >= 1 && |data| == |rest| + 1 && data[1..] == rest
    ensures LebLen(data, 1, left) == LebLen(rest, 0, left)
  {
    LebLenShiftAt(data, rest, 0, left);
  }

  lemma {:induction false} LebLenShiftAt(data: seq<byte>, rest: seq<byte>, pos: nat, left: nat)
    requires left >= 1 && |data| == |rest| + 1 && data[1..] == rest
    ensures LebLen(data, pos + 1, left) == LebLen(rest, pos, left)
    decreases left
  {
    if pos < |rest| {
      assert data[pos + 1] == rest[pos];
      if left > 1 {
        LebLenShiftAt(data, rest, pos + 1, left - 1);
      }
    }
  }

  /** Reading inverts the signed encoder for every i32, wherever the bytes stand. */
  lemma SlebRoundTrip(v: int, data: seq<byte>, pos: nat)
    requires I32_MIN <= v <= I32_MAX && HasAt(data, pos, EncodeSleb(v))
    ensures Sleb(data, pos) == Ok(Read(v, pos + |EncodeSleb(v)|))
  {
    var bs := EncodeSleb(v);
    EncodedSigned(v);
    EncodedSignedLen(v, 5);
    assert bs[0..|bs|] == bs;
    WrapInRange(v);
    hide EncodeSleb, SignedGroupsValue, LebLen, HasAt;
    SlebPrinted(data, pos, v, bs);
  }
}
