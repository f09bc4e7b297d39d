/**
 Code units and words written and read back, and the branch displacements in them.
 */
module BranchEncoding {
  import opened Basics
  import opened CodeModel
  import opened InsnDecoder

  function UnitBytes(u: nat): (bs: seq<byte>)
    requires u <= U16_MAX
    ensures |bs| == 2
  {
    [u % 0x100, u / 0x100]
  }

  predicate AreUnits(units: seq<nat>) {
    forall i :: 0 <= i < |units| ==> units[i] <= U16_MAX
  }

  function PrintUnits(units: seq<nat>): (bs: seq<byte>)
    requires AreUnits(units)
    ensures |bs| == 2 * |units|
  {
    if units == [] then [] else PrintUnits(units[..|units| - 1]) + UnitBytes(units[|units| - 1])
  }

  lemma UnitPrinted(data: seq<byte>, off: nat, u: nat)
    requires u <= U16_MAX && HasAt(data, off, UnitBytes(u))
    ensures HalfWord(data, off) == Ok(u)
  {
    assert data[off..off + 2][0] == UnitBytes(u)[0] && data[off..off + 2][1] == UnitBytes(u)[1];
  }

  lemma {:induction false} UnitsPrinted(data: seq<byte>, insnsOff: nat, pc: nat, units: seq<nat>)
    requires AreUnits(units)
    requires pc + |units| <= U32_MAX && HasAt(data, insnsOff + 2 * pc, PrintUnits(units))
    ensures UnitsAt(data, insnsOff, pc, |units|) == Ok(units)
    decreases |units|
  {
    hide HasAt, HalfWord;
    if units != [] {
      var n := |units| - 1;
      HasAtSplit(data, insnsOff + 2 * pc, PrintUnits(units[..n]), UnitBytes(units[n]));
      UnitsPrinted(data, insnsOff, pc, units[..n]);
      UnitPrinted(data, insnsOff + 2 * (pc + n), units[n]);
      assert units[..n] + [units[n]] == units;
    }
  }

  function WordBytes(x: nat): (bs: seq<byte>)
    requires x <= U32_MAX
    ensures |bs| == 4
  {
    [x % 0x100, x / 0x100 % 0x100, x / 0x1_0000 % 0x100, x / 0x100_0000]
  }

  lemma WordDigits(x: nat)
    requires x <= U32_MAX
    ensures x == x % 0x100 + 0x100 * (x / 0x100 % 0x100) + 0x1_0000 * (x / 0x1_0000 % 0x100)
                 + 0x100_0000 * (x / 0x100_0000)
  {
    assert x / 0x1_0000 == x / 0x100 / 0x100;
    assert x / 0x100_0000 == x / 0x1_0000 / 0x100;
  }

  lemma WordPrinted(data: seq<byte>, off: nat, x: nat)
    requires x <= U32_MAX && HasAt(data, off, WordBytes(x))
    ensures Word(data, off) == Ok(x)
  {
    HasAtFits(data, off, WordBytes(x));
    assert data[off] == WordBytes(x)[0];
    assert data[off + 1] == WordBytes(x)[1] && data[off + 2] == WordBytes(x)[2] && data[off + 3] == WordBytes(x)[3];
    WordDigits(x);
  }

  /** Displacements a format can hold. */
  predicate Reaches(f: Format, d: int) {
    match f
    case Branch8 => -0x80 <= d < 0x80
    case Branch16 => -0x8000 <= d < 0x8000
    case Branch32 => I32_MIN <= d <= I32_MAX
    case _ => false
  }

  /** The units of a branch: opcode byte, the rest of the first unit, displacement in two's complement. */
  function BranchUnits(f: Format, op: byte, high: byte, d: int): (units: seq<nat>)
    requires Reaches(f, d)
    ensures |units| == f.Size() && AreUnits(units)
  {
    match f
    case Branch8 => [op + 0x100 * (d % 0x100)]
    case Branch16 => [op + 0x100 * high, d % 0x1_0000]
    case Branch32 => [op + 0x100 * high, d % 0x1_0000, d % TWO_32 / 0x1_0000]
  }

  lemma DisplacementPrinted(f: Format, op: byte, high: byte, d: int)
    requires Reaches(f, d)
    ensures Displacement(f, BranchUnits(f, op, high, d)) == d
  {
    if f.Branch32? {
      var w := d % TWO_32;
      assert w == d || w == d + TWO_32;
      assert d % 0x1_0000 == w % 0x1_0000;
      assert d % 0x1_0000 + 0x1_0000 * (w / 0x1_0000) == w;
      WrapInRange(d);
    } else if f.Branch8? {
      assert (op + 0x100 * (d % 0x100)) / 0x100 == d % 0x100;
    }
  }

  /** A written branch decodes to its own opcode and the address `d` units away, or is refused if there is none. */
  lemma BranchRoundTrip(data: seq<byte>, insnsOff: nat, pc: u32, op: byte, high: byte, d: int)
    requires FormatOf(op).Some? && Reaches(FormatOf(op).value, d) && pc + 3 <= U32_MAX
    requires HasAt(data, insnsOff + 2 * pc, PrintUnits(BranchUnits(FormatOf(op).value, op, high, d)))
    ensures DecodeSingle(data, insnsOff, pc, op) ==
            if 0 <= pc + d <= U32_MAX then Ok(Instruction(pc, op, FormatOf(op).value.Size(), Some(pc + d)))
            else Err(InvalidInstruction(pc))
  {
    hide FormatOf, HasAt, PrintUnits, BranchUnits, UnitsAt, Displacement;
    var f := FormatOf(op).value;
    UnitsPrinted(data, insnsOff, pc, BranchUnits(f, op, high, d));
    DisplacementPrinted(f, op, high, d);
  }

  /** Opcodes whose third unit is the first of a run of registers. */
  predicate IsRangeForm(op: byte) {
    0x74 <= op <= 0x78 || op in {0x25, 0xfb, 0xfd}
  }

  /**
   A range form with `n` registers from `first` on is refused if and only if one of the registers that are
   kept, at most five, is past the 16-bit ones.
   */
  lemma RangeRoundTrip(data: seq<byte>, insnsOff: nat, pc: u32, op: byte, n: byte, rest: seq<nat>, first: nat)
    requires IsRangeForm(op) && pc + 4 <= U32_MAX && first <= U16_MAX && AreUnits(rest)
    requires |rest| == if op == 0xfb then 2 else 1
    requires HasAt(data, insnsOff + 2 * pc, PrintUnits(RangeUnits(op, n, rest, first)))
    ensures FormatOf(op).Some?
    ensures DecodeSingle(data, insnsOff, pc, op) ==
            if exists k: nat :: IsKeptPast(first, n, k) then Err(InvalidInstruction(pc))
            else Ok(Instruction(pc, op, 2 + |rest|, None))
  {
    hide HasAt, PrintUnits, UnitsAt;
    var units := RangeUnits(op, n, rest, first);
    UnitsPrinted(data, insnsOff, pc, units);
    RangeForms(op);
    RangeCount(op, n);
    if n > 0 {
      var last := if n < 5 then n - 1 else 4;
      assert IsKeptPast(first, n, last) <==> first + last > 0xFFFF;
    }
  }

  /** Register `k` of the run is kept, and is past the 16-bit ones. */
  predicate IsKeptPast(first: nat, n: nat, k: nat) {
    k < n && k < 5 && first + k > 0xFFFF
  }

  /** Opcode and count, then a pool index, the first register, and the prototype of a polymorphic call. */
  function RangeUnits(op: byte, n: byte, rest: seq<nat>, first: nat): (units: seq<nat>)
    requires rest != [] && AreUnits(rest) && first <= U16_MAX
    ensures AreUnits(units) && |units| == 2 + |rest|
  {
    [op + 0x100 * n, rest[0], first] + rest[1..]
  }

  lemma RangeForms(op: byte)
    requires IsRangeForm(op)
    ensures FormatOf(op) == Some(ArgRange(if op == 0xfb then 4 else 3))
  {
  }

  lemma RangeCount(op: byte, n: byte)
    ensures (op + 0x100 * n) / 0x100 % 0x100 == n
  {
  }

  /** Every other mapped opcode decodes from any readable units, to an instruction without a target. */
  lemma OthersDecode(data: seq<byte>, insnsOff: nat, pc: u32, op: byte, units: seq<nat>)
    requires FormatOf(op).Some? && !FormatOf(op).value.IsBranch() && !IsRangeForm(op)
    requires |units| == FormatOf(op).value.Size() && AreUnits(units) && pc + |units| <= U32_MAX
    requires HasAt(data, insnsOff + 2 * pc, PrintUnits(units))
    ensures DecodeSingle(data, insnsOff, pc, op) == Ok(Instruction(pc, op, |units|, None))
  {
    hide HasAt, PrintUnits, UnitsAt;
    UnitsPrinted(data, insnsOff, pc, units);
    if FormatOf(op).value.ArgRange? {
      OnlyRangeForms(op);
    }
  }

  lemma OnlyRangeForms(op: byte)
    requires FormatOf(op).Some? && FormatOf(op).value.ArgRange?
    ensures IsRangeForm(op)
  {
  }
}
