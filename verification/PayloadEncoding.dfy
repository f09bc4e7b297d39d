/**
 Payload tables written after their instruction and read back: switch tables
 entry by entry, array data byte by byte.
 */
module PayloadEncoding {
  import opened Basics
  import opened CodeModel
  import opened InsnDecoder
  import opened BranchEncoding
  import opened InsnTheorems

  // ----- signed words -----

  predicate IsI32(v: int) {
    I32_MIN <= v <= I32_MAX
  }

  predicate AreI32(vs: seq<int>) {
    forall i :: 0 <= i < |vs| ==> IsI32(vs[i])
  }

  function SignedBytes(v: int): (bs: seq<byte>)
    ensures |bs| == 4
  {
    WordBytes(v % TWO_32)
  }

  function PrintSigned(vs: seq<int>): (bs: seq<byte>)
    ensures |bs| == 4 * |vs|
  {
    if vs == [] then [] else PrintSigned(vs[..|vs| - 1]) + SignedBytes(vs[|vs| - 1])
  }

  lemma SignedPrinted(data: seq<byte>, off: nat, v: int)
    requires IsI32(v) && HasAt(data, off, SignedBytes(v))
    ensures SignedWord(data, off) == Ok(v)
  {
    hide HasAt, Word;
    WordPrinted(data, off, v % TWO_32);
    assert v % TWO_32 == v || v % TWO_32 == v + TWO_32;
  }

  lemma {:induction false} KeysPrinted(data: seq<byte>, at: nat, keys: seq<int>)
    requires AreI32(keys) && HasAt(data, at, PrintSigned(keys))
    ensures KeyTable(data, at, |keys|) == Ok(keys)
    decreases |keys|
  {
    hide HasAt, SignedWord, SignedBytes, IsI32;
    if keys != [] {
      var n := |keys| - 1;
      HasAtSplit(data, at, PrintSigned(keys[..n]), SignedBytes(keys[n]));
      KeysPrinted(data, at, keys[..n]);
      SignedPrinted(data, at + 4 * n, keys[n]);
      assert keys[..n] + [keys[n]] == keys;
    }
  }

  /** The targets lie at these displacements from the switch. */
  predicate Displaced(targets: seq<u32>, switchPc: u32, offsets: seq<int>) {
    |targets| == |offsets| && forall i :: 0 <= i < |offsets| ==> targets[i] == switchPc + offsets[i]
  }

  /** Displacements that stay inside the address space. */
  predicate Reachable(switchPc: u32, offsets: seq<int>) {
    forall i :: 0 <= i < |offsets| ==> IsI32(offsets[i]) && 0 <= switchPc + offsets[i] <= U32_MAX
  }

  lemma {:induction false} TargetsPrinted(data: seq<byte>, at: nat, switchPc: u32, offsets: seq<int>)
    requires Reachable(switchPc, offsets) && HasAt(data, at, PrintSigned(offsets))
    ensures var r := TargetTable(data, at, |offsets|, switchPc);
            r.Ok? && Displaced(r.value, switchPc, offsets)
    decreases |offsets|
  {
    hide HasAt, SignedWord, SignedBytes;
    if offsets != [] {
      var n := |offsets| - 1;
      HasAtSplit(data, at, PrintSigned(offsets[..n]), SignedBytes(offsets[n]));
      TargetsPrinted(data, at, switchPc, offsets[..n]);
      SignedPrinted(data, at + 4 * n, offsets[n]);
      assert forall i :: 0 <= i < n ==> offsets[..n][i] == offsets[i];
    }
  }

  // ----- tables -----

  function PrintPacked(firstKey: int, offsets: seq<int>): seq<byte>
    requires |offsets| <= U16_MAX
  {
    UnitBytes(0x0100) + (UnitBytes(|offsets|) + (SignedBytes(firstKey) + PrintSigned(offsets)))
  }

  function PrintSparse(keys: seq<int>, offsets: seq<int>): seq<byte>
    requires |keys| == |offsets| <= U16_MAX
  {
    UnitBytes(0x0200) + (UnitBytes(|keys|) + (PrintSigned(keys) + PrintSigned(offsets)))
  }

  function PrintArray(width: nat, n: nat, bytes: seq<byte>): seq<byte>
    requires width <= U16_MAX && n <= U32_MAX
  {
    UnitBytes(0x0300) + (UnitBytes(width) + (WordBytes(n) + bytes))
  }

  /** The marker and the count in the first two units of a table. */
  lemma TableHead(data: seq<byte>, insnsOff: nat, p: u32, ident: nat, n: nat, rest: seq<byte>)
    requires ident <= U16_MAX && n <= U16_MAX && p < U32_MAX
    requires HasAt(data, insnsOff + 2 * p, UnitBytes(ident) + (UnitBytes(n) + rest))
    ensures Unit(data, insnsOff, p, 0) == Ok(ident) && Unit(data, insnsOff, p, 1) == Ok(n)
    ensures HasAt(data, insnsOff + 2 * p + 4, rest)
  {
    hide HasAt, HalfWord, UnitBytes;
    var base := insnsOff + 2 * p;
    HasAtSplit(data, base, UnitBytes(ident), UnitBytes(n) + rest);
    HasAtSplit(data, base + 2, UnitBytes(n), rest);
    UnitPrinted(data, base, ident);
    UnitPrinted(data, base + 2, n);
  }

  lemma PackedRoundTrip(data: seq<byte>, insnsOff: nat, p: u32, switchPc: u32, firstKey: int, offsets: seq<int>)
    requires IsI32(firstKey) && |offsets| <= U16_MAX && Reachable(switchPc, offsets) && p < U32_MAX
    requires HasAt(data, insnsOff + 2 * p, PrintPacked(firstKey, offsets))
    ensures Unit(data, insnsOff, p, 0) == Ok(0x0100)
    ensures var r := PackedTable(data, insnsOff, p, switchPc);
            && r.Ok? && r.value.PackedSwitch? && r.value.firstKey == firstKey
            && Displaced(r.value.targets, switchPc, offsets)
  {
    hide HasAt, Unit, SignedWord, UnitBytes, SignedBytes, PrintSigned, TargetTable, Reachable, Displaced;
    var base := insnsOff + 2 * p;
    TableHead(data, insnsOff, p, 0x0100, |offsets|, SignedBytes(firstKey) + PrintSigned(offsets));
    HasAtSplit(data, base + 4, SignedBytes(firstKey), PrintSigned(offsets));
    SignedPrinted(data, base + 4, firstKey);
    TargetsPrinted(data, base + 8, switchPc, offsets);
    HasAtFits(data, base + 8, PrintSigned(offsets));
    BoundIsCapacity(|offsets|, 4, |data|);
  }

  lemma SparseRoundTrip(data: seq<byte>, insnsOff: nat, p: u32, switchPc: u32, keys: seq<int>, offsets: seq<int>)
    requires AreI32(keys) && |keys| == |offsets| <= U16_MAX && Reachable(switchPc, offsets) && p < U32_MAX
    requires HasAt(data, insnsOff + 2 * p, PrintSparse(keys, offsets))
    ensures Unit(data, insnsOff, p, 0) == Ok(0x0200)
    ensures var r := SparseTable(data, insnsOff, p, switchPc);
            r.Ok? && r.value.SparseSwitch? && r.value.keys == keys && Displaced(r.value.targets, switchPc, offsets)
  {
    hide HasAt, Unit, UnitBytes, PrintSigned, KeyTable, TargetTable, Reachable, Displaced, AreI32;
    var base := insnsOff + 2 * p;
    TableHead(data, insnsOff, p, 0x0200, |keys|, PrintSigned(keys) + PrintSigned(offsets));
    HasAtSplit(data, base + 4, PrintSigned(keys), PrintSigned(offsets));
    KeysPrinted(data, base + 4, keys);
    TargetsPrinted(data, base + 4 + 4 * |keys|, switchPc, offsets);
    HasAtFits(data, base + 4 + 4 * |keys|, PrintSigned(offsets));
    BoundIsCapacity(|keys|, 8, |data|);
  }

  /** Array data is its own bytes, for every element width a primitive array has. */
  lemma ArrayRoundTrip(data: seq<byte>, insnsOff: nat, p: u32, width: nat, n: nat, bytes: seq<byte>)
    requires width in {1, 2, 4, 8} && n <= U32_MAX && |bytes| == n * width && p < U32_MAX
    requires HasAt(data, insnsOff + 2 * p, PrintArray(width, n, bytes))
    ensures Unit(data, insnsOff, p, 0) == Ok(0x0300)
    ensures ArrayTable(data, insnsOff, p) == Ok(FillArrayData(width, bytes))
  {
    hide HasAt, Unit, Word, UnitBytes, WordBytes;
    var base := insnsOff + 2 * p;
    TableHead(data, insnsOff, p, 0x0300, width, WordBytes(n) + bytes);
    HasAtSplit(data, base + 4, WordBytes(n), bytes);
    WordPrinted(data, base + 4, n);
    Window(data, base + 8, bytes);
  }

  lemma Window(data: seq<byte>, at: nat, bytes: seq<byte>)
    requires HasAt(data, at, bytes)
    ensures at + |bytes| <= |data| && data[at..at + |bytes|] == bytes
  {
  }

  /** Any other element width is refused. */
  lemma OtherWidthRefused(data: seq<byte>, insnsOff: nat, p: u32, width: nat, n: nat, bytes: seq<byte>)
    requires width !in {1, 2, 4, 8} && width <= U16_MAX && n <= U32_MAX && p < U32_MAX
    requires HasAt(data, insnsOff + 2 * p, PrintArray(width, n, bytes))
    ensures ArrayTable(data, insnsOff, p) == Err(InvalidInstruction(p))
  {
    hide HasAt, Unit, Word, UnitBytes, WordBytes;
    TableHead(data, insnsOff, p, 0x0300, width, WordBytes(n) + bytes);
  }

  // ----- skipping -----

  lemma PackedSkipped(data: seq<byte>, insnsOff: nat, p: nat, insnsSize: u32, firstKey: int, offsets: seq<int>)
    requires p < insnsSize && |offsets| <= U16_MAX
    requires HasAt(data, insnsOff + 2 * p, PrintPacked(firstKey, offsets))
    ensures var units := 4 + 2 * |offsets|;
            && |PrintPacked(firstKey, offsets)| == 2 * units
            && NextItem(data, insnsOff, p, insnsSize) ==
               if p + units <= U32_MAX then Ok(Payload(p, units)) else Err(ArithmeticOverflow)
  {
    hide HasAt, Unit, UnitBytes, SignedBytes, PrintSigned;
    TableHead(data, insnsOff, p, 0x0100, |offsets|, SignedBytes(firstKey) + PrintSigned(offsets));
  }

  lemma SparseSkipped(data: seq<byte>, insnsOff: nat, p: nat, insnsSize: u32, keys: seq<int>, offsets: seq<int>)
    requires p < insnsSize && |keys| == |offsets| <= U16_MAX
    requires HasAt(data, insnsOff + 2 * p, PrintSparse(keys, offsets))
    ensures var units := 2 + 4 * |keys|;
            && |PrintSparse(keys, offsets)| == 2 * units
            && NextItem(data, insnsOff, p, insnsSize) ==
               if p + units <= U32_MAX then Ok(Payload(p, units)) else Err(ArithmeticOverflow)
  {
    hide HasAt, Unit, UnitBytes, PrintSigned;
    TableHead(data, insnsOff, p, 0x0200, |keys|, PrintSigned(keys) + PrintSigned(offsets));
  }

  /** Array data takes whole units: an odd number of bytes is padded by one. */
  lemma ArraySkipped(data: seq<byte>, insnsOff: nat, p: nat, insnsSize: u32, width: nat, n: nat, bytes: seq<byte>)
    requires p < insnsSize && width <= U16_MAX && n <= U32_MAX && |bytes| == n * width
    requires HasAt(data, insnsOff + 2 * p, PrintArray(width, n, bytes))
    ensures var units := 4 + (|bytes| + 1) / 2;
            && |PrintArray(width, n, bytes)| == 8 + |bytes|
            && NextItem(data, insnsOff, p, insnsSize) ==
               if |bytes| <= U32_MAX && p + units <= U32_MAX then Ok(Payload(p, units)) else Err(ArithmeticOverflow)
  {
    hide HasAt, Unit, Word, UnitBytes, WordBytes;
    TableHead(data, insnsOff, p, 0x0300, width, WordBytes(n) + bytes);
    HasAtSplit(data, insnsOff + 2 * p + 4, WordBytes(n), bytes);
    WordPrinted(data, insnsOff + 2 * p + 4, n);
  }

  /** What the cursor makes of a unit: a table marker, an unmapped byte, or an instruction of that opcode. */
  lemma ItemKinds(data: seq<byte>, insnsOff: nat, pc: nat, insnsSize: u32)
    requires pc < insnsSize && NextItem(data, insnsOff, pc, insnsSize).Ok?
    ensures Unit(data, insnsOff, pc, 0).Ok?
    ensures var u, item := Unit(data, insnsOff, pc, 0).value, NextItem(data, insnsOff, pc, insnsSize).value;
            && (item.Payload? <==> u in {0x0100, 0x0200, 0x0300})
            && (item.Unknown? <==> UnmappedByte(u % 0x100)) && (item.Unknown? ==> item.opcode == u % 0x100)
            && (item.Insn? ==> item.insn.op == u % 0x100)
  {
    hide DecodeSingle, PayloadUnits, InsnViolations, Unit;
  }

  predicate UnmappedByte(op: nat) {
    0x3e <= op <= 0x43 || op == 0x73 || op == 0x79 || op == 0x7a || 0xe3 <= op <= 0xf9
  }

  // ----- through the decoder -----

  /** The array data of every decoded fill-array-data instruction is that of its own bytes, shared or not. */
  lemma ArrayBytesKept(data: seq<byte>, insnsOff: nat, insnsSize: u32, x: Instruction, p: u32, width: nat, n: nat,
                       bytes: seq<byte>)
    requires Decode(data, insnsOff, insnsSize).Ok? && x in Decode(data, insnsOff, insnsSize).value.instructions
    requires x.op == OP_FILL_ARRAY_DATA && x.target == Some(p) && p % 2 == 0 && p < U32_MAX
    requires width in {1, 2, 4, 8} && n <= U32_MAX && |bytes| == n * width
    requires HasAt(data, insnsOff + 2 * p, PrintArray(width, n, bytes))
    ensures var d := Decode(data, insnsOff, insnsSize).value;
            p in d.payloads && d.payloads[p] == FillArrayData(width, bytes)
  {
    hide Decode, Unit, HasAt, PrintArray, Laid, Items, Fills, ArrayTable;
    var d := Decode(data, insnsOff, insnsSize).value;
    ArrayRoundTrip(data, insnsOff, p, width, n, bytes);
    assert Takes(data, insnsOff, x, p);
    DecodeTiles(data, insnsOff, insnsSize);
    LaidAscends(d.instructions);
    assert d.instructions[..|d.instructions|] == d.instructions;
    var z := LastTaker(data, insnsOff, d.instructions, |d.instructions|, p);
    KeptTable(data, insnsOff, insnsSize, z, p);
    ArrayTaker(data, insnsOff, z, p);
  }

  lemma ArrayTaker(data: seq<byte>, insnsOff: nat, z: Instruction, p: u32)
    requires Takes(data, insnsOff, z, p) && Unit(data, insnsOff, p, 0) == Ok(0x0300)
    ensures Table(data, insnsOff, z) == ArrayTable(data, insnsOff, p)
  {
  }

  /** A switch that takes its table last keeps exactly the keys and targets written there. */
  lemma SwitchBytesKept(data: seq<byte>, insnsOff: nat, insnsSize: u32, x: Instruction, p: u32, keys: seq<int>,
                        offsets: seq<int>)
    requires Decode(data, insnsOff, insnsSize).Ok?
    requires x.target == Some(p) && p % 2 == 0 && p < U32_MAX
    requires AreI32(keys) && Reachable(x.addr, offsets) && |offsets| <= U16_MAX
    requires || (x.op == OP_PACKED_SWITCH && |keys| == 1 &&
                 HasAt(data, insnsOff + 2 * p, PrintPacked(keys[0], offsets)))
             || (x.op == OP_SPARSE_SWITCH && |keys| == |offsets| &&
                 HasAt(data, insnsOff + 2 * p, PrintSparse(keys, offsets)))
    requires TakesLast(data, insnsOff, Decode(data, insnsOff, insnsSize).value.instructions, x, p)
    ensures var d := Decode(data, insnsOff, insnsSize).value;
            && p in d.payloads
            && (x.op == OP_PACKED_SWITCH ==> d.payloads[p].PackedSwitch? && d.payloads[p].firstKey == keys[0])
            && (x.op == OP_SPARSE_SWITCH ==> d.payloads[p].SparseSwitch? && d.payloads[p].keys == keys)
            && Displaced(CaseTargets(d.payloads[p]), x.addr, offsets)
  {
    hide Decode, Unit, HasAt, PrintPacked, PrintSparse, PackedTable, SparseTable, Reachable, Displaced, Takes;
    KeptTable(data, insnsOff, insnsSize, x, p);
    if x.op == OP_PACKED_SWITCH {
      PackedRoundTrip(data, insnsOff, p, x.addr, keys[0], offsets);
    } else {
      SparseRoundTrip(data, insnsOff, p, x.addr, keys, offsets);
    }
  }
}
