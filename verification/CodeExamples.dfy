/**
 Code items, as bytes, on which something gives way: a fall-through split by
 a branch, a switch table taken twice, and four ways in which the builder and
 the naive builder differ.
 */
module CodeExamples {
  import opened Basics
  import opened Leb128
  import opened CodeModel
  import opened InsnDecoder
  import opened InsnTheorems
  import opened CodeItemParser
  import opened CodeItemTheorems
  import opened Cfg
  import opened CfgWalk
  import opened CfgTheorems
  import opened CfgOracle
  import opened CfgAgreement

  // ----- reading concrete code -----

  lemma TwoUnits(data: seq<byte>, off: nat, pc: nat, a: nat, b: nat)
    requires Unit(data, off, pc, 0) == Ok(a) && Unit(data, off, pc, 1) == Ok(b)
    ensures UnitsAt(data, off, pc, 1) == Ok([a]) && UnitsAt(data, off, pc, 2) == Ok([a, b])
  {
    hide Unit;
    OneUnit(data, off, pc, a);
    assert [a] + [b] == [a, b];
  }

  lemma ThreeUnits(data: seq<byte>, off: nat, pc: nat, a: nat, b: nat, c: nat)
    requires Unit(data, off, pc, 0) == Ok(a) && Unit(data, off, pc, 1) == Ok(b) && Unit(data, off, pc, 2) == Ok(c)
    ensures UnitsAt(data, off, pc, 3) == Ok([a, b, c])
  {
    hide Unit;
    TwoUnits(data, off, pc, a, b);
    assert [a, b] + [c] == [a, b, c];
  }

  lemma OneUnit(data: seq<byte>, off: nat, pc: nat, a: nat)
    requires Unit(data, off, pc, 0) == Ok(a)
    ensures UnitsAt(data, off, pc, 1) == Ok([a])
  {
    hide Unit;
    assert UnitsAt(data, off, pc, 0) == Ok([]);
    assert [] + [a] == [a];
  }

  /** The item of an instruction without argument list. */
  lemma InsnAtPc(data: seq<byte>, off: nat, pc: u32, n: u32, units: seq<nat>, x: Instruction)
    requires pc < n && units != [] && Unit(data, off, pc, 0) == Ok(units[0]) && !IsPayloadIdent(units[0])
    requires var f := FormatOf(units[0] % 0x100);
             && f.Some? && !f.value.Args? && !f.value.ArgRange? && f.value.Size() == |units| && pc + |units| <= U32_MAX
             && UnitsAt(data, off, pc, |units|) == Ok(units)
             && x.addr == pc && x.op == units[0] % 0x100 && x.size == |units|
             && (if f.value.IsBranch()
                 then 0 <= pc + Displacement(f.value, units) <= U32_MAX &&
                     x.target == Some(pc + Displacement(f.value, units))
                 else x.target == None)
    requires !IsNonStaticInvoke(units[0] % 0x100)
    ensures NextItem(data, off, pc, n) == Ok(Insn(x, TargetChecks(x, n)))
  {
    hide FormatOf, Unit, UnitsAt, Displacement, TargetChecks;
    var log := InsnViolations(x, FormatOf(x.op).value, units[0], n);
    assert log == TargetChecks(x, n);
  }

  lemma ItemsCons(data: seq<byte>, off: nat, pc: nat, n: u32, item: Item, rest: seq<Item>)
    requires pc < n && NextItem(data, off, pc, n) == Ok(item) && Items(data, off, item.End(), n) == Ok(rest)
    ensures Items(data, off, pc, n) == Ok([item] + rest)
  {
    hide NextItem;
  }

  lemma ItemsNone(data: seq<byte>, off: nat, pc: nat, n: u32)
    requires pc >= n
    ensures Items(data, off, pc, n) == Ok([])
  {
  }

  lemma InsnsCons(item: Item, rest: seq<Item>)
    ensures Insns([item] + rest) == (if item.Insn? then [item.insn] else []) + Insns(rest)
    decreases |rest|
  {
    var all := [item] + rest;
    if rest == [] {
      assert all[..0] == [];
    } else {
      InsnsCons(item, rest[..|rest| - 1]);
      assert all[..|all| - 1] == [item] + rest[..|rest| - 1];
      assert all[|all| - 1] == rest[|rest| - 1];
    }
  }

  function InsnOf(item: Item): seq<Instruction> {
    if item.Insn? then [item.insn] else []
  }

  /** A stream of three items. */
  lemma ThreeItems(data: seq<byte>, off: nat, n: u32, a: Item, b: Item, c: Item)
    requires 0 < n && a.End() < n && b.End() < n && c.End() >= n
    requires NextItem(data, off, 0, n) == Ok(a) && NextItem(data, off, a.End(), n) == Ok(b)
    requires NextItem(data, off, b.End(), n) == Ok(c)
    ensures Items(data, off, 0, n).Ok?
    ensures Insns(Items(data, off, 0, n).value) == InsnOf(a) + InsnOf(b) + InsnOf(c)
  {
    hide NextItem, Items, Insns;
    ItemsNone(data, off, c.End(), n);
    ItemsCons(data, off, b.End(), n, c, []);
    ItemsCons(data, off, a.End(), n, b, [c] + []);
    ItemsCons(data, off, 0, n, a, [b] + ([c] + []));
    InsnsCons(a, [b] + ([c] + []));
    InsnsCons(b, [c] + []);
    InsnsCons(c, []);
    NoInsns();
  }

  /** Code in which no instruction names a table decodes to its scan. */
  lemma DecodeWithoutTables(data: seq<byte>, off: nat, n: u32, items: seq<Item>)
    requires Items(data, off, 0, n) == Ok(items) && forall x :: x in Insns(items) ==> !NamesPayload(x.op)
    ensures Decode(data, off, n) == Ok(Scanned(items, n))
  {
    hide Items, Insns, Scanned, Pending;
    NothingPending(Insns(items));
  }

  lemma {:induction false} NothingPending(insns: seq<Instruction>)
    requires forall x :: x in insns ==> !NamesPayload(x.op)
    ensures Pending(insns) == []
    decreases |insns|
  {
    if insns != [] {
      NothingPending(insns[..|insns| - 1]);
      assert insns[|insns| - 1] in insns;
    }
  }

  lemma ParseWithoutTries(data: seq<byte>, n: u32)
    requires |data| >= 16 && HalfWord(data, 6) == Ok(0) && Word(data, 12) == Ok(n) && Decode(data, 16, n).Ok?
    ensures ParseCode(data, 0).Ok?
    ensures var d := Decode(data, 16, n).value;
            ParseCode(data, 0).value.code == CodeItem(d.instructions, [], [], d.payloads)
    ensures LayoutOf(data, 0).Ok? && LayoutOf(data, 0).value.insnsSize == n
  {
    hide Decode;
    BareNone();
  }

  // ----- a fall-through split by a branch -----

  /** const/16 at 0, nop at 2, goto at 3 back to 1, inside the constant. */
  const SPLIT_BYTES: seq<byte> :=
    [1, 0, 0, 0, 0, 0, 0, 0, 0, 0, 0, 0, 4, 0, 0, 0,
     0x13, 0, 0, 0, 0, 0, 0x28, 0xFE]

  const SPLIT_INSNS := [Instruction(0, 0x13, 2, None), Instruction(2, 0, 1, None), Instruction(3, 0x28, 1, Some(1))]

  lemma SplitUnits()
    ensures Unit(SPLIT_BYTES, 16, 0, 0) == Ok(0x13)
    ensures Unit(SPLIT_BYTES, 16, 0, 1) == Ok(0)
    ensures Unit(SPLIT_BYTES, 16, 2, 0) == Ok(0)
    ensures Unit(SPLIT_BYTES, 16, 3, 0) == Ok(0xFE28)
  {
    hide FormatOf;
  }

  lemma SplitItems()
    ensures Items(SPLIT_BYTES, 16, 0, 4).Ok? && Insns(Items(SPLIT_BYTES, 16, 0, 4).value) == SPLIT_INSNS
  {
    hide Items, Insns, TargetChecks, UnitsAt, Unit, NextItem;
    var d := SPLIT_BYTES;
    SplitUnits();
    TwoUnits(d, 16, 0, 0x13, 0);
    InsnAtPc(d, 16, 0, 4, [0x13, 0], SPLIT_INSNS[0]);
    OneUnit(d, 16, 2, 0);
    InsnAtPc(d, 16, 2, 4, [0], SPLIT_INSNS[1]);
    OneUnit(d, 16, 3, 0xFE28);
    InsnAtPc(d, 16, 3, 4, [0xFE28], SPLIT_INSNS[2]);
    ThreeItems(d, 16, 4, NextItem(d, 16, 0, 4).value, NextItem(d, 16, 2, 4).value, NextItem(d, 16, 3, 4).value);
  }

  lemma NoInsns()
    ensures Insns([]) == []
  {
  }

  const SPLIT_CODE := CodeItem(SPLIT_INSNS, [], [], map[])

  lemma SplitParses()
    ensures ParseCode(SPLIT_BYTES, 0).Ok? && ParseCode(SPLIT_BYTES, 0).value.code == SPLIT_CODE
  {
    hide Items, Insns, Decode, ParseCode, LayoutOf, Scanned;
    SplitItems();
    var items := Items(SPLIT_BYTES, 16, 0, 4).value;
    DecodeWithoutTables(SPLIT_BYTES, 16, 4, items);
    ScannedHas(items, 4);
    ParseWithoutTries(SPLIT_BYTES, 4);
  }

  lemma SplitIsSplit()
    ensures ValidCode(SPLIT_CODE) && SplitAt(SPLIT_CODE, 0, 1, 1)
  {
    hide SwitchTargets;
    var code := SPLIT_CODE;
    assert 1 in InsnLeaders(code, code.instructions[2]);
    assert 1 in InsnLeadersUpTo(code, 3);
    assert InsnLeaders(code, code.instructions[0]) == {} && InsnLeaders(code, code.instructions[1]) == {};
    assert InsnLeaders(code, code.instructions[2]) == {4, 1};
    assert 2 !in InsnLeadersUpTo(code, 3);
  }

  /** The bytes parse to a method one of whose steps no graph built from it has. */
  lemma SplitBytesLoseStep(cfg: Cfg)
    requires ValidCode(SPLIT_CODE) && IsBuilt(SPLIT_CODE, cfg)
    ensures ParseCode(SPLIT_BYTES, 0).Ok? && ParseCode(SPLIT_BYTES, 0).value.code == SPLIT_CODE
    ensures Moves(SPLIT_CODE, 0, FallThrough, 1)
    ensures !WalkStep(cfg, SPLIT_CODE.instructions[0], FallThrough, SPLIT_CODE.instructions[1])
  {
    hide SplitAt, ParseCode, IsCfgOf, Moves, WalkStep;
    SplitParses();
    SplitIsSplit();
    SplitStepIsLost(SPLIT_CODE, cfg, 0, 1, 1);
  }

  // ----- one table, two switches -----

  /** Packed switches at 0 and 3 on the table at 6, whose one entry has displacement 0. */
  const SHARED_BYTES: seq<byte> :=
    [1, 0, 0, 0, 0, 0, 0, 0, 0, 0, 0, 0, 12, 0, 0, 0,
     0x2b, 0, 6, 0, 0, 0, 0x2b, 0, 3, 0, 0, 0, 0, 1, 1, 0, 0, 0, 0, 0, 0, 0, 0, 0]

  const FIRST_SWITCH := Instruction(0, 0x2b, 3, Some(6))
  const SECOND_SWITCH := Instruction(3, 0x2b, 3, Some(6))

  lemma SharedUnits()
    ensures Unit(SHARED_BYTES, 16, 0, 0) == Ok(0x2b)
    ensures Unit(SHARED_BYTES, 16, 0, 1) == Ok(6)
    ensures Unit(SHARED_BYTES, 16, 0, 2) == Ok(0)
    ensures Unit(SHARED_BYTES, 16, 3, 0) == Ok(0x2b)
    ensures Unit(SHARED_BYTES, 16, 3, 1) == Ok(3)
    ensures Unit(SHARED_BYTES, 16, 3, 2) == Ok(0)
  {
    hide FormatOf;
  }

  lemma SharedItems()
    ensures Items(SHARED_BYTES, 16, 0, 12).Ok?
    ensures Insns(Items(SHARED_BYTES, 16, 0, 12).value) == [FIRST_SWITCH, SECOND_SWITCH]
  {
    hide Items, Insns, TargetChecks, UnitsAt, Unit, NextItem, WrapI32;
    var d := SHARED_BYTES;
    SharedUnits();
    WrapInRange(6);
    WrapInRange(3);
    ThreeUnits(d, 16, 0, 0x2b, 6, 0);
    InsnAtPc(d, 16, 0, 12, [0x2b, 6, 0], FIRST_SWITCH);
    ThreeUnits(d, 16, 3, 0x2b, 3, 0);
    InsnAtPc(d, 16, 3, 12, [0x2b, 3, 0], SECOND_SWITCH);
    SharedPayloadItem();
    ThreeItems(d, 16, 12, NextItem(d, 16, 0, 12).value, NextItem(d, 16, 3, 12).value, Payload(6, 6));
  }

  lemma SharedPayloadItem()
    ensures NextItem(SHARED_BYTES, 16, 6, 12) == Ok(Payload(6, 6))
  {
    hide FormatOf, DecodeSingle;
  }

  lemma OneTarget(data: seq<byte>, at: nat, switchPc: u32)
    requires SignedWord(data, at) == Ok(0)
    ensures TargetTable(data, at, 1, switchPc) == Ok([switchPc])
  {
    hide SignedWord;
    assert TargetTable(data, at, 0, switchPc) == Ok([]);
    assert [] + [switchPc] == [switchPc];
  }

  lemma SharedTables()
    ensures Table(SHARED_BYTES, 16, FIRST_SWITCH) == Ok(PackedSwitch(0, [0]))
    ensures Table(SHARED_BYTES, 16, SECOND_SWITCH) == Ok(PackedSwitch(0, [3]))
    ensures Takes(SHARED_BYTES, 16, FIRST_SWITCH, 6) && Takes(SHARED_BYTES, 16, SECOND_SWITCH, 6)
  {
    hide TargetTable, WrapI32;
    WrapInRange(0);
    OneTarget(SHARED_BYTES, 36, 0);
    OneTarget(SHARED_BYTES, 36, 3);
  }

  /** Resolving an instruction that takes a table writes that table. */
  lemma ResolveWrites(data: seq<byte>, off: nat, n: nat, d: Decoded, x: Instruction, p: nat, payload: PayloadData)
    requires Takes(data, off, x, p) && Table(data, off, x) == Ok(payload)
    ensures ResolveOne(data, off, n, d, x).Ok?
    ensures ResolveOne(data, off, n, d, x).value.payloads == d.payloads[p := payload]
    ensures ResolveOne(data, off, n, d, x).value.instructions == d.instructions
  {
    hide Table, CaseLog, Unit, ExpectedIdent;
  }

  lemma ResolveFirst(data: seq<byte>, off: nat, n: nat, pending: seq<Instruction>, d: Decoded)
    requires |pending| >= 1 && forall insn :: insn in pending ==> insn.target.Some?
    ensures ResolveAll(data, off, n, pending, 1, d) == ResolveOne(data, off, n, d, pending[0])
  {
    hide ResolveOne;
    assert ResolveAll(data, off, n, pending, 0, d) == Ok(d);
  }

  /** Both switches resolve; the first is left with the cases of the second. */
  lemma SharedBytesLoseTable()
    ensures Decode(SHARED_BYTES, 16, 12).Ok? && FIRST_SWITCH in Decode(SHARED_BYTES, 16, 12).value.instructions
    ensures Table(SHARED_BYTES, 16, FIRST_SWITCH) == Ok(PackedSwitch(0, [0]))
    ensures Decode(SHARED_BYTES, 16, 12).value.payloads == map[6 := PackedSwitch(0, [3])]
  {
    hide Items, Insns, Scanned, Table, Takes, ResolveOne, Pending;
    SharedItems();
    SharedTables();
    var d, insns := SHARED_BYTES, [FIRST_SWITCH, SECOND_SWITCH];
    var start := Scanned(Items(d, 16, 0, 12).value, 12);
    BothPending();
    ScannedHas(Items(d, 16, 0, 12).value, 12);
    ResolveFirst(d, 16, 12, insns, start);
    ResolveWrites(d, 16, 12, start, FIRST_SWITCH, 6, PackedSwitch(0, [0]));
    var one := ResolveOne(d, 16, 12, start, FIRST_SWITCH).value;
    ResolveWrites(d, 16, 12, one, SECOND_SWITCH, 6, PackedSwitch(0, [3]));
    assert ResolveAll(d, 16, 12, insns, 2, start) == ResolveOne(d, 16, 12, one, SECOND_SWITCH);
    assert one.payloads[6 := PackedSwitch(0, [3])] == map[6 := PackedSwitch(0, [3])];
  }

  lemma BothPending()
    ensures Pending([FIRST_SWITCH, SECOND_SWITCH]) == [FIRST_SWITCH, SECOND_SWITCH]
  {
    var insns := [FIRST_SWITCH, SECOND_SWITCH];
    assert Resolves(FIRST_SWITCH) && Resolves(SECOND_SWITCH);
    assert [FIRST_SWITCH][..0] == [];
    assert Pending([FIRST_SWITCH]) == [] + [FIRST_SWITCH];
    assert insns[..1] == [FIRST_SWITCH];
  }

  lemma ScannedHas(items: seq<Item>, n: nat)
    ensures Scanned(items, n).instructions == Insns(items) && Scanned(items, n).payloads == map[]
  {
  }

  // ----- where the two builders differ -----

  /** Both give a result of their own kind for the method, and the results differ. */
  ghost predicate Differ(code: CodeItem, insnsSize: nat)
    requires ValidCode(code)
  {
    forall cfg, r :: IsBuilt(code, cfg) && IsNaiveResult(code, insnsSize, r) ==>
      DistinctStarts(cfg.blocks) && r != Some(ToShape(cfg))
  }

  /** Nothing but an empty packed table: the builder has no block, the naive builder an empty one at 0. */
  const LONE_BYTES: seq<byte> :=
    [1, 0, 0, 0, 0, 0, 0, 0, 0, 0, 0, 0, 4, 0, 0, 0,
     0, 1, 0, 0, 0, 0, 0, 0]

  const LONE_CODE := CodeItem([], [], [], map[])

  lemma LoneParses()
    ensures ParseCode(LONE_BYTES, 0).Ok? && ParseCode(LONE_BYTES, 0).value.code == LONE_CODE
  {
    hide Items, Insns, Decode, ParseCode, LayoutOf, Scanned, NextItem;
    LonePayloadItem();
    ItemsNone(LONE_BYTES, 16, 4, 4);
    ItemsCons(LONE_BYTES, 16, 0, 4, Payload(0, 4), []);
    InsnsCons(Payload(0, 4), []);
    NoInsns();
    var items := Items(LONE_BYTES, 16, 0, 4).value;
    DecodeWithoutTables(LONE_BYTES, 16, 4, items);
    ScannedHas(items, 4);
    ParseWithoutTries(LONE_BYTES, 4);
  }

  lemma LonePayloadItem()
    ensures NextItem(LONE_BYTES, 16, 0, 4) == Ok(Payload(0, 4))
  {
    hide FormatOf, DecodeSingle;
  }

  lemma LonePayloadDiffers()
    ensures ParseCode(LONE_BYTES, 0).Ok? && ParseCode(LONE_BYTES, 0).value.code == LONE_CODE
    ensures ValidCode(LONE_CODE) && Differ(LONE_CODE, 4)
  {
    hide ParseCode, IsBuilt, IsNaiveResult, ToShape;
    LoneParses();
    forall cfg, r | IsBuilt(LONE_CODE, cfg) && IsNaiveResult(LONE_CODE, 4, r)
      ensures DistinctStarts(cfg.blocks) && r != Some(ToShape(cfg))
    {
      OracleAgrees(LONE_CODE, 4, cfg, r);
    }
  }

  /** A packed switch at 0 whose two keys start at the largest 32-bit value; return at 3. */
  const KEYS_BYTES: seq<byte> :=
    [1, 0, 0, 0, 0, 0, 0, 0, 0, 0, 0, 0, 12, 0, 0, 0,
     0x2b, 0, 4, 0, 0, 0, 0x0e, 0, 0, 1, 2, 0, 0xFF, 0xFF, 0xFF, 0x7F, 3, 0, 0, 0, 3, 0, 0, 0]

  const KEYS_SWITCH := Instruction(0, 0x2b, 3, Some(4))
  const KEYS_INSNS := [KEYS_SWITCH, Instruction(3, 0x0e, 1, None)]
  const KEYS_TABLE := PackedSwitch(0x7FFF_FFFF, [3, 3])
  const KEYS_CODE := CodeItem(KEYS_INSNS, [], [], map[4 := KEYS_TABLE])

  lemma KeysUnits()
    ensures Unit(KEYS_BYTES, 16, 0, 0) == Ok(0x2b)
    ensures Unit(KEYS_BYTES, 16, 0, 1) == Ok(4)
    ensures Unit(KEYS_BYTES, 16, 0, 2) == Ok(0)
    ensures Unit(KEYS_BYTES, 16, 3, 0) == Ok(0x0e)
  {
    hide FormatOf;
  }

  lemma KeysItems()
    ensures Items(KEYS_BYTES, 16, 0, 12).Ok? && Insns(Items(KEYS_BYTES, 16, 0, 12).value) == KEYS_INSNS
  {
    hide Items, Insns, TargetChecks, UnitsAt, Unit, NextItem, WrapI32;
    var d := KEYS_BYTES;
    KeysUnits();
    WrapInRange(4);
    ThreeUnits(d, 16, 0, 0x2b, 4, 0);
    InsnAtPc(d, 16, 0, 12, [0x2b, 4, 0], KEYS_SWITCH);
    OneUnit(d, 16, 3, 0x0e);
    InsnAtPc(d, 16, 3, 12, [0x0e], KEYS_INSNS[1]);
    KeysPayloadItem();
    ThreeItems(d, 16, 12, NextItem(d, 16, 0, 12).value, NextItem(d, 16, 3, 12).value, Payload(4, 8));
  }

  lemma KeysPayloadItem()
    ensures NextItem(KEYS_BYTES, 16, 4, 12) == Ok(Payload(4, 8))
  {
    hide FormatOf, DecodeSingle;
  }

  lemma TwoTargets(data: seq<byte>, at: nat, switchPc: u32, a: u32, b: u32)
    requires SignedWord(data, at) == Ok(a - switchPc) && SignedWord(data, at + 4) == Ok(b - switchPc)
    ensures TargetTable(data, at, 2, switchPc) == Ok([a, b])
  {
    hide SignedWord;
    assert TargetTable(data, at, 0, switchPc) == Ok([]);
    assert [] + [a] == [a];
    assert TargetTable(data, at, 1, switchPc) == Ok([a]);
    assert [a] + [b] == [a, b];
  }

  lemma KeysTable()
    ensures Table(KEYS_BYTES, 16, KEYS_SWITCH) == Ok(KEYS_TABLE) && Unit(KEYS_BYTES, 16, 4, 0) == Ok(0x0100)
  {
    hide TargetTable, WrapI32;
    WrapInRange(3);
    WrapInRange(0x7FFF_FFFF);
    TwoTargets(KEYS_BYTES, 32, 0, 3, 3);
  }

  lemma KeysPending()
    ensures Pending(KEYS_INSNS) == [KEYS_SWITCH]
  {
    assert Resolves(KEYS_SWITCH);
    assert [KEYS_SWITCH][..0] == [];
    assert Pending([KEYS_SWITCH]) == [] + [KEYS_SWITCH];
    assert KEYS_INSNS[..1] == [KEYS_SWITCH];
  }

  lemma KeysDecode()
    ensures Decode(KEYS_BYTES, 16, 12).Ok? && Decode(KEYS_BYTES, 16, 12).value.instructions == KEYS_INSNS
    ensures Decode(KEYS_BYTES, 16, 12).value.payloads == map[4 := KEYS_TABLE]
  {
    hide Items, Insns, Scanned, Table, CaseLog, Unit, Pending;
    KeysItems();
    KeysTable();
    KeysPending();
    var items := Items(KEYS_BYTES, 16, 0, 12).value;
    ScannedHas(items, 12);
    var start := Scanned(items, 12);
    assert ResolveAll(KEYS_BYTES, 16, 12, [KEYS_SWITCH], 0, start) == Ok(start);
    assert ResolveAll(KEYS_BYTES, 16, 12, [KEYS_SWITCH], 1, start) ==
        ResolveOne(KEYS_BYTES, 16, 12, start, KEYS_SWITCH);
  }

  lemma KeyOverflowDiffers()
    ensures ParseCode(KEYS_BYTES, 0).Ok? && ParseCode(KEYS_BYTES, 0).value.code == KEYS_CODE
    ensures ValidCode(KEYS_CODE) && !AllKeysFit(KEYS_CODE) && Differ(KEYS_CODE, 12)
  {
    hide ParseCode, LayoutOf, Decode, IsBuilt, IsNaiveResult, ToShape, HandlersLead, NoEmptyBlockInTry, LeaderList;
    KeysDecode();
    ParseWithoutTries(KEYS_BYTES, 12);
    assert KEYS_SWITCH in KEYS_INSNS && !KeysFit(KEYS_CODE, KEYS_SWITCH);
    forall cfg, r | IsBuilt(KEYS_CODE, cfg) && IsNaiveResult(KEYS_CODE, 12, r)
      ensures DistinctStarts(cfg.blocks) && r != Some(ToShape(cfg))
    {
      OracleAgrees(KEYS_CODE, 12, cfg, r);
    }
  }

  // ----- with a try table -----

  /** A parsed item of odd size 3 with one try; the table starts at 24 and the handlers at 32. */
  lemma ParseWithOneTry(data: seq<byte>, table: ExceptionTable)
    requires HalfWord(data, 6) == Ok(1) && Word(data, 12) == Ok(3) && Decode(data, 16, 3).Ok?
    requires ParseExceptions(data, 24, 1, 3) == Ok(table)
    ensures ParseCode(data, 0).Ok?
    ensures var d := Decode(data, 16, 3).value;
            ParseCode(data, 0).value.code == CodeItem(d.instructions, table.tries, Bare(table.handlers), d.payloads)
  {
    hide Decode, ParseExceptions, Bare;
  }

  /** A handler that is only a catch-all, in two bytes. */
  lemma CatchAllAt(data: seq<byte>, pos: nat)
    requires pos + 1 < |data| && data[pos] == 0 && data[pos + 1] < 128
    ensures HandlerAt(data, pos) == Ok(Read(CatchHandler([], Some(data[pos + 1])), pos + 2))
  {
    hide Uleb, Sleb;
    SmallSleb(data, pos);
    SmallUleb(data, pos + 1);
    assert TypedCatches(data, pos + 1, 0) == Ok(Read([], pos + 1));
  }

  lemma OneHandler(data: seq<byte>, pos: nat, h: CatchHandler)
    requires HandlerAt(data, pos).Ok? && HandlerAt(data, pos).value.value == h
    ensures Handlers(data, pos, 1) == Ok(Read([PlacedHandler(pos, h)], HandlerAt(data, pos).value.next))
  {
    hide HandlerAt;
    assert Handlers(data, pos, 0) == Ok(Read([], pos));
    assert [] + [PlacedHandler(pos, h)] == [PlacedHandler(pos, h)];
  }

  lemma TwoHandlers(data: seq<byte>, pos: nat, h: CatchHandler, mid: nat, k: CatchHandler)
    requires HandlerAt(data, pos) == Ok(Read(h, mid))
    requires HandlerAt(data, mid).Ok? && HandlerAt(data, mid).value.value == k
    ensures Handlers(data, pos, 2) ==
            Ok(Read([PlacedHandler(pos, h), PlacedHandler(mid, k)], HandlerAt(data, mid).value.next))
  {
    hide HandlerAt;
    OneHandler(data, pos, h);
    assert [PlacedHandler(pos, h)] + [PlacedHandler(mid, k)] == [PlacedHandler(pos, h), PlacedHandler(mid, k)];
  }

  /** One non-empty try inside the code, whose handler is the first of the list at 32. */
  lemma OneTry(data: seq<byte>, raw: RawTry, list: seq<PlacedHandler>)
    requires |data| >= 32 && RawTryAt(data, 24) == Ok(raw) && 0 < raw.insnCount && raw.startAddr + raw.insnCount <= 3
    requires HandlerList(data, 32) == Ok(list) && raw.handlerOff == 1
    requires list != [] && list[0].pos == 33 && forall i :: 0 < i < |list| ==> list[i].pos != 33
    ensures ParseExceptions(data, 24, 1, 3).Ok?
    ensures ParseExceptions(data, 24, 1, 3).value.handlers == list
    ensures ParseExceptions(data, 24, 1, 3).value.tries == [TryItem(raw.startAddr, raw.insnCount, 0)]
  {
    hide RawTryAt, HandlerList, TryLog;
    assert RawTries(data, 24, 0) == Ok([]);
    assert [] + [raw] == [raw];
    assert RawTries(data, 24, 1) == Ok([raw]);
    OnlyNonEmpty(raw);
    FirstHandler(list);
    OneResolved(raw, list);
  }

  lemma OnlyNonEmpty(raw: RawTry)
    requires raw.insnCount > 0
    ensures NonEmpty([raw]) == [raw]
  {
    assert [raw][..0] == [];
    assert [] + [raw] == [raw];
  }

  lemma OneResolved(raw: RawTry, list: seq<PlacedHandler>)
    requires raw.startAddr + raw.insnCount <= 3 && HandlerIndex(list, 32, raw.handlerOff) == Some(0)
    ensures ResolveTries([raw], 3, list, 32) == Ok([TryItem(raw.startAddr, raw.insnCount, 0)])
  {
    hide HandlerIndex;
    assert [raw][..0] == [];
    assert ResolveTries([], 3, list, 32) == Ok([]);
    assert [] + [Keep(raw, 3, 0)] == [TryItem(raw.startAddr, raw.insnCount, 0)];
  }

  lemma {:induction false} FirstHandler(list: seq<PlacedHandler>)
    requires list != [] && list[0].pos == 33 && forall i :: 0 < i < |list| ==> list[i].pos != 33
    ensures HandlerIndex(list, 32, 1) == Some(0)
    decreases |list|
  {
    if |list| > 1 {
      FirstHandler(list[..|list| - 1]);
    }
  }

  /** Two nops and a return; a try over the first with a handler at 0, and a second handler at 1 that no try uses. */
  const UNUSED_BYTES: seq<byte> :=
    [1, 0, 0, 0, 0, 0, 1, 0, 0, 0, 0, 0, 3, 0, 0, 0,
     0, 0, 0, 0, 0x0e, 0, 0, 0,
     0, 0, 0, 0, 1, 0, 1, 0,
     2, 0, 0, 0, 1]

  const UNUSED_INSNS := [Instruction(0, 0, 1, None), Instruction(1, 0, 1, None), Instruction(2, 0x0e, 1, None)]
  const UNUSED_CODE :=
    CodeItem(UNUSED_INSNS, [TryItem(0, 1, 0)], [CatchHandler([], Some(0)), CatchHandler([], Some(1))], map[])

  lemma UnusedUnits()
    ensures Unit(UNUSED_BYTES, 16, 0, 0) == Ok(0)
    ensures Unit(UNUSED_BYTES, 16, 1, 0) == Ok(0)
    ensures Unit(UNUSED_BYTES, 16, 2, 0) == Ok(0x0e)
  {
    hide FormatOf;
  }

  lemma UnusedItems()
    ensures Items(UNUSED_BYTES, 16, 0, 3).Ok? && Insns(Items(UNUSED_BYTES, 16, 0, 3).value) == UNUSED_INSNS
  {
    hide Items, Insns, TargetChecks, UnitsAt, Unit, NextItem;
    var d := UNUSED_BYTES;
    UnusedUnits();
    OneUnit(d, 16, 0, 0);
    InsnAtPc(d, 16, 0, 3, [0], UNUSED_INSNS[0]);
    OneUnit(d, 16, 1, 0);
    InsnAtPc(d, 16, 1, 3, [0], UNUSED_INSNS[1]);
    OneUnit(d, 16, 2, 0x0e);
    InsnAtPc(d, 16, 2, 3, [0x0e], UNUSED_INSNS[2]);
    ThreeItems(d, 16, 3, NextItem(d, 16, 0, 3).value, NextItem(d, 16, 1, 3).value, NextItem(d, 16, 2, 3).value);
  }

  lemma UnusedDecodes()
    ensures Decode(UNUSED_BYTES, 16, 3).Ok? && Decode(UNUSED_BYTES, 16, 3).value.instructions == UNUSED_INSNS
    ensures Decode(UNUSED_BYTES, 16, 3).value.payloads == map[]
  {
    hide Items, Insns, Decode, Scanned;
    UnusedItems();
    var items := Items(UNUSED_BYTES, 16, 0, 3).value;
    DecodeWithoutTables(UNUSED_BYTES, 16, 3, items);
    ScannedHas(items, 3);
  }

  lemma UnusedHandlers()
    ensures HandlerList(UNUSED_BYTES, 32) ==
            Ok([PlacedHandler(33, CatchHandler([], Some(0))), PlacedHandler(35, CatchHandler([], Some(1)))])
  {
    hide Uleb, HandlerAt, Handlers;
    SmallUleb(UNUSED_BYTES, 32);
    CatchAllAt(UNUSED_BYTES, 33);
    CatchAllAt(UNUSED_BYTES, 35);
    TwoHandlers(UNUSED_BYTES, 33, CatchHandler([], Some(0)), 35, CatchHandler([], Some(1)));
  }

  lemma UnusedParses()
    ensures ParseCode(UNUSED_BYTES, 0).Ok? && ParseCode(UNUSED_BYTES, 0).value.code == UNUSED_CODE
  {
    hide Decode, HandlerList, ParseExceptions, ParseCode;
    UnusedDecodes();
    UnusedHandlers();
    OneTry(UNUSED_BYTES, RawTry(0, 1, 1), HandlerList(UNUSED_BYTES, 32).value);
    ParseWithOneTry(UNUSED_BYTES, ParseExceptions(UNUSED_BYTES, 24, 1, 3).value);
  }

  lemma UnusedIsValid()
    ensures ValidCode(UNUSED_CODE) && AllKeysFit(UNUSED_CODE)
  {
  }

  lemma UnusedInsnLeaders()
    ensures 1 !in InsnLeadersUpTo(UNUSED_CODE, 3)
  {
    hide SwitchTargets;
    var code := UNUSED_CODE;
    assert InsnLeaders(code, code.instructions[0]) == {} && InsnLeaders(code, code.instructions[1]) == {};
    assert InsnLeaders(code, code.instructions[2]) == {3};
  }

  lemma UnusedTryLeaders()
    requires ValidCode(UNUSED_CODE)
    ensures 1 !in TryLeadersUpTo(UNUSED_CODE, 1) && 1 in HandlerLeaders(UNUSED_CODE.catchHandlers[1])
  {
    hide Laid;
    assert HandlerLeaders(UNUSED_CODE.catchHandlers[0]) == {0};
  }

  lemma UnusedNotLeader()
    requires ValidCode(UNUSED_CODE)
    ensures !HandlersLead(UNUSED_CODE)
  {
    hide Laid, InsnLeadersUpTo, NaiveInsnLeadersUpTo, TryLeadersUpTo, HandlerLeaders;
    AllInsnLeadersAgree(UNUSED_CODE, 3);
    UnusedInsnLeaders();
    UnusedTryLeaders();
    assert 1 !in NaiveLeaders(UNUSED_CODE);
  }

  lemma UnusedHandlerDiffers()
    ensures ParseCode(UNUSED_BYTES, 0).Ok? && ParseCode(UNUSED_BYTES, 0).value.code == UNUSED_CODE
    ensures ValidCode(UNUSED_CODE) && AllKeysFit(UNUSED_CODE) && !HandlersLead(UNUSED_CODE) && Differ(UNUSED_CODE, 3)
  {
    hide ParseCode, AllKeysFit, IsBuilt, IsNaiveResult, ToShape, HandlersLead, NoEmptyBlockInTry, LeaderList;
    UnusedParses();
    UnusedIsValid();
    UnusedNotLeader();
    forall cfg, r | IsBuilt(UNUSED_CODE, cfg) && IsNaiveResult(UNUSED_CODE, 3, r)
      ensures DistinctStarts(cfg.blocks) && r != Some(ToShape(cfg))
    {
      OracleAgrees(UNUSED_CODE, 3, cfg, r);
    }
  }

  /** const/16 at 0 and goto at 2 back to 1; a try over [0, 2) with its handler at 2 leaves the block [1, 2) empty. */
  const EMPTY_BLOCK_BYTES: seq<byte> :=
    [1, 0, 0, 0, 0, 0, 1, 0, 0, 0, 0, 0, 3, 0, 0, 0,
     0x13, 0, 0, 0, 0x28, 0xFF, 0, 0,
     0, 0, 0, 0, 2, 0, 1, 0,
     1, 0, 2]

  const EMPTY_BLOCK_INSNS := [Instruction(0, 0x13, 2, None), Instruction(2, 0x28, 1, Some(1))]
  const EMPTY_BLOCK_CODE := CodeItem(EMPTY_BLOCK_INSNS, [TryItem(0, 2, 0)], [CatchHandler([], Some(2))], map[])

  lemma EmptyBlockUnits()
    ensures Unit(EMPTY_BLOCK_BYTES, 16, 0, 0) == Ok(0x13)
    ensures Unit(EMPTY_BLOCK_BYTES, 16, 0, 1) == Ok(0)
    ensures Unit(EMPTY_BLOCK_BYTES, 16, 2, 0) == Ok(0xFF28)
  {
    hide FormatOf;
  }

  lemma EmptyBlockItems()
    ensures Items(EMPTY_BLOCK_BYTES, 16, 0, 3).Ok?
    ensures Insns(Items(EMPTY_BLOCK_BYTES, 16, 0, 3).value) == EMPTY_BLOCK_INSNS
  {
    hide Items, Insns, TargetChecks, UnitsAt, Unit, NextItem;
    var d := EMPTY_BLOCK_BYTES;
    EmptyBlockUnits();
    TwoUnits(d, 16, 0, 0x13, 0);
    InsnAtPc(d, 16, 0, 3, [0x13, 0], EMPTY_BLOCK_INSNS[0]);
    OneUnit(d, 16, 2, 0xFF28);
    InsnAtPc(d, 16, 2, 3, [0xFF28], EMPTY_BLOCK_INSNS[1]);
    var i0, i1 := NextItem(d, 16, 0, 3).value, NextItem(d, 16, 2, 3).value;
    ItemsNone(d, 16, 3, 3);
    ItemsCons(d, 16, 2, 3, i1, []);
    ItemsCons(d, 16, 0, 3, i0, [i1] + []);
    InsnsCons(i0, [i1] + []);
    InsnsCons(i1, []);
    NoInsns();
  }

  lemma EmptyBlockDecodes()
    ensures Decode(EMPTY_BLOCK_BYTES, 16, 3).Ok?
    ensures Decode(EMPTY_BLOCK_BYTES, 16, 3).value.instructions == EMPTY_BLOCK_INSNS
    ensures Decode(EMPTY_BLOCK_BYTES, 16, 3).value.payloads == map[]
  {
    hide Items, Insns, Decode, Scanned;
    EmptyBlockItems();
    var items := Items(EMPTY_BLOCK_BYTES, 16, 0, 3).value;
    DecodeWithoutTables(EMPTY_BLOCK_BYTES, 16, 3, items);
    ScannedHas(items, 3);
  }

  lemma EmptyBlockParses()
    ensures ParseCode(EMPTY_BLOCK_BYTES, 0).Ok? && ParseCode(EMPTY_BLOCK_BYTES, 0).value.code == EMPTY_BLOCK_CODE
  {
    hide Decode, HandlerList, ParseExceptions, ParseCode;
    EmptyBlockDecodes();
    EmptyBlockHandlers();
    OneTry(EMPTY_BLOCK_BYTES, RawTry(0, 2, 1), HandlerList(EMPTY_BLOCK_BYTES, 32).value);
    ParseWithOneTry(EMPTY_BLOCK_BYTES, ParseExceptions(EMPTY_BLOCK_BYTES, 24, 1, 3).value);
  }

  lemma EmptyBlockHandlers()
    ensures HandlerList(EMPTY_BLOCK_BYTES, 32) == Ok([PlacedHandler(33, CatchHandler([], Some(2)))])
  {
    hide Uleb, HandlerAt, Handlers;
    SmallUleb(EMPTY_BLOCK_BYTES, 32);
    CatchAllAt(EMPTY_BLOCK_BYTES, 33);
    OneHandler(EMPTY_BLOCK_BYTES, 33, CatchHandler([], Some(2)));
  }

  lemma EmptyBlockIsValid()
    ensures ValidCode(EMPTY_BLOCK_CODE) && AllKeysFit(EMPTY_BLOCK_CODE)
  {
  }

  lemma EmptyBlockInsnLeaders()
    ensures InsnLeadersUpTo(EMPTY_BLOCK_CODE, 2) == {1, 3}
  {
    hide SwitchTargets;
    var code := EMPTY_BLOCK_CODE;
    assert InsnLeaders(code, code.instructions[0]) == {} && InsnLeaders(code, code.instructions[1]) == {3, 1};
    assert 1 in InsnLeaders(code, code.instructions[1]) && 3 in InsnLeaders(code, code.instructions[1]);
  }

  lemma EmptyBlockHandlerLeaders()
    ensures HandlerLeadersUpTo(EMPTY_BLOCK_CODE, 1) == {2}
  {
    var code := EMPTY_BLOCK_CODE;
    assert HandlerLeaders(code.catchHandlers[0]) == {2};
    assert 2 in HandlerLeaders(code.catchHandlers[0]);
  }

  lemma EmptyBlockHandlersLead()
    requires ValidCode(EMPTY_BLOCK_CODE)
    ensures HandlersLead(EMPTY_BLOCK_CODE)
  {
    hide HandlersLead, Laid;
    var code := EMPTY_BLOCK_CODE;
    assert code.tries[0] in code.tries;
    assert UsesHandler(code, 0);
    HandlersOfTriesLead(code);
  }

  lemma EmptyBlockLeaders()
    ensures ValidCode(EMPTY_BLOCK_CODE) && AllKeysFit(EMPTY_BLOCK_CODE) && HandlersLead(EMPTY_BLOCK_CODE)
    ensures Leaders(EMPTY_BLOCK_CODE) == {0, 1, 2, 3}
  {
    hide InsnLeadersUpTo, HandlerLeadersUpTo, HandlersLead, AllKeysFit, Laid;
    EmptyBlockIsValid();
    EmptyBlockInsnLeaders();
    EmptyBlockHandlerLeaders();
    EmptyBlockHandlersLead();
  }

  lemma EmptyBlockUnderTry(starts: seq<nat>)
    requires ValidCode(EMPTY_BLOCK_CODE) && LeaderList(starts) && Elems(starts) == {0, 1, 2, 3}
    ensures !NoEmptyBlockInTry(EMPTY_BLOCK_CODE, starts)
  {
    var code, list := EMPTY_BLOCK_CODE, [0, 1, 2, 3];
    assert Elems(list) == {0, 1, 2, 3};
    AscendingUnique(starts, list);
    assert code.tries[0] in code.tries && HandlerLeaders(code.catchHandlers[0]) == {2};
    assert BlockContents(code.instructions, starts, 1) == [] by { NothingAtOne(); }
  }

  lemma NothingAtOne()
    ensures BlockContents(EMPTY_BLOCK_INSNS, [0, 1, 2, 3], 1) == []
  {
    var insns := EMPTY_BLOCK_INSNS;
    assert insns[..1] == [insns[0]];
    assert [insns[0]][..0] == [];
    assert LowerBound(insns, 1) == 1 && LowerBound(insns, 2) == 1;
  }

  lemma EmptyBlockDiffers()
    ensures ParseCode(EMPTY_BLOCK_BYTES, 0).Ok? && ParseCode(EMPTY_BLOCK_BYTES, 0).value.code == EMPTY_BLOCK_CODE
    ensures ValidCode(EMPTY_BLOCK_CODE) && AllKeysFit(EMPTY_BLOCK_CODE) && HandlersLead(EMPTY_BLOCK_CODE)
    ensures Differ(EMPTY_BLOCK_CODE, 3)
  {
    hide ParseCode, AllKeysFit, IsNaiveResult, ToShape, HandlersLead, NoEmptyBlockInTry, LeaderList, Wired, Leaders;
    EmptyBlockParses();
    EmptyBlockLeaders();
    forall cfg, r | IsBuilt(EMPTY_BLOCK_CODE, cfg) && IsNaiveResult(EMPTY_BLOCK_CODE, 3, r)
      ensures DistinctStarts(cfg.blocks) && r != Some(ToShape(cfg))
    {
      OracleAgrees(EMPTY_BLOCK_CODE, 3, cfg, r);
      EmptyBlockUnderTry(Starts(cfg.blocks));
    }
  }
}
