/**
 The instruction-stream decoder of src/decode.rs: 16-bit code units from
 `insnsOff`, payload tables skipped and later resolved, and a log of
 violations. Registers, literals and pool indices are not kept; the
 operand checks that can fail or log are.
 */
module InsnDecoder {
  import opened Basics
  import opened CodeModel

  datatype Violation =
    | TryItemRangeInvalid(tryIdx: nat, startAddr: nat, insnCount: nat, insnsSize: nat)
    | EmptyTryRegion(tryIdx: nat, startAddr: nat)
    | TryItemsUnsortedOrOverlapping(tryIdx: nat, prevEnd: nat, startAddr: nat)
    | RegisterCountInverted(registersSize: nat, insSize: nat)
    | UnknownOpcodeByte(sourcePc: nat, opcodeByte: byte)
    | BranchTargetOutOfRange(opcode: byte, sourcePc: nat, target: nat, insnsSize: nat)
    | BranchOffsetZero(opcode: byte, sourcePc: nat)
    | BranchTargetMidInstruction(opcode: byte, sourcePc: nat, targetPc: nat, ownerPc: nat)
    | BranchTargetIsMoveResultOrMoveException(opcode: byte, sourcePc: nat, targetPc: nat, targetOpcode: byte)
    | OpcodeArgCountOutOfRange(opcode: byte, sourcePc: nat, observed: nat)
    | NonStaticInvokeArgCountZero(opcode: byte, sourcePc: nat)
    | UnalignedTableDexPc(opcode: byte, sourcePc: nat, payloadPc: nat)
    | PayloadIdentMismatch(opcode: byte, sourcePc: nat, payloadPc: nat, expectedIdent: nat, observedIdent: nat)
    | TailBytesAfterLastInstruction(insnsSize: nat, finalPc: nat)

  datatype Decoded = Decoded(
    instructions: seq<Instruction>,
    payloads: map<nat, PayloadData>,
    violations: seq<Violation>)

  // ----- code units -----

  function HalfWord(data: seq<byte>, off: nat): (r: Result<nat>)
    ensures r.Ok? ==> r.value <= U16_MAX && off + 2 <= |data|
  {
    if off + 2 <= |data| then Ok(data[off] as int + 0x100 * data[off + 1] as int) else Err(ScrollRead(off))
  }

  function Word(data: seq<byte>, off: nat): (r: Result<nat>)
    ensures r.Ok? ==> r.value <= U32_MAX && off + 4 <= |data|
  {
    if off + 4 <= |data| then
      Ok(data[off] as int + 0x100 * data[off + 1] as int + 0x1_0000 * data[off + 2] as int +
         0x100_0000 * data[off + 3] as int)
    else Err(ScrollRead(off))
  }

  function SignedWord(data: seq<byte>, off: nat): Result<int> {
    var w :- Word(data, off);
    Ok(WrapI32(w))
  }

  /** Code unit `pc + k`. */
  function Unit(data: seq<byte>, insnsOff: nat, pc: nat, k: nat): (r: Result<nat>)
    ensures r.Ok? ==> r.value <= U16_MAX && pc + k <= U32_MAX
  {
    if pc + k > U32_MAX then Err(InvalidInstruction(pc)) else HalfWord(data, insnsOff + 2 * (pc + k))
  }

  /** The first `n` code units from `pc`. */
  function UnitsAt(data: seq<byte>, insnsOff: nat, pc: nat, n: nat): (r: Result<seq<nat>>)
    ensures r.Ok? ==> |r.value| == n && forall u :: u in r.value ==> u <= U16_MAX
  {
    if n == 0 then Ok([])
    else
      var init :- UnitsAt(data, insnsOff, pc, n - 1);
      var u :- Unit(data, insnsOff, pc, n - 1);
      Ok(init + [u])
  }

  // ----- formats -----

  /** Instruction formats, grouped by what the decoder does with their operands. */
  datatype Format =
    | Plain(units: nat)
    | Branch8
    | Branch16
    | Branch32
    | Args(units: nat)
    | ArgRange(units: nat)
  {
    function Size(): nat {
      match this
      case Plain(n) => n
      case Branch8 => 1
      case Branch16 => 2
      case Branch32 => 3
      case Args(n) => n
      case ArgRange(n) => n
    }

    predicate IsBranch() {
      Branch8? || Branch16? || Branch32?
    }
  }

  /** The format of a mapped opcode byte. */
  function FormatOf(op: byte): (f: Option<Format>)
    ensures f.Some? ==> 1 <= f.value.Size() <= 5
    ensures f.Some? && (f.value.Args? || f.value.ArgRange?) ==> f.value.Size() >= 3
    ensures f.Some? && f.value.IsBranch() <==> IsBranch(op) || op == OP_FILL_ARRAY_DATA
  {
    if 0x3e <= op <= 0x43 || op == 0x73 || op == 0x79 || op == 0x7a || 0xe3 <= op <= 0xf9 then None
    else if op == OP_GOTO then Some(Branch8)
    else if op == OP_GOTO16 || IsConditionalBranch(op) then Some(Branch16)
    else if op == OP_GOTO32 || IsSwitch(op) || op == OP_FILL_ARRAY_DATA then Some(Branch32)
    else if op == 0x24 || 0x6e <= op <= 0x72 || op == 0xfc then Some(Args(3))
    else if op == 0x25 || 0x74 <= op <= 0x78 || op == 0xfd then Some(ArgRange(3))
    else if op == 0xfa then Some(Args(4))
    else if op == 0xfb then Some(ArgRange(4))
    else if op == 0x18 then Some(Plain(5))
    else if op in {0x03, 0x06, 0x09, 0x14, 0x17, 0x1b} then Some(Plain(3))
    else if op in {0x00, 0x01, 0x04, 0x07, 0x12, 0x1d, 0x1e, 0x21} || IsTerminal(op) || IsMoveResult(op)
            || 0x7b <= op <= 0x8f || 0xb0 <= op <= 0xcf then Some(Plain(1))
    else Some(Plain(2))
  }

  predicate IsMoveResult(op: byte) {
    0x0a <= op <= 0x0d
  }

  predicate NamesPayload(op: byte) {
    IsSwitch(op) || op == OP_FILL_ARRAY_DATA
  }

  predicate IsNonStaticInvoke(op: byte) {
    op in {0x6e, 0x6f, 0x70, 0x72, 0xfa, 0x74, 0x75, 0x76, 0x78, 0xfb}
  }

  function SignExtended(x: nat, modulus: nat): int {
    if 2 * x >= modulus then x - modulus else x
  }

  /** The signed displacement a branch carries. */
  function Displacement(f: Format, units: seq<nat>): int
    requires f.IsBranch() && |units| == f.Size()
  {
    match f
    case Branch8 => SignExtended(units[0] / 0x100, 0x100)
    case Branch16 => SignExtended(units[1], 0x1_0000)
    case Branch32 => WrapI32(units[1] + 0x1_0000 * units[2])
  }

  function BranchTarget(pc: u32, offset: int): (r: Result<u32>)
    ensures r.Ok? ==> r.value == pc + offset
  {
    if 0 <= pc + offset <= U32_MAX then Ok(pc + offset) else Err(InvalidInstruction(pc))
  }

  function ArgCount(f: Format, u0: nat): nat {
    if f.Args? then u0 / 0x1000 % 0x10 else if f.ArgRange? then u0 / 0x100 % 0x100 else 1
  }

  /** Up to five consecutive registers are recorded from the first; none may exceed 16 bits. */
  predicate RangeOverflows(f: Format, units: seq<nat>)
    requires f.ArgRange? ==> |units| >= 3
  {
    f.ArgRange? &&
    var count := if ArgCount(f, units[0]) < 5 then ArgCount(f, units[0]) else 5;
    count > 0 && units[2] + count - 1 > U16_MAX
  }

  function DecodeSingle(data: seq<byte>, insnsOff: nat, pc: u32, op: byte): (r: Result<Instruction>)
    requires FormatOf(op).Some?
    ensures r.Ok? ==> r.value.addr == pc && r.value.op == op && r.value.size == FormatOf(op).value.Size()
    ensures r.Ok? ==> (r.value.target.Some? <==> IsBranch(op) || op == OP_FILL_ARRAY_DATA)
  {
    var f := FormatOf(op).value;
    var units :- UnitsAt(data, insnsOff, pc, f.Size());
    if RangeOverflows(f, units) then Err(InvalidInstruction(pc))
    else if f.IsBranch() then
      var target :- BranchTarget(pc, Displacement(f, units));
      Ok(Instruction(pc, op, f.Size(), Some(target)))
    else Ok(Instruction(pc, op, f.Size(), None))
  }

  // ----- what the loop logs about one instruction -----

  function ArgOverflow(insn: Instruction, f: Format, u0: nat): seq<Violation> {
    if f.Args? && ArgCount(f, u0) > 5 then [OpcodeArgCountOutOfRange(insn.op, insn.addr, ArgCount(f, u0))] else []
  }

  function TargetChecks(insn: Instruction, insnsSize: nat): seq<Violation> {
    if insn.target.None? then []
    else
      var t := insn.target.value;
      (if t >= insnsSize then [BranchTargetOutOfRange(insn.op, insn.addr, t, insnsSize)] else []) +
      (if IsBranch(insn.op) && !IsSwitch(insn.op) && insn.op != OP_GOTO32 && t == insn.addr
       then [BranchOffsetZero(insn.op, insn.addr)] else []) +
      (if NamesPayload(insn.op) && t % 2 != 0 then [UnalignedTableDexPc(insn.op, insn.addr, t)] else [])
  }

  function ReceiverCheck(insn: Instruction, f: Format, u0: nat): seq<Violation> {
    if IsNonStaticInvoke(insn.op) && ArgCount(f, u0) == 0 then [NonStaticInvokeArgCountZero(insn.op, insn.addr)] else []
  }

  function InsnViolations(insn: Instruction, f: Format, u0: nat, insnsSize: nat): seq<Violation> {
    ArgOverflow(insn, f, u0) + TargetChecks(insn, insnsSize) + ReceiverCheck(insn, f, u0)
  }

  // ----- items of the stream -----

  /** What the cursor steps over: an instruction, a payload table, or one unit of unknown opcode. */
  datatype Item =
    | Insn(insn: Instruction, log: seq<Violation>)
    | Payload(pc: nat, units: nat)
    | Unknown(pc: nat, opcode: byte)
  {
    function Start(): nat {
      match this
      case Insn(insn, _) => insn.addr
      case Payload(pc, _) => pc
      case Unknown(pc, _) => pc
    }

    function Size(): nat {
      match this
      case Insn(insn, _) => insn.size
      case Payload(_, units) => units
      case Unknown(_, _) => 1
    }

    function End(): nat {
      Start() + Size()
    }
  }

  predicate IsPayloadIdent(u0: nat) {
    u0 % 0x100 == 0 && 1 <= u0 / 0x100 <= 3
  }

  /** Code units a payload table occupies. */
  function PayloadUnits(data: seq<byte>, insnsOff: nat, pc: nat, ident: nat): (r: Result<nat>)
    ensures r.Ok? ==> r.value >= 2
  {
    var k :- Unit(data, insnsOff, pc, 1);
    if ident == 1 then
      var cells :- SafeMulU32(k, 2);
      SafeAddU32(cells, 4)
    else if ident == 2 then
      var cells :- SafeMulU32(k, 4);
      SafeAddU32(cells, 2)
    else
      var size :- Word(data, insnsOff + 2 * pc + 4);
      var bytes :- SafeMulU32(size, k);
      SafeAddU32(4, (bytes + 1) / 2)
  }

  function PayloadItem(data: seq<byte>, insnsOff: nat, pc: nat, ident: nat): (r: Result<Item>)
    ensures r.Ok? ==> r.value.Payload? && r.value.Start() == pc && r.value.Size() >= 1 && r.value.End() <= U32_MAX
  {
    var units :- PayloadUnits(data, insnsOff, pc, ident);
    var end :- SafeAddU32(pc, units);
    Ok(Payload(pc, units))
  }

  function InsnItem(data: seq<byte>, insnsOff: nat, pc: u32, op: byte, u0: nat, insnsSize: nat): (r: Result<Item>)
    requires FormatOf(op).Some?
    ensures r.Ok? ==> r.value.Insn? && r.value.Start() == pc && r.value.Size() >= 1 && r.value.End() <= U32_MAX
  {
    var insn :- DecodeSingle(data, insnsOff, pc, op);
    var end :- SafeAddU32(pc, insn.size);
    Ok(Insn(insn, InsnViolations(insn, FormatOf(op).value, u0, insnsSize)))
  }

  function NextItem(data: seq<byte>, insnsOff: nat, pc: nat, insnsSize: u32): (r: Result<Item>)
    requires pc < insnsSize
    ensures r.Ok? ==> r.value.Start() == pc && r.value.Size() >= 1 && r.value.End() <= U32_MAX
  {
    var u0 :- Unit(data, insnsOff, pc, 0);
    var op := u0 % 0x100;
    if IsPayloadIdent(u0) then PayloadItem(data, insnsOff, pc, u0 / 0x100)
    else if FormatOf(op).None? then Ok(Unknown(pc, op))
    else InsnItem(data, insnsOff, pc, op, u0, insnsSize)
  }

  /** The items from `pc` to the end of the code. */
  function Items(data: seq<byte>, insnsOff: nat, pc: nat, insnsSize: u32): Result<seq<Item>>
    decreases insnsSize - pc
  {
    if pc >= insnsSize then Ok([])
    else
      var item :- NextItem(data, insnsOff, pc, insnsSize);
      var rest :- Items(data, insnsOff, item.End(), insnsSize);
      Ok([item] + rest)
  }

  function Insns(items: seq<Item>): seq<Instruction> {
    if items == [] then []
    else
      var last := items[|items| - 1];
      Insns(items[..|items| - 1]) + if last.Insn? then [last.insn] else []
  }

  function ItemLog(item: Item): seq<Violation> {
    match item
    case Insn(_, log) => log
    case Payload(_, _) => []
    case Unknown(pc, opcode) => [UnknownOpcodeByte(pc, opcode)]
  }

  function Log(items: seq<Item>): seq<Violation> {
    if items == [] then [] else Log(items[..|items| - 1]) + ItemLog(items[|items| - 1])
  }

  /** Addresses a branch may land on: payload tables are not among them. */
  function OpcodeStarts(items: seq<Item>): set<nat> {
    set i | 0 <= i < |items| && !items[i].Payload? :: items[i].Start()
  }

  function FinalPc(items: seq<Item>): nat {
    if items == [] then 0 else items[|items| - 1].End()
  }

  function TailLog(finalPc: nat, insnsSize: nat): seq<Violation> {
    if finalPc > insnsSize then [TailBytesAfterLastInstruction(insnsSize, finalPc)] else []
  }

  // ----- branch targets, checked after the loop -----

  function OwnerPc(starts: set<nat>, target: nat): nat {
    var below := set a | a in starts && a <= target;
    if below == {} then 0 else Greatest(below)
  }

  /** The instruction that starts at an address. */
  function InsnAt(insns: seq<Instruction>, a: nat): Option<Instruction> {
    if insns == [] then None
    else if insns[|insns| - 1].addr == a then Some(insns[|insns| - 1])
    else InsnAt(insns[..|insns| - 1], a)
  }

  function LandingLog(insns: seq<Instruction>, starts: set<nat>, insnsSize: nat, insn: Instruction): seq<Violation> {
    if insn.target.None? || insn.target.value >= insnsSize || NamesPayload(insn.op) then []
    else
      var t := insn.target.value;
      var landing := InsnAt(insns, t);
      (if t !in starts then [BranchTargetMidInstruction(insn.op, insn.addr, t, OwnerPc(starts, t))] else []) +
      (if landing.Some? && IsMoveResult(landing.value.op)
       then [BranchTargetIsMoveResultOrMoveException(insn.op, insn.addr, t, landing.value.op)] else [])
  }

  function LandingLogs(insns: seq<Instruction>, starts: set<nat>, insnsSize: nat, n: nat): seq<Violation>
    requires n <= |insns|
  {
    if n == 0 then []
    else LandingLogs(insns, starts, insnsSize, n - 1) + LandingLog(insns, starts, insnsSize, insns[n - 1])
  }

  // ----- payload tables -----

  function KeyTable(data: seq<byte>, at: nat, n: nat): (r: Result<seq<int>>)
    ensures r.Ok? ==> |r.value| == n
  {
    if n == 0 then Ok([])
    else
      var init :- KeyTable(data, at, n - 1);
      var key :- SignedWord(data, at + 4 * (n - 1));
      Ok(init + [key])
  }

  function TargetTable(data: seq<byte>, at: nat, n: nat, switchPc: u32): (r: Result<seq<u32>>)
    ensures r.Ok? ==> |r.value| == n
  {
    if n == 0 then Ok([])
    else
      var init :- TargetTable(data, at, n - 1, switchPc);
      var rel :- SignedWord(data, at + 4 * (n - 1));
      var target :- BranchTarget(switchPc, rel);
      Ok(init + [target])
  }

  function PackedTable(data: seq<byte>, insnsOff: nat, payloadPc: u32, switchPc: u32): Result<PayloadData> {
    var size :- Unit(data, insnsOff, payloadPc, 1);
    var n :- BoundCount(size, 4, |data|);
    var base := insnsOff + 2 * payloadPc;
    var firstKey :- SignedWord(data, base + 4);
    var targets :- TargetTable(data, base + 8, n, switchPc);
    Ok(PackedSwitch(firstKey, targets))
  }

  function SparseTable(data: seq<byte>, insnsOff: nat, payloadPc: u32, switchPc: u32): Result<PayloadData> {
    var size :- Unit(data, insnsOff, payloadPc, 1);
    var n :- BoundCount(size, 8, |data|);
    var base := insnsOff + 2 * payloadPc;
    var keys :- KeyTable(data, base + 4, n);
    var targets :- TargetTable(data, base + 4 + 4 * n, n, switchPc);
    Ok(SparseSwitch(keys, targets))
  }

  function ArrayTable(data: seq<byte>, insnsOff: nat, payloadPc: u32): Result<PayloadData> {
    var width :- Unit(data, insnsOff, payloadPc, 1);
    if width !in {1, 2, 4, 8} then Err(InvalidInstruction(payloadPc))
    else
      var base := insnsOff + 2 * payloadPc;
      var size :- Word(data, base + 4);
      if base + 8 + size * width > |data| then Err(Truncated(base + 8))
      else Ok(FillArrayData(width, data[base + 8..base + 8 + size * width]))
  }

  function ExpectedIdent(op: byte): nat {
    if op == OP_PACKED_SWITCH then 0x0100 else if op == OP_SPARSE_SWITCH then 0x0200 else 0x0300
  }

  function Table(data: seq<byte>, insnsOff: nat, insn: Instruction): Result<PayloadData>
    requires insn.target.Some?
  {
    if insn.op == OP_PACKED_SWITCH then PackedTable(data, insnsOff, insn.target.value, insn.addr)
    else if insn.op == OP_SPARSE_SWITCH then SparseTable(data, insnsOff, insn.target.value, insn.addr)
    else ArrayTable(data, insnsOff, insn.target.value)
  }

  function CaseTargets(payload: PayloadData): seq<u32> {
    match payload
    case PackedSwitch(_, targets) => targets
    case SparseSwitch(_, targets) => targets
    case FillArrayData(_, _) => []
  }

  function CaseLog(insn: Instruction, targets: seq<u32>, insnsSize: nat): seq<Violation> {
    if targets == [] then []
    else
      var t := targets[|targets| - 1];
      CaseLog(insn, targets[..|targets| - 1], insnsSize) +
      if t >= insnsSize then [BranchTargetOutOfRange(insn.op, insn.addr, t, insnsSize)] else []
  }

  /** Instructions whose payload is to be resolved: those naming an aligned table. */
  predicate Resolves(insn: Instruction) {
    NamesPayload(insn.op) && insn.target.Some? && insn.target.value % 2 == 0
  }

  function Pending(insns: seq<Instruction>): seq<Instruction> {
    if insns == [] then []
    else
      var last := insns[|insns| - 1];
      Pending(insns[..|insns| - 1]) + if Resolves(last) then [last] else []
  }

  function ResolveOne(data: seq<byte>, insnsOff: nat, insnsSize: nat, d: Decoded, insn: Instruction): Result<Decoded>
    requires insn.target.Some?
  {
    var p := insn.target.value;
    var observed :- Unit(data, insnsOff, p, 0);
    if observed != ExpectedIdent(insn.op) then
      Ok(d.(violations := d.violations +
            [PayloadIdentMismatch(insn.op, insn.addr, p, ExpectedIdent(insn.op), observed)]))
    else
      var payload :- Table(data, insnsOff, insn);
      Ok(d.(violations := d.violations + CaseLog(insn, CaseTargets(payload), insnsSize),
      payloads := d.payloads[p := payload]))
  }

  /** Resolve the first `n` pending tables in order; a later switch on the same table overwrites it. */
  function ResolveAll(data: seq<byte>, insnsOff: nat, insnsSize: nat, pending: seq<Instruction>, n: nat,
                      d: Decoded): Result<Decoded>
    requires n <= |pending| && forall insn :: insn in pending ==> insn.target.Some?
  {
    if n == 0 then Ok(d)
    else
      var sofar :- ResolveAll(data, insnsOff, insnsSize, pending, n - 1, d);
      ResolveOne(data, insnsOff, insnsSize, sofar, pending[n - 1])
  }

  lemma {:induction false} PendingResolve(insns: seq<Instruction>)
    ensures forall insn :: insn in Pending(insns) <==> insn in insns && Resolves(insn)
    decreases |insns|
  {
    if insns != [] {
      var init, last := insns[..|insns| - 1], insns[|insns| - 1];
      PendingResolve(init);
      assert insns == init + [last];
    }
  }

  /** What the loop over items leaves, before tables are resolved. */
  function Scanned(items: seq<Item>, insnsSize: nat): Decoded {
    var insns := Insns(items);
    Decoded(insns, map[],
            Log(items) + TailLog(FinalPc(items), insnsSize) +
            LandingLogs(insns, OpcodeStarts(items), insnsSize, |insns|))
  }

  /** The meaning of `decode_insns`. */
  function Decode(data: seq<byte>, insnsOff: nat, insnsSize: u32): Result<Decoded> {
    var items :- Items(data, insnsOff, 0, insnsSize);
    var insns := Insns(items);
    PendingResolve(insns);
    ResolveAll(data, insnsOff, insnsSize, Pending(insns), |Pending(insns)|, Scanned(items, insnsSize))
  }

  // ----- the decoder -----

  method ReadUnits(data: seq<byte>, insnsOff: nat, pc: nat, n: nat) returns (r: Result<seq<nat>>)
    ensures r == UnitsAt(data, insnsOff, pc, n)
  {
    hide Unit;
    var units := [];
    for k := 0 to n
      invariant UnitsAt(data, insnsOff, pc, k) == Ok(units)
    {
      var u := Unit(data, insnsOff, pc, k);
      if u.Err? {
        UnitsFail(data, insnsOff, pc, k, n);
        return Err(u.error);
      }
      units := units + [u.value];
    }
    return Ok(units);
  }

  lemma {:induction false} UnitsFail(data: seq<byte>, insnsOff: nat, pc: nat, k: nat, n: nat)
    requires k < n && UnitsAt(data, insnsOff, pc, k).Ok? && Unit(data, insnsOff, pc, k).Err?
    ensures UnitsAt(data, insnsOff, pc, n) == Err(Unit(data, insnsOff, pc, k).error)
    decreases n
  {
    hide Unit;
    if k + 1 < n {
      UnitsFail(data, insnsOff, pc, k, n - 1);
    }
  }

  method ReadTargets(data: seq<byte>, at: nat, n: nat, switchPc: u32) returns (r: Result<seq<u32>>)
    ensures r == TargetTable(data, at, n, switchPc)
  {
    hide SignedWord, BranchTarget;
    var targets: seq<u32> := [];
    for i := 0 to n
      invariant TargetTable(data, at, i, switchPc) == Ok(targets)
    {
      var rel := SignedWord(data, at + 4 * i);
      var target := if rel.Err? then Err(rel.error) else BranchTarget(switchPc, rel.value);
      if target.Err? {
        TargetsFail(data, at, i, n, switchPc);
        return Err(target.error);
      }
      targets := targets + [target.value];
    }
    return Ok(targets);
  }

  lemma {:induction false} TargetsFail(data: seq<byte>, at: nat, i: nat, n: nat, switchPc: u32)
    requires i < n && TargetTable(data, at, i + 1, switchPc).Err?
    ensures TargetTable(data, at, n, switchPc) == TargetTable(data, at, i + 1, switchPc)
    decreases n
  {
    hide SignedWord, BranchTarget;
    if i + 1 < n {
      TargetsFail(data, at, i, n - 1, switchPc);
    }
  }

  method ReadKeys(data: seq<byte>, at: nat, n: nat) returns (r: Result<seq<int>>)
    ensures r == KeyTable(data, at, n)
  {
    hide SignedWord;
    var keys := [];
    for i := 0 to n
      invariant KeyTable(data, at, i) == Ok(keys)
    {
      var key := SignedWord(data, at + 4 * i);
      if key.Err? {
        KeysFail(data, at, i, n);
        return Err(key.error);
      }
      keys := keys + [key.value];
    }
    return Ok(keys);
  }

  lemma {:induction false} KeysFail(data: seq<byte>, at: nat, i: nat, n: nat)
    requires i < n && KeyTable(data, at, i + 1).Err?
    ensures KeyTable(data, at, n) == KeyTable(data, at, i + 1)
    decreases n
  {
    hide SignedWord;
    if i + 1 < n {
      KeysFail(data, at, i, n - 1);
    }
  }

  method DecodePackedSwitch(data: seq<byte>, insnsOff: nat, payloadPc: u32, switchPc: u32)
    returns (r: Result<PayloadData>)
    ensures r == PackedTable(data, insnsOff, payloadPc, switchPc)
  {
    hide Unit, TargetTable, SignedWord;
    var size :- Unit(data, insnsOff, payloadPc, 1);
    var n :- BoundCount(size, 4, |data|);
    var base := insnsOff + 2 * payloadPc;
    var firstKey :- SignedWord(data, base + 4);
    var targets :- ReadTargets(data, base + 8, n, switchPc);
    return Ok(PackedSwitch(firstKey, targets));
  }

  method DecodeSparseSwitch(data: seq<byte>, insnsOff: nat, payloadPc: u32, switchPc: u32)
    returns (r: Result<PayloadData>)
    ensures r == SparseTable(data, insnsOff, payloadPc, switchPc)
  {
    hide Unit, KeyTable, TargetTable;
    var size :- Unit(data, insnsOff, payloadPc, 1);
    var n :- BoundCount(size, 8, |data|);
    var base := insnsOff + 2 * payloadPc;
    var keys :- ReadKeys(data, base + 4, n);
    var targets :- ReadTargets(data, base + 4 + 4 * n, n, switchPc);
    return Ok(SparseSwitch(keys, targets));
  }

  /** `decode_single`, with the violations the format's own checks add. */
  method DecodeOne(data: seq<byte>, insnsOff: nat, pc: u32, op: byte, log: seq<Violation>)
    returns (r: Result<Instruction>, log': seq<Violation>)
    requires FormatOf(op).Some?
    ensures r == DecodeSingle(data, insnsOff, pc, op)
    ensures r.Ok? ==> Unit(data, insnsOff, pc, 0).Ok? &&
                      log' == log + ArgOverflow(r.value, FormatOf(op).value, Unit(data, insnsOff, pc, 0).value)
  {
    hide Unit, FormatOf, UnitsAt;
    var f := FormatOf(op).value;
    log' := log;
    var units := ReadUnits(data, insnsOff, pc, f.Size());
    if units.Err? {
      return Err(units.error), log';
    }
    FirstUnit(data, insnsOff, pc, f.Size());
    var u0 := units.value[0];
    if f.Args? && ArgCount(f, u0) > 5 {
      log' := log' + [OpcodeArgCountOutOfRange(op, pc, ArgCount(f, u0))];
    }
    if RangeOverflows(f, units.value) {
      return Err(InvalidInstruction(pc)), log';
    }
    if f.IsBranch() {
      var target := BranchTarget(pc, Displacement(f, units.value));
      if target.Err? {
        return Err(target.error), log';
      }
      return Ok(Instruction(pc, op, f.Size(), Some(target.value))), log';
    }
    return Ok(Instruction(pc, op, f.Size(), None)), log';
  }

  lemma {:induction false} FirstUnit(data: seq<byte>, insnsOff: nat, pc: nat, n: nat)
    requires n >= 1 && UnitsAt(data, insnsOff, pc, n).Ok?
    ensures Unit(data, insnsOff, pc, 0) == Ok(UnitsAt(data, insnsOff, pc, n).value[0])
    decreases n
  {
    hide Unit;
    if n > 1 {
      FirstUnit(data, insnsOff, pc, n - 1);
    }
  }

  lemma ItemsStep(data: seq<byte>, insnsOff: nat, pc: nat, insnsSize: u32, done: seq<Item>, all: Result<seq<Item>>)
    requires pc < insnsSize
    requires all == Prefixed(done, Items(data, insnsOff, pc, insnsSize))
    ensures var item := NextItem(data, insnsOff, pc, insnsSize);
            if item.Err? then all == Err(item.error)
            else all == Prefixed(done + [item.value], Items(data, insnsOff, item.value.End(), insnsSize))
  {
    hide NextItem;
    var item := NextItem(data, insnsOff, pc, insnsSize);
    if item.Ok? {
      var rest := Items(data, insnsOff, item.value.End(), insnsSize);
      if rest.Ok? {
        assert done + ([item.value] + rest.value) == (done + [item.value]) + rest.value;
      }
    }
  }

  ghost function Prefixed(done: seq<Item>, rest: Result<seq<Item>>): Result<seq<Item>> {
    var items :- rest;
    Ok(done + items)
  }

  lemma Extend(done: seq<Item>, item: Item)
    ensures Insns(done + [item]) == Insns(done) + if item.Insn? then [item.insn] else []
    ensures Log(done + [item]) == Log(done) + ItemLog(item)
    ensures OpcodeStarts(done + [item]) == OpcodeStarts(done) + if item.Payload? then {} else {item.Start()}
    ensures FinalPc(done + [item]) == item.End()
  {
    assert (done + [item])[..|done + [item]| - 1] == done;
    StartsExtend(done, item);
  }

  lemma StartsExtend(done: seq<Item>, item: Item)
    ensures OpcodeStarts(done + [item]) == OpcodeStarts(done) + if item.Payload? then {} else {item.Start()}
  {
    var all := done + [item];
    forall a
      ensures a in OpcodeStarts(all) <==> a in OpcodeStarts(done) + if item.Payload? then {} else {item.Start()}
    {
      if a in OpcodeStarts(done) {
        var i :| 0 <= i < |done| && !done[i].Payload? && done[i].Start() == a;
        assert all[i] == done[i];
      }
      if !item.Payload? && a == item.Start() {
        assert all[|done|] == item;
      }
    }
  }

  /** What the loop has gathered after the items `done`. */
  ghost predicate Gathered(done: seq<Item>, instructions: seq<Instruction>, pending: seq<Instruction>,
                           starts: set<nat>, log: seq<Violation>, pc: nat) {
    && instructions == Insns(done) && pending == Pending(instructions)
    && starts == OpcodeStarts(done) && log == Log(done) && pc == FinalPc(done)
  }

  lemma GatherItem(done: seq<Item>, instructions: seq<Instruction>, pending: seq<Instruction>,
                   starts: set<nat>, log: seq<Violation>, pc: nat, item: Item)
    requires Gathered(done, instructions, pending, starts, log, pc)
    ensures item.Insn? ==>
              Gathered(done + [item], instructions + [item.insn],
                       pending + if Resolves(item.insn) then [item.insn] else [],
                       starts + {item.Start()}, log + item.log, item.End())
    ensures item.Payload? ==> Gathered(done + [item], instructions, pending, starts, log, item.End())
    ensures item.Unknown? ==>
              Gathered(done + [item], instructions, pending, starts + {item.Start()},
                       log + [UnknownOpcodeByte(item.pc, item.opcode)], item.End())
  {
    hide OpcodeStarts, Log, Insns;
    Extend(done, item);
    if item.Insn? {
      assert (instructions + [item.insn])[..|instructions|] == instructions;
    } else {
      assert Insns(done + [item]) == Insns(done);
    }
    if item.Payload? {
      assert Log(done) + [] == Log(done);
      assert OpcodeStarts(done) + {} == OpcodeStarts(done);
    }
  }

  lemma NothingGathered()
    ensures Gathered([], [], [], {}, [], 0)
  {
  }

  lemma ItemsEnd(data: seq<byte>, insnsOff: nat, pc: nat, insnsSize: u32, done: seq<Item>)
    requires pc >= insnsSize
    ensures Prefixed(done, Items(data, insnsOff, pc, insnsSize)) == Ok(done)
  {
    assert done + [] == done;
  }

  /** The checks the loop makes on a decoded instruction. */
  method LogChecks(insn: Instruction, f: Format, u0: nat, insnsSize: nat, log: seq<Violation>)
    returns (log': seq<Violation>)
    ensures log' == log + TargetChecks(insn, insnsSize) + ReceiverCheck(insn, f, u0)
  {
    log' := log;
    if insn.target.Some? {
      var target := insn.target.value;
      if target >= insnsSize {
        log' := log' + [BranchTargetOutOfRange(insn.op, insn.addr, target, insnsSize)];
      }
      if IsBranch(insn.op) && !IsSwitch(insn.op) && insn.op != OP_GOTO32 && target == insn.addr {
        log' := log' + [BranchOffsetZero(insn.op, insn.addr)];
      }
      if NamesPayload(insn.op) && target % 2 != 0 {
        log' := log' + [UnalignedTableDexPc(insn.op, insn.addr, target)];
      }
    }
    assert log' == log + TargetChecks(insn, insnsSize);
    if IsNonStaticInvoke(insn.op) && ArgCount(f, u0) == 0 {
      log' := log' + [NonStaticInvokeArgCountZero(insn.op, insn.addr)];
    }
  }

  /** The cursor loop. */
  method ScanStream(data: seq<byte>, insnsOff: nat, insnsSize: u32)
    returns (failure: Option<DexError>, instructions: seq<Instruction>, pending: seq<Instruction>,
             starts: set<nat>, log: seq<Violation>, pc: nat)
    ensures failure.Some? ==> Items(data, insnsOff, 0, insnsSize) == Err(failure.value)
    ensures failure.None? ==> Items(data, insnsOff, 0, insnsSize).Ok? &&
                              Gathered(Items(data, insnsOff, 0, insnsSize).value, instructions, pending, starts,
                                       log, pc)
  {
    hide Items, Insns, Log, OpcodeStarts, Pending, FormatOf, DecodeSingle, PayloadUnits, Gathered, Unit,
         ArgOverflow, TargetChecks, ReceiverCheck, Resolves;
    failure, instructions, pending, starts, log, pc := None, [], [], {}, [], 0;
    ghost var all := Items(data, insnsOff, 0, insnsSize);
    ghost var done: seq<Item> := [];
    NothingGathered();
    assert all.Ok? ==> [] + all.value == all.value;
    while pc < insnsSize
      invariant all == Prefixed(done, Items(data, insnsOff, pc, insnsSize))
      invariant Gathered(done, instructions, pending, starts, log, pc)
      decreases insnsSize - pc
    {
      ItemsStep(data, insnsOff, pc, insnsSize, done, all);
      ghost var next := NextItem(data, insnsOff, pc, insnsSize);
      if next.Ok? {
        GatherItem(done, instructions, pending, starts, log, pc, next.value);
        done := done + [next.value];
      }
      var u0 := Unit(data, insnsOff, pc, 0);
      if u0.Err? {
        return Some(u0.error), instructions, pending, starts, log, pc;
      }
      var op := u0.value % 0x100;
      if IsPayloadIdent(u0.value) {
        var item := PayloadItem(data, insnsOff, pc, u0.value / 0x100);
        if item.Err? {
          return Some(item.error), instructions, pending, starts, log, pc;
        }
        pc := item.value.End();
      } else {
        starts := starts + {pc};
        if FormatOf(op).None? {
          log := log + [UnknownOpcodeByte(pc, op)];
          pc := pc + 1;
        } else {
          var insn, log' := DecodeOne(data, insnsOff, pc, op, log);
          if insn.Err? {
            return Some(insn.error), instructions, pending, starts, log, pc;
          }
          log' := LogChecks(insn.value, FormatOf(op).value, u0.value, insnsSize, log');
          var end := SafeAddU32(pc, insn.value.size);
          if end.Err? {
            return Some(end.error), instructions, pending, starts, log, pc;
          }
          assert log' == log + next.value.log;
          log := log';
          pending := pending + if Resolves(insn.value) then [insn.value] else [];
          pc := end.value;
          instructions := instructions + [insn.value];
        }
      }
    }
    ItemsEnd(data, insnsOff, pc, insnsSize, done);
  }

  method CheckLanding(insns: seq<Instruction>, starts: set<nat>, insnsSize: nat, insn: Instruction)
    returns (found: seq<Violation>)
    ensures found == LandingLog(insns, starts, insnsSize, insn)
  {
    hide InsnAt, OwnerPc;
    found := [];
    if insn.target.Some? && insn.target.value < insnsSize && !NamesPayload(insn.op) {
      var t := insn.target.value;
      if t !in starts {
        found := [BranchTargetMidInstruction(insn.op, insn.addr, t, OwnerPc(starts, t))];
      }
      var landing := InsnAt(insns, t);
      if landing.Some? && IsMoveResult(landing.value.op) {
        found := found + [BranchTargetIsMoveResultOrMoveException(insn.op, insn.addr, t, landing.value.op)];
      }
    }
  }

  /** The pass over branch targets. */
  method CheckLandings(insns: seq<Instruction>, starts: set<nat>, insnsSize: nat, log: seq<Violation>)
    returns (log': seq<Violation>)
    ensures log' == log + LandingLogs(insns, starts, insnsSize, |insns|)
  {
    hide LandingLog;
    log' := log;
    for i := 0 to |insns|
      invariant log' == log + LandingLogs(insns, starts, insnsSize, i)
    {
      var found := CheckLanding(insns, starts, insnsSize, insns[i]);
      log' := log' + found;
    }
  }

  method LogCases(insn: Instruction, targets: seq<u32>, insnsSize: nat, log: seq<Violation>)
    returns (log': seq<Violation>)
    ensures log' == log + CaseLog(insn, targets, insnsSize)
  {
    log' := log;
    for i := 0 to |targets|
      invariant log' == log + CaseLog(insn, targets[..i], insnsSize)
    {
      assert targets[..i + 1][..i] == targets[..i];
      if targets[i] >= insnsSize {
        log' := log' + [BranchTargetOutOfRange(insn.op, insn.addr, targets[i], insnsSize)];
      }
    }
    assert targets[..|targets|] == targets;
  }

  method DecodeTable(data: seq<byte>, insnsOff: nat, insn: Instruction) returns (r: Result<PayloadData>)
    requires insn.target.Some?
    ensures r == Table(data, insnsOff, insn)
  {
    hide PackedTable, SparseTable, ArrayTable;
    if insn.op == OP_PACKED_SWITCH {
      r := DecodePackedSwitch(data, insnsOff, insn.target.value, insn.addr);
    } else if insn.op == OP_SPARSE_SWITCH {
      r := DecodeSparseSwitch(data, insnsOff, insn.target.value, insn.addr);
    } else {
      r := ArrayTable(data, insnsOff, insn.target.value);
    }
  }

  method ResolvePayloads(data: seq<byte>, insnsOff: nat, insnsSize: nat, pending: seq<Instruction>, start: Decoded)
    returns (r: Result<Decoded>)
    requires forall insn :: insn in pending ==> insn.target.Some?
    ensures r == ResolveAll(data, insnsOff, insnsSize, pending, |pending|, start)
  {
    hide Table, Unit, CaseLog, CaseTargets, ExpectedIdent;
    var d := start;
    for i := 0 to |pending|
      invariant ResolveAll(data, insnsOff, insnsSize, pending, i, start) == Ok(d)
    {
      var insn := pending[i];
      var p := insn.target.value;
      var observed := Unit(data, insnsOff, p, 0);
      if observed.Err? {
        ResolveFails(data, insnsOff, insnsSize, pending, i, |pending|, start);
        return Err(observed.error);
      }
      if observed.value != ExpectedIdent(insn.op) {
        d := d.(violations := d.violations +
        [PayloadIdentMismatch(insn.op, insn.addr, p, ExpectedIdent(insn.op), observed.value)]);
      } else {
        var payload := DecodeTable(data, insnsOff, insn);
        if payload.Err? {
          ResolveFails(data, insnsOff, insnsSize, pending, i, |pending|, start);
          return Err(payload.error);
        }
        var log := LogCases(insn, CaseTargets(payload.value), insnsSize, d.violations);
        d := d.(violations := log, payloads := d.payloads[p := payload.value]);
      }
    }
    return Ok(d);
  }

  lemma {:induction false} ResolveFails(data: seq<byte>, insnsOff: nat, insnsSize: nat, pending: seq<Instruction>,
                                        i: nat, n: nat, d: Decoded)
    requires i < n <= |pending| && forall insn :: insn in pending ==> insn.target.Some?
    requires ResolveAll(data, insnsOff, insnsSize, pending, i + 1, d).Err?
    ensures ResolveAll(data, insnsOff, insnsSize, pending, n, d) ==
        ResolveAll(data, insnsOff, insnsSize, pending, i + 1, d)
    decreases n
  {
    hide ResolveOne;
    if i + 1 < n {
      ResolveFails(data, insnsOff, insnsSize, pending, i, n - 1, d);
    }
  }

  /** `decode_insns`. */
  method DecodeInsns(data: seq<byte>, insnsOff: nat, insnsSize: u32) returns (r: Result<Decoded>)
    ensures r == Decode(data, insnsOff, insnsSize)
  {
    hide Items, Insns, Log, OpcodeStarts, FinalPc, Pending, LandingLogs, ResolveAll, Resolves;
    var failure, instructions, pending, starts, log, pc := ScanStream(data, insnsOff, insnsSize);
    if failure.Some? {
      return Err(failure.value);
    }
    if pc > insnsSize {
      log := log + [TailBytesAfterLastInstruction(insnsSize, pc)];
    }
    log := CheckLandings(instructions, starts, insnsSize, log);
    PendingHaveTargets(instructions);
    ghost var items := Items(data, insnsOff, 0, insnsSize).value;
    assert Decoded(instructions, map[], log) == Scanned(items, insnsSize);
    r := ResolvePayloads(data, insnsOff, insnsSize, pending, Decoded(instructions, map[], log));
  }

  lemma PendingHaveTargets(insns: seq<Instruction>)
    ensures forall insn :: insn in Pending(insns) ==> insn.target.Some?
  {
    PendingResolve(insns);
  }
}
