/**
 Decoded method bodies (src/decode.rs): instructions reduced to what control
 flow depends on, switch tables, the try table, and the opcode classes of
 src/cfg.rs. An opcode is its byte.
 */
module CodeModel {
  import opened Basics

  datatype Instruction = Instruction(addr: u32, op: byte, size: nat, target: Option<u32>) {
    /** Address of the unit after the instruction. */
    function End(): nat {
      addr + size
    }
  }

  datatype PayloadData =
    | PackedSwitch(firstKey: int, targets: seq<u32>)
    | SparseSwitch(keys: seq<int>, targets: seq<u32>)
    | FillArrayData(elementWidth: nat, data: seq<byte>)

  datatype TryItem = TryItem(startAddr: u32, insnCount: nat, handlerIdx: nat) {
    function End(): nat {
      startAddr + insnCount
    }
  }

  datatype TypedCatch = TypedCatch(exceptionType: nat, handlerAddr: u32)

  datatype CatchHandler = CatchHandler(catches: seq<TypedCatch>, catchAllAddr: Option<u32>)

  datatype CodeItem = CodeItem(
    instructions: seq<Instruction>,
    tries: seq<TryItem>,
    catchHandlers: seq<CatchHandler>,
    payloads: map<nat, PayloadData>)

  const OP_GOTO: byte := 0x28
  const OP_GOTO16: byte := 0x29
  const OP_GOTO32: byte := 0x2a
  const OP_PACKED_SWITCH: byte := 0x2b
  const OP_SPARSE_SWITCH: byte := 0x2c
  const OP_FILL_ARRAY_DATA: byte := 0x26
  const OP_THROW: byte := 0x27

  predicate IsUnconditionalBranch(op: byte) {
    OP_GOTO <= op <= OP_GOTO32
  }

  predicate IsConditionalBranch(op: byte) {
    0x32 <= op <= 0x3d
  }

  predicate IsSwitch(op: byte) {
    op == OP_PACKED_SWITCH || op == OP_SPARSE_SWITCH
  }

  predicate IsBranch(op: byte) {
    IsUnconditionalBranch(op) || IsConditionalBranch(op) || IsSwitch(op)
  }

  predicate IsTerminal(op: byte) {
    op == OP_THROW || 0x0e <= op <= 0x11
  }

  /** Instructions in address order, disjoint, ending below 2^32. */
  predicate Laid(insns: seq<Instruction>) {
    && (forall i :: 0 <= i < |insns| ==> insns[i].size >= 1 && insns[i].End() <= U32_MAX)
    && (forall i, j :: 0 <= i < j < |insns| ==> insns[i].End() <= insns[j].addr)
  }

  /** What the code-item parser guarantees the graph builder. */
  predicate ValidCode(code: CodeItem) {
    && Laid(code.instructions)
    && (forall t :: t in code.tries ==> t.End() <= U32_MAX && t.handlerIdx < |code.catchHandlers|)
  }

  /** The case targets of a switch instruction: those of the table its target names, if there is one. */
  function SwitchTargets(code: CodeItem, insn: Instruction): seq<u32> {
    if insn.target.Some? && insn.target.value in code.payloads then
      match code.payloads[insn.target.value]
      case PackedSwitch(_, targets) => targets
      case SparseSwitch(_, targets) => targets
      case FillArrayData(_, _) => []
    else []
  }

  /** Every sparse table has one target per key. */
  predicate TablesPaired(payloads: map<nat, PayloadData>) {
    forall p :: p in payloads && payloads[p].SparseSwitch? ==> |payloads[p].keys| == |payloads[p].targets|
  }

  /** An instruction and a try region share a code unit. */
  predicate Covers(t: TryItem, insn: Instruction) {
    insn.addr < t.End() && insn.End() > t.startAddr
  }
}
