/**
 Writing a debug stream and reading it back: the operand layout of each
 debug instruction, and whole streams up to the end marker.
 */
module DebugPrinter {
  import opened Basics
  import opened Leb128
  import opened DebugInfo

  /** Offset of a special opcode above the first one. */
  type Adjusted = x: int | 0 <= x <= 0xF5

  /** A debug instruction as stored, with pool references as index + 1 and 0 for none. */
  datatype RawOp =
    | RawAdvancePc(pcDelta: nat)
    | RawAdvanceLine(lineDelta: int, sleb: seq<byte>)
    | RawStartLocal(register: nat, name: nat, ty: nat)
    | RawStartLocalExtended(register: nat, name: nat, ty: nat, signature: nat)
    | RawEndLocal(register: nat)
    | RawRestartLocal(register: nat)
    | RawSetFile(name: nat)
    | RawMarker(epilogue: bool)
    | RawSpecial(adjusted: Adjusted)

  /** Operands in range; a line delta comes with any SLEB128 encoding of it. */
  predicate Writable(op: RawOp, registersSize: nat) {
    match op
    case RawAdvancePc(d) => d <= U32_MAX
    case RawAdvanceLine(d, sleb) => Sleb(sleb, 0) == Ok(Read(d, |sleb|))
    case RawStartLocal(r, name, ty) => r < registersSize && r <= U16_MAX && name <= U32_MAX && ty <= U32_MAX
    case RawStartLocalExtended(r, name, ty, sig) =>
      r < registersSize && r <= U16_MAX && name <= U32_MAX && ty <= U32_MAX && sig <= U32_MAX
    case RawEndLocal(r) => r < registersSize && r <= U16_MAX
    case RawRestartLocal(r) => r < registersSize && r <= U16_MAX
    case RawSetFile(name) => name <= U32_MAX
    case RawMarker(_) => true
    case RawSpecial(_) => true
  }

  /** The instruction a stored one stands for. */
  function Resolve(op: RawOp, pools: Pools): Op {
    match op
    case RawAdvancePc(d) => AdvancePc(d)
    case RawAdvanceLine(d, _) => AdvanceLine(d)
    case RawStartLocal(r, name, ty) => StartLocal(r, PoolEntry(pools.strings, name), PoolEntry(pools.types, ty))
    case RawStartLocalExtended(r, name, ty, _) =>
      StartLocal(r, PoolEntry(pools.strings, name), PoolEntry(pools.types, ty))
    case RawEndLocal(r) => EndLocal(r)
    case RawRestartLocal(r) => RestartLocal(r)
    case RawSetFile(_) => NoEffect
    case RawMarker(_) => NoEffect
    case RawSpecial(adjusted) => Special(adjusted)
  }

  function Opcode(op: RawOp): byte {
    match op
    case RawAdvancePc(_) => DBG_ADVANCE_PC
    case RawAdvanceLine(_, _) => DBG_ADVANCE_LINE
    case RawStartLocal(_, _, _) => DBG_START_LOCAL
    case RawStartLocalExtended(_, _, _, _) => DBG_START_LOCAL_EXTENDED
    case RawEndLocal(_) => DBG_END_LOCAL
    case RawRestartLocal(_) => DBG_RESTART_LOCAL
    case RawSetFile(_) => DBG_SET_FILE
    case RawMarker(epilogue) => if epilogue then 0x08 else 0x07
    case RawSpecial(adjusted) => DBG_FIRST_SPECIAL + adjusted
  }

  function Operands(op: RawOp): seq<byte> {
    match op
    case RawAdvancePc(d) => EncodeUleb(d)
    case RawAdvanceLine(_, sleb) => sleb
    case RawStartLocal(r, name, ty) => EncodeUleb(r) + (EncodeUleb(name) + EncodeUleb(ty))
    case RawStartLocalExtended(r, name, ty, sig) =>
      EncodeUleb(r) + (EncodeUleb(name) + (EncodeUleb(ty) + EncodeUleb(sig)))
    case RawEndLocal(r) => EncodeUleb(r)
    case RawRestartLocal(r) => EncodeUleb(r)
    case RawSetFile(name) => EncodeUleb(name)
    case RawMarker(_) => []
    case RawSpecial(_) => []
  }

  function PrintOp(op: RawOp): seq<byte> {
    [Opcode(op)] + Operands(op)
  }

  lemma RegisterPrinted(data: seq<byte>, pos: nat, r: nat, registersSize: nat)
    requires r < registersSize && r <= U16_MAX && HasAt(data, pos, EncodeUleb(r))
    ensures DecodeRegister(data, pos, registersSize) == Ok(Read(r, pos + |EncodeUleb(r)|))
  {
    hide Uleb, HasAt, EncodeUleb;
    UlebRoundTrip(r, data, pos);
  }

  lemma StartLocalPrinted(data: seq<byte>, pos: nat, r: nat, name: nat, ty: nat, rest: seq<byte>, registersSize: nat,
                          pools: Pools)
    requires r < registersSize && r <= U16_MAX && name <= U32_MAX && ty <= U32_MAX
    requires HasAt(data, pos, EncodeUleb(r) + (EncodeUleb(name) + (EncodeUleb(ty) + rest)))
    ensures var op := StartLocal(r, PoolEntry(pools.strings, name), PoolEntry(pools.types, ty));
            var end := pos + |EncodeUleb(r)| + |EncodeUleb(name)| + |EncodeUleb(ty)|;
            && DecodeStartLocal(data, pos, false, registersSize, pools) == Ok(Read(op, end))
            && HasAt(data, end, rest)
            && (Uleb(data, end).Ok? ==>
                  DecodeStartLocal(data, pos, true, registersSize, pools) == Ok(Read(op, Uleb(data, end).value.next)))
  {
    hide Uleb, HasAt, EncodeUleb, PoolEntry, DecodeRegister;
    var a, b, c := EncodeUleb(r), EncodeUleb(name), EncodeUleb(ty);
    HasAtSplit(data, pos, a, b + (c + rest));
    HasAtSplit(data, pos + |a|, b, c + rest);
    HasAtSplit(data, pos + |a| + |b|, c, rest);
    RegisterPrinted(data, pos, r, registersSize);
    UlebRoundTrip(name, data, pos + |a|);
    UlebRoundTrip(ty, data, pos + |a| + |b|);
  }

  lemma OpcodeRead(data: seq<byte>, pos: nat, opcode: byte, rest: seq<byte>)
    requires HasAt(data, pos, [opcode] + rest)
    ensures pos < |data| && data[pos] == opcode && HasAt(data, pos + 1, rest)
  {
    HasAtSplit(data, pos, [opcode], rest);
    assert data[pos..pos + 1][0] == opcode;
  }

  /** Each stored instruction reads back as what it stands for, and ends where its bytes end. */
  lemma OpRoundTrip(data: seq<byte>, pos: nat, op: RawOp, registersSize: nat, pools: Pools)
    requires Writable(op, registersSize) && HasAt(data, pos, PrintOp(op))
    ensures pos < |data|
    ensures DecodeOp(data, pos, registersSize, pools) == Ok(Read(Resolve(op, pools), pos + |PrintOp(op)|))
  {
    hide Uleb, Sleb, HasAt, EncodeUleb, PoolEntry, DecodeStartLocal, DecodeRegister;
    OpcodeRead(data, pos, Opcode(op), Operands(op));
    match op
    case RawAdvancePc(d) => UlebRoundTrip(d, data, pos + 1);
    case RawAdvanceLine(d, sleb) => SlebPrinted(data, pos + 1, d, sleb);
    case RawStartLocal(r, name, ty) =>
      assert EncodeUleb(ty) + [] == EncodeUleb(ty);
      StartLocalPrinted(data, pos + 1, r, name, ty, [], registersSize, pools);
    case RawStartLocalExtended(r, name, ty, sig) =>
      StartLocalPrinted(data, pos + 1, r, name, ty, EncodeUleb(sig), registersSize, pools);
      UlebRoundTrip(sig, data, pos + 1 + |EncodeUleb(r)| + |EncodeUleb(name)| + |EncodeUleb(ty)|);
    case RawEndLocal(r) => RegisterPrinted(data, pos + 1, r, registersSize);
    case RawRestartLocal(r) => RegisterPrinted(data, pos + 1, r, registersSize);
    case RawSetFile(name) => UlebRoundTrip(name, data, pos + 1);
    case RawMarker(_) =>
    case RawSpecial(_) =>
  }

  predicate AllWritable(ops: seq<RawOp>, registersSize: nat) {
    forall op :: op in ops ==> Writable(op, registersSize)
  }

  /** The instructions, then the end marker. */
  function PrintStream(ops: seq<RawOp>): seq<byte> {
    if ops == [] then [DBG_END_SEQUENCE] else PrintOp(ops[0]) + PrintStream(ops[1..])
  }

  function ResolveOps(ops: seq<RawOp>, pools: Pools): (r: seq<Op>)
    ensures |r| == |ops|
  {
    if ops == [] then [] else [Resolve(ops[0], pools)] + ResolveOps(ops[1..], pools)
  }

  /** A written stream that no accumulator overflows is executed instruction for instruction. */
  lemma {:induction false} StreamRoundTrip(data: seq<byte>, pos: nat, ops: seq<RawOp>, s: State, registersSize: nat,
                                           pools: Pools)
    requires AllWritable(ops, registersSize) && HasAt(data, pos, PrintStream(ops))
    requires Executable(s, ResolveOps(ops, pools), registersSize)
    ensures Trace(data, pos, s, registersSize, pools) == Ok(ResolveOps(ops, pools))
    decreases |ops|
  {
    hide HasAt, PrintOp, DecodeOp, Step, Overflows, Writable, Resolve;
    if ops == [] {
      assert [DBG_END_SEQUENCE] + [] == [DBG_END_SEQUENCE];
      OpcodeRead(data, pos, DBG_END_SEQUENCE, []);
      TraceAtEnd(data, pos, s, registersSize, pools);
    } else {
      var op := Resolve(ops[0], pools);
      HasAtSplit(data, pos, PrintOp(ops[0]), PrintStream(ops[1..]));
      OpRoundTrip(data, pos, ops[0], registersSize, pools);
      assert ResolveOps(ops, pools)[1..] == ResolveOps(ops[1..], pools);
      StreamRoundTrip(data, pos + |PrintOp(ops[0])|, ops[1..], Step(s, op), registersSize, pools);
    }
  }
}
