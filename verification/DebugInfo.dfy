/**
 The `debug_info_item` byte-code machine of src/debug.rs: decoding, the state
 machine, and the parser's loop. String and type pools are parameters.
 */
module DebugInfo {
  import opened Basics
  import opened Leb128

  datatype LocalVar = LocalVar(
    register: nat,
    name: Option<string>,
    typeDesc: Option<string>,
    startAddr: nat,
    endAddr: Option<nat>)

  datatype Position = Position(pc: nat, line: nat)

  datatype DebugInfo = DebugInfo(
    lineStart: nat,
    parameterNames: seq<Option<string>>,
    locals: seq<LocalVar>,
    lineTable: seq<Position>)

  /** The string and type-descriptor pools of the file. */
  datatype Pools = Pools(strings: seq<string>, types: seq<string>)

  const DBG_END_SEQUENCE: byte := 0x00
  const DBG_ADVANCE_PC: byte := 0x01
  const DBG_ADVANCE_LINE: byte := 0x02
  const DBG_START_LOCAL: byte := 0x03
  const DBG_START_LOCAL_EXTENDED: byte := 0x04
  const DBG_END_LOCAL: byte := 0x05
  const DBG_RESTART_LOCAL: byte := 0x06
  const DBG_SET_FILE: byte := 0x09
  const DBG_FIRST_SPECIAL: byte := 0x0A
  const DBG_LINE_BASE: int := -4
  const DBG_LINE_RANGE: int := 15

  /** A decoded debug instruction; markers and file changes have no effect. */
  datatype Op =
    | EndSequence
    | AdvancePc(pcDelta: nat)
    | AdvanceLine(lineDelta: int)
    | StartLocal(register: nat, name: Option<string>, typeDesc: Option<string>)
    | EndLocal(register: nat)
    | RestartLocal(register: nat)
    | NoEffect
    | Special(adjusted: nat)

  function NarrowRegister(ulebValue: nat, registersSize: nat): (r: Result<nat>)
    ensures r.Ok? <==> ulebValue < registersSize && ulebValue <= U16_MAX
    ensures r.Ok? ==> r.value == ulebValue
  {
    if ulebValue <= U16_MAX && ulebValue < registersSize then Ok(ulebValue)
    else Err(InvalidDebugRegister(ulebValue, registersSize))
  }

  /** A pool reference stored as index + 1, with 0 for none. */
  function PoolEntry(pool: seq<string>, indexPlusOne: nat): Option<string> {
    if indexPlusOne == 0 || indexPlusOne - 1 >= |pool| then None else Some(pool[indexPlusOne - 1])
  }

  function DecodeRegister(data: seq<byte>, pos: nat, registersSize: nat): (r: Result<Read<nat>>)
    ensures r.Ok? ==> pos < r.value.next <= |data| && r.value.value < registersSize
  {
    var raw :- Uleb(data, pos);
    var register :- NarrowRegister(raw.value, registersSize);
    Ok(Read(register, raw.next))
  }

  function DecodeStartLocal(data: seq<byte>, pos: nat, extended: bool, registersSize: nat,
                            pools: Pools): (r: Result<Read<Op>>)
    ensures r.Ok? ==> pos < r.value.next <= |data|
    ensures r.Ok? ==> r.value.value.StartLocal? && r.value.value.register < registersSize
  {
    var register :- DecodeRegister(data, pos, registersSize);
    var name :- Uleb(data, register.next);
    var ty :- Uleb(data, name.next);
    var op := StartLocal(register.value, PoolEntry(pools.strings, name.value), PoolEntry(pools.types, ty.value));
    if extended then
      var sig :- Uleb(data, ty.next);
      Ok(Read(op, sig.next))
    else Ok(Read(op, ty.next))
  }

  /** The debug instruction at `pos`. */
  function DecodeOp(data: seq<byte>, pos: nat, registersSize: nat, pools: Pools): (r: Result<Read<Op>>)
    requires pos < |data|
    ensures r.Ok? ==> pos < r.value.next <= |data|
    ensures r.Ok? ==> InRange(r.value.value, registersSize)
  {
    var opcode := data[pos];
    if opcode == DBG_END_SEQUENCE then Ok(Read(EndSequence, pos + 1))
    else if opcode == DBG_ADVANCE_PC then
      var d :- Uleb(data, pos + 1);
      Ok(Read(AdvancePc(d.value), d.next))
    else if opcode == DBG_ADVANCE_LINE then
      var d :- Sleb(data, pos + 1);
      Ok(Read(AdvanceLine(d.value), d.next))
    else if opcode == DBG_START_LOCAL || opcode == DBG_START_LOCAL_EXTENDED then
      DecodeStartLocal(data, pos + 1, opcode == DBG_START_LOCAL_EXTENDED, registersSize, pools)
    else if opcode == DBG_END_LOCAL then
      var register :- DecodeRegister(data, pos + 1, registersSize);
      Ok(Read(EndLocal(register.value), register.next))
    else if opcode == DBG_RESTART_LOCAL then
      var register :- DecodeRegister(data, pos + 1, registersSize);
      Ok(Read(RestartLocal(register.value), register.next))
    else if opcode == DBG_SET_FILE then
      var name :- Uleb(data, pos + 1);
      Ok(Read(NoEffect, name.next))
    else if opcode >= DBG_FIRST_SPECIAL then Ok(Read(Special(opcode - DBG_FIRST_SPECIAL), pos + 1))
    else Ok(Read(NoEffect, pos + 1))
  }

  /** Register operands are registers of the method. */
  predicate InRange(op: Op, registersSize: nat) {
    (op.StartLocal? || op.EndLocal? || op.RestartLocal?) ==> op.register < registersSize
  }

  // ----- the state machine -----

  datatype State = State(
    address: nat,
    line: int,
    active: map<nat, LocalVar>,
    locals: seq<LocalVar>,
    lineTable: seq<Position>)

  function Initial(lineStart: nat): State {
    State(0, WrapI32(lineStart), map[], [], [Position(0, lineStart)])
  }

  /** How far an instruction moves the address and the line, and whether it records a position. */
  function AddrDelta(op: Op): nat {
    match op
    case AdvancePc(d) => d
    case Special(adjusted) => adjusted / DBG_LINE_RANGE
    case _ => 0
  }

  function LineDelta(op: Op): int {
    match op
    case AdvanceLine(d) => d
    case Special(adjusted) => DBG_LINE_BASE + adjusted % DBG_LINE_RANGE
    case _ => 0
  }

  predicate Records(op: Op) {
    op.AdvanceLine? || op.Special?
  }

  /** The accumulators would overflow: the machine stops before the instruction takes effect. */
  predicate Overflows(s: State, op: Op) {
    || (Records(op) && !(I32_MIN <= s.line + LineDelta(op) <= I32_MAX))
    || ((op.AdvancePc? || op.Special?) && s.address + AddrDelta(op) > U32_MAX)
  }

  /** Index of the last recorded local of a register. */
  function LastOf(locals: seq<LocalVar>, register: nat): (r: Option<nat>)
    ensures r.Some? ==> r.value < |locals| && locals[r.value].register == register
    ensures forall i :: (if r.Some? then r.value + 1 else 0) <= i < |locals| ==> locals[i].register != register
  {
    if locals == [] then None
    else if locals[|locals| - 1].register == register then Some(|locals| - 1)
    else LastOf(locals[..|locals| - 1], register)
  }

  /** End the local live in a register, if any, at the current address. */
  function CloseLocal(s: State, register: nat): State {
    if register in s.active then
      s.(active := s.active - {register}, locals := s.locals + [s.active[register].(endAddr := Some(s.address))])
    else s
  }

  function Open(s: State, register: nat, name: Option<string>, typeDesc: Option<string>): State {
    s.(active := s.active[register := LocalVar(register, name, typeDesc, s.address, None)])
  }

  /** Move the address and the line; positions with a negative line are not recorded. */
  function Advance(s: State, op: Op): State {
    var address, line := s.address + AddrDelta(op), s.line + LineDelta(op);
    s.(address := address, line := line,
    lineTable := if Records(op) && line >= 0 then s.lineTable + [Position(address, line)] else s.lineTable)
  }

  /** One instruction that does not overflow. */
  function Step(s: State, op: Op): State {
    match op
    case StartLocal(register, name, ty) => Open(CloseLocal(s, register), register, name, ty)
    case EndLocal(register) => CloseLocal(s, register)
    case RestartLocal(register) =>
      var last := LastOf(s.locals, register);
      if last.Some? then Open(s, register, s.locals[last.value].name, s.locals[last.value].typeDesc) else s
    case _ => Advance(s, op)
  }

  /** The instructions the machine executes from `pos`: up to the end marker, the end of data, or an overflow. */
  function Trace(data: seq<byte>, pos: nat, s: State, registersSize: nat, pools: Pools): (r: Result<seq<Op>>)
    decreases |data| - pos
  {
    if pos >= |data| then Ok([])
    else
      var d :- DecodeOp(data, pos, registersSize, pools);
      if d.value.EndSequence? || Overflows(s, d.value) then Ok([])
      else
        var rest :- Trace(data, d.next, Step(s, d.value), registersSize, pools);
        Ok([d.value] + rest)
  }

  lemma TraceAtEnd(data: seq<byte>, pos: nat, s: State, registersSize: nat, pools: Pools)
    requires pos < |data| && data[pos] == DBG_END_SEQUENCE
    ensures Trace(data, pos, s, registersSize, pools) == Ok([])
  {
  }

  function Fold(s: State, ops: seq<Op>): State
    decreases |ops|
  {
    if ops == [] then s else Fold(Step(s, ops[0]), ops[1..])
  }

  /** No instruction of the list stops the machine started in `s`. */
  predicate Executable(s: State, ops: seq<Op>, registersSize: nat)
    decreases |ops|
  {
    ops == [] ||
    (!ops[0].EndSequence? && !Overflows(s, ops[0]) && InRange(ops[0], registersSize) &&
     Executable(Step(s, ops[0]), ops[1..], registersSize))
  }

  lemma {:induction false} TraceIsExecutable(data: seq<byte>, pos: nat, s: State, registersSize: nat, pools: Pools)
    requires Trace(data, pos, s, registersSize, pools).Ok?
    ensures Executable(s, Trace(data, pos, s, registersSize, pools).value, registersSize)
    decreases |data| - pos
  {
    hide DecodeOp, Step;
    if pos < |data| {
      var d := DecodeOp(data, pos, registersSize, pools).value;
      if !d.value.EndSequence? && !Overflows(s, d.value) {
        TraceIsExecutable(data, d.next, Step(s, d.value), registersSize, pools);
        assert Trace(data, pos, s, registersSize, pools).value[1..]
            == Trace(data, d.next, Step(s, d.value), registersSize, pools).value;
      }
    }
  }

  /** Locals still live at the end of the stream, in register order, open-ended. */
  function StillActive(active: map<nat, LocalVar>, n: nat): seq<LocalVar> {
    if n == 0 then []
    else StillActive(active, n - 1) + (if n - 1 in active then [active[n - 1].(endAddr := None)] else [])
  }

  function Locals(s: State, registersSize: nat): seq<LocalVar> {
    s.locals + StillActive(s.active, registersSize)
  }

  // ----- the parser -----

  function ParamNames(data: seq<byte>, pos: nat, n: nat, pools: Pools): (r: Result<Read<seq<Option<string>>>>)
    ensures r.Ok? ==> pos + n <= r.value.next && (n > 0 ==> r.value.next <= |data|) && |r.value.value| == n
    ensures r.Ok? && n == 0 ==> r.value.next == pos
    decreases n
  {
    if n == 0 then Ok(Read([], pos))
    else
      var init :- ParamNames(data, pos, n - 1, pools);
      var idx :- Uleb(data, init.next);
      Ok(Read(init.value + [PoolEntry(pools.strings, idx.value)], idx.next))
  }

  datatype Header = Header(lineStart: nat, parameterNames: seq<Option<string>>)

  function ParseHeader(data: seq<byte>, offset: nat, pools: Pools): (r: Result<Read<Header>>)
    ensures r.Ok? ==> offset < r.value.next <= |data|
  {
    var lineStart :- Uleb(data, offset);
    var size :- Uleb(data, lineStart.next);
    var n :- BoundCount(size.value, 1, |data|);
    var names :- ParamNames(data, size.next, n, pools);
    Ok(Read(Header(lineStart.value, names.value), names.next))
  }

  /** The meaning of `parse_debug_info`. */
  function Parse(data: seq<byte>, offset: nat, registersSize: nat, pools: Pools): Result<DebugInfo> {
    var h :- ParseHeader(data, offset, pools);
    var ops :- Trace(data, h.next, Initial(h.value.lineStart), registersSize, pools);
    var s := Fold(Initial(h.value.lineStart), ops);
    Ok(DebugInfo(h.value.lineStart, h.value.parameterNames, Locals(s, registersSize), s.lineTable))
  }

  /** The state the rest of the stream leads to. */
  function RunFrom(data: seq<byte>, pos: nat, s: State, registersSize: nat, pools: Pools): Result<State> {
    var ops :- Trace(data, pos, s, registersSize, pools);
    Ok(Fold(s, ops))
  }

  lemma RunEnd(data: seq<byte>, pos: nat, s: State, registersSize: nat, pools: Pools)
    requires pos >= |data|
    ensures RunFrom(data, pos, s, registersSize, pools) == Ok(s)
  {
  }

  lemma RunStep(data: seq<byte>, pos: nat, s: State, registersSize: nat, pools: Pools)
    requires pos < |data|
    ensures RunFrom(data, pos, s, registersSize, pools) ==
            match DecodeOp(data, pos, registersSize, pools)
            case Err(e) => Err(e)
            case Ok(d) =>
              if d.value.EndSequence? || Overflows(s, d.value) then Ok(s)
              else RunFrom(data, d.next, Step(s, d.value), registersSize, pools)
  {
    hide DecodeOp, Step;
    var d := DecodeOp(data, pos, registersSize, pools);
    if d.Ok? && !d.value.value.EndSequence? && !Overflows(s, d.value.value) {
      var rest := Trace(data, d.value.next, Step(s, d.value.value), registersSize, pools);
      if rest.Ok? {
        assert ([d.value.value] + rest.value)[1..] == rest.value;
      }
    }
  }

  /** Linear search from the back for the last local of a register. */
  method FindLast(locals: seq<LocalVar>, register: nat) returns (r: Option<nat>)
    ensures r == LastOf(locals, register)
  {
    var i := |locals|;
    while i > 0
      invariant 0 <= i <= |locals|
      invariant forall k :: i <= k < |locals| ==> locals[k].register != register
    {
      i := i - 1;
      if locals[i].register == register {
        return Some(i);
      }
    }
    return None;
  }

  method ReadOp(data: seq<byte>, pos: nat, registersSize: nat, pools: Pools) returns (r: Result<Read<Op>>)
    requires pos < |data|
    ensures r == DecodeOp(data, pos, registersSize, pools)
  {
    hide Uleb, Sleb, PoolEntry;
    var opcode := data[pos];
    if opcode == DBG_END_SEQUENCE {
      return Ok(Read(EndSequence, pos + 1));
    } else if opcode == DBG_ADVANCE_PC {
      var d :- ReadUleb128(data, pos + 1);
      return Ok(Read(AdvancePc(d.value), d.next));
    } else if opcode == DBG_ADVANCE_LINE {
      var d :- ReadSleb128(data, pos + 1);
      return Ok(Read(AdvanceLine(d.value), d.next));
    } else if opcode == DBG_START_LOCAL || opcode == DBG_START_LOCAL_EXTENDED {
      var raw :- ReadUleb128(data, pos + 1);
      var register :- NarrowRegister(raw.value, registersSize);
      var name :- ReadUleb128(data, raw.next);
      var ty :- ReadUleb128(data, name.next);
      var op := StartLocal(register, PoolEntry(pools.strings, name.value), PoolEntry(pools.types, ty.value));
      if opcode == DBG_START_LOCAL_EXTENDED {
        var sig :- ReadUleb128(data, ty.next);
        return Ok(Read(op, sig.next));
      }
      return Ok(Read(op, ty.next));
    } else if opcode == DBG_END_LOCAL || opcode == DBG_RESTART_LOCAL {
      var raw :- ReadUleb128(data, pos + 1);
      var register :- NarrowRegister(raw.value, registersSize);
      return Ok(Read(if opcode == DBG_END_LOCAL then EndLocal(register) else RestartLocal(register), raw.next));
    } else if opcode == DBG_SET_FILE {
      var name :- ReadUleb128(data, pos + 1);
      return Ok(Read(NoEffect, name.next));
    } else if opcode >= DBG_FIRST_SPECIAL {
      return Ok(Read(Special(opcode - DBG_FIRST_SPECIAL), pos + 1));
    } else {
      return Ok(Read(NoEffect, pos + 1));
    }
  }

  method ReadHeader(data: seq<byte>, offset: nat, pools: Pools) returns (r: Result<Read<Header>>)
    ensures r == ParseHeader(data, offset, pools)
  {
    hide Uleb, PoolEntry;
    var lineStart :- ReadUleb128(data, offset);
    var size :- ReadUleb128(data, lineStart.next);
    var n :- BoundCount(size.value, 1, |data|);
    var names, pos := [], size.next;
    for i := 0 to n
      invariant ParamNames(data, size.next, i, pools) == Ok(Read(names, pos))
    {
      var idx :- ReadUleb128OrFail(data, size.next, pos, i, n, pools);
      names, pos := names + [PoolEntry(pools.strings, idx.value)], idx.next;
    }
    return Ok(Read(Header(lineStart.value, names), pos));
  }

  /** One parameter index; a failure here is a failure of the whole list. */
  method ReadUleb128OrFail(data: seq<byte>, start: nat, pos: nat, i: nat, n: nat, pools: Pools)
    returns (r: Result<Read<nat>>)
    requires i < n && ParamNames(data, start, i, pools).Ok? && ParamNames(data, start, i, pools).value.next == pos
    ensures r == Uleb(data, pos)
    ensures r.Err? ==> ParamNames(data, start, n, pools) == Err(r.error)
  {
    hide Uleb, PoolEntry;
    r := ReadUleb128(data, pos);
    if r.Err? {
      ParamNamesFail(data, start, i, n, pools);
    }
  }

  lemma {:induction false} ParamNamesFail(data: seq<byte>, start: nat, i: nat, n: nat, pools: Pools)
    requires i < n && ParamNames(data, start, i, pools).Ok? &&
        Uleb(data, ParamNames(data, start, i, pools).value.next).Err?
    ensures ParamNames(data, start, n, pools) == Err(Uleb(data, ParamNames(data, start, i, pools).value.next).error)
    decreases n
  {
    hide Uleb, PoolEntry;
    if i + 1 < n {
      ParamNamesFail(data, start, i, n - 1, pools);
    }
  }

  /** `parse_debug_info`. */
  method ParseDebugInfo(data: seq<byte>, offset: nat, registersSize: nat, pools: Pools) returns (r: Result<DebugInfo>)
    ensures r == Parse(data, offset, registersSize, pools)
  {
    hide DecodeOp, Trace, Fold, ParseHeader, LastOf, WrapI32;
    var header :- ReadHeader(data, offset, pools);
    var lineStart := header.value.lineStart;
    var pos := header.next;
    var locals: seq<LocalVar> := [];
    var address: nat, line := 0, WrapI32(lineStart);
    var active: map<nat, LocalVar> := map[];
    var lineTable := [Position(0, lineStart)];
    ghost var goal := RunFrom(data, pos, Initial(lineStart), registersSize, pools);

    while pos < |data|
      invariant RunFrom(data, pos, State(address, line, active, locals, lineTable), registersSize, pools) == goal
      decreases |data| - pos
    {
      ghost var s := State(address, line, active, locals, lineTable);
      RunStep(data, pos, s, registersSize, pools);
      var d :- ReadOp(data, pos, registersSize, pools);
      match d.value {
        case EndSequence =>
          break;
        case StartLocal(register, name, ty) =>
          if register in active {
            locals := locals + [active[register].(endAddr := Some(address))];
            active := active - {register};
          }
          active := active[register := LocalVar(register, name, ty, address, None)];
        case EndLocal(register) =>
          if register in active {
            locals := locals + [active[register].(endAddr := Some(address))];
            active := active - {register};
          }
        case RestartLocal(register) =>
          var last := FindLast(locals, register);
          if last.Some? {
            var prev := locals[last.value];
            active := active[register := LocalVar(register, prev.name, prev.typeDesc, address, None)];
          }
        case NoEffect =>
        case AdvancePc(delta) =>
          if address + delta > U32_MAX {
            break;
          }
          address := address + delta;
        case AdvanceLine(delta) =>
          var newLine := line + delta;
          if newLine < I32_MIN || newLine > I32_MAX {
            break;
          }
          line := newLine;
          if line >= 0 {
            lineTable := lineTable + [Position(address, line)];
          }
        case Special(adjusted) =>
          var newLine := line + DBG_LINE_BASE + adjusted % DBG_LINE_RANGE;
          if newLine < I32_MIN || newLine > I32_MAX {
            break;
          }
          line := newLine;
          var newAddress := address + adjusted / DBG_LINE_RANGE;
          if newAddress > U32_MAX {
            break;
          }
          address := newAddress;
          if line >= 0 {
            lineTable := lineTable + [Position(address, line)];
          }
      }
      pos := d.next;
    }
    if pos >= |data| {
      RunEnd(data, pos, State(address, line, active, locals, lineTable), registersSize, pools);
    }
    assert goal.Ok?;
    ghost var s := goal.value;
    assert s.active == active && s.locals == locals && s.lineTable == lineTable;
    for register := 0 to registersSize
      invariant locals == s.locals + StillActive(s.active, register)
    {
      if register in active {
        locals := locals + [active[register].(endAddr := None)];
      }
    }
    return Ok(DebugInfo(lineStart, header.value.parameterNames, locals, lineTable));
  }
}
