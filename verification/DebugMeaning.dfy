/**
 What debug bytes mean, without the machine: a header written and read back,
 the effect of every stored instruction in plain numbers, and a whole line
 program from its moves to the answers of `line_at`.
 */
module DebugMeaning {
  import opened Basics
  import opened Leb128
  import opened DebugInfo
  import opened DebugPrinter
  import opened DebugTheorems
  import opened DebugScan

  // ----- the header -----

  /** Parameter names as stored: index + 1, or 0 for none. */
  function PrintNames(names: seq<nat>): seq<byte> {
    if names == [] then [] else PrintNames(names[..|names| - 1]) + EncodeUleb(names[|names| - 1])
  }

  function PrintHeader(lineStart: nat, names: seq<nat>): seq<byte> {
    EncodeUleb(lineStart) + (EncodeUleb(|names|) + PrintNames(names))
  }

  predicate AreU32(names: seq<nat>) {
    forall i :: 0 <= i < |names| ==> names[i] <= U32_MAX
  }

  /** The pool entry a stored reference stands for. */
  function Named(pool: seq<string>, reference: nat): Option<string> {
    if 1 <= reference <= |pool| then Some(pool[reference - 1]) else None
  }

  lemma NamedIsPoolEntry(pool: seq<string>, reference: nat)
    ensures PoolEntry(pool, reference) == Named(pool, reference)
  {
  }

  lemma NamesSplit(names: seq<nat>)
    requires names != []
    ensures PrintNames(names) == PrintNames(names[..|names| - 1]) + EncodeUleb(names[|names| - 1])
  {
  }

  lemma {:induction false} NamesPrinted(data: seq<byte>, pos: nat, names: seq<nat>, pools: Pools)
    requires AreU32(names) && HasAt(data, pos, PrintNames(names))
    ensures var r := ParamNames(data, pos, |names|, pools);
            && r.Ok? && r.value.next == pos + |PrintNames(names)|
            && forall i :: 0 <= i < |names| ==> r.value.value[i] == Named(pools.strings, names[i])
    decreases |names|
  {
    hide HasAt, EncodeUleb, Uleb, PoolEntry, Named;
    if names != [] {
      var n := |names| - 1;
      NamesSplit(names);
      HasAtSplit(data, pos, PrintNames(names[..n]), EncodeUleb(names[n]));
      NamesPrinted(data, pos, names[..n], pools);
      UlebRoundTrip(names[n], data, pos + |PrintNames(names[..n])|);
      NamedIsPoolEntry(pools.strings, names[n]);
      var init := ParamNames(data, pos, n, pools).value;
      forall i | 0 <= i < n ensures init.value[i] == Named(pools.strings, names[i]) {
        assert names[..n][i] == names[i];
      }
    }
  }

  lemma {:induction false} NamesTakeBytes(names: seq<nat>)
    ensures |names| <= |PrintNames(names)|
    decreases |names|
  {
    hide EncodeUleb;
    if names != [] {
      NamesTakeBytes(names[..|names| - 1]);
      UlebTakesBytes(names[|names| - 1]);
    }
  }

  lemma UlebTakesBytes(x: nat)
    ensures |EncodeUleb(x)| >= 1
  {
  }

  /** A written header reads back: the start line, and every parameter name in order. */
  lemma HeaderRoundTrip(data: seq<byte>, offset: nat, lineStart: nat, names: seq<nat>, pools: Pools)
    requires lineStart <= U32_MAX && |names| <= U32_MAX && AreU32(names)
    requires HasAt(data, offset, PrintHeader(lineStart, names))
    ensures var h := ParseHeader(data, offset, pools);
            && h.Ok? && h.value.next == offset + |PrintHeader(lineStart, names)|
            && h.value.value.lineStart == lineStart && |h.value.value.parameterNames| == |names|
            && forall i :: 0 <= i < |names| ==> h.value.value.parameterNames[i] == Named(pools.strings, names[i])
  {
    hide HasAt, EncodeUleb, Uleb, PrintNames, ParamNames, Named;
    var a, b := EncodeUleb(lineStart), EncodeUleb(|names|);
    HasAtSplit(data, offset, a, b + PrintNames(names));
    HasAtSplit(data, offset + |a|, b, PrintNames(names));
    UlebRoundTrip(lineStart, data, offset);
    UlebRoundTrip(|names|, data, offset + |a|);
    NamesPrinted(data, offset + |a| + |b|, names, pools);
    NamesTakeBytes(names);
    HasAtFits(data, offset + |a| + |b|, PrintNames(names));
    BoundIsCapacity(|names|, 1, |data|);
  }

  // ----- moves -----

  /** A move of the address, of the line, or of both in one byte. */
  datatype Move =
    | Pc(units: nat)
    | Line(lines: int, sleb: seq<byte>)
    | Both(units: nat, lines: int)
  {
    function Units(): nat {
      if Line? then 0 else units
    }

    function Lines(): int {
      if Pc? then 0 else lines
    }

    /** One special byte holds a line move of -4 to 10 and an address move of at most 16 units. */
    predicate Storable() {
      match this
      case Pc(n) => n <= U32_MAX
      case Line(d, sleb) => Sleb(sleb, 0) == Ok(Read(d, |sleb|))
      case Both(n, d) => -4 <= d <= 10 && 0x0A + 15 * n + (d + 4) <= 0xFF
    }
  }

  function PrintMove(m: Move): seq<byte>
    requires m.Storable()
  {
    match m
    case Pc(n) => [0x01] + EncodeUleb(n)
    case Line(_, sleb) => [0x02] + sleb
    case Both(n, d) => [0x0A + 15 * n + (d + 4)]
  }

  /** The stored instruction of a move. */
  function RawOf(m: Move): RawOp
    requires m.Storable()
  {
    match m
    case Pc(n) => RawAdvancePc(n)
    case Line(d, sleb) => RawAdvanceLine(d, sleb)
    case Both(n, d) => RawSpecial(15 * n + (d + 4))
  }

  lemma MoveIsStored(m: Move, registersSize: nat)
    requires m.Storable()
    ensures PrintOp(RawOf(m)) == PrintMove(m) && Writable(RawOf(m), registersSize)
  {
    hide EncodeUleb, Sleb;
  }

  /** The accumulators stay in range when the move is made. */
  predicate InBounds(address: nat, line: int, m: Move) {
    address + m.Units() <= U32_MAX && I32_MIN <= line + m.Lines() <= I32_MAX
  }

  /** The state after a move: a line move records the position reached unless the line is negative. */
  function Moved(s: State, m: Move): State {
    var address, line := s.address + m.Units(), s.line + m.Lines();
    s.(address := address, line := line,
    lineTable := s.lineTable + if m.Pc? || line < 0 then [] else [Position(address, line)])
  }

  /** The bytes of a move decode to an instruction that makes exactly that move, or stops the machine. */
  lemma MoveEffect(data: seq<byte>, pos: nat, m: Move, s: State, registersSize: nat, pools: Pools)
    requires m.Storable() && HasAt(data, pos, PrintMove(m)) && I32_MIN <= s.line <= I32_MAX && s.address <= U32_MAX
    ensures pos < |data|
    ensures var r := DecodeOp(data, pos, registersSize, pools);
            && r.Ok? && r.value.next == pos + |PrintMove(m)|
            && !r.value.value.EndSequence?
            && (Overflows(s, r.value.value) <==> !InBounds(s.address, s.line, m))
            && Step(s, r.value.value) == Moved(s, m)
  {
    hide DecodeOp, HasAt, EncodeUleb, Sleb, PrintOp, PrintMove, LastOf;
    MoveIsStored(m, registersSize);
    OpRoundTrip(data, pos, RawOf(m), registersSize, pools);
    ResolvedMove(m, s, pools);
  }

  lemma ResolvedMove(m: Move, s: State, pools: Pools)
    requires m.Storable() && I32_MIN <= s.line <= I32_MAX && s.address <= U32_MAX
    ensures var op := Resolve(RawOf(m), pools);
            && !op.EndSequence?
            && (Overflows(s, op) <==> !InBounds(s.address, s.line, m))
            && Step(s, op) == Moved(s, m)
  {
    hide LastOf, Sleb;
    assert s.lineTable + [] == s.lineTable;
  }

  /** Every byte from 0x0A on is such a move, and only one. */
  lemma SpecialBytes(b: byte)
    requires b >= 0x0A
    ensures exists n: nat, d: int :: Both(n, d).Storable() && PrintMove(Both(n, d)) == [b]
    ensures forall m: Move, m': Move ::
              m.Both? && m'.Both? && m.Storable() && m'.Storable() && PrintMove(m) == [b] == PrintMove(m') ==> m == m'
  {
    var n, d := (b - 0x0A) / 15, (b - 0x0A) % 15 - 4;
    assert Both(n, d).Storable() && PrintMove(Both(n, d)) == [b];
    forall m: Move, m': Move |
      m.Both? && m'.Both? && m.Storable() && m'.Storable() && PrintMove(m) == [b] == PrintMove(m')
      ensures m == m'
    {
      assert PrintMove(m)[0] == b == PrintMove(m')[0];
    }
  }

  // ----- line programs -----

  function PrintMoves(moves: seq<Move>): seq<byte>
    requires AllStorable(moves)
  {
    if moves == [] then [0x00] else PrintMove(moves[0]) + PrintMoves(moves[1..])
  }

  predicate AllStorable(moves: seq<Move>) {
    forall i :: 0 <= i < |moves| ==> moves[i].Storable()
  }

  /** The line in force at `pc`: of the last line move made at or before it; a move out of bounds ends the program. */
  function LineOf(address: nat, line: int, current: nat, moves: seq<Move>, pc: nat): nat
    decreases |moves|
  {
    if moves == [] || !InBounds(address, line, moves[0]) then current
    else
      var address', line' := address + moves[0].Units(), line + moves[0].Lines();
      if address' > pc then current
      else LineOf(address', line', if moves[0].Pc? || line' < 0 then current else line', moves[1..], pc)
  }

  function FoldMoves(s: State, moves: seq<Move>): State
    decreases |moves|
  {
    if moves == [] || !InBounds(s.address, s.line, moves[0]) then s
    else FoldMoves(Moved(s, moves[0]), moves[1..])
  }

  /** The machine runs a printed line program move by move. */
  lemma {:induction false} MovesRun(data: seq<byte>, pos: nat, moves: seq<Move>, s: State, registersSize: nat,
                                    pools: Pools)
    requires AllStorable(moves) && HasAt(data, pos, PrintMoves(moves))
    requires s.address <= U32_MAX && I32_MIN <= s.line <= I32_MAX
    ensures RunFrom(data, pos, s, registersSize, pools) == Ok(FoldMoves(s, moves))
    decreases |moves|
  {
    hide HasAt, PrintMove, DecodeOp, Step, Overflows, Trace, Fold;
    if moves == [] {
      assert [0x00] + [] == [0x00];
      OpcodeRead(data, pos, 0x00, []);
      RunStep(data, pos, s, registersSize, pools);
      EndStops(data, pos, registersSize, pools);
    } else {
      var m := moves[0];
      HasAtSplit(data, pos, PrintMove(m), PrintMoves(moves[1..]));
      MoveEffect(data, pos, m, s, registersSize, pools);
      RunStep(data, pos, s, registersSize, pools);
      if InBounds(s.address, s.line, m) {
        MovesRun(data, pos + |PrintMove(m)|, moves[1..], Moved(s, m), registersSize, pools);
      }
    }
  }

  lemma EndStops(data: seq<byte>, pos: nat, registersSize: nat, pools: Pools)
    requires pos < |data| && data[pos] == 0x00
    ensures DecodeOp(data, pos, registersSize, pools) == Ok(Read(EndSequence, pos + 1))
  {
  }

  lemma {:induction false} MovesGiveLines(s: State, moves: seq<Move>, pc: nat)
    requires s.lineTable != [] && s.lineTable[|s.lineTable| - 1].pc <= s.address
    ensures LineAt(FoldMoves(s, moves).lineTable, pc) ==
            if s.address <= pc then Some(LineOf(s.address, s.line, s.lineTable[|s.lineTable| - 1].line, moves, pc))
            else LineAt(s.lineTable, pc)
    decreases |moves|
  {
    if moves != [] && InBounds(s.address, s.line, moves[0]) {
      var next := Moved(s, moves[0]);
      MovesGiveLines(next, moves[1..], pc);
      if moves[0].Pc? || next.line < 0 {
        assert next.lineTable == s.lineTable;
      } else {
        assert next.lineTable[..|next.lineTable| - 1] == s.lineTable;
      }
    }
  }

  /** From bytes to `line_at`: a printed header and line program answer every pc with the line in force there. */
  lemma LineProgram(data: seq<byte>, offset: nat, lineStart: nat, names: seq<nat>, moves: seq<Move>,
                    registersSize: nat, pools: Pools, pc: nat)
    requires lineStart <= U32_MAX && |names| <= U32_MAX && AreU32(names) && AllStorable(moves)
    requires HasAt(data, offset, PrintHeader(lineStart, names) + PrintMoves(moves))
    ensures var info := Parse(data, offset, registersSize, pools);
            && info.Ok? && info.value.lineStart == lineStart
            && LineAt(info.value.lineTable, pc) == Some(LineOf(0, WrapI32(lineStart), lineStart, moves, pc))
  {
    hide HasAt, PrintHeader, PrintMoves, ParseHeader, LineOf, LineAt, FoldMoves, Trace, Fold, Locals;
    HasAtSplit(data, offset, PrintHeader(lineStart, names), PrintMoves(moves));
    HeaderRoundTrip(data, offset, lineStart, names, pools);
    var start := Initial(lineStart);
    MovesRun(data, offset + |PrintHeader(lineStart, names)|, moves, start, registersSize, pools);
    MovesGiveLines(start, moves, pc);
  }

  // ----- locals -----

  /** What a local instruction leaves in a register's slot and in the list of ended locals. */
  lemma LocalEffects(data: seq<byte>, pos: nat, op: RawOp, s: State, registersSize: nat, pools: Pools)
    requires Writable(op, registersSize) && HasAt(data, pos, PrintOp(op))
    requires op.RawStartLocal? || op.RawStartLocalExtended? || op.RawEndLocal?
    ensures DecodeOp(data, pos, registersSize, pools).Ok?
    ensures var s' := Step(s, DecodeOp(data, pos, registersSize, pools).value.value);
            var r := op.register;
            && s'.address == s.address && s'.line == s.line && s'.lineTable == s.lineTable
            && s'.locals == s.locals + (if r in s.active then [s.active[r].(endAddr := Some(s.address))] else [])
            && s'.active - {r} == s.active - {r}
            && (op.RawEndLocal? ==> r !in s'.active)
            && (!op.RawEndLocal? ==>
                  && r in s'.active
                  && s'.active[r] == LocalVar(r, Named(pools.strings, op.name), Named(pools.types, op.ty), s.address,
                                              None))
  {
    hide DecodeOp, HasAt, PrintOp, PoolEntry, Named, LastOf;
    OpRoundTrip(data, pos, op, registersSize, pools);
    if !op.RawEndLocal? {
      NamedIsPoolEntry(pools.strings, op.name);
      NamedIsPoolEntry(pools.types, op.ty);
    }
  }

  /** A restart reopens the register under the name and type it last ended with, or does nothing. */
  lemma RestartEffect(data: seq<byte>, pos: nat, r: nat, s: State, registersSize: nat, pools: Pools)
    requires r < registersSize && r <= U16_MAX && HasAt(data, pos, [0x06] + EncodeUleb(r))
    ensures pos < |data| && DecodeOp(data, pos, registersSize, pools).Ok?
    ensures var s' := Step(s, DecodeOp(data, pos, registersSize, pools).value.value);
            if exists i :: IsLastOf(s.locals, i, r) then
              var i :| IsLastOf(s.locals, i, r);
              s' == s.(active :=
                         s.active[r := LocalVar(r, s.locals[i].name, s.locals[i].typeDesc, s.address, None)])
            else s' == s
  {
    hide DecodeOp, HasAt, EncodeUleb;
    var op := RawRestartLocal(r);
    assert PrintOp(op) == [0x06] + EncodeUleb(r);
    OpRoundTrip(data, pos, op, registersSize, pools);
    var last := LastOf(s.locals, r);
    if last.Some? {
      assert IsLastOf(s.locals, last.value, r);
    }
  }

  predicate IsLastOf(locals: seq<LocalVar>, i: int, r: nat) {
    && 0 <= i < |locals| && locals[i].register == r
    && forall k :: i < k < |locals| ==> locals[k].register != r
  }

  /** Markers and file changes leave the state as it is. */
  lemma MarkersHaveNoEffect(data: seq<byte>, pos: nat, op: RawOp, s: State, registersSize: nat, pools: Pools)
    requires Writable(op, registersSize) && HasAt(data, pos, PrintOp(op)) && (op.RawMarker? || op.RawSetFile?)
    requires I32_MIN <= s.line <= I32_MAX && s.address <= U32_MAX
    ensures pos < |data| && DecodeOp(data, pos, registersSize, pools).Ok?
    ensures var effect := DecodeOp(data, pos, registersSize, pools).value.value;
            !effect.EndSequence? && !Overflows(s, effect) && Step(s, effect) == s
  {
    hide DecodeOp, HasAt, PrintOp;
    OpRoundTrip(data, pos, op, registersSize, pools);
  }

  /** A register the method does not have is refused in every instruction that names one. */
  lemma ForeignRegisterRefused(data: seq<byte>, pos: nat, opcode: byte, r: nat, registersSize: nat, pools: Pools)
    requires opcode in {0x03, 0x04, 0x05, 0x06} && r <= U32_MAX && (r >= registersSize || r > 0xFFFF)
    requires HasAt(data, pos, [opcode] + EncodeUleb(r))
    ensures pos < |data|
    ensures DecodeOp(data, pos, registersSize, pools) == Err(InvalidDebugRegister(r, registersSize))
  {
    hide HasAt, EncodeUleb, Uleb;
    OpcodeRead(data, pos, opcode, EncodeUleb(r));
    UlebRoundTrip(r, data, pos + 1);
  }

  /** Registers ascend and stay below `n`. */
  predicate AscendsBelow(locals: seq<LocalVar>, n: nat) {
    && (forall i, j :: 0 <= i < j < |locals| ==> locals[i].register < locals[j].register)
    && (forall i :: 0 <= i < |locals| ==> locals[i].register < n)
  }

  /** Locals still open at the end are listed once each, by ascending register, without an end. */
  lemma {:induction false} OpenLocalsListed(active: map<nat, LocalVar>, n: nat)
    requires forall r :: r in active ==> active[r].register == r
    ensures var tail := StillActive(active, n);
            && AscendsBelow(tail, n)
            && (forall l :: l in tail <==>
                  l.register < n && l.register in active && l == active[l.register].(endAddr := None))
    decreases n
  {
    if n > 0 {
      OpenLocalsListed(active, n - 1);
      var init, tail := StillActive(active, n - 1), StillActive(active, n);
      if n - 1 in active {
        var last := active[n - 1].(endAddr := None);
        assert last.register == n - 1;
        assert tail == init + [last];
      } else {
        assert tail == init;
      }
    }
  }

  /** One local answers its register over its range, from its start up to its end, unless it is the receiver's. */
  lemma LocalAnswers(l: LocalVar, register: nat, pc: nat)
    ensures LocalNameAt([l], register, pc) ==
            if register == l.register && l.startAddr <= pc && (l.endAddr.None? || pc < l.endAddr.value)
               && l.name != Some("this") then l.name
            else None
  {
    assert [l][..0] == [];
  }

  // ----- scanning -----

  lemma {:induction false} SkipFollowsNames(data: seq<byte>, pos: nat, n: nat, pools: Pools)
    requires ParamNames(data, pos, n, pools).Ok?
    ensures SkipUlebs(data, pos, n) == Ok(ParamNames(data, pos, n, pools).value.next)
    decreases n
  {
    hide Uleb, PoolEntry;
    if n > 0 {
      SkipFollowsNames(data, pos, n - 1, pools);
    }
  }

  lemma SkipOne(data: seq<byte>, pos: nat, n: nat)
    requires SkipUlebs(data, pos, n).Ok? && Uleb(data, SkipUlebs(data, pos, n).value).Ok?
    ensures SkipUlebs(data, pos, n + 1) == Ok(Uleb(data, SkipUlebs(data, pos, n).value).value.next)
  {
    hide Uleb;
  }

  /** The scanner steps over whatever instruction the parser can read there. */
  lemma ScanFollowsDecode(data: seq<byte>, pos: nat, registersSize: nat, pools: Pools)
    requires pos < |data| && DecodeOp(data, pos, registersSize, pools).Ok?
    ensures ScanOp(data, pos) == Ok(DecodeOp(data, pos, registersSize, pools).value.next)
  {
    hide Uleb, Sleb, SkipUlebs, PoolEntry;
    if data[pos] != DBG_ADVANCE_LINE {
      var n := UlebOperands(data[pos]);
      if n > 0 {
        SkipOne(data, pos + 1, 0);
      }
      if n >= 3 {
        SkipOne(data, pos + 1, 1);
        SkipOne(data, pos + 1, 2);
      }
      if n == 4 {
        SkipOne(data, pos + 1, 3);
      }
    }
  }

  lemma {:induction false} OpsScanned(data: seq<byte>, pos: nat, ops: seq<RawOp>, registersSize: nat, pools: Pools)
    requires AllWritable(ops, registersSize) && HasAt(data, pos, PrintStream(ops))
    ensures ScanOps(data, pos) == Ok(pos + |PrintStream(ops)|)
    decreases |ops|
  {
    hide HasAt, PrintOp, DecodeOp, ScanOp, Writable, Resolve;
    if ops == [] {
      assert [DBG_END_SEQUENCE] + [] == [DBG_END_SEQUENCE];
      OpcodeRead(data, pos, DBG_END_SEQUENCE, []);
    } else {
      HasAtSplit(data, pos, PrintOp(ops[0]), PrintStream(ops[1..]));
      OpRoundTrip(data, pos, ops[0], registersSize, pools);
      ScanFollowsDecode(data, pos, registersSize, pools);
      StoredIsNotEnd(data, pos, ops[0], registersSize);
      OpsScanned(data, pos + |PrintOp(ops[0])|, ops[1..], registersSize, pools);
    }
  }

  lemma StoredIsNotEnd(data: seq<byte>, pos: nat, op: RawOp, registersSize: nat)
    requires Writable(op, registersSize) && HasAt(data, pos, PrintOp(op))
    ensures pos < |data| && data[pos] != DBG_END_SEQUENCE
  {
    hide HasAt, Writable, Operands;
    OpcodeRead(data, pos, Opcode(op), Operands(op));
  }

  /** Whatever surrounds a written item, the scanner captures exactly its bytes. */
  lemma ScanRoundTrip(data: seq<byte>, offset: nat, lineStart: nat, names: seq<nat>, ops: seq<RawOp>,
                      registersSize: nat)
    requires lineStart <= U32_MAX && |names| <= U32_MAX && AreU32(names) && AllWritable(ops, registersSize)
    requires HasAt(data, offset, PrintHeader(lineStart, names) + PrintStream(ops))
    ensures Scan(data, offset) == Ok(PrintHeader(lineStart, names) + PrintStream(ops))
  {
    hide HasAt, PrintHeader, PrintStream, ScanOps, Uleb, ParamNames, SkipUlebs, AreU32, AllWritable;
    var pools := Pools([], []);
    var h, t := PrintHeader(lineStart, names), PrintStream(ops);
    HasAtSplit(data, offset, h, t);
    HeaderRoundTrip(data, offset, lineStart, names, pools);
    var size := Uleb(data, Uleb(data, offset).value.next).value;
    SkipFollowsNames(data, size.next, size.value, pools);
    OpsScanned(data, offset + |h|, ops, registersSize, pools);
    HasAtFits(data, offset, h + t);
    assert data[offset..offset + |h + t|] == h + t by { SliceOf(data, offset, h + t); }
  }

  lemma SliceOf(data: seq<byte>, at: nat, bytes: seq<byte>)
    requires HasAt(data, at, bytes)
    ensures at + |bytes| <= |data| && data[at..at + |bytes|] == bytes
  {
  }

  /** Without an end marker there is nothing to capture, and past the input nothing to read. */
  lemma ScanRefuses(data: seq<byte>, offset: nat)
    ensures offset > |data| ==> Scan(data, offset) == Err(OffsetOutOfBounds(offset, |data|))
    ensures offset <= |data| && (forall k :: offset <= k < |data| ==> data[k] != 0) ==> Scan(data, offset).Err?
  {
    hide ScanHeader, ScanOps;
    if offset <= |data| && ScanEnd(data, offset).Ok? {
      assert data[ScanEnd(data, offset).value - 1] == DBG_END_SEQUENCE;
    }
  }
}
