/**
 What the two queries on a parsed `debug_info_item` mean: `line_at` and
 `local_name_at` against a replay of the debug instructions that keeps no
 tables at all, only what is current at one pc.
 */
module DebugTheorems {
  import opened Basics
  import opened DebugInfo

  // ----- lines -----

  /** The line of the last entry at or before `pc`: `line_at`. */
  function LineAt(table: seq<Position>, pc: nat): Option<nat> {
    if table == [] then None
    else if table[|table| - 1].pc <= pc then Some(table[|table| - 1].line)
    else LineAt(table[..|table| - 1], pc)
  }

  predicate NonDecreasing(table: seq<Position>) {
    forall i, j :: 0 <= i < j < |table| ==> table[i].pc <= table[j].pc
  }

  /** Replay that remembers only the line last recorded at an address up to `pc`. */
  function ReplayLine(address: nat, line: int, recorded: nat, ops: seq<Op>, pc: nat): nat
    decreases |ops|
  {
    if ops == [] then recorded
    else
      var address', line' := address + AddrDelta(ops[0]), line + LineDelta(ops[0]);
      if address' > pc then recorded
      else ReplayLine(address', line', if Records(ops[0]) && line' >= 0 then line' else recorded, ops[1..], pc)
  }

  ghost predicate LinesInv(s: State) {
    |s.lineTable| > 0 && NonDecreasing(s.lineTable) && s.lineTable[|s.lineTable| - 1].pc <= s.address
  }

  /** What an instruction does to the address, the line and the table. */
  lemma StepLines(s: State, op: Op)
    ensures Step(s, op).address == s.address + AddrDelta(op)
    ensures Step(s, op).line == s.line + LineDelta(op)
    ensures Step(s, op).lineTable ==
            if Records(op) && s.line + LineDelta(op) >= 0
            then s.lineTable + [Position(s.address + AddrDelta(op), s.line + LineDelta(op))] else s.lineTable
  {
    hide LastOf;
  }

  lemma StepKeepsLines(s: State, op: Op)
    requires LinesInv(s)
    ensures LinesInv(Step(s, op))
  {
    hide Step, LineDelta, AddrDelta;
    StepLines(s, op);
  }

  lemma {:induction false} FoldLines(s: State, ops: seq<Op>, pc: nat)
    requires LinesInv(s)
    ensures LinesInv(Fold(s, ops))
    ensures LineAt(Fold(s, ops).lineTable, pc) ==
            if s.address <= pc then Some(ReplayLine(s.address, s.line, s.lineTable[|s.lineTable| - 1].line, ops, pc))
            else LineAt(s.lineTable, pc)
    decreases |ops|
  {
    hide Step;
    if ops != [] {
      StepLines(s, ops[0]);
      StepKeepsLines(s, ops[0]);
      var next := Step(s, ops[0]);
      FoldLines(next, ops[1..], pc);
      assert next.lineTable[..|s.lineTable|] == s.lineTable;
    }
  }

  /** The instructions a successful parse executed. */
  ghost function Executed(data: seq<byte>, offset: nat, registersSize: nat, pools: Pools): seq<Op>
    requires Parse(data, offset, registersSize, pools).Ok?
  {
    var h := ParseHeader(data, offset, pools).value;
    Trace(data, h.next, Initial(h.value.lineStart), registersSize, pools).value
  }

  lemma LineAtIsReplay(data: seq<byte>, offset: nat, registersSize: nat, pools: Pools, pc: nat)
    requires Parse(data, offset, registersSize, pools).Ok?
    ensures var info := Parse(data, offset, registersSize, pools).value;
            && NonDecreasing(info.lineTable)
            && LineAt(info.lineTable, pc) ==
               Some(ReplayLine(0, WrapI32(info.lineStart), info.lineStart,
                               Executed(data, offset, registersSize, pools), pc))
  {
    hide Trace, ParseHeader, Fold, Locals;
    var info := Parse(data, offset, registersSize, pools).value;
    FoldLines(Initial(info.lineStart), Executed(data, offset, registersSize, pools), pc);
  }

  // ----- live ranges -----

  /** `a`, if it is about the same register as `b`, ended before `b` began. */
  predicate Before(a: LocalVar, b: LocalVar) {
    a.register == b.register ==> a.endAddr.Some? && a.endAddr.value <= b.startAddr
  }

  predicate TimeOrdered(locals: seq<LocalVar>) {
    forall i, j :: 0 <= i < j < |locals| ==> Before(locals[i], locals[j])
  }

  predicate Ended(l: LocalVar, address: nat, registersSize: nat) {
    l.endAddr.Some? && l.startAddr <= l.endAddr.value <= address && l.register < registersSize
  }

  predicate Live(l: LocalVar, register: nat, address: nat, registersSize: nat) {
    l.endAddr.None? && l.startAddr <= address && l.register == register < registersSize
  }

  ghost predicate RangesInv(s: State, registersSize: nat) {
    && (forall i :: 0 <= i < |s.locals| ==> Ended(s.locals[i], s.address, registersSize))
    && (forall r :: r in s.active ==> Live(s.active[r], r, s.address, registersSize))
    && TimeOrdered(s.locals)
    && (forall i, r :: 0 <= i < |s.locals| && r in s.active ==> Before(s.locals[i], s.active[r]))
  }

  lemma CloseKeepsRanges(s: State, register: nat, registersSize: nat)
    requires RangesInv(s, registersSize)
    ensures RangesInv(CloseLocal(s, register), registersSize)
    ensures register !in CloseLocal(s, register).active
    ensures CloseLocal(s, register).address == s.address
  {
  }

  lemma OpenKeepsRanges(s: State, register: nat, name: Option<string>, typeDesc: Option<string>, registersSize: nat)
    requires RangesInv(s, registersSize) && register < registersSize
    ensures RangesInv(Open(s, register, name, typeDesc), registersSize)
  {
  }

  lemma StepKeepsRanges(s: State, op: Op, registersSize: nat)
    requires RangesInv(s, registersSize) && InRange(op, registersSize)
    ensures RangesInv(Step(s, op), registersSize)
  {
    hide RangesInv, Open, CloseLocal;
    match op
    case StartLocal(register, name, ty) =>
      CloseKeepsRanges(s, register, registersSize);
      OpenKeepsRanges(CloseLocal(s, register), register, name, ty, registersSize);
    case EndLocal(register) =>
      CloseKeepsRanges(s, register, registersSize);
    case RestartLocal(register) =>
      var last := LastOf(s.locals, register);
      if last.Some? {
        OpenKeepsRanges(s, register, s.locals[last.value].name, s.locals[last.value].typeDesc, registersSize);
      }
    case _ =>
      AdvanceKeepsRanges(s, op, registersSize);
  }

  lemma AdvanceKeepsRanges(s: State, op: Op, registersSize: nat)
    requires RangesInv(s, registersSize)
    ensures RangesInv(Advance(s, op), registersSize)
  {
  }

  lemma {:induction false} FoldKeepsRanges(s: State, ops: seq<Op>, registersSize: nat)
    requires RangesInv(s, registersSize) && Executable(s, ops, registersSize)
    ensures RangesInv(Fold(s, ops), registersSize)
    decreases |ops|
  {
    hide RangesInv, Step, Overflows;
    if ops != [] {
      StepKeepsRanges(s, ops[0], registersSize);
      FoldKeepsRanges(Step(s, ops[0]), ops[1..], registersSize);
    }
  }

  lemma {:induction false} StillActiveIs(s: State, registersSize: nat, n: nat)
    requires RangesInv(s, registersSize)
    ensures forall k :: 0 <= k < |StillActive(s.active, n)| ==>
              var l := StillActive(s.active, n)[k];
              l.register in s.active && l.register < n && l == s.active[l.register]
    ensures forall j, k :: 0 <= j < k < |StillActive(s.active, n)| ==>
              StillActive(s.active, n)[j].register < StillActive(s.active, n)[k].register
    ensures forall r :: r in s.active && r < n ==> s.active[r] in StillActive(s.active, n)
    decreases n
  {
    if n > 0 {
      StillActiveIs(s, registersSize, n - 1);
    }
  }

  /** The final list is time-ordered per register and holds every live local. */
  lemma FinalRanges(s: State, registersSize: nat)
    requires RangesInv(s, registersSize)
    ensures TimeOrdered(Locals(s, registersSize))
    ensures forall l :: l in Locals(s, registersSize) ==> l.register < registersSize
    ensures forall r :: r in s.active ==> s.active[r] in Locals(s, registersSize)
  {
    StillActiveIs(s, registersSize, registersSize);
    var still := StillActive(s.active, registersSize);
    forall i, j | 0 <= i < j < |Locals(s, registersSize)|
      ensures Before(Locals(s, registersSize)[i], Locals(s, registersSize)[j])
    {
      if j >= |s.locals| {
        var l := still[j - |s.locals|];
        if i < |s.locals| {
          assert Before(s.locals[i], s.active[l.register]);
        } else {
          assert still[i - |s.locals|].register < l.register;
        }
      }
    }
    forall l | l in Locals(s, registersSize) ensures l.register < registersSize {
      if l in s.locals {
        var i :| 0 <= i < |s.locals| && s.locals[i] == l;
        assert Ended(s.locals[i], s.address, registersSize);
      }
    }
  }

  /** Recorded ranges of one register are pairwise disjoint and in time order, whatever the stream. */
  lemma RangesAreDisjoint(data: seq<byte>, offset: nat, registersSize: nat, pools: Pools)
    requires Parse(data, offset, registersSize, pools).Ok?
    ensures var locals := Parse(data, offset, registersSize, pools).value.locals;
            && TimeOrdered(locals)
            && forall l :: l in locals ==> l.register < registersSize
  {
    var h := ParseHeader(data, offset, pools).value;
    var s := Initial(h.value.lineStart);
    var ops := Executed(data, offset, registersSize, pools);
    RunRanges(data, h.next, s, registersSize, pools);
  }

  lemma RunRanges(data: seq<byte>, pos: nat, s: State, registersSize: nat, pools: Pools)
    requires RangesInv(s, registersSize) && Trace(data, pos, s, registersSize, pools).Ok?
    ensures var t := Fold(s, Trace(data, pos, s, registersSize, pools).value);
            && TimeOrdered(Locals(t, registersSize))
            && forall l :: l in Locals(t, registersSize) ==> l.register < registersSize
  {
    hide Trace, RangesInv, Fold, Executable, Locals;
    var ops := Trace(data, pos, s, registersSize, pools).value;
    TraceIsExecutable(data, pos, s, registersSize, pools);
    FoldKeepsRanges(s, ops, registersSize);
    FinalRanges(Fold(s, ops), registersSize);
  }

  // ----- names -----

  predicate Covers(l: LocalVar, register: nat, pc: nat) {
    l.register == register && l.startAddr <= pc && (l.endAddr.None? || pc < l.endAddr.value)
  }

  /** The receiver's name is left to another channel. */
  function Shown(name: Option<string>): Option<string> {
    if name == Some("this") then None else name
  }

  /** `local_name_at`: the last covering local that is not called "this". */
  function LocalNameAt(locals: seq<LocalVar>, register: nat, pc: nat): Option<string> {
    if locals == [] then None
    else
      var l := locals[|locals| - 1];
      if Covers(l, register, pc) && l.name != Some("this") then l.name
      else LocalNameAt(locals[..|locals| - 1], register, pc)
  }

  lemma {:induction false} NameOfNone(locals: seq<LocalVar>, register: nat, pc: nat)
    requires forall i :: 0 <= i < |locals| ==> !Covers(locals[i], register, pc)
    ensures LocalNameAt(locals, register, pc) == None
    decreases |locals|
  {
    if locals != [] {
      NameOfNone(locals[..|locals| - 1], register, pc);
    }
  }

  /** On a time-ordered list at most one local covers a point, so any covering one is the answer. */
  lemma {:induction false} NameOfCovering(locals: seq<LocalVar>, register: nat, pc: nat, k: nat)
    requires TimeOrdered(locals) && k < |locals| && Covers(locals[k], register, pc)
    ensures LocalNameAt(locals, register, pc) == Shown(locals[k].name)
    decreases |locals|
  {
    var init := locals[..|locals| - 1];
    if k == |locals| - 1 {
      forall i | 0 <= i < |init| ensures !Covers(init[i], register, pc) {
        assert Before(locals[i], locals[k]);
      }
      NameOfNone(init, register, pc);
    } else {
      assert Before(locals[k], locals[|locals| - 1]);
      assert init[k] == locals[k];
      NameOfCovering(init, register, pc, k);
    }
  }

  lemma {:induction false} NameOfConcat(a: seq<LocalVar>, b: seq<LocalVar>, register: nat, pc: nat)
    requires forall i :: 0 <= i < |b| ==> !Covers(b[i], register, pc)
    ensures LocalNameAt(a + b, register, pc) == LocalNameAt(a, register, pc)
    decreases |b|
  {
    if b == [] {
      assert a + b == a;
    } else {
      var init := b[..|b| - 1];
      assert (a + b)[..|a + b| - 1] == a + init;
      NameOfConcat(a, init, register, pc);
    }
  }

  /** The final answer, without building the final list. */
  function Answer(s: State, register: nat, pc: nat): Option<string> {
    if register in s.active && s.active[register].startAddr <= pc then Shown(s.active[register].name)
    else LocalNameAt(s.locals, register, pc)
  }

  lemma AnswerIsFinal(s: State, registersSize: nat, register: nat, pc: nat)
    requires RangesInv(s, registersSize)
    ensures LocalNameAt(Locals(s, registersSize), register, pc) == Answer(s, register, pc)
  {
    var all := Locals(s, registersSize);
    var still := StillActive(s.active, registersSize);
    StillActiveIs(s, registersSize, registersSize);
    FinalRanges(s, registersSize);
    if register in s.active && s.active[register].startAddr <= pc {
      var k :| 0 <= k < |all| && all[k] == s.active[register];
      assert Live(s.active[register], register, s.address, registersSize);
      NameOfCovering(all, register, pc, k);
    } else {
      NameOfConcat(s.locals, still, register, pc);
    }
  }

  /** What is current in each register during a replay: live names and names that ended last. */
  datatype Names = Names(address: nat, live: map<nat, Option<string>>, ended: map<nat, Option<string>>)

  function EndName(n: Names, register: nat): Names {
    if register in n.live then n.(live := n.live - {register}, ended := n.ended[register := n.live[register]]) else n
  }

  function ReplayStep(n: Names, op: Op): Names {
    match op
    case StartLocal(register, name, _) =>
      var closed := EndName(n, register);
      closed.(live := closed.live[register := name])
    case EndLocal(register) => EndName(n, register)
    case RestartLocal(register) =>
      if register in n.ended then n.(live := n.live[register := n.ended[register]]) else n
    case _ => n.(address := n.address + AddrDelta(op))
  }

  /** Replay every instruction that takes effect at an address up to `pc`. */
  function Replay(n: Names, ops: seq<Op>, pc: nat): Names
    decreases |ops|
  {
    if ops == [] then n
    else
      var next := ReplayStep(n, ops[0]);
      if next.address > pc then n else Replay(next, ops[1..], pc)
  }

  function LiveName(n: Names, register: nat): Option<string> {
    if register in n.live then Shown(n.live[register]) else None
  }

  ghost predicate SameLast(s: State, n: Names, r: nat) {
    (LastOf(s.locals, r).Some? <==> r in n.ended) &&
    (LastOf(s.locals, r).Some? ==> s.locals[LastOf(s.locals, r).value].name == n.ended[r])
  }

  ghost predicate Linked(s: State, n: Names) {
    && n.address == s.address
    && (forall r :: r in s.active <==> r in n.live)
    && (forall r :: r in s.active ==> s.active[r].name == n.live[r])
    && (forall r: nat :: SameLast(s, n, r))
  }

  lemma CloseLinked(s: State, n: Names, register: nat, registersSize: nat)
    requires Linked(s, n) && RangesInv(s, registersSize)
    ensures Linked(CloseLocal(s, register), EndName(n, register))
  {
    if register in s.active {
      var closed := CloseLocal(s, register);
      assert Live(s.active[register], register, s.address, registersSize);
      assert closed.locals[..|s.locals|] == s.locals;
      forall r: nat ensures SameLast(closed, EndName(n, register), r) {
        assert SameLast(s, n, r);
      }
    }
  }

  lemma OpenLinked(s: State, n: Names, register: nat, name: Option<string>, typeDesc: Option<string>)
    requires Linked(s, n)
    ensures Linked(Open(s, register, name, typeDesc), n.(live := n.live[register := name]))
  {
    var s', n' := Open(s, register, name, typeDesc), n.(live := n.live[register := name]);
    forall r: nat ensures SameLast(s', n', r) {
      assert SameLast(s, n, r);
    }
  }

  lemma StepLinked(s: State, n: Names, op: Op, registersSize: nat)
    requires Linked(s, n) && RangesInv(s, registersSize)
    ensures Linked(Step(s, op), ReplayStep(n, op))
  {
    hide RangesInv, Open, CloseLocal, EndName;
    match op
    case StartLocal(register, name, ty) =>
      CloseLinked(s, n, register, registersSize);
      OpenLinked(CloseLocal(s, register), EndName(n, register), register, name, ty);
    case EndLocal(register) =>
      CloseLinked(s, n, register, registersSize);
    case RestartLocal(register) =>
      assert SameLast(s, n, register);
      var last := LastOf(s.locals, register);
      if last.Some? {
        OpenLinked(s, n, register, s.locals[last.value].name, s.locals[last.value].typeDesc);
      }
    case _ =>
      AdvanceLinked(s, n, op);
  }

  lemma AdvanceLinked(s: State, n: Names, op: Op)
    requires Linked(s, n)
    ensures Linked(Advance(s, op), n.(address := n.address + AddrDelta(op)))
  {
    var s', n' := Advance(s, op), n.(address := n.address + AddrDelta(op));
    forall r: nat ensures SameLast(s', n', r) {
      assert SameLast(s, n, r);
    }
  }

  /** Up to the current address, the answer is what is live. */
  lemma AnswerNow(s: State, n: Names, registersSize: nat, register: nat, pc: nat)
    requires Linked(s, n) && RangesInv(s, registersSize) && s.address <= pc
    ensures Answer(s, register, pc) == LiveName(n, register)
  {
    if register in s.active {
      assert Live(s.active[register], register, s.address, registersSize);
    } else {
      forall i | 0 <= i < |s.locals| ensures !Covers(s.locals[i], register, pc) {
        assert Ended(s.locals[i], s.address, registersSize);
      }
      NameOfNone(s.locals, register, pc);
    }
  }

  // ----- what a restart can lose -----

  /** A restart of a register whose live local covers `pc` under a name that would be shown. */
  predicate Drops(s: State, op: Op, register: nat, pc: nat) {
    && pc < s.address
    && op == RestartLocal(register) && LastOf(s.locals, register).Some?
    && register in s.active && s.active[register].startAddr <= pc
    && Shown(s.active[register].name).Some?
  }

  predicate EverDrops(s: State, ops: seq<Op>, register: nat, pc: nat)
    decreases |ops|
  {
    ops != [] && (Drops(s, ops[0], register, pc) || EverDrops(Step(s, ops[0]), ops[1..], register, pc))
  }

  lemma CloseKeepsAnswer(s: State, reg: nat, registersSize: nat, register: nat, pc: nat)
    requires RangesInv(s, registersSize) && pc < s.address
    ensures Answer(CloseLocal(s, reg), register, pc) == Answer(s, register, pc)
  {
    if reg in s.active {
      var closed := CloseLocal(s, reg);
      var l := s.active[reg].(endAddr := Some(s.address));
      CloseKeepsRanges(s, reg, registersSize);
      assert Live(s.active[reg], reg, s.address, registersSize);
      if register == reg && s.active[reg].startAddr <= pc {
        NameOfCovering(closed.locals, register, pc, |s.locals|);
      } else {
        NameOfConcat(s.locals, [l], register, pc);
      }
    }
  }

  /** Opening a local at a later address forgets the live one it replaces. */
  lemma OpenAnswer(s: State, reg: nat, name: Option<string>, typeDesc: Option<string>, registersSize: nat,
                   register: nat, pc: nat)
    requires RangesInv(s, registersSize) && pc < s.address
    ensures Answer(Open(s, reg, name, typeDesc), register, pc) ==
            if reg == register && register in s.active && s.active[register].startAddr <= pc then None
            else Answer(s, register, pc)
  {
    if reg == register && register in s.active && s.active[register].startAddr <= pc {
      forall i | 0 <= i < |s.locals| ensures !Covers(s.locals[i], register, pc) {
        assert Before(s.locals[i], s.active[register]);
        assert Live(s.active[register], register, s.address, registersSize);
      }
      NameOfNone(s.locals, register, pc);
    }
  }

  lemma StepAnswer(s: State, op: Op, registersSize: nat, register: nat, pc: nat)
    requires RangesInv(s, registersSize) && pc < s.address
    ensures Drops(s, op, register, pc) ==> Answer(s, register, pc).Some?
    ensures Answer(Step(s, op), register, pc) == if Drops(s, op, register, pc) then None else Answer(s, register, pc)
  {
    hide RangesInv, CloseLocal;
    match op
    case StartLocal(reg, name, ty) =>
      CloseKeepsAnswer(s, reg, registersSize, register, pc);
      CloseKeepsRanges(s, reg, registersSize);
      OpenAnswer(CloseLocal(s, reg), reg, name, ty, registersSize, register, pc);
    case EndLocal(reg) =>
      CloseKeepsAnswer(s, reg, registersSize, register, pc);
    case RestartLocal(reg) =>
      var last := LastOf(s.locals, reg);
      if last.Some? {
        OpenAnswer(s, reg, s.locals[last.value].name, s.locals[last.value].typeDesc, registersSize, register, pc);
      }
    case _ =>
  }

  /** Once the address has passed `pc`, the answer is frozen, except that one restart can erase it. */
  lemma {:induction false} FoldAnswer(s: State, ops: seq<Op>, registersSize: nat, register: nat, pc: nat)
    requires RangesInv(s, registersSize) && Executable(s, ops, registersSize) && pc < s.address
    ensures EverDrops(s, ops, register, pc) ==> Answer(s, register, pc).Some?
    ensures Answer(Fold(s, ops), register, pc) ==
            if EverDrops(s, ops, register, pc) then None else Answer(s, register, pc)
    decreases |ops|
  {
    hide RangesInv, Step, Overflows, Answer, Drops;
    if ops != [] {
      StepKeepsRanges(s, ops[0], registersSize);
      StepAddress(s, ops[0]);
      StepAnswer(s, ops[0], registersSize, register, pc);
      FoldAnswer(Step(s, ops[0]), ops[1..], registersSize, register, pc);
    }
  }

  lemma StepAddress(s: State, op: Op)
    ensures Step(s, op).address == s.address + AddrDelta(op)
    ensures AddrDelta(op) > 0 ==> Step(s, op).active == s.active && Step(s, op).locals == s.locals
  {
  }

  lemma {:induction false} FoldName(s: State, n: Names, ops: seq<Op>, registersSize: nat, register: nat, pc: nat)
    requires RangesInv(s, registersSize) && Executable(s, ops, registersSize) && Linked(s, n) && s.address <= pc
    ensures Answer(Fold(s, ops), register, pc) == LiveName(Replay(n, ops, pc), register) <==>
            !EverDrops(s, ops, register, pc)
    decreases |ops|
  {
    hide RangesInv, Linked, Step, ReplayStep, Overflows, LiveName, AddrDelta;
    if ops == [] {
      AnswerNow(s, n, registersSize, register, pc);
    } else {
      var next := Step(s, ops[0]);
      StepKeepsRanges(s, ops[0], registersSize);
      StepAddress(s, ops[0]);
      StepLinked(s, n, ops[0], registersSize);
      LinkedAddress(next, ReplayStep(n, ops[0]));
      if next.address > pc {
        AnswerNow(s, n, registersSize, register, pc);
        FoldAnswer(next, ops[1..], registersSize, register, pc);
      } else {
        FoldName(next, ReplayStep(n, ops[0]), ops[1..], registersSize, register, pc);
      }
    }
  }

  lemma LinkedAddress(s: State, n: Names)
    requires Linked(s, n)
    ensures n.address == s.address
  {
  }

  const NO_NAMES := Names(0, map[], map[])

  /** The name shown for a register at a pc is the one live there, exactly when no restart erases it. */
  lemma LocalNameIsReplay(data: seq<byte>, offset: nat, registersSize: nat, pools: Pools, register: nat, pc: nat)
    requires Parse(data, offset, registersSize, pools).Ok?
    ensures var info := Parse(data, offset, registersSize, pools).value;
            var ops := Executed(data, offset, registersSize, pools);
            LocalNameAt(info.locals, register, pc) == LiveName(Replay(NO_NAMES, ops, pc), register) <==>
            !EverDrops(Initial(info.lineStart), ops, register, pc)
  {
    hide Trace, ParseHeader, Fold, Locals, LocalNameAt, Replay, EverDrops, LiveName, Executable, Answer;
    var h := ParseHeader(data, offset, pools).value;
    var s := Initial(h.value.lineStart);
    var ops := Executed(data, offset, registersSize, pools);
    TraceIsExecutable(data, h.next, s, registersSize, pools);
    FoldKeepsRanges(s, ops, registersSize);
    AnswerIsFinal(Fold(s, ops), registersSize, register, pc);
    FoldName(s, NO_NAMES, ops, registersSize, register, pc);
  }

  /** Some restart finds its register live. */
  predicate RestartsLive(s: State, ops: seq<Op>)
    decreases |ops|
  {
    ops != [] &&
    ((ops[0].RestartLocal? && ops[0].register in s.active) || RestartsLive(Step(s, ops[0]), ops[1..]))
  }

  lemma {:induction false} DropNeedsLiveRestart(s: State, ops: seq<Op>, register: nat, pc: nat)
    requires EverDrops(s, ops, register, pc)
    ensures RestartsLive(s, ops)
    decreases |ops|
  {
    hide Step;
    if !Drops(s, ops[0], register, pc) {
      DropNeedsLiveRestart(Step(s, ops[0]), ops[1..], register, pc);
    }
  }

  /** A stream that never restarts a live register is answered exactly everywhere. */
  lemma NamesExactWithoutLiveRestart(data: seq<byte>, offset: nat, registersSize: nat, pools: Pools)
    requires Parse(data, offset, registersSize, pools).Ok?
    requires !RestartsLive(Initial(Parse(data, offset, registersSize, pools).value.lineStart),
                           Executed(data, offset, registersSize, pools))
    ensures var locals := Parse(data, offset, registersSize, pools).value.locals;
            forall register: nat, pc: nat ::
              LocalNameAt(locals, register, pc) ==
              LiveName(Replay(NO_NAMES, Executed(data, offset, registersSize, pools), pc), register)
  {
    hide *;
    var info := Parse(data, offset, registersSize, pools).value;
    var ops := Executed(data, offset, registersSize, pools);
    forall register: nat, pc: nat
      ensures LocalNameAt(info.locals, register, pc) == LiveName(Replay(NO_NAMES, ops, pc), register)
    {
      LocalNameIsReplay(data, offset, registersSize, pools, register, pc);
      if EverDrops(Initial(info.lineStart), ops, register, pc) {
        DropNeedsLiveRestart(Initial(info.lineStart), ops, register, pc);
      }
    }
  }
}
