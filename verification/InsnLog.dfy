/**
 The decoder's log, exactly: a violation is recorded if and only if the code
 has the fault it names, in terms of the decoded instructions, the code units
 and the item boundaries.
 */
module InsnLog {
  import opened Basics
  import opened CodeModel
  import opened InsnDecoder
  import opened InsnTheorems

  // ----- faults -----

  /** `x` is the instruction with this opcode at this address. */
  predicate IsAt(x: Instruction, op: byte, pc: nat) {
    x.op == op && x.addr == pc
  }

  /** Some item of the stream other than a payload table starts at `a`. */
  predicate OpcodeAt(items: seq<Item>, a: nat) {
    exists i :: 0 <= i < |items| && !items[i].Payload? && items[i].Start() == a
  }

  /** `owner` is the last such start at or before `t`; 0 if there is none. */
  predicate OwnedBy(items: seq<Item>, t: nat, owner: nat) {
    if exists a :: 0 <= a <= t && OpcodeAt(items, a) then
      owner <= t && OpcodeAt(items, owner) && forall a :: owner < a <= t ==> !OpcodeAt(items, a)
    else owner == 0
  }

  /** A taken table of `x` sends some case to `t`. */
  predicate CaseGoesTo(data: seq<byte>, insnsOff: nat, x: Instruction, t: nat) {
    x.target.Some? && Takes(data, insnsOff, x, x.target.value) && Table(data, insnsOff, x).Ok?
    && t in CaseTargets(Table(data, insnsOff, x).value)
  }

  /** Argument count in the first unit of a call or a filled-new-array: a nibble, or a byte in the range forms. */
  function StatedArgs(op: byte, u0: nat): nat {
    if 0x74 <= op <= 0x78 || op in {0x25, 0xfb, 0xfd} then u0 / 0x100 % 0x100 else u0 / 0x1000 % 0x10
  }

  predicate StatesFewArgs(op: byte) {
    0x6e <= op <= 0x72 || op in {0x24, 0xfa, 0xfc}
  }

  /** Calls with a receiver: virtual, super, direct, interface, polymorphic, and their range forms. */
  predicate HasReceiver(op: byte) {
    op in {0x6e, 0x6f, 0x70, 0x72, 0x74, 0x75, 0x76, 0x78, 0xfa, 0xfb}
  }

  /** Gotos of one and two units, and conditional branches. */
  predicate NeedsOffset(op: byte) {
    op == 0x28 || op == 0x29 || 0x32 <= op <= 0x3d
  }

  predicate HasTable(op: byte) {
    op == 0x26 || op == 0x2b || op == 0x2c
  }

  function Marker(op: byte): nat {
    if op == 0x2b then 0x0100 else if op == 0x2c then 0x0200 else 0x0300
  }

  /** The first unit of `x` states `n` arguments. */
  predicate FirstUnitIs(data: seq<byte>, insnsOff: nat, x: Instruction, n: nat) {
    var u0 := Unit(data, insnsOff, x.addr, 0);
    u0.Ok? && StatedArgs(x.op, u0.value) == n
  }

  /** The faults the loop itself finds in an instruction. */
  predicate FoundByLoop(data: seq<byte>, insnsOff: nat, insnsSize: nat, x: Instruction, v: Violation) {
    match v
    case BranchTargetOutOfRange(op, pc, t, size) =>
      IsAt(x, op, pc) && size == insnsSize && t >= insnsSize && x.target == Some(t)
    case BranchOffsetZero(op, pc) => IsAt(x, op, pc) && NeedsOffset(op) && x.target == Some(pc)
    case OpcodeArgCountOutOfRange(op, pc, n) =>
      IsAt(x, op, pc) && StatesFewArgs(op) && n > 5 && FirstUnitIs(data, insnsOff, x, n)
    case NonStaticInvokeArgCountZero(op, pc) => IsAt(x, op, pc) && HasReceiver(op) && FirstUnitIs(data, insnsOff, x, 0)
    case UnalignedTableDexPc(op, pc, p) => IsAt(x, op, pc) && HasTable(op) && x.target == Some(p) && p % 2 == 1
    case _ => false
  }

  /** The faults of a branch target inside the code: not the start of an opcode, or a move-result. */
  predicate FoundByLanding(insnsSize: nat, insns: seq<Instruction>, items: seq<Item>, x: Instruction, v: Violation) {
    match v
    case BranchTargetMidInstruction(op, pc, t, owner) =>
      IsAt(x, op, pc) && !HasTable(op) && x.target == Some(t) && t < insnsSize && !OpcodeAt(items, t)
      && OwnedBy(items, t, owner)
    case BranchTargetIsMoveResultOrMoveException(op, pc, t, landed) =>
      IsAt(x, op, pc) && !HasTable(op) && x.target == Some(t) && t < insnsSize && 0x0a <= landed <= 0x0d
      && exists y :: y in insns && IsAt(y, landed, t)
    case _ => false
  }

  /** The faults of the table an instruction names: the wrong marker, or a case past the end of the code. */
  predicate FoundByTable(data: seq<byte>, insnsOff: nat, insnsSize: nat, x: Instruction, v: Violation) {
    match v
    case BranchTargetOutOfRange(op, pc, t, size) =>
      IsAt(x, op, pc) && size == insnsSize && t >= insnsSize && CaseGoesTo(data, insnsOff, x, t)
    case PayloadIdentMismatch(op, pc, p, expected, observed) =>
      IsAt(x, op, pc) && HasTable(op) && x.target == Some(p) && p % 2 == 0
      && expected == Marker(op) && observed != expected && Unit(data, insnsOff, p, 0) == Ok(observed)
    case _ => false
  }

  predicate Blames(data: seq<byte>, insnsOff: nat, insnsSize: nat, insns: seq<Instruction>, items: seq<Item>,
                   x: Instruction, v: Violation) {
    || FoundByLoop(data, insnsOff, insnsSize, x, v)
    || FoundByLanding(insnsSize, insns, items, x, v)
    || FoundByTable(data, insnsOff, insnsSize, x, v)
  }

  /** The code has the fault `v` names. */
  predicate Justified(data: seq<byte>, insnsOff: nat, insnsSize: nat, insns: seq<Instruction>, items: seq<Item>,
                      v: Violation) {
    match v
    case UnknownOpcodeByte(pc, op) => exists i :: 0 <= i < |items| && items[i] == Unknown(pc, op)
    case TailBytesAfterLastInstruction(size, end) =>
      size == insnsSize && end > insnsSize && items != [] && items[|items| - 1].End() == end
    case _ => exists x :: x in insns && Blames(data, insnsOff, insnsSize, insns, items, x, v)
  }

  // ----- the log of the loop -----

  /** What is known of each item of the stream. */
  predicate ItemIsSound(data: seq<byte>, insnsOff: nat, insnsSize: nat, item: Item) {
    match item
    case Insn(x, log) =>
      var u0 := Unit(data, insnsOff, x.addr, 0);
      && FormatOf(x.op).Some? && u0.Ok?
      && log == InsnViolations(x, FormatOf(x.op).value, u0.value, insnsSize)
    case _ => true
  }

  lemma NextIsSound(data: seq<byte>, insnsOff: nat, pc: nat, insnsSize: u32)
    requires pc < insnsSize && NextItem(data, insnsOff, pc, insnsSize).Ok?
    ensures ItemIsSound(data, insnsOff, insnsSize, NextItem(data, insnsOff, pc, insnsSize).value)
  {
    hide DecodeSingle, FormatOf, Unit, PayloadUnits, InsnViolations;
  }

  lemma {:induction false} ItemsAreSound(data: seq<byte>, insnsOff: nat, pc: nat, insnsSize: u32, i: nat)
    requires Items(data, insnsOff, pc, insnsSize).Ok? && i < |Items(data, insnsOff, pc, insnsSize).value|
    ensures ItemIsSound(data, insnsOff, insnsSize, Items(data, insnsOff, pc, insnsSize).value[i])
    decreases insnsSize - pc
  {
    hide NextItem, ItemIsSound;
    var item := NextItem(data, insnsOff, pc, insnsSize).value;
    if i == 0 {
      NextIsSound(data, insnsOff, pc, insnsSize);
    } else {
      ItemsAreSound(data, insnsOff, item.End(), insnsSize, i - 1);
    }
  }

  lemma {:induction false} LogMembers(items: seq<Item>, v: Violation)
    ensures v in Log(items) <==> exists i :: 0 <= i < |items| && v in ItemLog(items[i])
    decreases |items|
  {
    hide ItemLog;
    if items != [] {
      var n := |items| - 1;
      LogMembers(items[..n], v);
      if v in Log(items[..n]) {
        var i :| 0 <= i < n && v in ItemLog(items[..n][i]);
        assert v in ItemLog(items[i]);
      }
      if i :| 0 <= i < |items| && v in ItemLog(items[i]) {
        if i < n {
          assert v in ItemLog(items[..n][i]);
        }
      }
    }
  }

  /** Argument counts by format are argument counts by opcode. */
  lemma ArgForms(op: byte, u0: nat)
    requires FormatOf(op).Some?
    ensures FormatOf(op).value.Args? <==> StatesFewArgs(op)
    ensures HasReceiver(op) <==> IsNonStaticInvoke(op)
    ensures StatesFewArgs(op) || HasReceiver(op) ==> ArgCount(FormatOf(op).value, u0) == StatedArgs(op, u0)
    ensures NeedsOffset(op) <==> IsBranch(op) && !IsSwitch(op) && op != OP_GOTO32
    ensures HasTable(op) <==> NamesPayload(op)
    ensures Marker(op) == ExpectedIdent(op)
  {
  }

  lemma ArgFaults(data: seq<byte>, insnsOff: nat, insnsSize: nat, x: Instruction, v: Violation)
    requires FormatOf(x.op).Some? && Unit(data, insnsOff, x.addr, 0).Ok?
    ensures var f, u0 := FormatOf(x.op).value, Unit(data, insnsOff, x.addr, 0).value;
            && (v in ArgOverflow(x, f, u0) <==>
                v.OpcodeArgCountOutOfRange? && FoundByLoop(data, insnsOff, insnsSize, x, v))
            && (v in ReceiverCheck(x, f, u0) <==>
                v.NonStaticInvokeArgCountZero? && FoundByLoop(data, insnsOff, insnsSize, x, v))
  {
    hide FormatOf, Unit, StatedArgs, StatesFewArgs, HasReceiver, IsNonStaticInvoke, ArgCount;
    ArgForms(x.op, Unit(data, insnsOff, x.addr, 0).value);
  }

  lemma TargetFaults(data: seq<byte>, insnsOff: nat, insnsSize: nat, x: Instruction, v: Violation)
    requires FormatOf(x.op).Some?
    ensures v in TargetChecks(x, insnsSize) <==>
            && (v.BranchTargetOutOfRange? || v.BranchOffsetZero? || v.UnalignedTableDexPc?)
            && FoundByLoop(data, insnsOff, insnsSize, x, v)
  {
    hide FormatOf, NeedsOffset, HasTable, IsBranch, IsSwitch, NamesPayload;
    ArgForms(x.op, 0);
  }

  lemma LoopFaults(data: seq<byte>, insnsOff: nat, insnsSize: nat, x: Instruction, v: Violation)
    requires FormatOf(x.op).Some? && Unit(data, insnsOff, x.addr, 0).Ok?
    ensures v in InsnViolations(x, FormatOf(x.op).value, Unit(data, insnsOff, x.addr, 0).value, insnsSize) <==>
            FoundByLoop(data, insnsOff, insnsSize, x, v)
  {
    hide FormatOf, Unit, ArgOverflow, TargetChecks, ReceiverCheck, FoundByLoop;
    ArgFaults(data, insnsOff, insnsSize, x, v);
    TargetFaults(data, insnsOff, insnsSize, x, v);
    if FoundByLoop(data, insnsOff, insnsSize, x, v) {
      LoopKinds(data, insnsOff, insnsSize, x, v);
    }
  }

  lemma LoopKinds(data: seq<byte>, insnsOff: nat, insnsSize: nat, x: Instruction, v: Violation)
    requires FoundByLoop(data, insnsOff, insnsSize, x, v)
    ensures v.BranchTargetOutOfRange? || v.BranchOffsetZero? || v.UnalignedTableDexPc? || v.OpcodeArgCountOutOfRange?
            || v.NonStaticInvokeArgCountZero?
  {
  }

  // ----- landings -----

  lemma StartsAre(items: seq<Item>, a: nat)
    ensures a in OpcodeStarts(items) <==> OpcodeAt(items, a)
  {
  }

  lemma OwnerIs(items: seq<Item>, t: nat, owner: nat)
    ensures OwnedBy(items, t, owner) <==> owner == OwnerPc(OpcodeStarts(items), t)
  {
    hide OpcodeStarts, OpcodeAt;
    var starts := OpcodeStarts(items);
    var below := set a | a in starts && a <= t;
    forall a: nat ensures a in starts <==> OpcodeAt(items, a) {
      StartsAre(items, a);
    }
    if a :| 0 <= a <= t && OpcodeAt(items, a) {
      assert a in below;
      var g := Greatest(below);
      assert g in below && OpcodeAt(items, g);
      forall a | g < a <= t ensures !OpcodeAt(items, a) {
        assert a !in below;
      }
      if OwnedBy(items, t, owner) {
        assert owner in below;
      }
    }
  }

  lemma {:induction false} InsnAtFinds(insns: seq<Instruction>, a: nat, y: Instruction)
    requires Laid(insns)
    ensures InsnAt(insns, a) == Some(y) <==> y in insns && y.addr == a
    decreases |insns|
  {
    if insns != [] {
      var n := |insns| - 1;
      InsnAtFinds(insns[..n], a, y);
      assert insns == insns[..n] + [insns[n]];
      if y in insns[..n] {
        var k :| 0 <= k < n && insns[k] == y;
        assert insns[k].End() <= insns[n].addr;
      }
    }
  }

  lemma LandingFaults(insnsSize: nat, insns: seq<Instruction>, items: seq<Item>, x: Instruction, v: Violation)
    requires Laid(insns)
    ensures v in LandingLog(insns, OpcodeStarts(items), insnsSize, x) <==>
            FoundByLanding(insnsSize, insns, items, x, v)
  {
    hide OpcodeStarts, OpcodeAt, OwnedBy, OwnerPc, InsnAt, Laid;
    if x.target.Some? {
      var t := x.target.value;
      StartsAre(items, t);
      if v.BranchTargetMidInstruction? {
        OwnerIs(items, t, v.ownerPc);
      }
      var landing := InsnAt(insns, t);
      if landing.Some? {
        InsnAtFinds(insns, t, landing.value);
      }
      forall y | y in insns && y.addr == t ensures landing == Some(y) {
        InsnAtFinds(insns, t, y);
      }
    }
  }

  lemma {:induction false} LandingMembers(insns: seq<Instruction>, starts: set<nat>, insnsSize: nat, n: nat,
                                          v: Violation)
    requires n <= |insns|
    ensures v in LandingLogs(insns, starts, insnsSize, n) <==>
            exists k :: 0 <= k < n && v in LandingLog(insns, starts, insnsSize, insns[k])
    decreases n
  {
    hide LandingLog;
    if n > 0 {
      LandingMembers(insns, starts, insnsSize, n - 1, v);
    }
  }

  // ----- tables -----

  lemma {:induction false} CaseMembers(insn: Instruction, targets: seq<u32>, insnsSize: nat, v: Violation)
    ensures v in CaseLog(insn, targets, insnsSize) <==>
            && v.BranchTargetOutOfRange? && IsAt(insn, v.opcode, v.sourcePc) && v.insnsSize == insnsSize
            && v.target in targets && v.target >= insnsSize
    decreases |targets|
  {
    if targets != [] {
      var n := |targets| - 1;
      CaseMembers(insn, targets[..n], insnsSize, v);
      assert targets == targets[..n] + [targets[n]];
    }
  }

  /** What resolving one more table adds to the log. */
  lemma TableFaults(data: seq<byte>, insnsOff: nat, insnsSize: nat, d: Decoded, x: Instruction, v: Violation)
    requires Resolves(x) && ResolveOne(data, insnsOff, insnsSize, d, x).Ok?
    ensures v in ResolveOne(data, insnsOff, insnsSize, d, x).value.violations <==>
            v in d.violations || FoundByTable(data, insnsOff, insnsSize, x, v)
  {
    hide Table, Unit, CaseLog, CaseTargets;
    var table := Table(data, insnsOff, x);
    if table.Ok? {
      CaseMembers(x, CaseTargets(table.value), insnsSize, v);
    }
  }

  lemma {:induction false} ResolveMembers(data: seq<byte>, insnsOff: nat, insnsSize: nat, pending: seq<Instruction>,
                                          n: nat, d: Decoded, v: Violation)
    requires n <= |pending| && forall x :: x in pending ==> Resolves(x) && x.target.Some?
    requires ResolveAll(data, insnsOff, insnsSize, pending, n, d).Ok?
    ensures v in ResolveAll(data, insnsOff, insnsSize, pending, n, d).value.violations <==>
            v in d.violations || TableFaultIn(data, insnsOff, insnsSize, pending[..n], v)
    decreases n
  {
    hide ResolveOne, FoundByTable, Resolves;
    if n > 0 {
      ResolveMembers(data, insnsOff, insnsSize, pending, n - 1, d, v);
      var sofar := ResolveAll(data, insnsOff, insnsSize, pending, n - 1, d).value;
      TableFaults(data, insnsOff, insnsSize, sofar, pending[n - 1], v);
      assert pending[..n] == pending[..n - 1] + [pending[n - 1]];
      assert pending[n - 1] in pending[..n];
    }
  }

  lemma TableFaultsResolve(data: seq<byte>, insnsOff: nat, insnsSize: nat, x: Instruction, v: Violation)
    requires FoundByTable(data, insnsOff, insnsSize, x, v)
    ensures Resolves(x)
  {
    hide Table, Unit;
  }

  // ----- the whole log -----

  lemma ScanLogExact(data: seq<byte>, insnsOff: nat, insnsSize: u32, items: seq<Item>, v: Violation)
    requires Items(data, insnsOff, 0, insnsSize) == Ok(items)
    ensures v in Log(items) <==>
            || (v.UnknownOpcodeByte? && exists i :: 0 <= i < |items| && items[i] == Unknown(v.sourcePc, v.opcodeByte))
            || exists x :: x in Insns(items) && FoundByLoop(data, insnsOff, insnsSize, x, v)
  {
    hide Items, Insns, Log, FoundByLoop, InsnViolations, FormatOf, Unit;
    LogMembers(items, v);
    InsnsAre(items);
    forall i | 0 <= i < |items| && items[i].Insn?
      ensures v in ItemLog(items[i]) <==> FoundByLoop(data, insnsOff, insnsSize, items[i].insn, v)
    {
      ItemsAreSound(data, insnsOff, 0, insnsSize, i);
      LoopFaults(data, insnsOff, insnsSize, items[i].insn, v);
    }
    if i :| 0 <= i < |items| && v in ItemLog(items[i]) {
      if items[i].Insn? {
        assert items[i].insn in Insns(items);
      }
    }
    if x :| x in Insns(items) && FoundByLoop(data, insnsOff, insnsSize, x, v) {
      var i :| 0 <= i < |items| && items[i].Insn? && items[i].insn == x;
      assert v in ItemLog(items[i]);
    }
  }

  lemma LandingLogExact(insnsSize: nat, items: seq<Item>, v: Violation)
    requires Laid(Insns(items))
    ensures var insns := Insns(items);
            v in LandingLogs(insns, OpcodeStarts(items), insnsSize, |insns|) <==>
            exists x :: x in insns && FoundByLanding(insnsSize, insns, items, x, v)
  {
    hide Insns, FoundByLanding, OpcodeStarts, LandingLog, Laid, LandingLogs;
    var insns := Insns(items);
    LandingMembers(insns, OpcodeStarts(items), insnsSize, |insns|, v);
    forall x ensures v in LandingLog(insns, OpcodeStarts(items), insnsSize, x) <==>
                     FoundByLanding(insnsSize, insns, items, x, v)
    {
      LandingFaults(insnsSize, insns, items, x, v);
    }
    if x :| x in insns && FoundByLanding(insnsSize, insns, items, x, v) {
      var k :| 0 <= k < |insns| && insns[k] == x;
      assert v in LandingLog(insns, OpcodeStarts(items), insnsSize, insns[k]);
    }
  }

  /** The log holds a violation if and only if the code has the fault it names. */
  lemma LogExact(data: seq<byte>, insnsOff: nat, insnsSize: u32, v: Violation)
    requires Decode(data, insnsOff, insnsSize).Ok?
    ensures Items(data, insnsOff, 0, insnsSize).Ok?
    ensures var d := Decode(data, insnsOff, insnsSize).value;
            v in d.violations <==>
            Justified(data, insnsOff, insnsSize, d.instructions, Items(data, insnsOff, 0, insnsSize).value, v)
  {
    hide Items, Insns, Log, LandingLogs, ResolveAll, Pending, OpcodeStarts, Laid, Fills, FoundByLoop, FoundByLanding,
         FoundByTable, Resolves;
    DecodeTiles(data, insnsOff, insnsSize);
    var items := Items(data, insnsOff, 0, insnsSize).value;
    var insns := Insns(items);
    var pending := Pending(insns);
    PendingResolve(insns);
    PendingHaveTargets(insns);
    ScanLogExact(data, insnsOff, insnsSize, items, v);
    LandingLogExact(insnsSize, items, v);
    assert pending[..|pending|] == pending;
    ResolveMembers(data, insnsOff, insnsSize, pending, |pending|, Scanned(items, insnsSize), v);
    PendingFaults(data, insnsOff, insnsSize, insns, v);
    if v.UnknownOpcodeByte? || v.TailBytesAfterLastInstruction? {
      FaultKinds(data, insnsOff, insnsSize, insns, items, v);
    }
  }

  /** A target out of range is logged if and only if some instruction, or some case of a table it takes, has one. */
  lemma RangeLoggedExactly(data: seq<byte>, insnsOff: nat, insnsSize: u32)
    requires Decode(data, insnsOff, insnsSize).Ok?
    ensures var d := Decode(data, insnsOff, insnsSize).value;
            (exists v :: v in d.violations && v.BranchTargetOutOfRange?) <==>
            exists x, t: nat :: x in d.instructions && GoesTo(data, insnsOff, x, t) && t >= insnsSize
  {
    hide Decode, Items, CaseGoesTo;
    var d := Decode(data, insnsOff, insnsSize).value;
    if v :| v in d.violations && v.BranchTargetOutOfRange? {
      LogExact(data, insnsOff, insnsSize, v);
      var items := Items(data, insnsOff, 0, insnsSize).value;
      var x :| x in d.instructions && Blames(data, insnsOff, insnsSize, d.instructions, items, x, v);
      assert GoesTo(data, insnsOff, x, v.target);
    }
    if x, t: nat :| x in d.instructions && GoesTo(data, insnsOff, x, t) && t >= insnsSize {
      var v := BranchTargetOutOfRange(x.op, x.addr, t, insnsSize);
      LogExact(data, insnsOff, insnsSize, v);
      assert Blames(data, insnsOff, insnsSize, d.instructions, Items(data, insnsOff, 0, insnsSize).value, x, v);
    }
  }

  predicate GoesTo(data: seq<byte>, insnsOff: nat, x: Instruction, t: nat) {
    x.target == Some(t) || CaseGoesTo(data, insnsOff, x, t)
  }

  /** Some instruction of the list names a faulty table. */
  predicate TableFaultIn(data: seq<byte>, insnsOff: nat, insnsSize: nat, insns: seq<Instruction>, v: Violation) {
    exists x :: x in insns && FoundByTable(data, insnsOff, insnsSize, x, v)
  }

  lemma {:induction false} PendingFaults(data: seq<byte>, insnsOff: nat, insnsSize: nat, insns: seq<Instruction>,
                                         v: Violation)
    ensures TableFaultIn(data, insnsOff, insnsSize, Pending(insns), v) <==>
            TableFaultIn(data, insnsOff, insnsSize, insns, v)
  {
    hide Pending, FoundByTable, Resolves;
    PendingResolve(insns);
    if x :| x in insns && FoundByTable(data, insnsOff, insnsSize, x, v) {
      TableFaultsResolve(data, insnsOff, insnsSize, x, v);
      assert x in Pending(insns);
    }
  }

  /** Unknown opcodes and the tail are not faults of an instruction. */
  lemma FaultKinds(data: seq<byte>, insnsOff: nat, insnsSize: nat, insns: seq<Instruction>, items: seq<Item>,
                   v: Violation)
    requires v.UnknownOpcodeByte? || v.TailBytesAfterLastInstruction?
    ensures forall x :: !FoundByLoop(data, insnsOff, insnsSize, x, v)
    ensures forall x :: !FoundByLanding(insnsSize, insns, items, x, v)
    ensures forall x :: !FoundByTable(data, insnsOff, insnsSize, x, v)
  {
  }
}
