/**
 What the instruction decoder guarantees: its items tile the code, a clean
 log means every branch lands on an instruction, and an unshared switch
 table reaches the graph entry by entry.
 */
module InsnTheorems {
  import opened Basics
  import opened CodeModel
  import opened InsnDecoder
  import opened Cfg
  import opened CfgWalk
  import opened CfgTheorems
  import opened CfgEdges

  // ----- tiling -----

  /** Consecutive items from `pc`, each at least one unit long. */
  predicate Chain(items: seq<Item>, pc: nat) {
    && (items != [] ==> items[0].Start() == pc)
    && (forall i :: 0 <= i < |items| ==> items[i].Size() >= 1 && items[i].End() <= U32_MAX)
    && (forall i :: 0 < i < |items| ==> items[i].Start() == items[i - 1].End())
  }

  /** The items start below the end of the code, and reach it. */
  predicate Fills(items: seq<Item>, pc: nat, insnsSize: nat) {
    && Chain(items, pc)
    && (forall i :: 0 <= i < |items| ==> items[i].Start() < insnsSize)
    && insnsSize <= if items == [] then pc else items[|items| - 1].End()
  }

  lemma {:induction false} ItemsFill(data: seq<byte>, insnsOff: nat, pc: nat, insnsSize: u32)
    requires Items(data, insnsOff, pc, insnsSize).Ok?
    ensures Fills(Items(data, insnsOff, pc, insnsSize).value, pc, insnsSize)
    decreases insnsSize - pc
  {
    hide NextItem;
    if pc < insnsSize {
      var item := NextItem(data, insnsOff, pc, insnsSize).value;
      ItemsFill(data, insnsOff, item.End(), insnsSize);
      var rest := Items(data, insnsOff, item.End(), insnsSize).value;
      FillsCons(item, rest, insnsSize);
    }
  }

  lemma FillsCons(item: Item, rest: seq<Item>, insnsSize: nat)
    requires Fills(rest, item.End(), insnsSize) && item.Start() < insnsSize && item.Size() >= 1 && item.End() <= U32_MAX
    ensures Fills([item] + rest, item.Start(), insnsSize)
  {
    var all := [item] + rest;
    forall i | 0 < i < |all| ensures all[i].Start() == all[i - 1].End() {
      assert all[i] == rest[i - 1];
      if i > 1 {
        assert all[i - 1] == rest[i - 2];
      }
    }
    if rest != [] {
      assert all[|all| - 1] == rest[|rest| - 1];
    }
  }

  predicate Holds(item: Item, u: nat) {
    item.Start() <= u < item.End()
  }

  lemma {:induction false} ChainOrdered(items: seq<Item>, pc: nat, i: nat, j: nat)
    requires Chain(items, pc) && i < j < |items|
    ensures items[i].End() <= items[j].Start()
    decreases j
  {
    if i < j - 1 {
      ChainOrdered(items, pc, i, j - 1);
    }
  }

  lemma {:induction false} ChainHolds(items: seq<Item>, pc: nat, u: nat)
    requires Chain(items, pc) && items != [] && pc <= u < items[|items| - 1].End()
    ensures exists i :: 0 <= i < |items| && Holds(items[i], u)
    decreases |items|
  {
    var last := |items| - 1;
    if items[last].Start() <= u {
      assert Holds(items[last], u);
    } else {
      var init := items[..last];
      ChainHolds(init, pc, u);
      var i :| 0 <= i < |init| && Holds(init[i], u);
      assert Holds(items[i], u);
    }
  }

  /** Every code unit belongs to exactly one decoded instruction, skipped payload or unknown opcode. */
  lemma EveryUnitInOneItem(data: seq<byte>, insnsOff: nat, insnsSize: u32, u: nat)
    requires Items(data, insnsOff, 0, insnsSize).Ok? && u < insnsSize
    ensures var items := Items(data, insnsOff, 0, insnsSize).value;
            && (exists i :: 0 <= i < |items| && Holds(items[i], u))
            && (forall i, j ::
                  0 <= i < |items| && 0 <= j < |items| && Holds(items[i], u) && Holds(items[j], u) ==> i == j)
  {
    hide Items;
    var items := Items(data, insnsOff, 0, insnsSize).value;
    ItemsFill(data, insnsOff, 0, insnsSize);
    ChainHolds(items, 0, u);
    forall i, j | 0 <= i < |items| && 0 <= j < |items| && Holds(items[i], u) && Holds(items[j], u)
      ensures i == j
    {
      if i < j {
        ChainOrdered(items, 0, i, j);
      } else if j < i {
        ChainOrdered(items, 0, j, i);
      }
    }
  }

  // ----- the decoded instructions -----

  lemma {:induction false} InsnsAre(items: seq<Item>)
    ensures forall x :: x in Insns(items) <==> exists i :: 0 <= i < |items| && items[i].Insn? && items[i].insn == x
    decreases |items|
  {
    if items != [] {
      var n := |items| - 1;
      InsnsAre(items[..n]);
      forall x ensures x in Insns(items) <==> exists i :: 0 <= i < |items| && items[i].Insn? && items[i].insn == x {
        if x in Insns(items[..n]) {
          var i :| 0 <= i < n && items[..n][i].Insn? && items[..n][i].insn == x;
          assert items[i].Insn? && items[i].insn == x;
        }
        if i :| 0 <= i < |items| && items[i].Insn? && items[i].insn == x {
          if i < n {
            assert items[..n][i].Insn? && items[..n][i].insn == x;
          }
        }
      }
    }
  }

  lemma {:induction false} InsnsLaid(items: seq<Item>, pc: nat)
    requires Chain(items, pc)
    ensures Laid(Insns(items))
    ensures forall k :: 0 <= k < |Insns(items)| ==>
        Insns(items)[k].End() <= if items == [] then pc else items[|items| - 1].End()
    decreases |items|
  {
    if items != [] {
      var n := |items| - 1;
      InsnsLaid(items[..n], pc);
      assert n > 0 ==> items[n].Start() == items[n - 1].End();
    }
  }

  ghost predicate HasTail(log: seq<Violation>) {
    exists v :: v in log && v.TailBytesAfterLastInstruction?
  }

  lemma {:induction false} LogHasNoTail(items: seq<Item>, data: seq<byte>, insnsOff: nat, pc: nat, insnsSize: u32)
    requires Items(data, insnsOff, pc, insnsSize) == Ok(items)
    ensures !HasTail(Log(items))
    decreases insnsSize - pc
  {
    if items != [] {
      var item := NextItem(data, insnsOff, pc, insnsSize).value;
      var rest := Items(data, insnsOff, item.End(), insnsSize).value;
      LogHasNoTail(rest, data, insnsOff, item.End(), insnsSize);
      assert items == [item] + rest;
      LogCons(item, rest);
      ItemLogHasNoTail(data, insnsOff, pc, insnsSize);
    }
  }

  lemma ItemLogHasNoTail(data: seq<byte>, insnsOff: nat, pc: nat, insnsSize: u32)
    requires pc < insnsSize && NextItem(data, insnsOff, pc, insnsSize).Ok?
    ensures !HasTail(ItemLog(NextItem(data, insnsOff, pc, insnsSize).value))
  {
    hide DecodeSingle, FormatOf, Unit, PayloadUnits;
  }

  lemma {:induction false} LogCons(item: Item, rest: seq<Item>)
    ensures Log([item] + rest) == ItemLog(item) + Log(rest)
    decreases |rest|
  {
    hide ItemLog;
    var all := [item] + rest;
    if rest == [] {
      assert all[..0] == [];
    } else {
      var n := |rest| - 1;
      LogCons(item, rest[..n]);
      assert all[..|all| - 1] == [item] + rest[..n];
      assert all[|all| - 1] == rest[n];
    }
  }

  lemma {:induction false} LandingHasNoTail(insns: seq<Instruction>, starts: set<nat>, insnsSize: nat, n: nat)
    requires n <= |insns|
    ensures !HasTail(LandingLogs(insns, starts, insnsSize, n))
    decreases n
  {
    if n > 0 {
      LandingHasNoTail(insns, starts, insnsSize, n - 1);
    }
  }

  lemma {:induction false} CaseHasNoTail(insn: Instruction, targets: seq<u32>, insnsSize: nat)
    ensures !HasTail(CaseLog(insn, targets, insnsSize))
    decreases |targets|
  {
    if targets != [] {
      CaseHasNoTail(insn, targets[..|targets| - 1], insnsSize);
    }
  }

  /** Resolving tables only appends to the log, never a tail violation, and leaves the instructions alone. */
  lemma {:induction false} ResolveAppends(data: seq<byte>, insnsOff: nat, insnsSize: nat, pending: seq<Instruction>,
                                          n: nat, d: Decoded)
    requires n <= |pending| && forall insn :: insn in pending ==> insn.target.Some?
    requires ResolveAll(data, insnsOff, insnsSize, pending, n, d).Ok?
    ensures var r := ResolveAll(data, insnsOff, insnsSize, pending, n, d).value;
            && r.instructions == d.instructions
            && d.violations <= r.violations
            && (HasTail(r.violations) <==> HasTail(d.violations))
    decreases n
  {
    hide Table, Unit, CaseLog, ExpectedIdent, CaseTargets;
    if n > 0 {
      ResolveAppends(data, insnsOff, insnsSize, pending, n - 1, d);
      var insn := pending[n - 1];
      var payload := Table(data, insnsOff, insn);
      if payload.Ok? {
        CaseHasNoTail(insn, CaseTargets(payload.value), insnsSize);
      }
    }
  }

  /** The tiling as the decoder reports it. */
  lemma DecodeTiles(data: seq<byte>, insnsOff: nat, insnsSize: u32)
    requires Decode(data, insnsOff, insnsSize).Ok?
    ensures Items(data, insnsOff, 0, insnsSize).Ok?
    ensures var items := Items(data, insnsOff, 0, insnsSize).value;
            var d := Decode(data, insnsOff, insnsSize).value;
            && Fills(items, 0, insnsSize)
            && d.instructions == Insns(items)
            && Laid(d.instructions)
            && (HasTail(d.violations) <==> exists i :: 0 <= i < |items| && items[i].End() > insnsSize)
  {
    hide Items, Insns, Log, LandingLogs, ResolveAll, Pending, Laid, Fills, OpcodeStarts;
    var items := Items(data, insnsOff, 0, insnsSize).value;
    var insns := Insns(items);
    ItemsFill(data, insnsOff, 0, insnsSize);
    FillsChain(items, 0, insnsSize);
    InsnsLaid(items, 0);
    PendingResolve(insns);
    ResolveAppends(data, insnsOff, insnsSize, Pending(insns), |Pending(insns)|, Scanned(items, insnsSize));
    LogHasNoTail(items, data, insnsOff, 0, insnsSize);
    LandingHasNoTail(insns, OpcodeStarts(items), insnsSize, |insns|);
    ScannedTail(items, insnsSize);
    OvershootIsLast(items, 0, insnsSize);
  }

  lemma FillsChain(items: seq<Item>, pc: nat, insnsSize: nat)
    requires Fills(items, pc, insnsSize)
    ensures Chain(items, pc)
  {
  }

  lemma ScannedTail(items: seq<Item>, insnsSize: nat)
    requires !HasTail(Log(items)) && !HasTail(LandingLogs(Insns(items), OpcodeStarts(items), insnsSize, |Insns(items)|))
    ensures HasTail(Scanned(items, insnsSize).violations) <==> FinalPc(items) > insnsSize
  {
    hide Log, LandingLogs, Insns, OpcodeStarts;
    var log := Scanned(items, insnsSize).violations;
    if FinalPc(items) > insnsSize {
      assert TailBytesAfterLastInstruction(insnsSize, FinalPc(items)) in TailLog(FinalPc(items), insnsSize);
      assert TailBytesAfterLastInstruction(insnsSize, FinalPc(items)) in log;
    }
  }

  lemma OvershootIsLast(items: seq<Item>, pc: nat, insnsSize: nat)
    requires Fills(items, pc, insnsSize)
    ensures FinalPc(items) > insnsSize && items != [] <==> exists i :: 0 <= i < |items| && items[i].End() > insnsSize
  {
    if items != [] && FinalPc(items) > insnsSize {
      assert items[|items| - 1].End() > insnsSize;
    }
    forall i | 0 <= i < |items| - 1 ensures items[i].End() < insnsSize {
      assert items[i + 1].Start() < insnsSize;
    }
  }

  // ----- a clean log -----

  lemma {:induction false} CleanLog(items: seq<Item>)
    requires Log(items) == []
    ensures forall i :: 0 <= i < |items| ==> ItemLog(items[i]) == []
    decreases |items|
  {
    if items != [] {
      CleanLog(items[..|items| - 1]);
      forall i | 0 <= i < |items| ensures ItemLog(items[i]) == [] {
        if i < |items| - 1 {
          assert ItemLog(items[..|items| - 1][i]) == [];
        }
      }
    }
  }

  lemma {:induction false} CleanLandings(insns: seq<Instruction>, starts: set<nat>, insnsSize: nat, n: nat)
    requires n <= |insns| && LandingLogs(insns, starts, insnsSize, n) == []
    ensures forall k :: 0 <= k < n ==> LandingLog(insns, starts, insnsSize, insns[k]) == []
    decreases n
  {
    hide LandingLog;
    if n > 0 {
      CleanLandings(insns, starts, insnsSize, n - 1);
    }
  }

  /** The instruction of an item was decoded with its own checks. */
  lemma {:induction false} ItemLogs(data: seq<byte>, insnsOff: nat, pc: nat, insnsSize: u32, i: nat)
    requires Items(data, insnsOff, pc, insnsSize).Ok? && i < |Items(data, insnsOff, pc, insnsSize).value|
    ensures var item := Items(data, insnsOff, pc, insnsSize).value[i];
            item.Insn? ==> && (IsBranch(item.insn.op) ==> item.insn.target.Some?)
                           && (item.log == [] ==> TargetChecks(item.insn, insnsSize) == [])
    decreases insnsSize - pc
  {
    hide NextItem, TargetChecks;
    var item := NextItem(data, insnsOff, pc, insnsSize).value;
    if i == 0 {
      FirstItemLog(data, insnsOff, pc, insnsSize);
    } else {
      ItemLogs(data, insnsOff, item.End(), insnsSize, i - 1);
    }
  }

  lemma FirstItemLog(data: seq<byte>, insnsOff: nat, pc: nat, insnsSize: u32)
    requires pc < insnsSize && NextItem(data, insnsOff, pc, insnsSize).Ok?
    ensures var item := NextItem(data, insnsOff, pc, insnsSize).value;
            item.Insn? ==> && (IsBranch(item.insn.op) ==> item.insn.target.Some?)
                           && (item.log == [] ==> TargetChecks(item.insn, insnsSize) == [])
  {
    hide DecodeSingle, FormatOf, Unit, PayloadUnits, ArgOverflow, TargetChecks, ReceiverCheck;
  }

  /** With an empty log, every goto and if target is the address of a decoded instruction. */
  lemma CleanTargetsLand(data: seq<byte>, insnsOff: nat, insnsSize: u32, k: nat)
    requires Decode(data, insnsOff, insnsSize).Ok? && Decode(data, insnsOff, insnsSize).value.violations == []
    requires k < |Decode(data, insnsOff, insnsSize).value.instructions|
    ensures var insns := Decode(data, insnsOff, insnsSize).value.instructions;
            IsBranch(insns[k].op) && !IsSwitch(insns[k].op) ==>
              insns[k].target.Some? && exists j :: 0 <= j < |insns| && insns[j].addr == insns[k].target.value
  {
    hide Items, Insns, Log, LandingLogs, ResolveAll, Pending, OpcodeStarts, TailLog, LandingLog;
    var items := Items(data, insnsOff, 0, insnsSize).value;
    var insns := Insns(items);
    PendingResolve(insns);
    ResolveAppends(data, insnsOff, insnsSize, Pending(insns), |Pending(insns)|, Scanned(items, insnsSize));
    CleanLog(items);
    CleanLandings(insns, OpcodeStarts(items), insnsSize, |insns|);
    CleanTarget(data, insnsOff, insnsSize, items, k);
  }

  lemma CleanTarget(data: seq<byte>, insnsOff: nat, insnsSize: u32, items: seq<Item>, k: nat)
    requires Items(data, insnsOff, 0, insnsSize) == Ok(items)
    requires forall i :: 0 <= i < |items| ==> ItemLog(items[i]) == []
    requires k < |Insns(items)| && LandingLog(Insns(items), OpcodeStarts(items), insnsSize, Insns(items)[k]) == []
    ensures var insns := Insns(items);
            IsBranch(insns[k].op) && !IsSwitch(insns[k].op) ==>
              insns[k].target.Some? && exists j :: 0 <= j < |insns| && insns[j].addr == insns[k].target.value
  {
    hide Items, Insns;
    var insns := Insns(items);
    var x := insns[k];
    if IsBranch(x.op) && !IsSwitch(x.op) {
      InsnsAre(items);
      assert x in insns;
      var i :| 0 <= i < |items| && items[i].Insn? && items[i].insn == x;
      ItemLogs(data, insnsOff, 0, insnsSize, i);
      assert ItemLog(items[i]) == [];
      var t := x.target.value;
      assert t < insnsSize && t in OpcodeStarts(items);
      var s :| 0 <= s < |items| && !items[s].Payload? && items[s].Start() == t;
      assert ItemLog(items[s]) == [];
      assert items[s].insn in insns;
    }
  }

  /** Code whose instructions and tables are those of a decoded stream. */
  predicate IsDecoded(code: CodeItem, data: seq<byte>, insnsOff: nat, insnsSize: u32) {
    var d := Decode(data, insnsOff, insnsSize);
    d.Ok? && code.instructions == d.value.instructions && code.payloads == d.value.payloads
  }

  predicate CasesLand(code: CodeItem) {
    forall i, a ::
      0 <= i < |code.instructions| && IsSwitch(code.instructions[i].op)
      && a in SwitchTargets(code, code.instructions[i]) ==>
        StartsInsn(code, a)
  }

  predicate HandlersLand(code: CodeItem) {
    forall i, a :: 0 <= i < |code.catchHandlers| && a in HandlerLeaders(code.catchHandlers[i]) ==> StartsInsn(code, a)
  }

  lemma LandedNotInside(code: CodeItem, a: nat, x: Instruction)
    requires Laid(code.instructions) && StartsInsn(code, a) && x in code.instructions
    ensures !(x.addr < a < x.End())
  {
    var i :| 0 <= i < |code.instructions| && code.instructions[i] == x;
    var j :| 0 <= j < |code.instructions| && code.instructions[j].addr == a;
    assert i < j ==> code.instructions[i].End() <= code.instructions[j].addr;
    assert j < i ==> code.instructions[j].End() <= code.instructions[i].addr;
  }

  lemma EndNotInside(code: CodeItem, y: Instruction, x: Instruction)
    requires Laid(code.instructions) && x in code.instructions && y in code.instructions
    ensures !(x.addr < y.End() < x.End())
  {
    var i :| 0 <= i < |code.instructions| && code.instructions[i] == x;
    var j :| 0 <= j < |code.instructions| && code.instructions[j] == y;
    assert i < j ==> code.instructions[i].End() <= code.instructions[j].addr;
    assert j < i ==> code.instructions[j].End() <= code.instructions[i].addr;
  }

  predicate BranchesLand(code: CodeItem) {
    forall k ::
      0 <= k < |code.instructions| && IsBranch(code.instructions[k].op) && !IsSwitch(code.instructions[k].op) ==>
        code.instructions[k].target.Some? && StartsInsn(code, code.instructions[k].target.value)
  }

  lemma LeaderNotInside(code: CodeItem, a: nat, x: Instruction)
    requires Laid(code.instructions) && BranchesLand(code) && CasesLand(code) && HandlersLand(code)
    requires a in Leaders(code) && x in code.instructions
    ensures !(x.addr < a < x.End())
  {
    hide Laid, SwitchTargets, HandlerLeaders, StartsInsn;
    if a in InsnLeadersUpTo(code, |code.instructions|) {
      var i :| 0 <= i < |code.instructions| && a in InsnLeaders(code, code.instructions[i]);
      var y := code.instructions[i];
      if a == y.End() {
        EndNotInside(code, y, x);
      } else {
        LandedNotInside(code, a, x);
      }
    } else if a in HandlerLeadersUpTo(code, |code.catchHandlers|) {
      var i :| 0 <= i < |code.catchHandlers| && a in HandlerLeaders(code.catchHandlers[i]);
      LandedNotInside(code, a, x);
    }
  }

  /** A cleanly decoded method whose cases and handlers land on instructions keeps every run inside its graph. */
  lemma CleanCodeStaysInGraph(code: CodeItem, cfg: Cfg, data: seq<byte>, insnsOff: nat, insnsSize: u32)
    requires IsDecoded(code, data, insnsOff, insnsSize)
    requires Decode(data, insnsOff, insnsSize).value.violations == []
    requires CasesLand(code) && HandlersLand(code)
    requires ValidCode(code) && IsCfgOf(code, cfg)
    ensures Unsplit(code) && AllStepsWalk(code, cfg)
  {
    hide Decode, CasesLand, HandlersLand, IsCfgOf, AllStepsWalk, Leaders, Laid;
    forall k | 0 <= k < |code.instructions| && IsBranch(code.instructions[k].op) && !IsSwitch(code.instructions[k].op)
      ensures code.instructions[k].target.Some? && StartsInsn(code, code.instructions[k].target.value)
    {
      CleanTargetsLand(data, insnsOff, insnsSize, k);
    }
    assert BranchesLand(code);
    forall x, a | x in code.instructions && a in Leaders(code) ensures !(x.addr < a < x.End()) {
      LeaderNotInside(code, a, x);
    }
    RunsStayInGraph(code, cfg);
  }

  // ----- switch tables from bytes to edges -----

  lemma {:induction false} TargetTableAt(data: seq<byte>, at: nat, n: nat, switchPc: u32, j: nat)
    requires TargetTable(data, at, n, switchPc).Ok? && j < n
    ensures SignedWord(data, at + 4 * j).Ok?
    ensures TargetTable(data, at, n, switchPc).value[j] == switchPc + SignedWord(data, at + 4 * j).value
    decreases n
  {
    hide SignedWord;
    if j < n - 1 {
      TargetTableAt(data, at, n - 1, switchPc, j);
    }
  }

  lemma {:induction false} KeyTableAt(data: seq<byte>, at: nat, n: nat, j: nat)
    requires KeyTable(data, at, n).Ok? && j < n
    ensures SignedWord(data, at + 4 * j) == Ok(KeyTable(data, at, n).value[j])
    decreases n
  {
    hide SignedWord;
    if j < n - 1 {
      KeyTableAt(data, at, n - 1, j);
    }
  }

  /** `y` names the table at `p`, aligned and with the marker of its own kind. */
  predicate Takes(data: seq<byte>, insnsOff: nat, y: Instruction, p: nat) {
    Resolves(y) && y.target == Some(p) && Unit(data, insnsOff, p, 0) == Ok(ExpectedIdent(y.op))
  }

  /** `x` takes the table at `p` and no later instruction does. */
  predicate TakesLast(data: seq<byte>, insnsOff: nat, insns: seq<Instruction>, x: Instruction, p: nat) {
    x in insns && Takes(data, insnsOff, x, p) &&
    forall y :: y in insns && Takes(data, insnsOff, y, p) ==> y.addr <= x.addr
  }

  predicate Ascending(insns: seq<Instruction>) {
    forall i, j :: 0 <= i < j < |insns| ==> insns[i].addr < insns[j].addr
  }

  lemma {:induction false} PendingAscends(insns: seq<Instruction>)
    requires Ascending(insns)
    ensures Ascending(Pending(insns))
    ensures forall y :: y in Pending(insns) ==> y in insns
    decreases |insns|
  {
    hide Resolves;
    if insns != [] {
      var n := |insns| - 1;
      PendingAscends(insns[..n]);
      assert insns[n] in insns;
      forall y | y in Pending(insns[..n]) ensures y in insns && y.addr < insns[n].addr {
        var k :| 0 <= k < n && insns[..n][k] == y;
        assert insns[k] == y;
      }
    }
  }

  /** After resolving, the table at `p` is the one decoded for the last instruction that takes it. */
  lemma {:induction false} ResolvedTable(data: seq<byte>, insnsOff: nat, insnsSize: nat, pending: seq<Instruction>,
                                         n: nat, d: Decoded,
                                         x: Instruction, p: nat)
    requires n <= |pending| && (forall y :: y in pending ==> Resolves(y) && y.target.Some?) && Ascending(pending)
    requires ResolveAll(data, insnsOff, insnsSize, pending, n, d).Ok? && x.target == Some(p)
    ensures x in pending[..n] && Takes(data, insnsOff, x, p) ==> Table(data, insnsOff, x).Ok?
    ensures TakesLast(data, insnsOff, pending[..n], x, p) ==>
              var payloads := ResolveAll(data, insnsOff, insnsSize, pending, n, d).value.payloads;
              p in payloads && Table(data, insnsOff, x) == Ok(payloads[p])
    decreases n
  {
    hide Table, Unit, CaseLog, ExpectedIdent, Resolves;
    if n > 0 {
      ResolvedTable(data, insnsOff, insnsSize, pending, n - 1, d, x, p);
      var w := pending[n - 1];
      assert pending[..n] == pending[..n - 1] + [w];
      if TakesLast(data, insnsOff, pending[..n], x, p) && Takes(data, insnsOff, w, p) {
        assert w in pending[..n];
        var k :| 0 <= k < n && pending[k] == x;
        assert k < n - 1 ==> pending[k].addr < w.addr;
      }
    }
  }

  lemma LaidAscends(insns: seq<Instruction>)
    requires Laid(insns)
    ensures Ascending(insns)
  {
    forall i, j | 0 <= i < j < |insns| ensures insns[i].addr < insns[j].addr {
      assert insns[i].End() <= insns[j].addr;
    }
  }

  /** The table kept at `p`, for every instruction that takes it. */
  lemma KeptTable(data: seq<byte>, insnsOff: nat, insnsSize: u32, x: Instruction, p: nat)
    requires Decode(data, insnsOff, insnsSize).Ok?
    requires x in Decode(data, insnsOff, insnsSize).value.instructions && Takes(data, insnsOff, x, p)
    ensures Table(data, insnsOff, x).Ok?
    ensures var d := Decode(data, insnsOff, insnsSize).value;
            TakesLast(data, insnsOff, d.instructions, x, p) ==>
              p in d.payloads && d.payloads[p] == Table(data, insnsOff, x).value
  {
    hide Items, Insns, Log, LandingLogs, ResolveAll, Pending, OpcodeStarts, Table, Unit, ExpectedIdent, Resolves, Laid;
    var items := Items(data, insnsOff, 0, insnsSize).value;
    var insns := Insns(items);
    var pending := Pending(insns);
    DecodeTiles(data, insnsOff, insnsSize);
    LaidAscends(insns);
    PendingAscends(insns);
    PendingResolve(insns);
    PendingHaveTargets(insns);
    assert pending[..|pending|] == pending;
    ResolvedTable(data, insnsOff, insnsSize, pending, |pending|, Scanned(items, insnsSize), x, p);
  }

  lemma {:induction false} LastTaker(data: seq<byte>, insnsOff: nat, insns: seq<Instruction>, n: nat, p: nat)
    returns (z: Instruction)
    requires n <= |insns| && Ascending(insns) && exists y :: y in insns[..n] && Takes(data, insnsOff, y, p)
    ensures TakesLast(data, insnsOff, insns[..n], z, p)
    decreases n
  {
    hide Takes;
    var w := insns[n - 1];
    if Takes(data, insnsOff, w, p) {
      z := w;
    } else {
      assert insns[..n] == insns[..n - 1] + [w];
      z := LastTaker(data, insnsOff, insns, n - 1, p);
    }
  }

  /** Two instructions that take one table are of the same kind, and differ in every case target. */
  lemma SameTableDiffers(data: seq<byte>, insnsOff: nat, x: Instruction, z: Instruction, p: nat)
    requires Takes(data, insnsOff, x, p) && Takes(data, insnsOff, z, p) && IsSwitch(x.op)
    requires Table(data, insnsOff, x).Ok? && Table(data, insnsOff, z).Ok?
    ensures Unit(data, insnsOff, p, 1).Ok?
    ensures Table(data, insnsOff, x) == Table(data, insnsOff, z) <==>
            x.addr == z.addr || Unit(data, insnsOff, p, 1).value == 0
  {
    hide SignedWord, Unit, KeyTable, TargetTable;
    assert x.op == z.op;
    var n := Unit(data, insnsOff, p, 1).value;
    var at := insnsOff + 2 * p + if x.op == OP_PACKED_SWITCH then 8 else 4 + 4 * n;
    if n > 0 {
      TargetTableAt(data, at, n, x.addr, 0);
      TargetTableAt(data, at, n, z.addr, 0);
    } else {
      EmptyTable(data, at, x.addr);
      EmptyTable(data, at, z.addr);
    }
  }

  lemma EmptyTable(data: seq<byte>, at: nat, switchPc: u32)
    ensures TargetTable(data, at, 0, switchPc) == Ok([])
  {
  }

  /** A switch keeps the table its own bytes encode if and only if it takes it last or the table is empty. */
  lemma SwitchKeepsItsTable(data: seq<byte>, insnsOff: nat, insnsSize: u32, x: Instruction, p: nat)
    requires Decode(data, insnsOff, insnsSize).Ok?
    requires x in Decode(data, insnsOff, insnsSize).value.instructions && Takes(data, insnsOff, x, p) && IsSwitch(x.op)
    ensures Table(data, insnsOff, x).Ok? && Unit(data, insnsOff, p, 1).Ok?
    ensures var d := Decode(data, insnsOff, insnsSize).value;
            p in d.payloads &&
            (d.payloads[p] == Table(data, insnsOff, x).value <==>
             TakesLast(data, insnsOff, d.instructions, x, p) || Unit(data, insnsOff, p, 1).value == 0)
  {
    hide Decode, Table, Unit, ExpectedIdent, Resolves, Laid, Items, Fills;
    var d := Decode(data, insnsOff, insnsSize).value;
    DecodeTiles(data, insnsOff, insnsSize);
    LaidAscends(d.instructions);
    assert d.instructions[..|d.instructions|] == d.instructions;
    var z := LastTaker(data, insnsOff, d.instructions, |d.instructions|, p);
    KeptTable(data, insnsOff, insnsSize, x, p);
    KeptTable(data, insnsOff, insnsSize, z, p);
    SameTableDiffers(data, insnsOff, x, z, p);
  }

  /** Key and displacement of table entry `j`, as the payload at byte `base` encodes them. */
  function EntryKey(data: seq<byte>, op: byte, base: nat, n: nat, j: nat): Result<int> {
    if op == OP_PACKED_SWITCH then
      var first :- SignedWord(data, base + 4);
      Ok(WrapI32(first + j))
    else SignedWord(data, base + 4 + 4 * j)
  }

  function EntryOffset(data: seq<byte>, op: byte, base: nat, n: nat, j: nat): Result<int> {
    SignedWord(data, (if op == OP_PACKED_SWITCH then base + 8 else base + 4 + 4 * n) + 4 * j)
  }

  /** The resolved table of a switch, entry by entry. */
  lemma TableEntries(code: CodeItem, data: seq<byte>, insnsOff: nat, x: Instruction, j: nat)
    requires IsSwitch(x.op) && x.target.Some? && x.target.value in code.payloads
    requires Table(data, insnsOff, x) == Ok(code.payloads[x.target.value])
    ensures Unit(data, insnsOff, x.target.value, 1).Ok?
    ensures var n := Unit(data, insnsOff, x.target.value, 1).value;
            var base := insnsOff + 2 * x.target.value;
            && |TableKeys(code, x)| == n == |SwitchTargets(code, x)|
            && (j < n ==>
                  && EntryKey(data, x.op, base, n, j) == Ok(TableKeys(code, x)[j])
                  && EntryOffset(data, x.op, base, n, j).Ok?
                  && SwitchTargets(code, x)[j] == x.addr + EntryOffset(data, x.op, base, n, j).value)
  {
    hide SignedWord, Unit, KeyTable, TargetTable;
    var n := Unit(data, insnsOff, x.target.value, 1).value;
    var base := insnsOff + 2 * x.target.value;
    if j < n {
      if x.op == OP_PACKED_SWITCH {
        TargetTableAt(data, base + 8, n, x.addr, j);
      } else {
        KeyTableAt(data, base + 4, n, j);
        TargetTableAt(data, base + 4 + 4 * n, n, x.addr, j);
      }
    }
  }

  /** Entries of the table a switch takes; a switch that takes nothing has none. */
  function OwnCount(data: seq<byte>, insnsOff: nat, x: Instruction): nat
    requires x.target.Some?
  {
    var n := Unit(data, insnsOff, x.target.value, 1);
    if Takes(data, insnsOff, x, x.target.value) && n.Ok? then n.value else 0
  }

  /** Entry `j` of a switch's own bytes: this key, going to this address. */
  predicate OwnEntry(data: seq<byte>, insnsOff: nat, x: Instruction, j: nat, key: int, a: int)
    requires x.target.Some?
  {
    var n, base := OwnCount(data, insnsOff, x), insnsOff + 2 * x.target.value;
    && EntryKey(data, x.op, base, n, j) == Ok(key)
    && EntryOffset(data, x.op, base, n, j).Ok? && x.addr + EntryOffset(data, x.op, base, n, j).value == a
  }

  /** A non-empty table at `p` belongs to another switch, the last to take it. */
  predicate AnotherSwitchOwns(data: seq<byte>, insnsOff: nat, insns: seq<Instruction>, x: Instruction, p: nat) {
    && (exists y :: y in insns && y != x && IsSwitch(y.op) && TakesLast(data, insnsOff, insns, y, p))
    && Unit(data, insnsOff, p, 1) != Ok(0)
  }

  /** The cases the builder reads for `x` are exactly those of its own bytes. */
  predicate CasesAreOwn(code: CodeItem, data: seq<byte>, insnsOff: nat, x: Instruction)
    requires x.target.Some?
  {
    && |TableKeys(code, x)| == OwnCount(data, insnsOff, x) == |SwitchTargets(code, x)|
    && forall j :: 0 <= j < |TableKeys(code, x)| ==>
         OwnEntry(data, insnsOff, x, j, TableKeys(code, x)[j], SwitchTargets(code, x)[j])
  }

  lemma {:induction false} TablesAreTaken(data: seq<byte>, insnsOff: nat, insnsSize: nat, pending: seq<Instruction>,
                                          n: nat,
                                          d: Decoded, p: nat)
    requires n <= |pending| && forall y :: y in pending ==> Resolves(y) && y.target.Some?
    requires ResolveAll(data, insnsOff, insnsSize, pending, n, d).Ok?
    requires p in ResolveAll(data, insnsOff, insnsSize, pending, n, d).value.payloads && p !in d.payloads
    ensures exists y :: y in pending && Takes(data, insnsOff, y, p)
    decreases n
  {
    hide Table, Unit, CaseLog, ExpectedIdent, Resolves;
    var w := pending[n - 1];
    if !Takes(data, insnsOff, w, p) {
      TablesAreTaken(data, insnsOff, insnsSize, pending, n - 1, d, p);
    }
  }

  /** A table is kept only where some decoded instruction takes it. */
  lemma KeptTableIsTaken(data: seq<byte>, insnsOff: nat, insnsSize: u32, p: nat)
    requires Decode(data, insnsOff, insnsSize).Ok? && p in Decode(data, insnsOff, insnsSize).value.payloads
    ensures exists y :: y in Decode(data, insnsOff, insnsSize).value.instructions && Takes(data, insnsOff, y, p)
  {
    hide Items, Insns, Log, LandingLogs, ResolveAll, Pending, OpcodeStarts, Resolves, Takes, Fills, Laid;
    var items := Items(data, insnsOff, 0, insnsSize).value;
    var pending := Pending(Insns(items));
    DecodeTiles(data, insnsOff, insnsSize);
    PendingResolve(Insns(items));
    PendingHaveTargets(Insns(items));
    TablesAreTaken(data, insnsOff, insnsSize, pending, |pending|, Scanned(items, insnsSize), p);
    var y :| y in pending && Takes(data, insnsOff, y, p);
    assert y in Decode(data, insnsOff, insnsSize).value.instructions;
  }

  /** The builder reads a table by its address alone. */
  lemma SameTarget(code: CodeItem, x: Instruction, z: Instruction)
    requires x.target == z.target
    ensures TableKeys(code, x) == TableKeys(code, z) && SwitchTargets(code, x) == SwitchTargets(code, z)
    ensures x.target.Some? && x.target.value !in code.payloads ==>
        TableKeys(code, x) == [] && SwitchTargets(code, x) == []
    ensures x.target.Some? && x.target.value in code.payloads && code.payloads[x.target.value].FillArrayData? ==>
              TableKeys(code, x) == [] && SwitchTargets(code, x) == []
  {
  }

  lemma TakersAreAlike(data: seq<byte>, insnsOff: nat, insns: seq<Instruction>, x: Instruction, z: Instruction, p: nat)
    requires Ascending(insns) && TakesLast(data, insnsOff, insns, z, p)
    ensures Takes(data, insnsOff, x, p) ==> x.op == z.op
    ensures forall y :: TakesLast(data, insnsOff, insns, y, p) ==> y == z
  {
    hide Unit;
    forall y | TakesLast(data, insnsOff, insns, y, p) ensures y == z {
      SameAddr(insns, y, z);
    }
  }

  /** The table of a switch `z` read for a switch `x` with the same target. */
  lemma BorrowedTable(code: CodeItem, data: seq<byte>, insnsOff: nat, x: Instruction, z: Instruction, p: nat)
    requires IsSwitch(x.op) && IsSwitch(z.op) && x.target == Some(p) && Takes(data, insnsOff, z, p)
    requires Takes(data, insnsOff, x, p) ==> x.op == z.op
    requires p in code.payloads && Table(data, insnsOff, z) == Ok(code.payloads[p])
    ensures Unit(data, insnsOff, p, 1).Ok?
    ensures CasesAreOwn(code, data, insnsOff, x) <==>
            (Takes(data, insnsOff, x, p) && x.addr == z.addr) || Unit(data, insnsOff, p, 1) == Ok(0)
  {
    hide Unit, Table, TableKeys, SwitchTargets, EntryKey, EntryOffset, Takes;
    assert z.target == Some(p) by { TakesTarget(data, insnsOff, z, p); }
    SameTarget(code, x, z);
    TableEntries(code, data, insnsOff, z, 0);
    var n, base := Unit(data, insnsOff, p, 1).value, insnsOff + 2 * p;
    if Takes(data, insnsOff, x, p) && n > 0 {
      if x.addr == z.addr {
        forall j | 0 <= j < n
          ensures OwnEntry(data, insnsOff, x, j, TableKeys(code, x)[j], SwitchTargets(code, x)[j])
        {
          TableEntries(code, data, insnsOff, z, j);
        }
      } else {
        assert !OwnEntry(data, insnsOff, x, 0, TableKeys(code, x)[0], SwitchTargets(code, x)[0]);
      }
    }
  }

  lemma TakesTarget(data: seq<byte>, insnsOff: nat, y: Instruction, p: nat)
    requires Takes(data, insnsOff, y, p)
    ensures y.target == Some(p)
  {
  }

  lemma FillTable(data: seq<byte>, insnsOff: nat, z: Instruction, p: nat)
    requires Takes(data, insnsOff, z, p) && !IsSwitch(z.op) && Table(data, insnsOff, z).Ok?
    ensures Table(data, insnsOff, z).value.FillArrayData?
  {
    hide Unit, Word;
  }

  /** For every decoded switch: its cases are its own unless another switch owns a non-empty table at its target. */
  lemma CasesOwnedExactly(code: CodeItem, data: seq<byte>, insnsOff: nat, insnsSize: u32, x: Instruction)
    requires IsDecoded(code, data, insnsOff, insnsSize) && x in code.instructions && IsSwitch(x.op)
    ensures x.target.Some?
    ensures CasesAreOwn(code, data, insnsOff, x) <==>
            !AnotherSwitchOwns(data, insnsOff, code.instructions, x, x.target.value)
  {
    hide Decode, Table, Unit, Takes, CasesAreOwn, Laid, Items, Fills, TableKeys, SwitchTargets;
    SwitchesHaveTargets(code, data, insnsOff, insnsSize, x);
    var p, insns := x.target.value, code.instructions;
    DecodeTiles(data, insnsOff, insnsSize);
    LaidAscends(insns);
    SameTarget(code, x, x);
    if z0 :| z0 in insns && Takes(data, insnsOff, z0, p) {
      assert insns[..|insns|] == insns;
      var z := LastTaker(data, insnsOff, insns, |insns|, p);
      KeptTable(data, insnsOff, insnsSize, z, p);
      TakersAreAlike(data, insnsOff, insns, x, z, p);
      if IsSwitch(z.op) {
        BorrowedTable(code, data, insnsOff, x, z, p);
        TakersAreAlike(data, insnsOff, insns, z, z, p);
        SameAddr(insns, x, z);
      } else {
        FillTable(data, insnsOff, z, p);
        NoCasesAreOwn(code, data, insnsOff, x);
      }
    } else {
      if p in code.payloads {
        KeptTableIsTaken(data, insnsOff, insnsSize, p);
      }
      NoCasesAreOwn(code, data, insnsOff, x);
      NobodyOwns(data, insnsOff, insns, x, p);
    }
  }

  lemma SameAddr(insns: seq<Instruction>, x: Instruction, z: Instruction)
    requires Ascending(insns) && x in insns && z in insns
    ensures x.addr == z.addr <==> x == z
  {
    var i :| 0 <= i < |insns| && insns[i] == x;
    var k :| 0 <= k < |insns| && insns[k] == z;
    assert i < k ==> insns[i].addr < insns[k].addr;
    assert k < i ==> insns[k].addr < insns[i].addr;
  }

  lemma NobodyOwns(data: seq<byte>, insnsOff: nat, insns: seq<Instruction>, x: Instruction, p: nat)
    requires forall y :: y in insns ==> !Takes(data, insnsOff, y, p)
    ensures !AnotherSwitchOwns(data, insnsOff, insns, x, p)
  {
    hide Takes;
  }

  lemma NoCasesAreOwn(code: CodeItem, data: seq<byte>, insnsOff: nat, x: Instruction)
    requires x.target.Some? && TableKeys(code, x) == [] && SwitchTargets(code, x) == []
    requires !Takes(data, insnsOff, x, x.target.value)
    ensures CasesAreOwn(code, data, insnsOff, x)
  {
    hide Takes;
  }

  lemma SwitchesHaveTargets(code: CodeItem, data: seq<byte>, insnsOff: nat, insnsSize: u32, x: Instruction)
    requires IsDecoded(code, data, insnsOff, insnsSize) && x in code.instructions && IsSwitch(x.op)
    ensures x.target.Some?
  {
    hide Decode, Items, Insns, Fills, Laid, TargetChecks;
    DecodeTiles(data, insnsOff, insnsSize);
    var items := Items(data, insnsOff, 0, insnsSize).value;
    InsnsAre(items);
    var i :| 0 <= i < |items| && items[i].Insn? && items[i].insn == x;
    ItemLogs(data, insnsOff, 0, insnsSize, i);
  }

  /** Successors of a switch block made of its own bytes: default, own entries in order, then exceptions only. */
  predicate OwnEdges(cfg: Cfg, edges: seq<Edge>, data: seq<byte>, insnsOff: nat, x: Instruction)
    requires x.target.Some?
  {
    var n := OwnCount(data, insnsOff, x);
    && |edges| >= 1 + n
    && EdgeTo(cfg, edges[0], SwitchDefault, x.End())
    && (forall j :: 0 <= j < n ==> OwnCase(cfg, edges, data, insnsOff, x, j))
    && (forall k :: 1 + n <= k < |edges| ==> edges[k].kind.IsException())
  }

  /** Edge `1 + j` is the case edge of the switch's own entry `j`. */
  predicate OwnCase(cfg: Cfg, edges: seq<Edge>, data: seq<byte>, insnsOff: nat, x: Instruction, j: nat)
    requires x.target.Some? && 1 + j < |edges|
  {
    var e := edges[1 + j];
    && e.kind.SwitchCase? && e.target < |cfg.blocks|
    && OwnEntry(data, insnsOff, x, j, e.kind.key, cfg.blocks[e.target].startAddr)
  }

  /**
   From bytes to edges, for every switch: its block has the default edge, one case edge per entry its own
   bytes encode and no other case edge (none at all if it takes no table), if and only if no other switch
   owns a non-empty table at its target.
   */
  lemma SwitchBytesBecomeEdges(code: CodeItem, cfg: Cfg, data: seq<byte>, insnsOff: nat, insnsSize: u32, i: nat)
    requires IsDecoded(code, data, insnsOff, insnsSize) && ValidCode(code) && IsCfgOf(code, cfg)
    requires i < |code.instructions| && IsSwitch(code.instructions[i].op)
    ensures |cfg.blocks| > 0 && code.instructions[i].target.Some?
    ensures var x := code.instructions[i];
            var block := cfg.blocks[HomeOf(code, cfg, i)];
            && block.instructions != [] && block.instructions[|block.instructions| - 1] == x
            && (OwnEdges(cfg, block.successors, data, insnsOff, x) <==>
                !AnotherSwitchOwns(data, insnsOff, code.instructions, x, x.target.value))
  {
    hide Decode, IsCfgOf, Laid, TableKeys, SwitchTargets, HomeOf, CasesAreOwn, AnotherSwitchOwns, OwnEdges;
    var x := code.instructions[i];
    CasesOwnedExactly(code, data, insnsOff, insnsSize, x);
    ReadPaired(code, data, insnsOff, insnsSize, x);
    SwitchSuccessors(code, cfg, i);
    OwnEdgesAreOwnCases(code, cfg, cfg.blocks[HomeOf(code, cfg, i)].successors, data, insnsOff, x);
  }

  /** With the builder's edges for a switch, own edges and own cases are the same thing. */
  lemma OwnEdgesAreOwnCases(code: CodeItem, cfg: Cfg, edges: seq<Edge>, data: seq<byte>, insnsOff: nat, x: Instruction)
    requires x.target.Some? && |TableKeys(code, x)| == |SwitchTargets(code, x)| <= |edges| - 1
    requires EdgeTo(cfg, edges[0], SwitchDefault, x.End())
    requires forall j :: 0 <= j < |TableKeys(code, x)| ==>
               EdgeTo(cfg, edges[1 + j], SwitchCase(TableKeys(code, x)[j]), SwitchTargets(code, x)[j])
    requires forall k :: 1 + |TableKeys(code, x)| <= k < |edges| ==> edges[k].kind.IsException()
    ensures OwnEdges(cfg, edges, data, insnsOff, x) <==> CasesAreOwn(code, data, insnsOff, x)
  {
    hide TableKeys, SwitchTargets, OwnCount, OwnEntry;
    var n, m := OwnCount(data, insnsOff, x), |TableKeys(code, x)|;
    forall j | 0 <= j < m
      ensures OwnCase(cfg, edges, data, insnsOff, x, j) <==>
              OwnEntry(data, insnsOff, x, j, TableKeys(code, x)[j], SwitchTargets(code, x)[j])
    {
      assert EdgeTo(cfg, edges[1 + j], SwitchCase(TableKeys(code, x)[j]), SwitchTargets(code, x)[j]);
    }
    if m < n && n < |edges| {
      assert !OwnCase(cfg, edges, data, insnsOff, x, m);
    } else if n < m {
      assert EdgeTo(cfg, edges[1 + n], SwitchCase(TableKeys(code, x)[n]), SwitchTargets(code, x)[n]);
    }
  }

  lemma ReadPaired(code: CodeItem, data: seq<byte>, insnsOff: nat, insnsSize: u32, x: Instruction)
    requires IsDecoded(code, data, insnsOff, insnsSize)
    ensures |TableKeys(code, x)| == |SwitchTargets(code, x)|
  {
    hide Decode;
    DecodedTablesPaired(data, insnsOff, insnsSize);
  }

  lemma {:induction false} ResolvedPaired(data: seq<byte>, insnsOff: nat, insnsSize: nat, pending: seq<Instruction>,
                                          n: nat,
                                          d: Decoded)
    requires n <= |pending| && forall insn :: insn in pending ==> insn.target.Some?
    requires ResolveAll(data, insnsOff, insnsSize, pending, n, d).Ok? && TablesPaired(d.payloads)
    ensures TablesPaired(ResolveAll(data, insnsOff, insnsSize, pending, n, d).value.payloads)
    decreases n
  {
    hide Unit, CaseLog, ExpectedIdent, KeyTable, TargetTable, SignedWord;
    if n > 0 {
      ResolvedPaired(data, insnsOff, insnsSize, pending, n - 1, d);
    }
  }

  /** Decoded sparse tables have one target per key. */
  lemma DecodedTablesPaired(data: seq<byte>, insnsOff: nat, insnsSize: u32)
    requires Decode(data, insnsOff, insnsSize).Ok?
    ensures TablesPaired(Decode(data, insnsOff, insnsSize).value.payloads)
  {
    hide Items, Insns, Log, LandingLogs, OpcodeStarts, ResolveAll, Pending;
    var items := Items(data, insnsOff, 0, insnsSize).value;
    var pending := Pending(Insns(items));
    PendingHaveTargets(Insns(items));
    ResolvedPaired(data, insnsOff, insnsSize, pending, |pending|, Scanned(items, insnsSize));
  }

  /** The cursor skips exactly the units the resolved table occupies; an odd array byte is padded. */
  lemma {:induction false} SkipCoversTable(data: seq<byte>, insnsOff: nat, x: Instruction, p: nat)
    requires Takes(data, insnsOff, x, p) && Table(data, insnsOff, x).Ok?
    requires PayloadUnits(data, insnsOff, p, ExpectedIdent(x.op) / 0x100).Ok?
    ensures var units := PayloadUnits(data, insnsOff, p, ExpectedIdent(x.op) / 0x100).value;
            match Table(data, insnsOff, x).value
            case PackedSwitch(_, targets) => units == 4 + 2 * |targets|
            case SparseSwitch(keys, targets) => units == 2 + 2 * |keys| + 2 * |targets|
            case FillArrayData(_, bytes) => units == 4 + (|bytes| + 1) / 2
  {
    hide Unit, KeyTable, TargetTable, Word, SignedWord;
    if x.op == OP_FILL_ARRAY_DATA {
      ArraySize(data, insnsOff, x, p);
    }
  }

  lemma ArraySize(data: seq<byte>, insnsOff: nat, x: Instruction, p: nat)
    requires x.op == OP_FILL_ARRAY_DATA && x.target == Some(p) && Table(data, insnsOff, x).Ok?
    ensures Unit(data, insnsOff, p, 1).Ok? && Word(data, insnsOff + 2 * p + 4).Ok?
    ensures Table(data, insnsOff, x).value.FillArrayData?
    ensures |Table(data, insnsOff, x).value.data| ==
            Word(data, insnsOff + 2 * p + 4).value * Unit(data, insnsOff, p, 1).value
  {
    hide Unit, Word;
  }
}
