/**
 The control-flow graph against the runs of the method: what an execution of the
 decoded instructions can do, and that the graph built from them allows it.
 */
module CfgWalk {
  import opened Basics
  import opened CodeModel
  import opened Cfg

  // ----- runs of a method -----

  /** The table of the switch instruction `x` sends `key` to address `a`. */
  ghost predicate CaseTo(code: CodeItem, x: Instruction, key: int, a: nat) {
    var keys, targets := TableKeys(code, x), SwitchTargets(code, x);
    exists t :: 0 <= t < |keys| && t < |targets| && keys[t] == key && targets[t] == a
  }

  predicate InHandler(h: CatchHandler, kind: EdgeKind, a: nat) {
    match kind
    case ExceptionHandler(ty) => a <= U32_MAX && TypedCatch(ty, a) in h.catches
    case ExceptionCatchAll => h.catchAllAddr == Some(a)
    case _ => false
  }

  /** Some try region covering `x` hands an exception of this kind to address `a`. */
  ghost predicate Throws(code: CodeItem, x: Instruction, kind: EdgeKind, a: nat)
    requires ValidCode(code)
  {
    exists t :: t in code.tries && Covers(t, x) && InHandler(code.catchHandlers[t.handlerIdx], kind, a)
  }

  /** Executing `x` can continue at address `a`, in the way `kind` names. */
  ghost predicate Continues(code: CodeItem, x: Instruction, kind: EdgeKind, a: nat)
    requires ValidCode(code)
  {
    match kind
    case FallThrough =>
      !IsTerminal(x.op) && !IsUnconditionalBranch(x.op) && !IsSwitch(x.op) && a == x.End()
    case Branch =>
      (IsUnconditionalBranch(x.op) || IsConditionalBranch(x.op)) && x.target == Some(a)
    case SwitchDefault => IsSwitch(x.op) && a == x.End()
    case SwitchCase(key) => IsSwitch(x.op) && CaseTo(code, x, key, a)
    case ExceptionHandler(_) => Throws(code, x, kind, a)
    case ExceptionCatchAll => Throws(code, x, kind, a)
  }

  /** One step of an execution, from instruction `i` to instruction `j`. */
  ghost predicate Moves(code: CodeItem, i: nat, kind: EdgeKind, j: nat)
    requires ValidCode(code)
  {
    && i < |code.instructions| && j < |code.instructions|
    && Continues(code, code.instructions[i], kind, code.instructions[j].addr)
  }

  ghost predicate IsRun(code: CodeItem, run: seq<nat>, kinds: seq<EdgeKind>)
    requires ValidCode(code)
  {
    |run| == |kinds| + 1 && forall s :: 0 <= s < |kinds| ==> Moves(code, run[s], kinds[s], run[s + 1])
  }

  // ----- walks in the graph -----

  /** Instruction `x` is the `k`-th of block `b`. */
  predicate At(cfg: Cfg, x: Instruction, b: nat, k: nat) {
    b < |cfg.blocks| && k < |cfg.blocks[b].instructions| && cfg.blocks[b].instructions[k] == x
  }

  /**
   From `x` to `y`: either on to the next instruction of the same block, or along
   an edge of that kind to the first instruction of a block; only an exception
   edge may leave a block before its last instruction.
   */
  predicate StepBetween(cfg: Cfg, b: nat, k: nat, kind: EdgeKind, c: nat, l: nat)
    requires b < |cfg.blocks|
  {
    || (kind == FallThrough && c == b && l == k + 1)
    || (Edge(c, kind) in cfg.blocks[b].successors && l == 0 &&
        (kind.IsException() || k + 1 == |cfg.blocks[b].instructions|))
  }

  ghost predicate WalkStep(cfg: Cfg, x: Instruction, kind: EdgeKind, y: Instruction) {
    exists b, k, c, l :: At(cfg, x, b, k) && At(cfg, y, c, l) && StepBetween(cfg, b, k, kind, c, l)
  }

  ghost predicate IsWalk(code: CodeItem, cfg: Cfg, run: seq<nat>, kinds: seq<EdgeKind>) {
    && |run| == |kinds| + 1
    && (forall s :: 0 <= s < |run| ==> run[s] < |code.instructions|)
    && forall s :: 0 <= s < |kinds| ==>
         WalkStep(cfg, code.instructions[run[s]], kinds[s], code.instructions[run[s + 1]])
  }

  predicate IsPlain(op: byte) {
    !IsBranch(op) && !IsTerminal(op)
  }

  predicate StartsInsn(code: CodeItem, a: nat) {
    exists j :: 0 <= j < |code.instructions| && code.instructions[j].addr == a
  }

  /** No leader cuts a plain instruction that runs on into an instruction which is not itself a leader. */
  predicate Unsplit(code: CodeItem) {
    forall i :: 0 <= i < |code.instructions| ==>
      var x := code.instructions[i];
      IsPlain(x.op) && StartsInsn(code, x.End()) && x.End() !in Leaders(code) ==>
        forall a :: a in Leaders(code) ==> !(x.addr < a < x.End())
  }

  // ----- where an instruction lives -----

  /** Index of the greatest leader at or below `a`. */
  function Home(leaders: seq<nat>, a: nat): (b: nat)
    requires |leaders| > 0
    ensures b < |leaders|
  {
    if |leaders| == 1 || leaders[|leaders| - 1] <= a then |leaders| - 1
    else Home(leaders[..|leaders| - 1], a)
  }

  lemma {:induction false} HomeIsHome(leaders: seq<nat>, a: nat)
    requires |leaders| > 0 && leaders[0] <= a
    ensures leaders[Home(leaders, a)] <= a
    ensures forall c :: Home(leaders, a) < c < |leaders| ==> a < leaders[c]
  {
    if |leaders| > 1 && leaders[|leaders| - 1] > a {
      HomeIsHome(leaders[..|leaders| - 1], a);
    }
  }

  /** First instruction index of block `b`, and one past its last. */
  function Lo(code: CodeItem, cfg: Cfg, b: nat): nat
    requires b < |cfg.blocks|
  {
    LowerBound(code.instructions, cfg.blocks[b].startAddr)
  }

  function Hi(code: CodeItem, cfg: Cfg, b: nat): nat
    requires b < |cfg.blocks|
  {
    LowerBound(code.instructions, NextLeader(Starts(cfg.blocks), b))
  }

  /** Block `b` is the slice [Lo, Hi) of the instruction list: the instructions from its start to the next block's. */
  lemma BlockSlice(code: CodeItem, cfg: Cfg, b: nat)
    requires ValidCode(code) && IsCfgOf(code, cfg) && b < |cfg.blocks|
    ensures Lo(code, cfg, b) <= Hi(code, cfg, b) <= |code.instructions|
    ensures cfg.blocks[b].instructions == code.instructions[Lo(code, cfg, b)..Hi(code, cfg, b)]
    ensures forall i :: 0 <= i < |code.instructions| ==>
              (Lo(code, cfg, b) <= i < Hi(code, cfg, b) <==>
               cfg.blocks[b].startAddr <= code.instructions[i].addr < NextLeader(Starts(cfg.blocks), b))
  {
    hide NormalEdges, ExceptionEdges, Leaders, Region, LowerBound;
    var next := NextLeader(Starts(cfg.blocks), b);
    assert Starts(cfg.blocks)[b] == cfg.blocks[b].startAddr;
    LowerBoundSplits(code.instructions, cfg.blocks[b].startAddr);
    LowerBoundSplits(code.instructions, next);
    LowerBoundMonotone(code.instructions, cfg.blocks[b].startAddr, next);
  }

  function HomeOf(code: CodeItem, cfg: Cfg, i: nat): (b: nat)
    requires i < |code.instructions| && |cfg.blocks| > 0
    ensures b < |cfg.blocks|
  {
    Home(Starts(cfg.blocks), code.instructions[i].addr)
  }

  /** Every instruction is in exactly one block, at its distance from the block's first instruction. */
  lemma Placed(code: CodeItem, cfg: Cfg, i: nat)
    requires ValidCode(code) && IsCfgOf(code, cfg) && i < |code.instructions|
    ensures |cfg.blocks| > 0
    ensures var b := HomeOf(code, cfg, i);
            && Lo(code, cfg, b) <= i < Hi(code, cfg, b)
            && At(cfg, code.instructions[i], b, i - Lo(code, cfg, b))
            && (forall c, l :: At(cfg, code.instructions[i], c, l) ==> c == b && l == i - Lo(code, cfg, b))
  {
    hide NormalEdges, ExceptionEdges, Leaders, Region, LowerBound, Wired;
    var leaders := Starts(cfg.blocks);
    var x := code.instructions[i];
    var b := HomeOf(code, cfg, i);
    HomeIsHome(leaders, x.addr);
    BlockSlice(code, cfg, b);
    forall c: nat, l: nat | At(cfg, x, c, l)
      ensures c == b && l == i - Lo(code, cfg, b)
    {
      BlockSlice(code, cfg, c);
      var i' := Lo(code, cfg, c) + l;
      assert code.instructions[i'] == x;
      assert i' == i;
      assert leaders[c] == cfg.blocks[c].startAddr <= x.addr;
    }
  }

  /** A leader between an instruction's start and its end closes the block after it. */
  lemma LastOfBlock(code: CodeItem, cfg: Cfg, i: nat, a: nat)
    requires ValidCode(code) && IsCfgOf(code, cfg) && i < |code.instructions|
    requires a in Leaders(code) && code.instructions[i].addr < a <= code.instructions[i].End()
    ensures Hi(code, cfg, HomeOf(code, cfg, i)) == i + 1
  {
    hide NormalEdges, ExceptionEdges, Leaders, Region, LowerBound, Wired;
    var leaders := Starts(cfg.blocks);
    var b := HomeOf(code, cfg, i);
    Placed(code, cfg, i);
    BlockSlice(code, cfg, b);
    assert a in Elems(leaders);
    var c :| 0 <= c < |leaders| && leaders[c] == a;
    HomeIsHome(leaders, code.instructions[i].addr);
    assert c > b && leaders[b + 1] <= a;
    if i + 1 < |code.instructions| {
      assert code.instructions[i].End() <= code.instructions[i + 1].addr;
    }
  }

  /** An instruction whose address is a leader opens the block of that leader. */
  lemma OpensBlock(code: CodeItem, cfg: Cfg, j: nat)
    requires ValidCode(code) && IsCfgOf(code, cfg) && j < |code.instructions|
    requires code.instructions[j].addr in Leaders(code)
    ensures var a := code.instructions[j].addr;
            && a in cfg.addrToBlock && cfg.addrToBlock[a] == HomeOf(code, cfg, j)
            && Lo(code, cfg, HomeOf(code, cfg, j)) == j
            && cfg.blocks[HomeOf(code, cfg, j)].startAddr == a
  {
    hide NormalEdges, ExceptionEdges, Leaders, Region, LowerBound, Wired;
    var leaders := Starts(cfg.blocks);
    var a := code.instructions[j].addr;
    assert a in Elems(leaders);
    var c :| 0 <= c < |leaders| && leaders[c] == a;
    HomeIsHome(leaders, a);
    Placed(code, cfg, j);
    assert HomeOf(code, cfg, j) == c;
    LowerBoundSplits(code.instructions, a);
    NoneBetween(code.instructions, Lo(code, cfg, c), j);
  }

  lemma NoneBetween(insns: seq<Instruction>, i: nat, j: nat)
    requires Laid(insns) && i <= j < |insns| && insns[i].addr >= insns[j].addr
    ensures i == j
  {
  }

  // ----- edges of a block -----

  lemma {:induction false} CaseEdgeExists(m: map<nat, nat>, keys: seq<int>, targets: seq<nat>, t: nat)
    requires t < |keys| && t < |targets| && targets[t] in m
    ensures Edge(m[targets[t]], SwitchCase(keys[t])) in CaseEdges(m, keys, targets)
    decreases |keys|
  {
    var n := if |keys| < |targets| then |keys| else |targets|;
    if t < n - 1 {
      CaseEdgeExists(m, keys[..n - 1], targets[..n - 1], t);
    }
  }

  lemma {:induction false} TypedEdgeExists(m: map<nat, nat>, catches: seq<TypedCatch>, c: TypedCatch)
    requires c in catches && c.handlerAddr in m
    ensures Edge(m[c.handlerAddr], ExceptionHandler(c.exceptionType)) in TypedEdges(m, catches)
  {
    var n := |catches| - 1;
    if c in catches[..n] {
      TypedEdgeExists(m, catches[..n], c);
    }
  }

  lemma {:induction false} ExceptionEdgeExists(code: CodeItem, m: map<nat, nat>, startAddr: nat,
                                               insns: seq<Instruction>,
                                               tries: seq<TryItem>, t: TryItem, e: Edge)
    requires forall t :: t in tries ==> t.handlerIdx < |code.catchHandlers|
    requires t in tries && Overlaps(t, startAddr, insns) && e in HandlerEdges(m, code.catchHandlers[t.handlerIdx])
    ensures e in ExceptionEdges(code, m, startAddr, insns, tries)
  {
    hide HandlerEdges, Overlaps;
    var n := |tries| - 1;
    if t in tries[..n] {
      ExceptionEdgeExists(code, m, startAddr, insns, tries[..n], t, e);
    }
  }

  lemma HandlerEdgeExists(m: map<nat, nat>, h: CatchHandler, kind: EdgeKind, a: nat)
    requires InHandler(h, kind, a) && a in m
    ensures Edge(m[a], kind) in HandlerEdges(m, h)
  {
    if kind.ExceptionHandler? {
      TypedEdgeExists(m, h.catches, TypedCatch(kind.exceptionType, a));
    }
  }

  lemma HandlerIsLeader(code: CodeItem, n: nat, kind: EdgeKind, a: nat)
    requires n < |code.catchHandlers| && InHandler(code.catchHandlers[n], kind, a)
    ensures a in Leaders(code)
  {
    var h := code.catchHandlers[n];
    if kind.ExceptionHandler? {
      assert TypedCatch(kind.exceptionType, a) in h.catches;
    }
    assert a in HandlerLeaders(h);
    assert a in HandlerLeadersUpTo(code, |code.catchHandlers|);
  }

  /** A normal continuation that does not merely fall through goes to a leader, and so does the unit after a branch. */
  lemma TargetIsLeader(code: CodeItem, i: nat, kind: EdgeKind, a: nat)
    requires ValidCode(code) && i < |code.instructions|
    requires Continues(code, code.instructions[i], kind, a) && !kind.IsException()
    ensures kind != FallThrough ==> a in Leaders(code)
    ensures IsBranch(code.instructions[i].op) ==> code.instructions[i].End() in Leaders(code)
  {
    var x := code.instructions[i];
    if kind.SwitchCase? {
      assert a in SwitchTargets(code, x);
    }
    assert kind != FallThrough ==> a in InsnLeaders(code, x);
    assert IsBranch(x.op) ==> x.End() in InsnLeaders(code, x);
  }

  /** The last instruction of a block has an edge for each normal continuation that goes to a leader. */
  lemma NormalEdgeExists(code: CodeItem, m: map<nat, nat>, x: Instruction, kind: EdgeKind, a: nat)
    requires ValidCode(code) && Continues(code, x, kind, a) && !kind.IsException() && a in m
    ensures Edge(m[a], kind) in InsnEdges(code, m, x)
  {
    hide TableKeys, SwitchTargets, CaseEdges;
    if kind.SwitchCase? {
      var keys, targets := TableKeys(code, x), SwitchTargets(code, x);
      var t :| 0 <= t < |keys| && t < |targets| && keys[t] == kind.key && targets[t] == a;
      CaseEdgeExists(m, keys, targets, t);
    }
  }

  lemma BlockSuccessors(code: CodeItem, cfg: Cfg, b: nat)
    requires ValidCode(code) && IsCfgOf(code, cfg) && b < |cfg.blocks|
    ensures var block := cfg.blocks[b];
            block.successors == NormalEdges(code, cfg.addrToBlock, block.instructions)
                                + ExceptionEdges(code, cfg.addrToBlock, block.startAddr, block.instructions, code.tries)
  {
    hide NormalEdges, ExceptionEdges, Leaders, Region, BlockContents;
  }

  // ----- every run is a walk -----

  lemma NormalStep(code: CodeItem, cfg: Cfg, i: nat, kind: EdgeKind, j: nat)
    requires ValidCode(code) && IsCfgOf(code, cfg)
    requires Moves(code, i, kind, j) && !kind.IsException()
    requires code.instructions[j].addr in Leaders(code)
    ensures WalkStep(cfg, code.instructions[i], kind, code.instructions[j])
  {
    hide Leaders, InsnEdges, ExceptionEdges, LowerBound, IsCfgOf, Laid, Continues, HomeOf;
    var x, y := code.instructions[i], code.instructions[j];
    Placed(code, cfg, i);
    Placed(code, cfg, j);
    var b, c := HomeOf(code, cfg, i), HomeOf(code, cfg, j);
    OpensBlock(code, cfg, j);
    EndsItsBlock(code, cfg, i, kind, y.addr);
    BlockSlice(code, cfg, b);
    var insns := cfg.blocks[b].instructions;
    assert insns[|insns| - 1] == x;
    NormalEdgeExists(code, cfg.addrToBlock, x, kind, y.addr);
    BlockSuccessors(code, cfg, b);
    assert StepBetween(cfg, b, i - Lo(code, cfg, b), kind, c, 0);
  }

  lemma EndsItsBlock(code: CodeItem, cfg: Cfg, i: nat, kind: EdgeKind, a: nat)
    requires ValidCode(code) && IsCfgOf(code, cfg) && i < |code.instructions|
    requires Continues(code, code.instructions[i], kind, a) && !kind.IsException() && a in Leaders(code)
    ensures Hi(code, cfg, HomeOf(code, cfg, i)) == i + 1
  {
    hide Leaders, IsCfgOf, LowerBound;
    TargetIsLeader(code, i, kind, a);
    LastOfBlock(code, cfg, i, code.instructions[i].End());
  }

  lemma ExceptionStep(code: CodeItem, cfg: Cfg, i: nat, kind: EdgeKind, j: nat)
    requires ValidCode(code) && IsCfgOf(code, cfg)
    requires Moves(code, i, kind, j) && kind.IsException()
    ensures WalkStep(cfg, code.instructions[i], kind, code.instructions[j])
  {
    hide Leaders, NormalEdges, ExceptionEdges, LowerBound, IsCfgOf, HandlerEdges, InHandler, HomeOf, Laid, Overlaps;
    var x, y := code.instructions[i], code.instructions[j];
    var t :| t in code.tries && Covers(t, x) && InHandler(code.catchHandlers[t.handlerIdx], kind, y.addr);
    HandlerIsLeader(code, t.handlerIdx, kind, y.addr);
    Placed(code, cfg, i);
    Placed(code, cfg, j);
    var b, c := HomeOf(code, cfg, i), HomeOf(code, cfg, j);
    OpensBlock(code, cfg, j);
    BlockSlice(code, cfg, b);
    var block := cfg.blocks[b];
    OverlapsIfCovers(code, cfg, i, t);
    HandlerEdgeExists(cfg.addrToBlock, code.catchHandlers[t.handlerIdx], kind, y.addr);
    ExceptionEdgeExists(code, cfg.addrToBlock, block.startAddr, block.instructions, code.tries, t, Edge(c, kind));
    BlockSuccessors(code, cfg, b);
    assert StepBetween(cfg, b, i - Lo(code, cfg, b), kind, c, 0);
  }

  lemma OverlapsIfCovers(code: CodeItem, cfg: Cfg, i: nat, t: TryItem)
    requires ValidCode(code) && IsCfgOf(code, cfg) && i < |code.instructions| && Covers(t, code.instructions[i])
    ensures var b := cfg.blocks[HomeOf(code, cfg, i)];
            Overlaps(t, b.startAddr, b.instructions)
  {
    hide IsCfgOf, LowerBound, HomeOf;
    Placed(code, cfg, i);
    var b := HomeOf(code, cfg, i);
    BlockSlice(code, cfg, b);
    var last := Hi(code, cfg, b) - 1;
    assert cfg.blocks[b].instructions[last - Lo(code, cfg, b)] == code.instructions[last];
    assert i < last ==> code.instructions[i].End() <= code.instructions[last].addr;
  }

  /** Falling through inside a block. */
  lemma InnerStep(code: CodeItem, cfg: Cfg, i: nat, j: nat)
    requires ValidCode(code) && IsCfgOf(code, cfg)
    requires Moves(code, i, FallThrough, j)
    requires forall a :: a in Leaders(code) ==> !(code.instructions[i].addr < a <= code.instructions[i].End())
    ensures WalkStep(cfg, code.instructions[i], FallThrough, code.instructions[j])
  {
    hide Leaders, NormalEdges, ExceptionEdges, LowerBound, Region, Wired;
    var x, y := code.instructions[i], code.instructions[j];
    var leaders := Starts(cfg.blocks);
    var b := HomeOf(code, cfg, i);
    Placed(code, cfg, i);
    BlockSlice(code, cfg, b);
    Follows(code.instructions, i, j);
    if b + 1 < |leaders| {
      assert leaders[b + 1] in Elems(leaders);
      HomeIsHome(leaders, x.addr);
    }
    var k := i - Lo(code, cfg, b);
    assert At(cfg, y, b, k + 1);
    assert StepBetween(cfg, b, k, FallThrough, b, k + 1);
  }

  lemma Follows(insns: seq<Instruction>, i: nat, j: nat)
    requires Laid(insns) && i < |insns| && j < |insns| && insns[j].addr == insns[i].End()
    ensures j == i + 1
  {
    if i + 1 < |insns| {
      assert insns[i].End() <= insns[i + 1].addr;
    }
  }

  lemma StepIsWalk(code: CodeItem, cfg: Cfg, i: nat, kind: EdgeKind, j: nat)
    requires ValidCode(code) && IsCfgOf(code, cfg) && Unsplit(code)
    requires Moves(code, i, kind, j)
    ensures WalkStep(cfg, code.instructions[i], kind, code.instructions[j])
  {
    hide Leaders, IsCfgOf, WalkStep, Laid;
    var x, y := code.instructions[i], code.instructions[j];
    if kind.IsException() {
      ExceptionStep(code, cfg, i, kind, j);
    } else if y.addr in Leaders(code) {
      NormalStep(code, cfg, i, kind, j);
    } else {
      TargetIsLeader(code, i, kind, y.addr);
      assert StartsInsn(code, x.End());
      InnerStep(code, cfg, i, j);
    }
  }

  /** Every finite run of the method is a walk in its graph. */
  lemma EveryRunIsAWalk(code: CodeItem, cfg: Cfg, run: seq<nat>, kinds: seq<EdgeKind>)
    requires ValidCode(code) && IsCfgOf(code, cfg) && Unsplit(code)
    requires IsRun(code, run, kinds) && run[0] < |code.instructions|
    ensures IsWalk(code, cfg, run, kinds)
  {
    hide IsCfgOf, Unsplit, WalkStep, Continues, Laid;
    forall s | 0 <= s < |run| ensures run[s] < |code.instructions| {
      if s > 0 {
        assert Moves(code, run[s - 1], kinds[s - 1], run[s - 1 + 1]);
      }
    }
    forall s | 0 <= s < |kinds|
      ensures WalkStep(cfg, code.instructions[run[s]], kinds[s], code.instructions[run[s + 1]])
    {
      StepIsWalk(code, cfg, run[s], kinds[s], run[s + 1]);
    }
  }
}
