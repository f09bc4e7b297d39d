/**
 Exact statements about the graph: which edges it has, when runs can leave it,
 how blocks partition the code, and its predecessor views.
 */
module CfgTheorems {
  import opened Basics
  import opened CodeModel
  import opened Cfg
  import opened CfgWalk

  // ----- the edge set -----

  /** A block from `startAddr` with these instructions has an edge of this kind to the block starting at `a`. */
  ghost predicate EdgeMeaning(code: CodeItem, startAddr: nat, insns: seq<Instruction>, kind: EdgeKind, a: nat)
    requires ValidCode(code)
  {
    if kind.IsException() then
      exists t :: t in code.tries && Overlaps(t, startAddr, insns) &&
          InHandler(code.catchHandlers[t.handlerIdx], kind, a)
    else
      insns != [] && Continues(code, insns[|insns| - 1], kind, a)
  }

  /** `a` is where the map places the block `c`. */
  predicate PlacesAt(m: map<nat, nat>, a: nat, c: nat) {
    a in m && m[a] == c
  }

  predicate Injective(m: map<nat, nat>) {
    forall a, b :: a in m && b in m && m[a] == m[b] ==> a == b
  }

  lemma {:induction false} CaseEdgeOrigin(m: map<nat, nat>, keys: seq<int>, targets: seq<nat>, e: Edge)
    requires e in CaseEdges(m, keys, targets)
    ensures e.kind.SwitchCase?
    ensures exists t :: 0 <= t < |keys| && t < |targets| && keys[t] == e.kind.key && PlacesAt(m, targets[t], e.target)
    decreases |keys|
  {
    var n := if |keys| < |targets| then |keys| else |targets|;
    if e in CaseEdges(m, keys[..n - 1], targets[..n - 1]) {
      CaseEdgeOrigin(m, keys[..n - 1], targets[..n - 1], e);
      var t :| 0 <= t < n - 1 && keys[..n - 1][t] == e.kind.key && PlacesAt(m, targets[..n - 1][t], e.target);
      assert keys[t] == e.kind.key && PlacesAt(m, targets[t], e.target);
    } else {
      assert keys[n - 1] == e.kind.key && PlacesAt(m, targets[n - 1], e.target);
    }
  }

  lemma {:induction false} TypedEdgeOrigin(m: map<nat, nat>, catches: seq<TypedCatch>, e: Edge)
    requires e in TypedEdges(m, catches)
    ensures e.kind.ExceptionHandler?
    ensures exists c :: c in catches && c.exceptionType == e.kind.exceptionType && PlacesAt(m, c.handlerAddr, e.target)
  {
    var n := |catches| - 1;
    if e in TypedEdges(m, catches[..n]) {
      TypedEdgeOrigin(m, catches[..n], e);
      var c :| c in catches[..n] && c.exceptionType == e.kind.exceptionType && PlacesAt(m, c.handlerAddr, e.target);
      assert c in catches;
    } else {
      assert catches[n] in catches && PlacesAt(m, catches[n].handlerAddr, e.target);
    }
  }

  lemma HandlerEdgesExact(m: map<nat, nat>, h: CatchHandler, e: Edge, a: nat)
    requires PlacesAt(m, a, e.target) && Injective(m)
    ensures e in HandlerEdges(m, h) <==> InHandler(h, e.kind, a)
  {
    hide TypedEdges;
    if e in TypedEdges(m, h.catches) {
      TypedEdgeOrigin(m, h.catches, e);
      var c :| c in h.catches && c.exceptionType == e.kind.exceptionType && PlacesAt(m, c.handlerAddr, e.target);
      assert c == TypedCatch(e.kind.exceptionType, a);
    }
    if InHandler(h, e.kind, a) {
      HandlerEdgeExists(m, h, e.kind, a);
    }
  }

  lemma {:induction false} ExceptionEdgeOrigin(code: CodeItem, m: map<nat, nat>, startAddr: nat,
                                               insns: seq<Instruction>,
                                               tries: seq<TryItem>, e: Edge)
    requires forall t :: t in tries ==> t.handlerIdx < |code.catchHandlers|
    requires e in ExceptionEdges(code, m, startAddr, insns, tries)
    ensures exists t ::
              t in tries && Overlaps(t, startAddr, insns) && e in HandlerEdges(m, code.catchHandlers[t.handlerIdx])
  {
    hide HandlerEdges, Overlaps;
    var n := |tries| - 1;
    if e in ExceptionEdges(code, m, startAddr, insns, tries[..n]) {
      ExceptionEdgeOrigin(code, m, startAddr, insns, tries[..n], e);
      var t :| t in tries[..n] && Overlaps(t, startAddr, insns) &&
          e in HandlerEdges(m, code.catchHandlers[t.handlerIdx]);
      assert t in tries;
    } else {
      assert tries[n] in tries;
    }
  }

  lemma HandlerEdgeKinds(m: map<nat, nat>, h: CatchHandler, e: Edge)
    requires e in HandlerEdges(m, h)
    ensures e.kind.IsException()
  {
    hide TypedEdges;
    if e in TypedEdges(m, h.catches) {
      TypedEdgeOrigin(m, h.catches, e);
    }
  }

  lemma ExceptionEdgesExact(code: CodeItem, m: map<nat, nat>, startAddr: nat, insns: seq<Instruction>, e: Edge, a: nat)
    requires ValidCode(code) && PlacesAt(m, a, e.target) && Injective(m)
    ensures e in ExceptionEdges(code, m, startAddr, insns, code.tries) <==>
            e.kind.IsException() && EdgeMeaning(code, startAddr, insns, e.kind, a)
  {
    hide HandlerEdges, Overlaps, ExceptionEdges, InHandler, Laid, Continues;
    if e in ExceptionEdges(code, m, startAddr, insns, code.tries) {
      ExceptionEdgeOrigin(code, m, startAddr, insns, code.tries, e);
      var t :| t in code.tries && Overlaps(t, startAddr, insns) &&
          e in HandlerEdges(m, code.catchHandlers[t.handlerIdx]);
      HandlerEdgesExact(m, code.catchHandlers[t.handlerIdx], e, a);
      HandlerEdgeKinds(m, code.catchHandlers[t.handlerIdx], e);
    }
    if e.kind.IsException() && EdgeMeaning(code, startAddr, insns, e.kind, a) {
      var t :| t in code.tries && Overlaps(t, startAddr, insns) &&
          InHandler(code.catchHandlers[t.handlerIdx], e.kind, a);
      HandlerEdgesExact(m, code.catchHandlers[t.handlerIdx], e, a);
      ExceptionEdgeExists(code, m, startAddr, insns, code.tries, t, e);
    }
  }

  lemma InsnEdgesExact(code: CodeItem, m: map<nat, nat>, x: Instruction, e: Edge, a: nat)
    requires ValidCode(code) && PlacesAt(m, a, e.target) && Injective(m)
    ensures e in InsnEdges(code, m, x) <==> !e.kind.IsException() && Continues(code, x, e.kind, a)
  {
    hide TableKeys, SwitchTargets, CaseEdges, Throws, Laid;
    if e in InsnEdges(code, m, x) {
      if e in CaseEdges(m, TableKeys(code, x), SwitchTargets(code, x)) {
        CaseEdgeOrigin(m, TableKeys(code, x), SwitchTargets(code, x), e);
      }
    }
    if !e.kind.IsException() && Continues(code, x, e.kind, a) {
      NormalEdgeExists(code, m, x, e.kind, a);
    }
  }

  lemma AddrMapFacts(code: CodeItem, cfg: Cfg)
    requires ValidCode(code) && IsCfgOf(code, cfg)
    ensures Injective(cfg.addrToBlock)
    ensures forall c :: 0 <= c < |cfg.blocks| ==> PlacesAt(cfg.addrToBlock, cfg.blocks[c].startAddr, c)
  {
    hide Wired, Leaders, Region, Laid;
    var leaders := Starts(cfg.blocks);
    forall a, b | a in cfg.addrToBlock && b in cfg.addrToBlock && cfg.addrToBlock[a] == cfg.addrToBlock[b]
      ensures a == b
    {
      assert a in leaders && b in leaders;
    }
    forall c | 0 <= c < |cfg.blocks|
      ensures PlacesAt(cfg.addrToBlock, cfg.blocks[c].startAddr, c)
    {
      assert leaders[c] == cfg.blocks[c].startAddr;
    }
  }

  /** The graph has exactly the edges the method's own continuations call for: none missing, none spurious. */
  lemma EdgesExact(code: CodeItem, cfg: Cfg, b: nat, e: Edge)
    requires ValidCode(code) && IsCfgOf(code, cfg) && b < |cfg.blocks| && e.target < |cfg.blocks|
    ensures var block := cfg.blocks[b];
            e in block.successors <==>
            EdgeMeaning(code, block.startAddr, block.instructions, e.kind, cfg.blocks[e.target].startAddr)
  {
    hide IsCfgOf, InsnEdges, ExceptionEdges, Continues, Laid;
    var block := cfg.blocks[b];
    var a, m := cfg.blocks[e.target].startAddr, cfg.addrToBlock;
    AddrMapFacts(code, cfg);
    BlockSuccessors(code, cfg, b);
    ExceptionEdgesExact(code, m, block.startAddr, block.instructions, e, a);
    if block.instructions != [] {
      InsnEdgesExact(code, m, block.instructions[|block.instructions| - 1], e, a);
    }
  }

  // ----- exactly when runs stay in the graph -----

  ghost predicate AllStepsWalk(code: CodeItem, cfg: Cfg)
    requires ValidCode(code)
  {
    forall i: nat, kind, j: nat :: Moves(code, i, kind, j) ==>
        WalkStep(cfg, code.instructions[i], kind, code.instructions[j])
  }

  /** A leader strictly inside plain instruction `i`, which runs on into instruction `j`. */
  predicate SplitAt(code: CodeItem, i: nat, a: nat, j: nat) {
    && i < |code.instructions| && j < |code.instructions|
    && var x := code.instructions[i];
    && IsPlain(x.op) && code.instructions[j].addr == x.End() && x.End() !in Leaders(code)
    && a in Leaders(code) && x.addr < a < x.End()
  }

  /** All single steps, hence all runs, stay in the graph if and only if no leader splits a fall-through. */
  lemma RunsStayInGraph(code: CodeItem, cfg: Cfg)
    requires ValidCode(code) && IsCfgOf(code, cfg)
    ensures Unsplit(code) <==> AllStepsWalk(code, cfg)
  {
    hide IsCfgOf, WalkStep, Leaders, Continues, Laid;
    if Unsplit(code) {
      hide Unsplit;
      forall i: nat, kind, j: nat | Moves(code, i, kind, j)
        ensures WalkStep(cfg, code.instructions[i], kind, code.instructions[j])
      {
        StepIsWalk(code, cfg, i, kind, j);
      }
    } else {
      var i, a, j := SplitWitness(code);
      SplitStepIsLost(code, cfg, i, j, a);
    }
  }

  lemma SplitWitness(code: CodeItem) returns (i: nat, a: nat, j: nat)
    requires !Unsplit(code)
    ensures SplitAt(code, i, a, j)
  {
    hide Leaders;
    i :| 0 <= i < |code.instructions| &&
         var x := code.instructions[i];
         && IsPlain(x.op) && StartsInsn(code, x.End()) && x.End() !in Leaders(code)
         && !(forall a :: a in Leaders(code) ==> !(x.addr < a < x.End()));
    var x := code.instructions[i];
    a :| a in Leaders(code) && x.addr < a < x.End();
    j :| 0 <= j < |code.instructions| && code.instructions[j].addr == x.End();
  }

  lemma SplitStepIsLost(code: CodeItem, cfg: Cfg, i: nat, j: nat, a: nat)
    requires ValidCode(code) && IsCfgOf(code, cfg) && SplitAt(code, i, a, j)
    ensures Moves(code, i, FallThrough, j)
    ensures !WalkStep(cfg, code.instructions[i], FallThrough, code.instructions[j])
  {
    hide IsCfgOf, Leaders, LowerBound, Laid, HomeOf;
    var x, y := code.instructions[i], code.instructions[j];
    Placed(code, cfg, i);
    Placed(code, cfg, j);
    LastOfBlock(code, cfg, i, a);
    Follows(code.instructions, i, j);
    forall b: nat, k: nat, c: nat, l: nat | At(cfg, x, b, k) && At(cfg, y, c, l)
      ensures !StepBetween(cfg, b, k, FallThrough, c, l)
    {
      NoFallThroughEdge(code, cfg, i, c);
    }
  }

  lemma NoFallThroughEdge(code: CodeItem, cfg: Cfg, i: nat, c: nat)
    requires ValidCode(code) && IsCfgOf(code, cfg) && i < |code.instructions| && c < |cfg.blocks|
    requires code.instructions[i].End() !in Leaders(code)
    requires Hi(code, cfg, HomeOf(code, cfg, i)) == i + 1
    ensures Edge(c, FallThrough) !in cfg.blocks[HomeOf(code, cfg, i)].successors
  {
    hide Leaders, LowerBound, Laid, HomeOf, Wired, Region;
    var b := HomeOf(code, cfg, i);
    Placed(code, cfg, i);
    BlockSlice(code, cfg, b);
    EdgesExact(code, cfg, b, Edge(c, FallThrough));
    var insns := cfg.blocks[b].instructions;
    assert insns[|insns| - 1] == code.instructions[i];
    assert cfg.blocks[c].startAddr == Starts(cfg.blocks)[c];
    assert cfg.blocks[c].startAddr in Elems(Starts(cfg.blocks));
  }

  // ----- blocks partition the code -----

  function Contents(blocks: seq<BasicBlock>): seq<Instruction> {
    if blocks == [] then [] else Contents(blocks[..|blocks| - 1]) + blocks[|blocks| - 1].instructions
  }

  lemma {:induction false} ContentsUpTo(code: CodeItem, cfg: Cfg, n: nat)
    requires ValidCode(code) && IsCfgOf(code, cfg) && n <= |cfg.blocks|
    ensures Contents(cfg.blocks[..n]) ==
            code.instructions[..if n == 0 then 0 else Hi(code, cfg, n - 1)]
  {
    hide IsCfgOf, LowerBound, Laid;
    if n > 0 {
      ContentsUpTo(code, cfg, n - 1);
      BlockSlice(code, cfg, n - 1);
      BlocksAdjoin(code, cfg, n - 1);
      assert cfg.blocks[..n][..n - 1] == cfg.blocks[..n - 1];
    }
  }

  lemma BlocksAdjoin(code: CodeItem, cfg: Cfg, b: nat)
    requires ValidCode(code) && IsCfgOf(code, cfg) && b < |cfg.blocks|
    ensures Lo(code, cfg, b) == if b == 0 then 0 else Hi(code, cfg, b - 1)
    ensures b + 1 == |cfg.blocks| ==> Hi(code, cfg, b) == |code.instructions|
  {
    hide Wired, Leaders, Region, LowerBound;
    var leaders := Starts(cfg.blocks);
    assert leaders[b] == cfg.blocks[b].startAddr;
    LowerBoundEnds(code.instructions);
  }

  lemma LowerBoundEnds(insns: seq<Instruction>)
    requires Laid(insns)
    ensures LowerBound(insns, 0) == 0 && LowerBound(insns, U32_MAX) == |insns|
  {
    LowerBoundSplits(insns, U32_MAX);
  }

  /** Concatenating the blocks in order gives back the instruction list. */
  lemma BlocksPartition(code: CodeItem, cfg: Cfg)
    requires ValidCode(code) && IsCfgOf(code, cfg)
    ensures Contents(cfg.blocks) == code.instructions
  {
    hide Wired, Leaders, Region, LowerBound, Laid;
    var n := |cfg.blocks|;
    ContentsUpTo(code, cfg, n);
    BlocksAdjoin(code, cfg, n - 1);
    assert cfg.blocks[..n] == cfg.blocks;
  }

  /** `block_at` of an instruction's address is the block that holds it. */
  lemma BlockAtFindsInstruction(code: CodeItem, cfg: Cfg, i: nat)
    requires ValidCode(code) && IsCfgOf(code, cfg) && i < |code.instructions|
    ensures BlockAt(cfg, code.instructions[i].addr).Some?
    ensures var b := BlockAt(cfg, code.instructions[i].addr).value;
            b < |cfg.blocks| && code.instructions[i] in cfg.blocks[b].instructions
  {
    hide Wired, Leaders, Region, LowerBound, Laid;
    var addr, leaders := code.instructions[i].addr, Starts(cfg.blocks);
    var below := LeadersUpTo(cfg, addr);
    Placed(code, cfg, i);
    assert leaders[0] in below;
    var g := Greatest(below);
    assert g in leaders;
    var c :| 0 <= c < |leaders| && leaders[c] == g;
    HomeIsHome(leaders, addr);
    var b := HomeOf(code, cfg, i);
    assert leaders[b] in below;
    assert c == b;
    assert At(cfg, code.instructions[i], b, i - Lo(code, cfg, b));
    assert BlockAt(cfg, addr) == Some(b);
  }

  /** Predecessors and successors are converse, in the full view and in the normal-flow view. */
  lemma ViewsAreConverse(code: CodeItem, cfg: Cfg, p: nat, d: nat)
    requires ValidCode(code) && IsCfgOf(code, cfg) && p < |cfg.blocks| && d < |cfg.blocks|
    ensures p in cfg.blocks[d].predecessors <==> HasEdgeTo(cfg.blocks[p].successors, d)
    ensures p in NormalPredecessors(cfg, d) <==> HasNormalEdgeTo(cfg.blocks[p].successors, d)
  {
    hide Wired, Leaders, Region, Laid;
    if HasNormalEdgeTo(cfg.blocks[p].successors, d) {
      var e :| e in cfg.blocks[p].successors && e.target == d && !e.kind.IsException();
      assert HasEdgeTo(cfg.blocks[p].successors, d);
    }
  }
}
