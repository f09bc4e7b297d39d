/**
 Edge lists in full: the successors of a switch entry by entry, and the
 handlers of a try, none dropped.
 */
module CfgEdges {
  import opened Basics
  import opened CodeModel
  import opened Cfg
  import opened CfgWalk
  import opened CfgTheorems

  /** Edge `e` of kind `kind` goes to the block that starts at `a`. */
  predicate EdgeTo(cfg: Cfg, e: Edge, kind: EdgeKind, a: nat) {
    e.kind == kind && e.target < |cfg.blocks| && cfg.blocks[e.target].startAddr == a
  }

  lemma LeaderHasBlock(code: CodeItem, cfg: Cfg, a: nat)
    requires ValidCode(code) && IsCfgOf(code, cfg) && a in Leaders(code)
    ensures a in cfg.addrToBlock && cfg.addrToBlock[a] < |cfg.blocks| && cfg.blocks[cfg.addrToBlock[a]].startAddr == a
  {
    hide Wired, Leaders, Region, Laid;
    var leaders := Starts(cfg.blocks);
    assert a in Elems(leaders);
    var c :| 0 <= c < |leaders| && leaders[c] == a;
    AddrMapFacts(code, cfg);
    assert PlacesAt(cfg.addrToBlock, cfg.blocks[c].startAddr, c);
  }

  /** When every target has a block, a table of n entries gives n edges, in table order. */
  lemma {:induction false} CaseEdgesFull(m: map<nat, nat>, keys: seq<int>, targets: seq<nat>)
    requires |keys| == |targets| && forall a :: a in targets ==> a in m
    ensures |CaseEdges(m, keys, targets)| == |keys|
    ensures forall j :: 0 <= j < |keys| ==> CaseEdges(m, keys, targets)[j] == Edge(m[targets[j]], SwitchCase(keys[j]))
    decreases |keys|
  {
    if keys != [] {
      var n := |keys| - 1;
      CaseEdgesFull(m, keys[..n], targets[..n]);
    }
  }

  /**
   The successors of the block a switch ends: the default edge, then one case edge per table entry in
   table order, then only exception edges.
   */
  lemma SwitchSuccessors(code: CodeItem, cfg: Cfg, i: nat)
    requires ValidCode(code) && IsCfgOf(code, cfg) && i < |code.instructions| && IsSwitch(code.instructions[i].op)
    requires |TableKeys(code, code.instructions[i])| == |SwitchTargets(code, code.instructions[i])|
    ensures |cfg.blocks| > 0
    ensures var x := code.instructions[i];
            var keys, targets := TableKeys(code, x), SwitchTargets(code, x);
            var block := cfg.blocks[HomeOf(code, cfg, i)];
            var edges := block.successors;
            && block.instructions != [] && block.instructions[|block.instructions| - 1] == x
            && |edges| >= 1 + |keys|
            && EdgeTo(cfg, edges[0], SwitchDefault, x.End())
            && (forall j :: 0 <= j < |keys| ==> EdgeTo(cfg, edges[1 + j], SwitchCase(keys[j]), targets[j]))
            && (forall k :: 1 + |keys| <= k < |edges| ==> edges[k].kind.IsException())
  {
    hide IsCfgOf, Laid, Leaders, TableKeys, SwitchTargets, CaseEdges, ExceptionEdges, LowerBound, HomeOf;
    var x, m := code.instructions[i], cfg.addrToBlock;
    var keys, targets := TableKeys(code, x), SwitchTargets(code, x);
    Placed(code, cfg, i);
    var b := HomeOf(code, cfg, i);
    SwitchLeaders(code, i);
    LastOfBlock(code, cfg, i, x.End());
    BlockSlice(code, cfg, b);
    var block := cfg.blocks[b];
    assert block.instructions[|block.instructions| - 1] == x;
    LeaderHasBlock(code, cfg, x.End());
    forall a | a in targets ensures a in m && m[a] < |cfg.blocks| && cfg.blocks[m[a]].startAddr == a {
      LeaderHasBlock(code, cfg, a);
    }
    CaseEdgesFull(m, keys, targets);
    BlockSuccessors(code, cfg, b);
    var normal := NormalEdges(code, m, block.instructions);
    assert normal == [Edge(m[x.End()], SwitchDefault)] + CaseEdges(m, keys, targets);
    forall k | 1 + |keys| <= k < |block.successors| ensures block.successors[k].kind.IsException() {
      var e := ExceptionEdges(code, m, block.startAddr, block.instructions, code.tries)[k - |normal|];
      assert block.successors[k] == e;
      ExceptionKind(code, m, block.startAddr, block.instructions, e);
    }
  }

  lemma ExceptionKind(code: CodeItem, m: map<nat, nat>, startAddr: nat, insns: seq<Instruction>, e: Edge)
    requires ValidCode(code) && e in ExceptionEdges(code, m, startAddr, insns, code.tries)
    ensures e.kind.IsException()
  {
    hide ExceptionEdges, HandlerEdges, Laid;
    ExceptionEdgeOrigin(code, m, startAddr, insns, code.tries, e);
    var t :| t in code.tries && Overlaps(t, startAddr, insns) && e in HandlerEdges(m, code.catchHandlers[t.handlerIdx]);
    HandlerEdgeKinds(m, code.catchHandlers[t.handlerIdx], e);
  }

  lemma SwitchLeaders(code: CodeItem, i: nat)
    requires ValidCode(code) && i < |code.instructions| && IsSwitch(code.instructions[i].op)
    ensures var x := code.instructions[i];
            && x.addr < x.End() && x.End() in Leaders(code)
            && forall a :: a in SwitchTargets(code, x) ==> a in Leaders(code)
  {
    hide SwitchTargets;
    var x := code.instructions[i];
    assert x.End() in InsnLeaders(code, x);
    forall a | a in SwitchTargets(code, x) ensures a in Leaders(code) {
      SwitchTargetsNeedTarget(code, x);
      assert a in InsnLeaders(code, x);
    }
  }

  lemma SwitchTargetsNeedTarget(code: CodeItem, x: Instruction)
    ensures SwitchTargets(code, x) != [] ==> x.target.Some?
  {
  }

  /** Every instruction that meets a try is in a block with an edge to each of the try's handlers. */
  lemma TryHandlersReached(code: CodeItem, cfg: Cfg, i: nat, t: TryItem, kind: EdgeKind, a: nat)
    requires ValidCode(code) && IsCfgOf(code, cfg) && i < |code.instructions|
    requires t in code.tries && Covers(t, code.instructions[i]) && InHandler(code.catchHandlers[t.handlerIdx], kind, a)
    ensures |cfg.blocks| > 0
    ensures var b := HomeOf(code, cfg, i);
            && code.instructions[i] in cfg.blocks[b].instructions
            && exists e :: e in cfg.blocks[b].successors && EdgeTo(cfg, e, kind, a)
  {
    hide IsCfgOf, Laid, Leaders, HandlerEdges, ExceptionEdges, NormalEdges, Overlaps, LowerBound, HomeOf;
    Placed(code, cfg, i);
    var b := HomeOf(code, cfg, i);
    BlockSlice(code, cfg, b);
    assert code.instructions[i] == cfg.blocks[b].instructions[i - Lo(code, cfg, b)];
    HandlerIsLeader(code, t.handlerIdx, kind, a);
    LeaderHasBlock(code, cfg, a);
    OverlapsIfCovers(code, cfg, i, t);
    var e := Edge(cfg.addrToBlock[a], kind);
    HandlerEdgeExists(cfg.addrToBlock, code.catchHandlers[t.handlerIdx], kind, a);
    ExceptionEdgeExists(code, cfg.addrToBlock, cfg.blocks[b].startAddr, cfg.blocks[b].instructions, code.tries, t, e);
    BlockSuccessors(code, cfg, b);
    assert e in cfg.blocks[b].successors && EdgeTo(cfg, e, kind, a);
  }

  /** A region lists one edge per handler of its try, in handler order: typed catches, then the catch-all. */
  lemma RegionIsComplete(code: CodeItem, cfg: Cfg, n: nat)
    requires ValidCode(code) && IsCfgOf(code, cfg) && n < |code.tries|
    ensures var t := code.tries[n];
            var h := code.catchHandlers[t.handlerIdx];
            var region := cfg.exceptionRegions[n];
            && region.startAddr == t.startAddr && region.endAddr == t.End()
            && |region.handlerBlocks| == |h.catches| + (if h.catchAllAddr.Some? then 1 else 0)
            && (forall j :: 0 <= j < |h.catches| ==>
                  EdgeTo(cfg, region.handlerBlocks[j], ExceptionHandler(h.catches[j].exceptionType),
                         h.catches[j].handlerAddr))
            && (h.catchAllAddr.Some? ==>
                  EdgeTo(cfg, region.handlerBlocks[|h.catches|], ExceptionCatchAll, h.catchAllAddr.value))
  {
    hide Wired, Laid, Leaders, TypedEdges, LeaderList, IsAddrMap;
    var t := code.tries[n];
    assert t in code.tries;
    var h, m := code.catchHandlers[t.handlerIdx], cfg.addrToBlock;
    forall c | c in h.catches
      ensures c.handlerAddr in m && m[c.handlerAddr] < |cfg.blocks|
      ensures cfg.blocks[m[c.handlerAddr]].startAddr == c.handlerAddr
    {
      assert TypedCatch(c.exceptionType, c.handlerAddr) == c;
      HandlerIsLeader(code, t.handlerIdx, ExceptionHandler(c.exceptionType), c.handlerAddr);
      LeaderHasBlock(code, cfg, c.handlerAddr);
    }
    if h.catchAllAddr.Some? {
      HandlerIsLeader(code, t.handlerIdx, ExceptionCatchAll, h.catchAllAddr.value);
      LeaderHasBlock(code, cfg, h.catchAllAddr.value);
    }
    TypedEdgesFull(m, h.catches);
  }

  lemma {:induction false} TypedEdgesFull(m: map<nat, nat>, catches: seq<TypedCatch>)
    requires forall c :: c in catches ==> c.handlerAddr in m
    ensures |TypedEdges(m, catches)| == |catches|
    ensures forall j :: 0 <= j < |catches| ==>
              TypedEdges(m, catches)[j] == Edge(m[catches[j].handlerAddr], ExceptionHandler(catches[j].exceptionType))
    decreases |catches|
  {
    if catches != [] {
      TypedEdgesFull(m, catches[..|catches| - 1]);
    }
  }

  // ----- the order of successors -----

  /** All edges from index `k` on are exception edges. */
  predicate OnlyExceptionsFrom(edges: seq<Edge>, k: nat) {
    forall j :: k <= j < |edges| ==> edges[j].kind.IsException()
  }

  lemma ExceptionTail(code: CodeItem, cfg: Cfg, b: nat)
    requires ValidCode(code) && IsCfgOf(code, cfg) && b < |cfg.blocks|
    ensures var block := cfg.blocks[b];
            var normal := NormalEdges(code, cfg.addrToBlock, block.instructions);
            normal <= block.successors && OnlyExceptionsFrom(block.successors, |normal|)
  {
    hide IsCfgOf, NormalEdges, ExceptionEdges, Laid;
    BlockSuccessors(code, cfg, b);
    var block, m := cfg.blocks[b], cfg.addrToBlock;
    var normal := NormalEdges(code, m, block.instructions);
    forall k | |normal| <= k < |block.successors| ensures block.successors[k].kind.IsException() {
      var e := ExceptionEdges(code, m, block.startAddr, block.instructions, code.tries)[k - |normal|];
      assert block.successors[k] == e;
      ExceptionKind(code, m, block.startAddr, block.instructions, e);
    }
  }

  /**
   The successors of a block that does not end in a switch: after an if the next instruction and then the
   target, after a goto the target, after a return or throw nothing, after any other instruction what
   follows it if that starts a block; then only exception edges.
   */
  lemma SuccessorsInOrder(code: CodeItem, cfg: Cfg, b: nat)
    requires ValidCode(code) && IsCfgOf(code, cfg) && b < |cfg.blocks| && cfg.blocks[b].instructions != []
    ensures var block := cfg.blocks[b];
            var x, edges := block.instructions[|block.instructions| - 1], block.successors;
            && (IsConditionalBranch(x.op) && x.target.Some? ==>
                  && |edges| >= 2 && EdgeTo(cfg, edges[0], FallThrough, x.End())
                  && EdgeTo(cfg, edges[1], Branch, x.target.value) && OnlyExceptionsFrom(edges, 2))
            && (IsUnconditionalBranch(x.op) && x.target.Some? ==>
                  |edges| >= 1 && EdgeTo(cfg, edges[0], Branch, x.target.value) && OnlyExceptionsFrom(edges, 1))
            && (IsTerminal(x.op) ==> OnlyExceptionsFrom(edges, 0))
            && (IsPlain(x.op) && x.End() in Leaders(code) ==>
                  |edges| >= 1 && EdgeTo(cfg, edges[0], FallThrough, x.End()) && OnlyExceptionsFrom(edges, 1))
            && (IsPlain(x.op) && x.End() !in Leaders(code) ==> OnlyExceptionsFrom(edges, 0))
  {
    hide IsCfgOf, Leaders, Laid, OnlyExceptionsFrom, CaseEdges, SwitchTargets, TableKeys;
    ExceptionTail(code, cfg, b);
    var block, m := cfg.blocks[b], cfg.addrToBlock;
    var x := block.instructions[|block.instructions| - 1];
    BlockInsn(code, cfg, b, |block.instructions| - 1);
    MapKnowsLeaders(code, cfg);
    if IsBranch(x.op) && !IsSwitch(x.op) && x.target.Some? {
      BranchLeaders(code, x);
      LeaderHasBlock(code, cfg, x.target.value);
      LeaderHasBlock(code, cfg, x.End());
    } else if IsPlain(x.op) && x.End() in Leaders(code) {
      LeaderHasBlock(code, cfg, x.End());
    }
  }

  lemma BlockInsn(code: CodeItem, cfg: Cfg, b: nat, k: nat)
    requires ValidCode(code) && IsCfgOf(code, cfg) && b < |cfg.blocks| && k < |cfg.blocks[b].instructions|
    ensures cfg.blocks[b].instructions[k] in code.instructions
  {
    hide IsCfgOf, LowerBound;
    BlockSlice(code, cfg, b);
  }

  lemma MapKnowsLeaders(code: CodeItem, cfg: Cfg)
    requires ValidCode(code) && IsCfgOf(code, cfg)
    ensures cfg.addrToBlock.Keys == Leaders(code)
  {
    hide Wired, Region, Laid, Leaders;
  }

  lemma BranchLeaders(code: CodeItem, x: Instruction)
    requires x in code.instructions && IsBranch(x.op) && !IsSwitch(x.op) && x.target.Some?
    ensures x.target.value in Leaders(code) && x.End() in Leaders(code)
  {
    hide SwitchTargets;
    var i :| 0 <= i < |code.instructions| && code.instructions[i] == x;
    assert x.target.value in InsnLeaders(code, x) && x.End() in InsnLeaders(code, x);
    assert x.target.value in InsnLeadersUpTo(code, |code.instructions|);
    assert x.End() in InsnLeadersUpTo(code, |code.instructions|);
  }

  /** Handlers of a try, the catch-all included. */
  function HandlerCount(h: CatchHandler): nat {
    |h.catches| + if h.catchAllAddr.Some? then 1 else 0
  }

  /** Handlers of those of the first `n` tries that meet the block. */
  function HandlersBefore(code: CodeItem, block: BasicBlock, n: nat): nat
    requires ValidCode(code) && n <= |code.tries|
  {
    if n == 0 then 0
    else
      HandlersBefore(code, block, n - 1) +
      if Overlaps(code.tries[n - 1], block.startAddr, block.instructions)
      then HandlerCount(code.catchHandlers[code.tries[n - 1].handlerIdx]) else 0
  }

  /** The edges from index `k` on are those to the handlers of `h`, in order, the catch-all last. */
  predicate HandlerEdgesAt(cfg: Cfg, edges: seq<Edge>, k: nat, h: CatchHandler) {
    && k + HandlerCount(h) <= |edges|
    && (forall j :: 0 <= j < |h.catches| ==>
          EdgeTo(cfg, edges[k + j], ExceptionHandler(h.catches[j].exceptionType), h.catches[j].handlerAddr))
    && (h.catchAllAddr.Some? ==> EdgeTo(cfg, edges[k + |h.catches|], ExceptionCatchAll, h.catchAllAddr.value))
  }

  lemma HandlerEdgesFull(code: CodeItem, cfg: Cfg, n: nat)
    requires ValidCode(code) && IsCfgOf(code, cfg) && n < |code.catchHandlers|
    ensures var h := code.catchHandlers[n];
            var edges := HandlerEdges(cfg.addrToBlock, h);
            |edges| == HandlerCount(h) && HandlerEdgesAt(cfg, edges, 0, h)
  {
    hide IsCfgOf, Laid, Leaders, TypedEdges;
    var h, m := code.catchHandlers[n], cfg.addrToBlock;
    forall c | c in h.catches
      ensures c.handlerAddr in m && m[c.handlerAddr] < |cfg.blocks|
      ensures cfg.blocks[m[c.handlerAddr]].startAddr == c.handlerAddr
    {
      assert TypedCatch(c.exceptionType, c.handlerAddr) == c;
      HandlerIsLeader(code, n, ExceptionHandler(c.exceptionType), c.handlerAddr);
      LeaderHasBlock(code, cfg, c.handlerAddr);
    }
    if h.catchAllAddr.Some? {
      HandlerIsLeader(code, n, ExceptionCatchAll, h.catchAllAddr.value);
      LeaderHasBlock(code, cfg, h.catchAllAddr.value);
    }
    TypedEdgesFull(m, h.catches);
  }

  lemma HandlerEdgesShift(cfg: Cfg, part: seq<Edge>, before: seq<Edge>, after: seq<Edge>, k: nat, h: CatchHandler)
    requires HandlerEdgesAt(cfg, part, k, h)
    ensures HandlerEdgesAt(cfg, before + part + after, |before| + k, h)
  {
    var all := before + part + after;
    assert forall i :: 0 <= i < |part| ==> all[|before| + i] == part[i];
    forall j | 0 <= j < |h.catches|
      ensures EdgeTo(cfg, all[|before| + k + j], ExceptionHandler(h.catches[j].exceptionType), h.catches[j].handlerAddr)
    {
      assert all[|before| + (k + j)] == part[k + j];
    }
  }

  lemma {:induction false} ExceptionEdgesAre(code: CodeItem, cfg: Cfg, block: BasicBlock, n: nat, i: nat)
    requires ValidCode(code) && IsCfgOf(code, cfg) && i <= n <= |code.tries|
    ensures forall t :: t in code.tries[..n] ==> t.handlerIdx < |code.catchHandlers|
    ensures var edges := ExceptionEdges(code, cfg.addrToBlock, block.startAddr, block.instructions, code.tries[..n]);
            && |edges| == HandlersBefore(code, block, n)
            && (i < n && Overlaps(code.tries[i], block.startAddr, block.instructions) ==>
                  HandlerEdgesAt(cfg, edges, HandlersBefore(code, block, i),
                                 code.catchHandlers[code.tries[i].handlerIdx]))
    decreases n
  {
    hide IsCfgOf, Laid, Overlaps, HandlerEdges, HandlerEdgesAt;
    forall t | t in code.tries[..n] ensures t in code.tries {
    }
    if n > 0 {
      var t, m := code.tries[n - 1], cfg.addrToBlock;
      assert code.tries[..n][..n - 1] == code.tries[..n - 1];
      ExceptionEdgesAre(code, cfg, block, n - 1, if i < n then i else n - 1);
      var init := ExceptionEdges(code, m, block.startAddr, block.instructions, code.tries[..n - 1]);
      var own := HandlerEdges(m, code.catchHandlers[t.handlerIdx]);
      assert t in code.tries;
      HandlerEdgesFull(code, cfg, t.handlerIdx);
      var last := if Overlaps(t, block.startAddr, block.instructions) then own else [];
      if i < n - 1 && Overlaps(code.tries[i], block.startAddr, block.instructions) {
        HandlerEdgesShift(cfg, init, [], last, HandlersBefore(code, block, i),
                          code.catchHandlers[code.tries[i].handlerIdx]);
        assert [] + init + last == init + last;
      } else if i == n - 1 && Overlaps(t, block.startAddr, block.instructions) {
        HandlerEdgesShift(cfg, own, init, [], 0, code.catchHandlers[t.handlerIdx]);
        assert init + own + [] == init + own;
      }
    }
  }

  /**
   The exception edges of a block, none dropped and none twice: for every try that meets it, in table order, one
   edge per handler in handler order with the catch-all last.
   */
  lemma TryEdgesInOrder(code: CodeItem, cfg: Cfg, b: nat, i: nat)
    requires ValidCode(code) && IsCfgOf(code, cfg) && b < |cfg.blocks| && i <= |code.tries|
    ensures var block := cfg.blocks[b];
            var all := HandlersBefore(code, block, |code.tries|);
            && all <= |block.successors| && OnlyExceptionsFrom(block.successors, |block.successors| - all)
            && (forall k :: 0 <= k < |block.successors| - all ==> !block.successors[k].kind.IsException())
            && (i < |code.tries| && Overlaps(code.tries[i], block.startAddr, block.instructions) ==>
                  HandlerEdgesAt(cfg, block.successors, |block.successors| - all + HandlersBefore(code, block, i),
                                 code.catchHandlers[code.tries[i].handlerIdx]))
  {
    hide IsCfgOf, Laid, Overlaps, HandlerEdgesAt, NormalEdges, ExceptionEdges, OnlyExceptionsFrom;
    var block, m := cfg.blocks[b], cfg.addrToBlock;
    assert code.tries[..|code.tries|] == code.tries;
    ExceptionEdgesAre(code, cfg, block, |code.tries|, i);
    ExceptionTail(code, cfg, b);
    BlockSuccessors(code, cfg, b);
    NormalKinds(code, m, block.instructions);
    var normal := NormalEdges(code, m, block.instructions);
    var exceptions := ExceptionEdges(code, m, block.startAddr, block.instructions, code.tries);
    if i < |code.tries| && Overlaps(code.tries[i], block.startAddr, block.instructions) {
      HandlerEdgesShift(cfg, exceptions, normal, [], HandlersBefore(code, block, i),
                        code.catchHandlers[code.tries[i].handlerIdx]);
      assert normal + exceptions + [] == normal + exceptions;
    }
  }

  lemma NormalKinds(code: CodeItem, m: map<nat, nat>, insns: seq<Instruction>)
    ensures forall e :: e in NormalEdges(code, m, insns) ==> !e.kind.IsException()
  {
    hide CaseEdges, TableKeys, SwitchTargets;
    if insns != [] {
      var x := insns[|insns| - 1];
      forall e | e in CaseEdges(m, TableKeys(code, x), SwitchTargets(code, x)) ensures !e.kind.IsException() {
        CaseEdgeOrigin(m, TableKeys(code, x), SwitchTargets(code, x), e);
      }
    }
  }
}
