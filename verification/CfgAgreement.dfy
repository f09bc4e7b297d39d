/**
 The whole oracle, and the exact condition under which it and the graph builder
 give the same shape for the same decoded method.
 */
module CfgAgreement {
  import opened Basics
  import opened CodeModel
  import opened Cfg
  import opened CfgWalk
  import opened CfgTheorems
  import opened CfgOracle

  predicate AllKeysFit(code: CodeItem) {
    forall x :: x in code.instructions && IsSwitch(x.op) ==> KeysFit(code, x)
  }

  /** What the oracle's successful result is, for the leader list it used. */
  ghost predicate IsNaiveShape(code: CodeItem, leaders: seq<nat>, s: CfgShape)
    requires ValidCode(code)
  {
    && LeaderList(leaders) && Elems(leaders) == NaiveLeaders(code)
    && s.leaders == Elems(leaders) && s.entry == 0
    && IsBlockMap(code, leaders, s.blockInstructions)
    && forall e :: e in s.edges <==> NormalAmong(code, leaders, |leaders|, e) || Thrown(code, leaders, |code.tries|, e)
  }

  const EMPTY_SHAPE := CfgShape({}, {}, 0, map[])

  /** What the oracle returns for a method of `insnsSize` code units; `None` is its key-overflow error. */
  ghost predicate IsNaiveResult(code: CodeItem, insnsSize: nat, r: Option<CfgShape>)
    requires ValidCode(code)
  {
    if insnsSize == 0 then r == Some(EMPTY_SHAPE)
    else
      && (r.Some? <==> AllKeysFit(code))
      && (r.Some? ==> exists leaders :: IsNaiveShape(code, leaders, r.value))
  }

  /** An instruction whose end is a leader is the last of its block. */
  lemma EndsBlock(code: CodeItem, leaders: seq<nat>, i: nat)
    requires ValidCode(code) && LeaderList(leaders) && i < |code.instructions|
    requires code.instructions[i].End() in leaders
    ensures var insns := BlockContents(code.instructions, leaders, Home(leaders, code.instructions[i].addr));
            insns != [] && insns[|insns| - 1] == code.instructions[i]
  {
    hide LowerBound, Home;
    var insns, x := code.instructions, code.instructions[i];
    var b := Home(leaders, x.addr);
    HomeIsHome(leaders, x.addr);
    var c :| 0 <= c < |leaders| && leaders[c] == x.End();
    assert c > b && leaders[b + 1] <= x.End();
    LowerBoundSplits(insns, leaders[b]);
    LowerBoundSplits(insns, leaders[b + 1]);
    LowerBoundMonotone(insns, leaders[b], leaders[b + 1]);
    if i + 1 < |insns| {
      assert x.End() <= insns[i + 1].addr;
    }
    assert LowerBound(insns, leaders[b + 1]) == i + 1;
  }

  lemma FittingBlocks(code: CodeItem, leaders: seq<nat>)
    requires ValidCode(code) && LeaderList(leaders) && Elems(leaders) == NaiveLeaders(code)
    ensures AllKeysFit(code) <==> forall b :: 0 <= b < |leaders| ==> EndsFitting(code, leaders, b)
  {
    hide BlockContents, KeysFit, InsnLeaders, NaiveLeaders, Home;
    forall b | 0 <= b < |leaders| && AllKeysFit(code) ensures EndsFitting(code, leaders, b) {
      BlockInsns(code, leaders, b);
    }
    if forall b :: 0 <= b < |leaders| ==> EndsFitting(code, leaders, b) {
      forall x | x in code.instructions && IsSwitch(x.op) ensures KeysFit(code, x) {
        var i :| 0 <= i < |code.instructions| && code.instructions[i] == x;
        OwnLeaders(code, leaders, x);
        SwitchEndIsLeader(code, x);
        EndsBlock(code, leaders, i);
        assert EndsFitting(code, leaders, Home(leaders, x.addr));
      }
    }
  }

  lemma SwitchEndIsLeader(code: CodeItem, x: Instruction)
    requires IsSwitch(x.op)
    ensures x.End() in InsnLeaders(code, x)
  {
  }

  /** `naive_cfg` on a decoded method; `None` is its key-overflow error. */
  method NaiveCfg(code: CodeItem, insnsSize: nat) returns (r: Option<CfgShape>)
    requires ValidCode(code) && TablesPaired(code.payloads)
    ensures IsNaiveResult(code, insnsSize, r)
  {
    if insnsSize == 0 {
      return Some(EMPTY_SHAPE);
    }
    hide NaiveLeaders, NormalAmong, Thrown, EndsFitting, AllKeysFit, IsBlockMap, Laid;
    var leaders := NaiveFindLeaders(code);
    var blocks := NaiveBlocks(code, leaders);
    FittingBlocks(code, leaders);
    var edges := NaiveNormalEdges(code, leaders, blocks);
    if edges.None? {
      return None;
    }
    var all := NaiveExceptionEdges(code, leaders, blocks, edges.value);
    r := Some(CfgShape(Elems(leaders), all, 0, blocks));
    assert IsNaiveShape(code, leaders, r.value);
  }

  // ----- agreement -----

  /** Every handler address is a leader for the oracle too, though it looks only at handlers that tries refer to. */
  predicate HandlersLead(code: CodeItem)
    requires ValidCode(code)
  {
    forall n :: 0 <= n < |code.catchHandlers| ==> HandlerLeaders(code.catchHandlers[n]) <= NaiveLeaders(code)
  }

  /** No block without instructions, up to the next leader, meets a try region that has a handler. */
  predicate NoEmptyBlockInTry(code: CodeItem, leaders: seq<nat>)
    requires ValidCode(code) && LeaderList(leaders)
  {
    forall t, b :: t in code.tries && 0 <= b < |leaders| - 1 && BlockContents(code.instructions, leaders, b) == [] ==>
      HandlerLeaders(code.catchHandlers[t.handlerIdx]) == {} || !(leaders[b] < t.End() && leaders[b + 1] > t.startAddr)
  }

  lemma HandlersOfTriesLead(code: CodeItem)
    requires ValidCode(code)
    requires forall n :: 0 <= n < |code.catchHandlers| ==> UsesHandler(code, n)
    ensures HandlersLead(code)
  {
    hide HandlerLeaders, NaiveInsnLeadersUpTo, Laid;
    forall n, a | 0 <= n < |code.catchHandlers| && a in HandlerLeaders(code.catchHandlers[n])
      ensures a in NaiveLeaders(code)
    {
      assert UsesHandler(code, n);
      var t :| t in code.tries && t.handlerIdx == n;
      var i :| 0 <= i < |code.tries| && code.tries[i] == t;
      assert a in TryLeadersUpTo(code, |code.tries|);
    }
  }

  lemma LeadersAgree(code: CodeItem)
    requires ValidCode(code)
    ensures HandlersLead(code) <==> Leaders(code) == NaiveLeaders(code)
  {
    hide HandlerLeaders, InsnLeadersUpTo, NaiveInsnLeadersUpTo, TryLeadersUpTo, Laid;
    AllInsnLeadersAgree(code, |code.instructions|);
    NaiveSubset(code);
    if HandlersLead(code) {
      forall a | a in HandlerLeadersUpTo(code, |code.catchHandlers|) ensures a in NaiveLeaders(code) {
        var n :| 0 <= n < |code.catchHandlers| && a in HandlerLeaders(code.catchHandlers[n]);
      }
      assert Leaders(code) <= NaiveLeaders(code);
    }
    if Leaders(code) == NaiveLeaders(code) {
      forall n, a | 0 <= n < |code.catchHandlers| && a in HandlerLeaders(code.catchHandlers[n])
        ensures a in NaiveLeaders(code)
      {
        assert a in HandlerLeadersUpTo(code, |code.catchHandlers|);
      }
    }
  }

  lemma {:induction false} AscendingUnique(a: seq<nat>, b: seq<nat>)
    requires StrictlyAscending(a) && StrictlyAscending(b) && Elems(a) == Elems(b)
    ensures a == b
  {
    SomeElems(a);
    SomeElems(b);
    if a != [] {
      assert a[0] in Elems(b) && b[0] in Elems(a);
      var x := a[0];
      assert b[0] == x;
      forall y ensures y in Elems(a[1..]) <==> y in Elems(b[1..]) {
        TailElems(a, y);
        TailElems(b, y);
      }
      assert Elems(a[1..]) == Elems(b[1..]);
      AscendingUnique(a[1..], b[1..]);
    }
  }

  lemma SomeElems(a: seq<nat>)
    ensures a != [] <==> Elems(a) != {}
  {
    if a != [] {
      assert a[0] in Elems(a);
    }
  }

  lemma TailElems(a: seq<nat>, y: nat)
    requires StrictlyAscending(a) && a != []
    ensures y in Elems(a[1..]) <==> y in Elems(a) && y != a[0]
  {
    assert a == [a[0]] + a[1..];
  }

  lemma Distinct(code: CodeItem, cfg: Cfg)
    requires ValidCode(code) && IsCfgOf(code, cfg)
    ensures DistinctStarts(cfg.blocks)
  {
    hide Wired, Leaders, Region, Laid;
    var leaders := Starts(cfg.blocks);
    forall i, j | 0 <= i < j < |cfg.blocks| ensures cfg.blocks[i].startAddr != cfg.blocks[j].startAddr {
      assert leaders[i] < leaders[j];
    }
  }

  ghost predicate ShapeFrom(code: CodeItem, cfg: Cfg, b: nat, e: OracleEdge)
    requires ValidCode(code) && b < |cfg.blocks|
  {
    var block := cfg.blocks[b];
    && e.from == block.startAddr && e.to in Starts(cfg.blocks)
    && EdgeMeaning(code, block.startAddr, block.instructions, e.kind, e.to)
  }

  /** The edges of the builder's shape, by meaning. */
  lemma ShapeEdges(code: CodeItem, cfg: Cfg, e: OracleEdge)
    requires ValidCode(code) && IsCfgOf(code, cfg) && DistinctStarts(cfg.blocks)
    ensures e in ToShape(cfg).edges <==> exists b :: 0 <= b < |cfg.blocks| && ShapeFrom(code, cfg, b, e)
  {
    hide IsCfgOf, EdgeMeaning, Laid;
    var starts := Starts(cfg.blocks);
    if e in ToShape(cfg).edges {
      var b, f :| 0 <= b < |cfg.blocks| && f in cfg.blocks[b].successors && f.target < |cfg.blocks|
                  && e == OracleEdge(cfg.blocks[b].startAddr, cfg.blocks[f.target].startAddr, f.kind);
      EdgesExact(code, cfg, b, f);
      assert starts[f.target] == e.to;
      assert ShapeFrom(code, cfg, b, e);
    }
    if b :| 0 <= b < |cfg.blocks| && ShapeFrom(code, cfg, b, e) {
      var c :| 0 <= c < |starts| && starts[c] == e.to;
      EdgesExact(code, cfg, b, Edge(c, e.kind));
      assert Edge(c, e.kind) in cfg.blocks[b].successors;
    }
  }

  lemma MeaningFromBlock(code: CodeItem, cfg: Cfg, b: nat, e: OracleEdge)
    requires ValidCode(code) && IsCfgOf(code, cfg) && b < |cfg.blocks|
    requires NoEmptyBlockInTry(code, Starts(cfg.blocks))
    ensures var leaders := Starts(cfg.blocks);
            ShapeFrom(code, cfg, b, e) <==>
            NormalFrom(code, leaders, b, e) || exists t :: t in code.tries && ThrownFrom(code, leaders, t, b, e)
  {
    hide Leaders, NormalEdges, ExceptionEdges, Region, BlockContents, Laid, Continues;
    var leaders := Starts(cfg.blocks);
    assert leaders[b] == cfg.blocks[b].startAddr;
    assert cfg.blocks[b].instructions == BlockContents(code.instructions, leaders, b);
    forall t | t in code.tries && ThrownFrom(code, leaders, t, b, e)
      ensures Overlaps(t, leaders[b], cfg.blocks[b].instructions)
    {
      SomeHandler(code.catchHandlers[t.handlerIdx], e.kind, e.to);
    }
    forall t | t in code.tries && Overlaps(t, leaders[b], cfg.blocks[b].instructions)
      ensures NaiveOverlaps(code, leaders, t, b)
    {
    }
  }

  lemma SomeHandler(h: CatchHandler, kind: EdgeKind, a: nat)
    requires InHandler(h, kind, a)
    ensures HandlerLeaders(h) != {} && kind.IsException()
  {
    if kind.ExceptionHandler? {
      assert TypedCatch(kind.exceptionType, a) in h.catches;
      assert a in HandlerLeaders(h);
    } else {
      assert a in HandlerLeaders(h);
    }
  }

  /** With the same leaders and no empty block under a try, the edge sets are the same. */
  lemma EdgesAgree(code: CodeItem, cfg: Cfg, s: CfgShape)
    requires ValidCode(code) && IsCfgOf(code, cfg) && DistinctStarts(cfg.blocks)
    requires IsNaiveShape(code, Starts(cfg.blocks), s) && NoEmptyBlockInTry(code, Starts(cfg.blocks))
    ensures s.edges == ToShape(cfg).edges
  {
    hide IsCfgOf, ShapeFrom, NormalFrom, ThrownFrom, NoEmptyBlockInTry, Laid, ToShape, IsBlockMap, NaiveLeaders;
    var leaders := Starts(cfg.blocks);
    forall e ensures e in s.edges <==> e in ToShape(cfg).edges {
      ShapeEdges(code, cfg, e);
      forall b | 0 <= b < |cfg.blocks|
        ensures ShapeFrom(code, cfg, b, e) <==>
                NormalFrom(code, leaders, b, e) || exists t :: t in code.tries && ThrownFrom(code, leaders, t, b, e)
      {
        MeaningFromBlock(code, cfg, b, e);
      }
      if Thrown(code, leaders, |code.tries|, e) {
        var i, b :| 0 <= i < |code.tries| && 0 <= b < |leaders| && ThrownFrom(code, leaders, code.tries[i], b, e);
        assert code.tries[i] in code.tries;
        assert ShapeFrom(code, cfg, b, e);
      }
      if b :| 0 <= b < |cfg.blocks| && ShapeFrom(code, cfg, b, e) {
        if t :| t in code.tries && ThrownFrom(code, leaders, t, b, e) {
          var i :| 0 <= i < |code.tries| && code.tries[i] == t;
          assert ThrownFrom(code, leaders, code.tries[i], b, e);
        }
      }
    }
  }

  lemma BlockMapsAgree(code: CodeItem, cfg: Cfg, m: map<nat, seq<nat>>)
    requires ValidCode(code) && IsCfgOf(code, cfg) && DistinctStarts(cfg.blocks)
    requires IsBlockMap(code, Starts(cfg.blocks), m)
    ensures m == ToShape(cfg).blockInstructions
  {
    hide Leaders, NormalEdges, ExceptionEdges, Region, BlockContents, Laid, BlockAddrs;
    forall b | 0 <= b < |cfg.blocks|
      ensures cfg.blocks[b].startAddr in m && m[cfg.blocks[b].startAddr] == Addrs(cfg.blocks[b].instructions)
    {
      assert Starts(cfg.blocks)[b] == cfg.blocks[b].startAddr;
    }
    BlockAddrsIs(cfg.blocks, m);
  }

  /** An empty block under a try with a handler makes the oracle add an edge the builder does not have. */
  lemma EmptyBlockDisagrees(code: CodeItem, cfg: Cfg, s: CfgShape, t: TryItem, b: nat)
    requires ValidCode(code) && IsCfgOf(code, cfg) && DistinctStarts(cfg.blocks)
    requires IsNaiveShape(code, Starts(cfg.blocks), s)
    requires var leaders := Starts(cfg.blocks);
             && t in code.tries && b + 1 < |leaders| && BlockContents(code.instructions, leaders, b) == []
             && HandlerLeaders(code.catchHandlers[t.handlerIdx]) != {} && leaders[b] < t.End() &&
                 leaders[b + 1] > t.startAddr
    ensures s.edges != ToShape(cfg).edges
  {
    hide Leaders, NormalEdges, ExceptionEdges, Region, BlockContents, Laid, NormalAmong, IsBlockMap;
    var leaders, h := Starts(cfg.blocks), code.catchHandlers[t.handlerIdx];
    var kind, a := HandlerWitness(h);
    var e := OracleEdge(leaders[b], a, kind);
    var i :| 0 <= i < |code.tries| && code.tries[i] == t;
    HandlerIsNaiveLeader(code, i, a);
    assert a in Elems(leaders);
    assert ThrownFrom(code, leaders, code.tries[i], b, e);
    assert e in s.edges;
    ShapeEdges(code, cfg, e);
    SomeHandler(h, kind, a);
    forall c | 0 <= c < |cfg.blocks| ensures !ShapeFrom(code, cfg, c, e) {
      assert leaders[c] == cfg.blocks[c].startAddr;
      if leaders[c] == leaders[b] {
        assert c == b;
        assert cfg.blocks[b].instructions == [];
      }
    }
  }

  lemma HandlerWitness(h: CatchHandler) returns (kind: EdgeKind, a: nat)
    requires HandlerLeaders(h) != {}
    ensures InHandler(h, kind, a) && a in HandlerLeaders(h)
  {
    if h.catches != [] {
      kind, a := ExceptionHandler(h.catches[0].exceptionType), h.catches[0].handlerAddr;
      assert h.catches[0] in h.catches;
    } else {
      kind, a := ExceptionCatchAll, h.catchAllAddr.value;
    }
  }

  lemma HandlerIsNaiveLeader(code: CodeItem, i: nat, a: nat)
    requires ValidCode(code) && i < |code.tries|
    requires a in HandlerLeaders(code.catchHandlers[code.tries[i].handlerIdx])
    ensures a in NaiveLeaders(code)
  {
    hide HandlerLeaders, NaiveInsnLeadersUpTo, Laid;
    assert a in TryLeadersUpTo(code, |code.tries|);
  }

  /** The condition under which builder and oracle agree, on a method of `insnsSize` units with these leaders. */
  predicate CanAgree(code: CodeItem, insnsSize: nat, leaders: seq<nat>)
    requires ValidCode(code) && (code.instructions != [] ==> LeaderList(leaders))
  {
    && (code.instructions == [] <==> insnsSize == 0)
    && (code.instructions != [] ==> AllKeysFit(code) && HandlersLead(code) && NoEmptyBlockInTry(code, leaders))
  }

  /**
   On the same decoded method the builder and the oracle give the same leaders,
   block contents, entry and edges if and only if: there are instructions unless
   there is no code at all, no packed key overflows, every handler address is a
   leader for the oracle, and no empty block lies under a try.
   */
  lemma OracleAgrees(code: CodeItem, insnsSize: nat, cfg: Cfg, r: Option<CfgShape>)
    requires ValidCode(code) && IsBuilt(code, cfg) && IsNaiveResult(code, insnsSize, r)
    ensures DistinctStarts(cfg.blocks) && (code.instructions != [] ==> LeaderList(Starts(cfg.blocks)))
    ensures r == Some(ToShape(cfg)) <==> CanAgree(code, insnsSize, Starts(cfg.blocks))
  {
    hide ToShape, IsCfgOf, AllKeysFit, HandlersLead, NoEmptyBlockInTry, IsNaiveShape, LeaderList, Laid;
    if code.instructions == [] {
      EmptyGraphShape(cfg);
      if insnsSize > 0 {
        NoSwitches(code);
        var leaders :| IsNaiveShape(code, leaders, r.value);
        NaiveShapeHasLeader(code, leaders, r.value);
      }
    } else {
      Distinct(code, cfg);
      StartsAreLeaders(code, cfg);
      if insnsSize == 0 {
        GraphShapeHasLeader(code, cfg);
      } else {
        BlocksAgree(code, insnsSize, cfg, r);
      }
    }
  }

  lemma EmptyGraphShape(cfg: Cfg)
    requires cfg == Cfg([], 0, [], map[])
    ensures ToShape(cfg) == EMPTY_SHAPE
  {
    assert ToShape(cfg).blockInstructions == map[];
  }

  lemma NoSwitches(code: CodeItem)
    requires code.instructions == []
    ensures AllKeysFit(code)
  {
  }

  lemma NaiveShapeHasLeader(code: CodeItem, leaders: seq<nat>, s: CfgShape)
    requires ValidCode(code) && IsNaiveShape(code, leaders, s)
    ensures 0 in s.leaders && s != EMPTY_SHAPE
  {
  }

  lemma StartsAreLeaders(code: CodeItem, cfg: Cfg)
    requires ValidCode(code) && IsCfgOf(code, cfg)
    ensures LeaderList(Starts(cfg.blocks))
  {
  }

  lemma GraphShapeHasLeader(code: CodeItem, cfg: Cfg)
    requires ValidCode(code) && IsCfgOf(code, cfg) && DistinctStarts(cfg.blocks)
    ensures ToShape(cfg) != EMPTY_SHAPE
  {
    hide Wired, Region, Laid;
    assert 0 in Elems(Starts(cfg.blocks));
  }

  /** Agreement on a method that has instructions. */
  lemma BlocksAgree(code: CodeItem, insnsSize: nat, cfg: Cfg, r: Option<CfgShape>)
    requires ValidCode(code) && IsCfgOf(code, cfg) && insnsSize > 0 && IsNaiveResult(code, insnsSize, r)
    ensures DistinctStarts(cfg.blocks) && LeaderList(Starts(cfg.blocks))
    ensures r == Some(ToShape(cfg)) <==>
            AllKeysFit(code) && HandlersLead(code) && NoEmptyBlockInTry(code, Starts(cfg.blocks))
  {
    hide Leaders, NaiveLeaders, Wired, Region, Laid, AllKeysFit, HandlersLead, IsNaiveShape, NoEmptyBlockInTry;
    Distinct(code, cfg);
    LeadersAgree(code);
    if r.Some? {
      var leaders :| IsNaiveShape(code, leaders, r.value);
      if Leaders(code) == NaiveLeaders(code) {
        SameLeaders(code, cfg, leaders, r.value);
        ShapesAgree(code, cfg, r.value);
      } else {
        OtherLeaders(code, cfg, leaders, r.value);
      }
    }
  }

  lemma SameLeaders(code: CodeItem, cfg: Cfg, leaders: seq<nat>, s: CfgShape)
    requires ValidCode(code) && IsCfgOf(code, cfg) && IsNaiveShape(code, leaders, s) &&
        Leaders(code) == NaiveLeaders(code)
    ensures leaders == Starts(cfg.blocks)
  {
    hide Leaders, NaiveLeaders, Wired, Region, Laid, IsBlockMap, NormalAmong, Thrown;
    AscendingUnique(leaders, Starts(cfg.blocks));
  }

  lemma OtherLeaders(code: CodeItem, cfg: Cfg, leaders: seq<nat>, s: CfgShape)
    requires ValidCode(code) && IsCfgOf(code, cfg) && DistinctStarts(cfg.blocks)
    requires IsNaiveShape(code, leaders, s) && Leaders(code) != NaiveLeaders(code)
    ensures s != ToShape(cfg)
  {
    hide Leaders, NaiveLeaders, Wired, Region, Laid, IsBlockMap, NormalAmong, Thrown;
  }

  lemma ShapesAgree(code: CodeItem, cfg: Cfg, s: CfgShape)
    requires ValidCode(code) && IsCfgOf(code, cfg) && DistinctStarts(cfg.blocks)
    requires IsNaiveShape(code, Starts(cfg.blocks), s)
    ensures LeaderList(Starts(cfg.blocks))
    ensures s == ToShape(cfg) <==> NoEmptyBlockInTry(code, Starts(cfg.blocks))
  {
    hide Leaders, NaiveLeaders, Wired, Region, Laid, IsBlockMap, NormalAmong, Thrown, BlockContents, HandlerLeaders;
    var starts := Starts(cfg.blocks);
    BlockMapsAgree(code, cfg, s.blockInstructions);
    assert starts[0] == cfg.blocks[0].startAddr;
    if NoEmptyBlockInTry(code, starts) {
      EdgesAgree(code, cfg, s);
    } else {
      var t, b :| t in code.tries && 0 <= b < |starts| - 1 && BlockContents(code.instructions, starts, b) == []
                  && HandlerLeaders(code.catchHandlers[t.handlerIdx]) != {}
                  && starts[b] < t.End() && starts[b + 1] > t.startAddr;
      EmptyBlockDisagrees(code, cfg, s, t, b);
    }
  }
}
