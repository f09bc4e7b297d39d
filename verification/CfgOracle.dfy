/**
 The naive twin of the graph builder (src/cfg_oracle.rs), run on the same decoded
 instructions, switch tables and try table, and exactly when the two agree.
 */
module CfgOracle {
  import opened Basics
  import opened CodeModel
  import opened Cfg
  import opened CfgWalk
  import opened CfgTheorems
  import opened OpcodeTables

  datatype OracleEdge = OracleEdge(from: nat, to: nat, kind: EdgeKind)

  /** The comparison subject: everything by address, nothing by block number. */
  datatype CfgShape = CfgShape(
    leaders: set<nat>,
    edges: set<OracleEdge>,
    entry: nat,
    blockInstructions: map<nat, seq<nat>>)

  function Addrs(insns: seq<Instruction>): seq<nat> {
    seq(|insns|, i requires 0 <= i < |insns| => insns[i].addr)
  }

  predicate DistinctStarts(blocks: seq<BasicBlock>) {
    forall i, j :: 0 <= i < j < |blocks| ==> blocks[i].startAddr != blocks[j].startAddr
  }

  /** `Cfg::to_shape`. */
  function ToShape(cfg: Cfg): CfgShape
    requires DistinctStarts(cfg.blocks)
  {
    CfgShape(
      Elems(Starts(cfg.blocks)),
      set b, e | 0 <= b < |cfg.blocks| && e in cfg.blocks[b].successors && e.target < |cfg.blocks| ::
        OracleEdge(cfg.blocks[b].startAddr, cfg.blocks[e.target].startAddr, e.kind),
      if cfg.entry < |cfg.blocks| then cfg.blocks[cfg.entry].startAddr else 0,
      BlockAddrs(cfg.blocks))
  }

  function BlockAddrs(blocks: seq<BasicBlock>): map<nat, seq<nat>>
    requires DistinctStarts(blocks)
  {
    map b | 0 <= b < |blocks| :: blocks[b].startAddr := Addrs(blocks[b].instructions)
  }

  lemma BlockAddrsIs(blocks: seq<BasicBlock>, m: map<nat, seq<nat>>)
    requires DistinctStarts(blocks) && m.Keys == Elems(Starts(blocks))
    requires forall b :: 0 <= b < |blocks| ==>
        blocks[b].startAddr in m && m[blocks[b].startAddr] == Addrs(blocks[b].instructions)
    ensures m == BlockAddrs(blocks)
  {
    var starts, p := Starts(blocks), BlockAddrs(blocks);
    forall a ensures a in m <==> a in p {
      if a in m {
        var b :| 0 <= b < |starts| && starts[b] == a;
        assert blocks[b].startAddr in p;
      }
      if a in p {
        var b :| 0 <= b < |blocks| && blocks[b].startAddr == a;
        assert starts[b] == a;
      }
    }
  }

  // ----- the oracle's reading of the input -----

  predicate UsesHandler(code: CodeItem, n: nat) {
    exists t :: t in code.tries && t.handlerIdx == n
  }

  /** Rule 4 of the oracle: only the handlers some try item refers to. */
  function TryLeadersUpTo(code: CodeItem, n: nat): set<nat>
    requires ValidCode(code) && n <= |code.tries|
  {
    set i, a | 0 <= i < n && a in HandlerLeaders(code.catchHandlers[code.tries[i].handlerIdx]) :: a
  }

  /** Rules 2 and 3 of the oracle for one instruction, by its own opcode classes. */
  function NaiveInsnLeaders(code: CodeItem, insn: Instruction): set<nat> {
    (if GotoByte(insn.op) || IfByte(insn.op) || SwitchByte(insn.op) || LeavingByte(insn.op) then {insn.End()} else {}) +
    (if (GotoByte(insn.op) || IfByte(insn.op)) && insn.target.Some? then {insn.target.value} else {}) +
    (if SwitchByte(insn.op) then Elems(SwitchTargets(code, insn)) else {})
  }

  function NaiveInsnLeadersUpTo(code: CodeItem, n: nat): set<nat>
    requires n <= |code.instructions|
  {
    set i, a | 0 <= i < n && a in NaiveInsnLeaders(code, code.instructions[i]) :: a
  }

  /** Builder and oracle find the same leaders at every instruction. */
  lemma InsnLeadersAgree(code: CodeItem, insn: Instruction)
    ensures NaiveInsnLeaders(code, insn) == InsnLeaders(code, insn)
  {
    hide GotoByte, IfByte, SwitchByte, LeavingByte, IsUnconditionalBranch, IsConditionalBranch, IsSwitch, IsTerminal;
    ClassesAgree(insn.op);
    if insn.target.None? {
      assert SwitchTargets(code, insn) == [];
      assert Elems(SwitchTargets(code, insn)) == {};
    }
  }

  lemma AllInsnLeadersAgree(code: CodeItem, n: nat)
    requires n <= |code.instructions|
    ensures NaiveInsnLeadersUpTo(code, n) == InsnLeadersUpTo(code, n)
  {
    hide NaiveInsnLeaders, InsnLeaders;
    forall i | 0 <= i < n
      ensures NaiveInsnLeaders(code, code.instructions[i]) == InsnLeaders(code, code.instructions[i])
    {
      InsnLeadersAgree(code, code.instructions[i]);
    }
  }

  function NaiveLeaders(code: CodeItem): set<nat>
    requires ValidCode(code)
  {
    {0} + NaiveInsnLeadersUpTo(code, |code.instructions|) + TryLeadersUpTo(code, |code.tries|)
  }

  method NaiveFindLeaders(code: CodeItem) returns (leaders: seq<nat>)
    requires ValidCode(code)
    ensures LeaderList(leaders) && Elems(leaders) == NaiveLeaders(code)
  {
    hide NaiveInsnLeaders, HandlerLeaders, Laid;
    leaders := [0];
    for i := 0 to |code.instructions|
      invariant StrictlyAscending(leaders) && Elems(leaders) == {0} + NaiveInsnLeadersUpTo(code, i)
    {
      leaders := NaiveInsertInsn(code, leaders, code.instructions[i]);
      assert NaiveInsnLeadersUpTo(code, i + 1) ==
             NaiveInsnLeadersUpTo(code, i) + NaiveInsnLeaders(code, code.instructions[i]);
    }
    ghost var fromInsns := Elems(leaders);
    for i := 0 to |code.tries|
      invariant StrictlyAscending(leaders) && Elems(leaders) == fromInsns + TryLeadersUpTo(code, i)
    {
      var h := code.catchHandlers[code.tries[i].handlerIdx];
      leaders := InsertHandler(leaders, h);
      assert TryLeadersUpTo(code, i + 1) == TryLeadersUpTo(code, i) + HandlerLeaders(h);
    }
    NaiveLeaderList(code, leaders);
  }

  method NaiveInsertInsn(code: CodeItem, s: seq<nat>, insn: Instruction) returns (r: seq<nat>)
    requires StrictlyAscending(s)
    ensures StrictlyAscending(r) && Elems(r) == Elems(s) + NaiveInsnLeaders(code, insn)
  {
    r := s;
    if GotoByte(insn.op) || IfByte(insn.op) || SwitchByte(insn.op) || LeavingByte(insn.op) {
      r := InsertLeader(r, insn.End());
    }
    if GotoByte(insn.op) || IfByte(insn.op) {
      if insn.target.Some? {
        r := InsertLeader(r, insn.target.value);
      }
    }
    if SwitchByte(insn.op) {
      r := InsertLeaders(r, SwitchTargets(code, insn));
    }
  }

  lemma NaiveSubset(code: CodeItem)
    requires ValidCode(code)
    ensures NaiveLeaders(code) <= Leaders(code)
  {
    hide InsnLeaders, NaiveInsnLeaders, HandlerLeaders, Laid;
    AllInsnLeadersAgree(code, |code.instructions|);
    forall a | a in TryLeadersUpTo(code, |code.tries|)
      ensures a in HandlerLeadersUpTo(code, |code.catchHandlers|)
    {
      var i :| 0 <= i < |code.tries| && a in HandlerLeaders(code.catchHandlers[code.tries[i].handlerIdx]);
      assert code.tries[i] in code.tries;
    }
  }

  lemma NaiveLeaderList(code: CodeItem, leaders: seq<nat>)
    requires ValidCode(code) && StrictlyAscending(leaders) && Elems(leaders) == NaiveLeaders(code)
    ensures LeaderList(leaders)
  {
    hide Leaders, Laid;
    assert 0 in Elems(leaders);
    NaiveSubset(code);
    LeaderBounds(code);
    forall i | 0 <= i < |leaders| ensures leaders[i] <= U32_MAX {
      assert leaders[i] in Elems(leaders);
    }
  }

  // ----- blocks -----

  /** The addresses of each block, by leader. */
  predicate IsBlockMap(code: CodeItem, leaders: seq<nat>, m: map<nat, seq<nat>>)
    requires ValidCode(code) && LeaderList(leaders)
  {
    && m.Keys == Elems(leaders)
    && forall b :: 0 <= b < |leaders| ==>
        leaders[b] in m && m[leaders[b]] == Addrs(BlockContents(code.instructions, leaders, b))
  }

  /** Part of block `b` among the first `k` instructions. */
  function Part(code: CodeItem, leaders: seq<nat>, b: nat, k: nat): seq<nat>
    requires b < |leaders| && k <= |code.instructions|
  {
    var lo, hi := LowerBound(code.instructions, leaders[b]), LowerBound(code.instructions, NextLeader(leaders, b));
    if k <= lo || hi <= lo then []
    else if k <= hi then Addrs(code.instructions[lo..k])
    else Addrs(code.instructions[lo..hi])
  }

  lemma InBlock(code: CodeItem, leaders: seq<nat>, b: nat, k: nat)
    requires ValidCode(code) && LeaderList(leaders) && b < |leaders| && k < |code.instructions|
    ensures LowerBound(code.instructions, leaders[b]) <= k < LowerBound(code.instructions, NextLeader(leaders, b)) <==>
            b == Home(leaders, code.instructions[k].addr)
  {
    hide LowerBound, Home;
    var addr := code.instructions[k].addr;
    LowerBoundSplits(code.instructions, leaders[b]);
    LowerBoundSplits(code.instructions, NextLeader(leaders, b));
    HomeIsHome(leaders, addr);
    assert leaders[b] <= addr < NextLeader(leaders, b) <==> b == Home(leaders, addr);
  }

  lemma AddrsAppend(insns: seq<Instruction>, lo: nat, k: nat)
    requires lo <= k < |insns|
    ensures Addrs(insns[lo..k + 1]) == Addrs(insns[lo..k]) + [insns[k].addr]
  {
    assert insns[lo..k + 1] == insns[lo..k] + [insns[k]];
  }

  lemma PartStep(code: CodeItem, leaders: seq<nat>, b: nat, k: nat)
    requires ValidCode(code) && LeaderList(leaders) && b < |leaders| && k < |code.instructions|
    ensures Part(code, leaders, b, k + 1) ==
            Part(code, leaders, b, k) +
                (if b == Home(leaders, code.instructions[k].addr) then [code.instructions[k].addr] else [])
  {
    hide LowerBound, Home, Addrs, Laid, LeaderList;
    InBlock(code, leaders, b, k);
    var lo := LowerBound(code.instructions, leaders[b]);
    if lo <= k {
      AddrsAppend(code.instructions, lo, k);
      NoAddrs(code.instructions, lo);
    }
  }

  lemma NoAddrs(insns: seq<Instruction>, lo: nat)
    requires lo <= |insns|
    ensures Addrs(insns[lo..lo]) == []
  {
  }

  lemma PartWhole(code: CodeItem, leaders: seq<nat>, b: nat)
    requires ValidCode(code) && LeaderList(leaders) && b < |leaders|
    ensures Part(code, leaders, b, |code.instructions|) == Addrs(BlockContents(code.instructions, leaders, b))
    ensures Part(code, leaders, b, 0) == []
  {
    LowerBoundMonotone(code.instructions, leaders[b], NextLeader(leaders, b));
    var insns := code.instructions;
    assert insns[LowerBound(insns, leaders[b])..LowerBound(insns, NextLeader(leaders, b))]
        == BlockContents(insns, leaders, b);
  }

  /** `range(..=addr).next_back()`: the block with the greatest leader at or below the address. */
  method FloorLeader(leaders: seq<nat>, addr: nat) returns (b: nat)
    requires LeaderList(leaders)
    ensures b == Home(leaders, addr)
  {
    b := |leaders| - 1;
    assert leaders[..|leaders|] == leaders;
    while b > 0 && leaders[b] > addr
      invariant b < |leaders| && Home(leaders[..b + 1], addr) == Home(leaders, addr)
    {
      assert leaders[..b + 1][..b] == leaders[..b];
      b := b - 1;
    }
  }

  /** The map after filing the first `k` instructions. */
  ghost predicate HasParts(code: CodeItem, leaders: seq<nat>, m: map<nat, seq<nat>>, k: nat)
    requires k <= |code.instructions|
  {
    && m.Keys == Elems(leaders)
    && forall b :: 0 <= b < |leaders| ==> leaders[b] in m && m[leaders[b]] == Part(code, leaders, b, k)
  }

  lemma PartsStep(code: CodeItem, leaders: seq<nat>, m: map<nat, seq<nat>>, k: nat, home: nat)
    requires ValidCode(code) && LeaderList(leaders) && k < |code.instructions|
    requires HasParts(code, leaders, m, k) && home == Home(leaders, code.instructions[k].addr)
    ensures leaders[home] in m
    ensures HasParts(code, leaders, m[leaders[home] := m[leaders[home]] + [code.instructions[k].addr]], k + 1)
  {
    hide Part, Home, Laid;
    var m' := m[leaders[home] := m[leaders[home]] + [code.instructions[k].addr]];
    forall b | 0 <= b < |leaders| ensures leaders[b] in m' && m'[leaders[b]] == Part(code, leaders, b, k + 1) {
      PartStep(code, leaders, b, k);
      assert leaders[b] == leaders[home] ==> b == home;
    }
    assert m'.Keys == m.Keys;
  }

  /** An empty entry per leader. */
  method EmptyBlocks(leaders: seq<nat>) returns (m: map<nat, seq<nat>>)
    ensures m.Keys == Elems(leaders) && forall a :: a in m ==> m[a] == []
  {
    m := map[];
    for b := 0 to |leaders|
      invariant m.Keys == Elems(leaders[..b]) && forall a :: a in m ==> m[a] == []
    {
      assert leaders[..b + 1] == leaders[..b] + [leaders[b]];
      m := m[leaders[b] := []];
    }
    assert leaders[..|leaders|] == leaders;
  }

  lemma PartsStart(code: CodeItem, leaders: seq<nat>, m: map<nat, seq<nat>>)
    requires ValidCode(code) && LeaderList(leaders)
    requires m.Keys == Elems(leaders) && forall a :: a in m ==> m[a] == []
    ensures HasParts(code, leaders, m, 0)
  {
    hide Part, Laid, LeaderList;
    forall b | 0 <= b < |leaders| ensures leaders[b] in m && m[leaders[b]] == Part(code, leaders, b, 0) {
      assert leaders[b] in Elems(leaders);
      PartWhole(code, leaders, b);
    }
  }

  lemma PartsEnd(code: CodeItem, leaders: seq<nat>, m: map<nat, seq<nat>>)
    requires ValidCode(code) && LeaderList(leaders) && HasParts(code, leaders, m, |code.instructions|)
    ensures IsBlockMap(code, leaders, m)
  {
    hide Part, Laid, LeaderList, BlockContents, Addrs;
    forall b | 0 <= b < |leaders|
      ensures leaders[b] in m && m[leaders[b]] == Addrs(BlockContents(code.instructions, leaders, b))
    {
      PartWhole(code, leaders, b);
    }
  }

  method NaiveBlocks(code: CodeItem, leaders: seq<nat>) returns (m: map<nat, seq<nat>>)
    requires ValidCode(code) && LeaderList(leaders)
    ensures IsBlockMap(code, leaders, m)
  {
    hide HasParts, Home, Laid, IsBlockMap;
    m := EmptyBlocks(leaders);
    PartsStart(code, leaders, m);
    for k := 0 to |code.instructions|
      invariant HasParts(code, leaders, m, k)
    {
      var addr := code.instructions[k].addr;
      var home := FloorLeader(leaders, addr);
      PartsStep(code, leaders, m, k, home);
      m := m[leaders[home] := m[leaders[home]] + [addr]];
    }
    PartsEnd(code, leaders, m);
  }

  // ----- normal edges -----

  /** `n` consecutive keys from `firstKey` on are all 32-bit. */
  predicate KeysInI32(firstKey: int, n: nat) {
    n == 0 || (I32_MIN <= firstKey && firstKey + n - 1 <= I32_MAX)
  }

  /** No packed case key leaves 32 bits: the builder wraps, the oracle gives up. */
  predicate KeysFit(code: CodeItem, x: Instruction) {
    x.target.Some? && x.target.value in code.payloads && code.payloads[x.target.value].PackedSwitch? ==>
      KeysInI32(code.payloads[x.target.value].firstKey, |code.payloads[x.target.value].targets|)
  }

  /** `s` is `start` with the normal edges of `x` to leaders added. */
  ghost predicate AddsNormal(code: CodeItem, leaders: seq<nat>, from: nat, x: Instruction, start: set<OracleEdge>,
                             s: set<OracleEdge>)
    requires ValidCode(code)
  {
    forall e :: e in s <==>
      e in start || (e.from == from && e.to in leaders && !e.kind.IsException() && Continues(code, x, e.kind, e.to))
  }

  ghost predicate AddsCases(leaders: seq<nat>, from: nat, keys: seq<int>, targets: seq<nat>, n: nat,
                            start: set<OracleEdge>, s: set<OracleEdge>)
    requires n <= |keys| && n <= |targets|
  {
    forall e :: e in s <==>
      e in start || (e.from == from && e.to in leaders && e.kind.SwitchCase? &&
                     CaseAmong(keys, targets, n, e.kind.key, e.to))
  }

  ghost predicate CaseAmong(keys: seq<int>, targets: seq<nat>, n: nat, key: int, a: nat)
    requires n <= |keys| && n <= |targets|
  {
    exists t :: 0 <= t < n && keys[t] == key && targets[t] == a
  }

  lemma CaseAmongStep(keys: seq<int>, targets: seq<nat>, n: nat, key: int, a: nat)
    requires n < |keys| && n < |targets|
    ensures CaseAmong(keys, targets, n + 1, key, a) <==>
            CaseAmong(keys, targets, n, key, a) || (keys[n] == key && targets[n] == a)
  {
    if keys[n] == key && targets[n] == a {
      assert 0 <= n < n + 1;
    }
    if CaseAmong(keys, targets, n, key, a) {
      var t :| 0 <= t < n && keys[t] == key && targets[t] == a;
      assert 0 <= t < n + 1;
    }
  }

  method PackedCases(leaders: seq<nat>, from: nat, firstKey: int, targets: seq<nat>, start: set<OracleEdge>)
    returns (r: Option<set<OracleEdge>>)
    requires forall t :: t in targets ==> t in leaders
    ensures r.Some? <==> KeysInI32(firstKey, |targets|)
    ensures r.Some? ==> AddsCases(leaders, from, PackedKeys(firstKey, |targets|), targets, |targets|, start, r.value)
  {
    var edges := start;
    var keys := PackedKeys(firstKey, |targets|);
    for j := 0 to |targets|
      invariant KeysInI32(firstKey, j)
      invariant AddsCases(leaders, from, keys, targets, j, start, edges)
    {
      assert targets[j] in targets;
      if targets[j] in leaders {
        var key := firstKey + j;
        if key < I32_MIN || key > I32_MAX {
          return None;
        }
        WrapInRange(key);
        assert keys[j] == key;
        edges := edges + {OracleEdge(from, targets[j], SwitchCase(key))};
      }
      forall e: OracleEdge | e.kind.SwitchCase?
        ensures CaseAmong(keys, targets, j + 1, e.kind.key, e.to) <==>
                CaseAmong(keys, targets, j, e.kind.key, e.to) || (keys[j] == e.kind.key && targets[j] == e.to)
      {
        CaseAmongStep(keys, targets, j, e.kind.key, e.to);
      }
    }
    return Some(edges);
  }

  method SparseCases(leaders: seq<nat>, from: nat, keys: seq<int>, targets: seq<nat>, start: set<OracleEdge>)
    returns (edges: set<OracleEdge>)
    requires |keys| == |targets|
    ensures AddsCases(leaders, from, keys, targets, |targets|, start, edges)
  {
    edges := start;
    for j := 0 to |targets|
      invariant AddsCases(leaders, from, keys, targets, j, start, edges)
    {
      if targets[j] in leaders {
        edges := edges + {OracleEdge(from, targets[j], SwitchCase(keys[j]))};
      }
      forall e: OracleEdge | e.kind.SwitchCase?
        ensures CaseAmong(keys, targets, j + 1, e.kind.key, e.to) <==>
                CaseAmong(keys, targets, j, e.kind.key, e.to) || (keys[j] == e.kind.key && targets[j] == e.to)
      {
        CaseAmongStep(keys, targets, j, e.kind.key, e.to);
      }
    }
  }

  /** The edges after the last instruction of one block; `None` is the oracle's key-overflow error. */
  method NaiveInsnEdges(code: CodeItem, leaders: seq<nat>, from: nat, x: Instruction, start: set<OracleEdge>)
    returns (r: Option<set<OracleEdge>>)
    requires ValidCode(code) && TablesPaired(code.payloads)
    requires forall a :: a in InsnLeaders(code, x) ==> a in leaders
    ensures r.Some? <==> !IsSwitch(x.op) || KeysFit(code, x)
    ensures r.Some? ==> AddsNormal(code, leaders, from, x, start, r.value)
  {
    hide Throws, Laid, InsnLeaders, GotoByte, IfByte, SwitchByte, LeavingByte;
    ClassesAgree(x.op);
    if LeavingByte(x.op) {
      return Some(start);
    }
    if GotoByte(x.op) {
      if x.target.Some? && x.target.value in leaders {
        return Some(start + {OracleEdge(from, x.target.value, Branch)});
      }
      return Some(start);
    }
    var edges := start;
    if SwitchByte(x.op) {
      r := NaiveSwitchEdges(code, leaders, from, x, start);
      return;
    }
    if x.End() in leaders {
      edges := edges + {OracleEdge(from, x.End(), FallThrough)};
    }
    if IfByte(x.op) {
      if x.target.Some? && x.target.value in leaders {
        edges := edges + {OracleEdge(from, x.target.value, Branch)};
      }
    }
    return Some(edges);
  }

  method NaiveSwitchEdges(code: CodeItem, leaders: seq<nat>, from: nat, x: Instruction, start: set<OracleEdge>)
    returns (r: Option<set<OracleEdge>>)
    requires ValidCode(code) && TablesPaired(code.payloads) && IsSwitch(x.op)
    requires forall a :: a in InsnLeaders(code, x) ==> a in leaders
    ensures r.Some? <==> KeysFit(code, x)
    ensures r.Some? ==> AddsNormal(code, leaders, from, x, start, r.value)
  {
    hide Throws, Laid, PackedKeys, AddsCases, CaseAmong;
    var edges := start;
    if x.End() in leaders {
      edges := edges + {OracleEdge(from, x.End(), SwitchDefault)};
    }
    ghost var withDefault := edges;
    ghost var keys, targets := TableKeys(code, x), SwitchTargets(code, x);
    assert forall t :: t in targets ==> t in InsnLeaders(code, x);
    if x.target.Some? && x.target.value in code.payloads {
      match code.payloads[x.target.value] {
        case PackedSwitch(firstKey, ts) =>
          var cases := PackedCases(leaders, from, firstKey, ts, edges);
          if cases.None? {
            return None;
          }
          edges := cases.value;
        case SparseSwitch(ks, ts) =>
          edges := SparseCases(leaders, from, ks, ts, edges);
        case FillArrayData(_, _) =>
          NoCases(leaders, from, edges);
      }
    } else {
      NoCases(leaders, from, edges);
    }
    SwitchMembership(code, leaders, from, x, start, withDefault, edges);
    return Some(edges);
  }

  lemma NoCases(leaders: seq<nat>, from: nat, edges: set<OracleEdge>)
    ensures AddsCases(leaders, from, [], [], 0, edges, edges)
  {
  }

  lemma SwitchMembership(code: CodeItem, leaders: seq<nat>, from: nat, x: Instruction,
                         start: set<OracleEdge>, withDefault: set<OracleEdge>, edges: set<OracleEdge>)
    requires ValidCode(code) && IsSwitch(x.op)
    requires withDefault == start + (if x.End() in leaders then {OracleEdge(from, x.End(), SwitchDefault)} else {})
    requires |TableKeys(code, x)| == |SwitchTargets(code, x)|
    requires AddsCases(leaders, from, TableKeys(code, x), SwitchTargets(code, x), |SwitchTargets(code, x)|,
                       withDefault, edges)
    ensures AddsNormal(code, leaders, from, x, start, edges)
  {
    hide Throws, Laid, TableKeys, SwitchTargets;
    var keys, targets := TableKeys(code, x), SwitchTargets(code, x);
    forall e: OracleEdge | e.kind.SwitchCase?
      ensures CaseAmong(keys, targets, |targets|, e.kind.key, e.to) <==> Continues(code, x, e.kind, e.to)
    {
    }
  }

  /** Instructions have distinct addresses, so an address finds its instruction. */
  function AddrToIdx(insns: seq<Instruction>): map<nat, nat>
    requires Laid(insns)
  {
    map i | 0 <= i < |insns| :: insns[i].addr := i
  }

  ghost predicate NormalFrom(code: CodeItem, leaders: seq<nat>, b: nat, e: OracleEdge)
    requires ValidCode(code) && LeaderList(leaders) && b < |leaders|
  {
    var insns := BlockContents(code.instructions, leaders, b);
    && e.from == leaders[b] && e.to in leaders && !e.kind.IsException()
    && insns != [] && Continues(code, insns[|insns| - 1], e.kind, e.to)
  }

  ghost predicate NormalAmong(code: CodeItem, leaders: seq<nat>, n: nat, e: OracleEdge)
    requires ValidCode(code) && LeaderList(leaders) && n <= |leaders|
  {
    exists b :: 0 <= b < n && NormalFrom(code, leaders, b, e)
  }

  lemma NormalAmongStep(code: CodeItem, leaders: seq<nat>, n: nat, e: OracleEdge)
    requires ValidCode(code) && LeaderList(leaders) && n < |leaders|
    ensures NormalAmong(code, leaders, n + 1, e) <==>
        NormalAmong(code, leaders, n, e) || NormalFrom(code, leaders, n, e)
  {
    hide NormalFrom, Laid;
    if NormalFrom(code, leaders, n, e) {
      assert 0 <= n < n + 1;
    }
    if NormalAmong(code, leaders, n, e) {
      var b :| 0 <= b < n && NormalFrom(code, leaders, b, e);
      assert 0 <= b < n + 1;
    }
  }

  /** Block `b` does not end in a packed switch whose keys overflow. */
  predicate EndsFitting(code: CodeItem, leaders: seq<nat>, b: nat)
    requires ValidCode(code) && LeaderList(leaders) && b < |leaders|
  {
    var insns := BlockContents(code.instructions, leaders, b);
    insns != [] && IsSwitch(insns[|insns| - 1].op) ==> KeysFit(code, insns[|insns| - 1])
  }

  lemma BlockInsns(code: CodeItem, leaders: seq<nat>, b: nat)
    requires ValidCode(code) && LeaderList(leaders) && b < |leaders|
    ensures var insns := BlockContents(code.instructions, leaders, b);
            && (forall x :: x in insns ==> x in code.instructions)
            && (insns != [] ==>
                  var last := insns[|insns| - 1];
                  last.addr in AddrToIdx(code.instructions) &&
                  code.instructions[AddrToIdx(code.instructions)[last.addr]] == last)
  {
    hide LowerBound;
    LowerBoundMonotone(code.instructions, leaders[b], NextLeader(leaders, b));
    var insns := BlockContents(code.instructions, leaders, b);
    if insns != [] {
      var i := LowerBound(code.instructions, NextLeader(leaders, b)) - 1;
      assert code.instructions[i] == insns[|insns| - 1];
      assert code.instructions[i].addr in AddrToIdx(code.instructions);
    }
  }

  lemma OwnLeaders(code: CodeItem, leaders: seq<nat>, x: Instruction)
    requires ValidCode(code) && Elems(leaders) == NaiveLeaders(code) && x in code.instructions
    ensures forall a :: a in InsnLeaders(code, x) ==> a in leaders
  {
    hide InsnLeaders, NaiveInsnLeaders, HandlerLeaders, Laid;
    AllInsnLeadersAgree(code, |code.instructions|);
    var i :| 0 <= i < |code.instructions| && code.instructions[i] == x;
    forall a | a in InsnLeaders(code, x) ensures a in leaders {
      assert a in InsnLeadersUpTo(code, |code.instructions|);
      assert a in Elems(leaders);
    }
  }

  method NaiveNormalEdges(code: CodeItem, leaders: seq<nat>, m: map<nat, seq<nat>>) returns (r: Option<set<OracleEdge>>)
    requires ValidCode(code) && TablesPaired(code.payloads) && LeaderList(leaders) &&
        Elems(leaders) == NaiveLeaders(code)
    requires IsBlockMap(code, leaders, m)
    ensures r.Some? <==> forall b :: 0 <= b < |leaders| ==> EndsFitting(code, leaders, b)
    ensures r.Some? ==> forall e :: e in r.value <==> NormalAmong(code, leaders, |leaders|, e)
  {
    hide InsnLeaders, NaiveLeaders, Continues, BlockContents, Laid, KeysFit, NormalAmong;
    var edges := {};
    var index := AddrToIdx(code.instructions);
    forall e ensures !NormalAmong(code, leaders, 0, e) {
      NoneAmong(code, leaders, e);
    }
    for b := 0 to |leaders|
      invariant forall c :: 0 <= c < b ==> EndsFitting(code, leaders, c)
      invariant forall e :: e in edges <==> NormalAmong(code, leaders, b, e)
    {
      BlockInsns(code, leaders, b);
      forall e ensures NormalAmong(code, leaders, b + 1, e) <==>
                       NormalAmong(code, leaders, b, e) || NormalFrom(code, leaders, b, e)
      {
        NormalAmongStep(code, leaders, b, e);
      }
      ghost var before, insns := edges, BlockContents(code.instructions, leaders, b);
      var addrs := m[leaders[b]];
      assert |addrs| == |insns|;
      if |addrs| > 0 {
        var last := code.instructions[index[addrs[|addrs| - 1]]];
        assert last == insns[|insns| - 1];
        OwnLeaders(code, leaders, last);
        var more := NaiveInsnEdges(code, leaders, leaders[b], last, edges);
        if more.None? {
          assert !EndsFitting(code, leaders, b);
          return None;
        }
        edges := more.value;
      }
      forall e ensures e in edges <==> e in before || NormalFrom(code, leaders, b, e) {
      }
    }
    return Some(edges);
  }

  lemma NoneAmong(code: CodeItem, leaders: seq<nat>, e: OracleEdge)
    requires ValidCode(code) && LeaderList(leaders)
    ensures !NormalAmong(code, leaders, 0, e)
  {
  }

  // ----- exception edges -----

  /** The oracle's overlap test: an empty block reaches to the next leader; an empty last block is skipped. */
  predicate NaiveOverlaps(code: CodeItem, leaders: seq<nat>, t: TryItem, b: nat)
    requires ValidCode(code) && LeaderList(leaders) && b < |leaders|
  {
    var insns := BlockContents(code.instructions, leaders, b);
    if insns != [] then leaders[b] < t.End() && insns[|insns| - 1].End() > t.startAddr
    else b + 1 < |leaders| && leaders[b] < t.End() && leaders[b + 1] > t.startAddr
  }

  method NaiveHandlerEdges(leaders: seq<nat>, from: nat, h: CatchHandler, start: set<OracleEdge>)
    returns (edges: set<OracleEdge>)
    ensures forall e :: e in edges <==> e in start || (e.from == from && e.to in leaders && InHandler(h, e.kind, e.to))
  {
    edges := start;
    for k := 0 to |h.catches|
      invariant forall e :: e in edges <==>
                  e in start || (e.from == from && e.to in leaders &&
                                 InHandler(CatchHandler(h.catches[..k], None), e.kind, e.to))
    {
      var c := h.catches[k];
      assert h.catches[..k + 1] == h.catches[..k] + [c];
      if c.handlerAddr in leaders {
        edges := edges + {OracleEdge(from, c.handlerAddr, ExceptionHandler(c.exceptionType))};
      }
    }
    assert h.catches[..|h.catches|] == h.catches;
    if h.catchAllAddr.Some? && h.catchAllAddr.value in leaders {
      edges := edges + {OracleEdge(from, h.catchAllAddr.value, ExceptionCatchAll)};
    }
  }

  ghost predicate ThrownFrom(code: CodeItem, leaders: seq<nat>, t: TryItem, b: nat, e: OracleEdge)
    requires ValidCode(code) && LeaderList(leaders) && b < |leaders| && t.handlerIdx < |code.catchHandlers|
  {
    && e.from == leaders[b] && e.to in leaders && NaiveOverlaps(code, leaders, t, b)
    && InHandler(code.catchHandlers[t.handlerIdx], e.kind, e.to)
  }

  method NaiveTryEdges(code: CodeItem, leaders: seq<nat>, m: map<nat, seq<nat>>, t: TryItem, start: set<OracleEdge>)
    returns (edges: set<OracleEdge>)
    requires ValidCode(code) && LeaderList(leaders) && IsBlockMap(code, leaders, m) &&
        t.handlerIdx < |code.catchHandlers|
    ensures forall e :: e in edges <==>
        e in start || exists b :: 0 <= b < |leaders| && ThrownFrom(code, leaders, t, b, e)
  {
    hide BlockContents, Laid, InHandler;
    edges := start;
    var index := AddrToIdx(code.instructions);
    for b := 0 to |leaders|
      invariant forall e :: e in edges <==> e in start || exists c :: 0 <= c < b && ThrownFrom(code, leaders, t, c, e)
    {
      BlockInsns(code, leaders, b);
      ghost var before := edges;
      var addrs := m[leaders[b]];
      var overlaps := false;
      if |addrs| > 0 {
        var last := code.instructions[index[addrs[|addrs| - 1]]];
        overlaps := leaders[b] < t.End() && last.End() > t.startAddr;
      } else if b + 1 < |leaders| {
        overlaps := leaders[b] < t.End() && leaders[b + 1] > t.startAddr;
      }
      assert overlaps == NaiveOverlaps(code, leaders, t, b);
      if overlaps {
        edges := NaiveHandlerEdges(leaders, leaders[b], code.catchHandlers[t.handlerIdx], edges);
      }
      forall e ensures e in edges <==> e in before || ThrownFrom(code, leaders, t, b, e) {
      }
    }
  }

  ghost predicate Thrown(code: CodeItem, leaders: seq<nat>, n: nat, e: OracleEdge)
    requires ValidCode(code) && LeaderList(leaders) && n <= |code.tries|
  {
    exists i, b :: 0 <= i < n && 0 <= b < |leaders| && ThrownFrom(code, leaders, code.tries[i], b, e)
  }

  method NaiveExceptionEdges(code: CodeItem, leaders: seq<nat>, m: map<nat, seq<nat>>, start: set<OracleEdge>)
    returns (edges: set<OracleEdge>)
    requires ValidCode(code) && LeaderList(leaders) && IsBlockMap(code, leaders, m)
    ensures forall e :: e in edges <==> e in start || Thrown(code, leaders, |code.tries|, e)
  {
    hide ThrownFrom, IsBlockMap, Laid;
    edges := start;
    for i := 0 to |code.tries|
      invariant forall e :: e in edges <==> e in start || Thrown(code, leaders, i, e)
    {
      ghost var before := edges;
      assert code.tries[i] in code.tries;
      edges := NaiveTryEdges(code, leaders, m, code.tries[i], edges);
      forall e ensures Thrown(code, leaders, i + 1, e) <==>
                       Thrown(code, leaders, i, e) ||
                       exists b :: 0 <= b < |leaders| && ThrownFrom(code, leaders, code.tries[i], b, e)
      {
        ThrownStep(code, leaders, i, e);
      }
    }
  }

  lemma ThrownStep(code: CodeItem, leaders: seq<nat>, n: nat, e: OracleEdge)
    requires ValidCode(code) && LeaderList(leaders) && n < |code.tries|
    ensures Thrown(code, leaders, n + 1, e) <==>
            Thrown(code, leaders, n, e) ||
            exists b :: 0 <= b < |leaders| && ThrownFrom(code, leaders, code.tries[n], b, e)
  {
    hide ThrownFrom, Laid;
  }
}
