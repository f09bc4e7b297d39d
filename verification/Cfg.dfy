/**
 The control-flow graph builder of src/cfg.rs: leaders, basic blocks, normal and
 exception edges, predecessors. `BTreeSet<u32>` is a strictly ascending list.
 */
module Cfg {
  import opened Basics
  import opened CodeModel

  datatype EdgeKind =
    | FallThrough
    | Branch
    | SwitchCase(key: int)
    | SwitchDefault
    | ExceptionHandler(exceptionType: nat)
    | ExceptionCatchAll
  {
    predicate IsException() {
      ExceptionHandler? || ExceptionCatchAll?
    }
  }

  datatype Edge = Edge(target: nat, kind: EdgeKind)

  datatype BasicBlock = BasicBlock(
    id: nat,
    startAddr: nat,
    instructions: seq<Instruction>,
    successors: seq<Edge>,
    predecessors: set<nat>)

  datatype ExceptionRegion = ExceptionRegion(startAddr: nat, endAddr: nat, handlerBlocks: seq<Edge>)

  datatype Cfg = Cfg(
    blocks: seq<BasicBlock>,
    entry: nat,
    exceptionRegions: seq<ExceptionRegion>,
    addrToBlock: map<nat, nat>)

  // ----- leaders -----

  predicate StrictlyAscending(s: seq<nat>) {
    forall i, j :: 0 <= i < j < |s| ==> s[i] < s[j]
  }

  function Elems<T>(s: seq<T>): set<T> {
    set x | x in s
  }

  function InsnLeaders(code: CodeItem, insn: Instruction): set<nat> {
    (if IsBranch(insn.op) || IsTerminal(insn.op) then {insn.End()} else {}) +
    (if insn.target.None? then {}
     else if IsSwitch(insn.op) then Elems(SwitchTargets(code, insn))
     else if IsBranch(insn.op) then {insn.target.value}
     else {})
  }

  function HandlerLeaders(h: CatchHandler): set<nat> {
    (set c | c in h.catches :: c.handlerAddr) + (if h.catchAllAddr.Some? then {h.catchAllAddr.value} else {})
  }

  function InsnLeadersUpTo(code: CodeItem, n: nat): set<nat>
    requires n <= |code.instructions|
  {
    set i, a | 0 <= i < n && a in InsnLeaders(code, code.instructions[i]) :: a
  }

  function HandlerLeadersUpTo(code: CodeItem, n: nat): set<nat>
    requires n <= |code.catchHandlers|
  {
    set i, a | 0 <= i < n && a in HandlerLeaders(code.catchHandlers[i]) :: a
  }

  /** The leaders: address 0, the unit after every branch or terminal, every branch target, every handler. */
  function Leaders(code: CodeItem): set<nat> {
    {0} + InsnLeadersUpTo(code, |code.instructions|) + HandlerLeadersUpTo(code, |code.catchHandlers|)
  }

  /** `BTreeSet::insert`. */
  method InsertLeader(s: seq<nat>, x: nat) returns (r: seq<nat>)
    requires StrictlyAscending(s)
    ensures StrictlyAscending(r) && Elems(r) == Elems(s) + {x}
  {
    var i := 0;
    while i < |s| && s[i] < x
      invariant 0 <= i <= |s|
      invariant forall k :: 0 <= k < i ==> s[k] < x
    {
      i := i + 1;
    }
    if i < |s| && s[i] == x {
      r := s;
    } else {
      r := s[..i] + [x] + s[i..];
      InsertedAt(s, i, x);
    }
  }

  lemma InsertedAt(s: seq<nat>, i: nat, x: nat)
    requires StrictlyAscending(s) && i <= |s|
    requires (forall k :: 0 <= k < i ==> s[k] < x) && (i < |s| ==> x < s[i])
    ensures StrictlyAscending(s[..i] + [x] + s[i..]) && Elems(s[..i] + [x] + s[i..]) == Elems(s) + {x}
  {
    InsertedElems(s, i, x);
    var r := s[..i] + [x] + s[i..];
    forall j, k | 0 <= j < k < |r| ensures r[j] < r[k] {
      if i < k && i < |s| {
        assert s[i] <= s[k - 1];
      }
    }
  }

  lemma InsertedElems(s: seq<nat>, i: nat, x: nat)
    requires i <= |s|
    ensures Elems(s[..i] + [x] + s[i..]) == Elems(s) + {x}
  {
    assert s == s[..i] + s[i..];
    forall a ensures a in s[..i] + [x] + s[i..] <==> a in s || a == x {
      assert a in s <==> a in s[..i] || a in s[i..];
    }
  }

  method InsertLeaders(s: seq<nat>, xs: seq<nat>) returns (r: seq<nat>)
    requires StrictlyAscending(s)
    ensures StrictlyAscending(r) && Elems(r) == Elems(s) + Elems(xs)
  {
    r := s;
    for i := 0 to |xs|
      invariant StrictlyAscending(r) && Elems(r) == Elems(s) + Elems(xs[..i])
    {
      assert xs[..i + 1] == xs[..i] + [xs[i]];
      r := InsertLeader(r, xs[i]);
    }
    assert xs[..|xs|] == xs;
  }

  method InsertHandler(s: seq<nat>, h: CatchHandler) returns (r: seq<nat>)
    requires StrictlyAscending(s)
    ensures StrictlyAscending(r) && Elems(r) == Elems(s) + HandlerLeaders(h)
  {
    r := s;
    for k := 0 to |h.catches|
      invariant StrictlyAscending(r) && Elems(r) == Elems(s) + (set c | c in h.catches[..k] :: c.handlerAddr)
    {
      ghost var before := h.catches[..k];
      assert h.catches[..k + 1] == before + [h.catches[k]];
      r := InsertLeader(r, h.catches[k].handlerAddr);
      assert (set c | c in before + [h.catches[k]] :: c.handlerAddr) ==
             (set c | c in before :: c.handlerAddr) + {h.catches[k].handlerAddr};
    }
    assert h.catches[..|h.catches|] == h.catches;
    if h.catchAllAddr.Some? {
      r := InsertLeader(r, h.catchAllAddr.value);
    }
  }

  method InsertInsn(code: CodeItem, s: seq<nat>, insn: Instruction) returns (r: seq<nat>)
    requires StrictlyAscending(s)
    ensures StrictlyAscending(r) && Elems(r) == Elems(s) + InsnLeaders(code, insn)
  {
    r := s;
    if IsBranch(insn.op) || IsTerminal(insn.op) {
      r := InsertLeader(r, insn.End());
    }
    if insn.target.Some? {
      if IsSwitch(insn.op) {
        r := InsertLeaders(r, SwitchTargets(code, insn));
      } else if IsBranch(insn.op) {
        r := InsertLeader(r, insn.target.value);
      }
    }
  }

  method FindLeaders(code: CodeItem) returns (leaders: seq<nat>)
    ensures StrictlyAscending(leaders) && Elems(leaders) == Leaders(code)
  {
    hide InsnLeaders, HandlerLeaders;
    leaders := [0];
    for i := 0 to |code.instructions|
      invariant StrictlyAscending(leaders) && Elems(leaders) == {0} + InsnLeadersUpTo(code, i)
    {
      leaders := InsertInsn(code, leaders, code.instructions[i]);
      assert InsnLeadersUpTo(code, i + 1) == InsnLeadersUpTo(code, i) + InsnLeaders(code, code.instructions[i]);
    }
    ghost var fromInsns := Elems(leaders);
    for i := 0 to |code.catchHandlers|
      invariant StrictlyAscending(leaders) && Elems(leaders) == fromInsns + HandlerLeadersUpTo(code, i)
    {
      leaders := InsertHandler(leaders, code.catchHandlers[i]);
      assert HandlerLeadersUpTo(code, i + 1) == HandlerLeadersUpTo(code, i) + HandlerLeaders(code.catchHandlers[i]);
    }
  }

  lemma LeaderBounds(code: CodeItem)
    requires ValidCode(code)
    ensures forall a :: a in Leaders(code) ==> a <= U32_MAX
  {
  }

  // ----- blocks -----

  /** Number of instructions below address `a`. */
  function LowerBound(insns: seq<Instruction>, a: nat): (n: nat)
    ensures n <= |insns|
  {
    if insns == [] || insns[0].addr >= a then 0 else 1 + LowerBound(insns[1..], a)
  }

  lemma {:induction false} LowerBoundSplits(insns: seq<Instruction>, a: nat)
    requires Laid(insns)
    ensures forall i :: 0 <= i < LowerBound(insns, a) ==> insns[i].addr < a
    ensures forall i :: LowerBound(insns, a) <= i < |insns| ==> insns[i].addr >= a
  {
    if insns != [] && insns[0].addr < a {
      assert Laid(insns[1..]);
      LowerBoundSplits(insns[1..], a);
      forall i | 1 <= i < |insns|
        ensures i < LowerBound(insns, a) <==> insns[i].addr < a
      {
        assert insns[i] == insns[1..][i - 1];
      }
    }
  }

  lemma LowerBoundMonotone(insns: seq<Instruction>, a: nat, b: nat)
    requires Laid(insns) && a <= b
    ensures LowerBound(insns, a) <= LowerBound(insns, b)
  {
    LowerBoundSplits(insns, a);
    LowerBoundSplits(insns, b);
  }

  /** Where the block of leader `i` ends; the last one is open-ended. */
  function NextLeader(leaders: seq<nat>, i: nat): nat
    requires i < |leaders|
  {
    if i + 1 < |leaders| then leaders[i + 1] else U32_MAX
  }

  /** The instructions with addresses in [lo, hi), as a slice of the list. */
  function Between(insns: seq<Instruction>, lo: nat, hi: nat): seq<Instruction>
    requires Laid(insns) && lo <= hi
  {
    LowerBoundMonotone(insns, lo, hi);
    insns[LowerBound(insns, lo)..LowerBound(insns, hi)]
  }

  method FilterBetween(insns: seq<Instruction>, lo: nat, hi: nat) returns (r: seq<Instruction>)
    requires Laid(insns) && lo <= hi
    ensures r == Between(insns, lo, hi)
  {
    LowerBoundSplits(insns, lo);
    LowerBoundSplits(insns, hi);
    LowerBoundMonotone(insns, lo, hi);
    ghost var a, b := LowerBound(insns, lo), LowerBound(insns, hi);
    hide LowerBound;
    r := [];
    for k := 0 to |insns|
      invariant r == if k <= a then [] else if k <= b then insns[a..k] else insns[a..b]
    {
      if lo <= insns[k].addr && insns[k].addr < hi {
        r := r + [insns[k]];
      }
    }
  }

  predicate IsAddrMap(m: map<nat, nat>, leaders: seq<nat>) {
    && m.Keys == Elems(leaders)
    && (forall i :: 0 <= i < |leaders| ==> leaders[i] in m && m[leaders[i]] == i)
  }

  /** The leader list is usable: ascending, from 0, within 32 bits. */
  predicate LeaderList(leaders: seq<nat>) {
    && |leaders| > 0 && leaders[0] == 0 && StrictlyAscending(leaders)
    && (forall i :: 0 <= i < |leaders| ==> leaders[i] <= U32_MAX)
  }

  /** Block `i` holds the instructions from its leader up to the next. */
  function BlockContents(insns: seq<Instruction>, leaders: seq<nat>, i: nat): seq<Instruction>
    requires Laid(insns) && LeaderList(leaders) && i < |leaders|
  {
    Between(insns, leaders[i], NextLeader(leaders, i))
  }

  predicate IsBlock(b: BasicBlock, insns: seq<Instruction>, leaders: seq<nat>, i: nat)
    requires Laid(insns) && LeaderList(leaders) && i < |leaders|
  {
    b.id == i && b.startAddr == leaders[i] && b.instructions == BlockContents(insns, leaders, i)
  }

  method BuildBlocks(code: CodeItem, leaders: seq<nat>) returns (blocks: seq<BasicBlock>, m: map<nat, nat>)
    requires ValidCode(code) && LeaderList(leaders)
    ensures |blocks| == |leaders| && IsAddrMap(m, leaders)
    ensures forall i :: 0 <= i < |blocks| ==>
              IsBlock(blocks[i], code.instructions, leaders, i) && blocks[i].successors == [] &&
                  blocks[i].predecessors == {}
  {
    blocks, m := [], map[];
    for i := 0 to |leaders|
      invariant |blocks| == i
      invariant IsAddrMap(m, leaders[..i])
      invariant forall k :: 0 <= k < i ==>
                  IsBlock(blocks[k], code.instructions, leaders, k) && blocks[k].successors == [] &&
                      blocks[k].predecessors == {}
    {
      m := m[leaders[i] := i];
      assert leaders[..i + 1] == leaders[..i] + [leaders[i]];
      var insns := FilterBetween(code.instructions, leaders[i], NextLeader(leaders, i));
      blocks := blocks + [BasicBlock(i, leaders[i], insns, [], {})];
    }
    assert leaders[..|leaders|] == leaders;
  }

  // ----- normal edges -----

  function Lookup(m: map<nat, nat>, a: nat, kind: EdgeKind): seq<Edge> {
    if a in m then [Edge(m[a], kind)] else []
  }

  /** One case edge per table entry whose target starts a block. */
  function CaseEdges(m: map<nat, nat>, keys: seq<int>, targets: seq<nat>): seq<Edge> {
    if keys == [] || targets == [] then []
    else
      var n := if |keys| < |targets| then |keys| else |targets|;
      CaseEdges(m, keys[..n - 1], targets[..n - 1]) + Lookup(m, targets[n - 1], SwitchCase(keys[n - 1]))
  }

  /** The keys of a packed table: consecutive, in wrapping 32-bit arithmetic. */
  function PackedKeys(firstKey: int, n: nat): (keys: seq<int>)
    ensures |keys| == n
  {
    seq(n, j => WrapI32(firstKey + j))
  }

  /** Keys and targets of the table a switch instruction names. */
  function TableKeys(code: CodeItem, insn: Instruction): seq<int> {
    if insn.target.Some? && insn.target.value in code.payloads then
      match code.payloads[insn.target.value]
      case PackedSwitch(firstKey, targets) => PackedKeys(firstKey, |targets|)
      case SparseSwitch(keys, _) => keys
      case FillArrayData(_, _) => []
    else []
  }

  function InsnEdges(code: CodeItem, m: map<nat, nat>, insn: Instruction): seq<Edge> {
    if IsTerminal(insn.op) then []
    else if IsUnconditionalBranch(insn.op) then
      if insn.target.Some? then Lookup(m, insn.target.value, Branch) else []
    else if IsSwitch(insn.op) then
      Lookup(m, insn.End(), SwitchDefault) + CaseEdges(m, TableKeys(code, insn), SwitchTargets(code, insn))
    else if IsConditionalBranch(insn.op) then
      Lookup(m, insn.End(), FallThrough) + (if insn.target.Some? then Lookup(m, insn.target.value, Branch) else [])
    else
      Lookup(m, insn.End(), FallThrough)
  }

  function NormalEdges(code: CodeItem, m: map<nat, nat>, insns: seq<Instruction>): seq<Edge> {
    if insns == [] then [] else InsnEdges(code, m, insns[|insns| - 1])
  }

  method SwitchEdges(m: map<nat, nat>, keys: seq<int>, targets: seq<nat>, start: seq<Edge>) returns (edges: seq<Edge>)
    ensures edges == start + CaseEdges(m, keys, targets)
  {
    edges := start;
    var n := if |keys| < |targets| then |keys| else |targets|;
    for j := 0 to n
      invariant edges == start + CaseEdges(m, keys[..j], targets[..j])
    {
      assert keys[..j + 1][..j] == keys[..j] && targets[..j + 1][..j] == targets[..j];
      if targets[j] in m {
        edges := edges + [Edge(m[targets[j]], SwitchCase(keys[j]))];
      }
    }
    CaseEdgesClip(m, keys, targets);
  }

  lemma {:induction false} CaseEdgesClip(m: map<nat, nat>, keys: seq<int>, targets: seq<nat>)
    ensures var n := if |keys| < |targets| then |keys| else |targets|;
            CaseEdges(m, keys, targets) == CaseEdges(m, keys[..n], targets[..n])
  {
    var n := if |keys| < |targets| then |keys| else |targets|;
    if n > 0 {
      assert keys[..n][..n - 1] == keys[..n - 1] && targets[..n][..n - 1] == targets[..n - 1];
    }
  }

  method BlockEdges(code: CodeItem, m: map<nat, nat>, insns: seq<Instruction>) returns (edges: seq<Edge>)
    ensures edges == NormalEdges(code, m, insns)
  {
    edges := [];
    if |insns| == 0 {
      return;
    }
    var last := insns[|insns| - 1];
    var next := last.End();
    if IsTerminal(last.op) {
      return;
    }
    if IsUnconditionalBranch(last.op) {
      if last.target.Some? && last.target.value in m {
        edges := [Edge(m[last.target.value], Branch)];
      }
    } else if IsSwitch(last.op) {
      if next in m {
        edges := [Edge(m[next], SwitchDefault)];
      }
      if last.target.Some? && last.target.value in code.payloads {
        match code.payloads[last.target.value] {
          case PackedSwitch(firstKey, targets) =>
            edges := SwitchEdges(m, PackedKeys(firstKey, |targets|), targets, edges);
          case SparseSwitch(keys, targets) =>
            edges := SwitchEdges(m, keys, targets, edges);
          case FillArrayData(_, _) =>
        }
      }
    } else if IsBranch(last.op) {
      if next in m {
        edges := [Edge(m[next], FallThrough)];
      }
      if last.target.Some? && last.target.value in m {
        edges := edges + [Edge(m[last.target.value], Branch)];
      }
    } else {
      if next in m {
        edges := [Edge(m[next], FallThrough)];
      }
    }
  }

  /** Everything but the edges is as in `old`. */
  predicate SameLayout(a: seq<BasicBlock>, b: seq<BasicBlock>) {
    |a| == |b| &&
    forall i :: 0 <= i < |a| ==>
      a[i].id == b[i].id && a[i].startAddr == b[i].startAddr && a[i].instructions == b[i].instructions
  }

  method AddEdges(code: CodeItem, m: map<nat, nat>, start: seq<BasicBlock>) returns (blocks: seq<BasicBlock>)
    ensures SameLayout(blocks, start)
    ensures forall i :: 0 <= i < |blocks| ==>
              blocks[i].predecessors == start[i].predecessors &&
              blocks[i].successors == NormalEdges(code, m, start[i].instructions)
  {
    hide NormalEdges;
    blocks := start;
    for i := 0 to |start|
      invariant SameLayout(blocks, start)
      invariant forall k :: 0 <= k < |blocks| ==> blocks[k].predecessors == start[k].predecessors
      invariant forall k :: 0 <= k < i ==> blocks[k].successors == NormalEdges(code, m, start[k].instructions)
    {
      var edges := BlockEdges(code, m, start[i].instructions);
      blocks := blocks[i := blocks[i].(successors := edges)];
    }
  }

  // ----- exception edges -----

  function TypedEdges(m: map<nat, nat>, catches: seq<TypedCatch>): seq<Edge> {
    if catches == [] then []
    else
      var n := |catches| - 1;
      TypedEdges(m, catches[..n]) + Lookup(m, catches[n].handlerAddr, ExceptionHandler(catches[n].exceptionType))
  }

  function HandlerEdges(m: map<nat, nat>, h: CatchHandler): seq<Edge> {
    TypedEdges(m, h.catches) +
    (if h.catchAllAddr.Some? then Lookup(m, h.catchAllAddr.value, ExceptionCatchAll) else [])
  }

  /** A non-empty block, from its start to the end of its last instruction, meets the try region. */
  predicate Overlaps(t: TryItem, startAddr: nat, insns: seq<Instruction>) {
    insns != [] && startAddr < t.End() && insns[|insns| - 1].End() > t.startAddr
  }

  function ExceptionEdges(code: CodeItem, m: map<nat, nat>, startAddr: nat, insns: seq<Instruction>,
                          tries: seq<TryItem>): seq<Edge>
    requires forall t :: t in tries ==> t.handlerIdx < |code.catchHandlers|
  {
    if tries == [] then []
    else
      var t := tries[|tries| - 1];
      ExceptionEdges(code, m, startAddr, insns, tries[..|tries| - 1]) +
      (if Overlaps(t, startAddr, insns) then HandlerEdges(m, code.catchHandlers[t.handlerIdx]) else [])
  }

  method PushHandlerEdges(m: map<nat, nat>, h: CatchHandler, start: seq<Edge>) returns (edges: seq<Edge>)
    ensures edges == start + HandlerEdges(m, h)
  {
    edges := start;
    for k := 0 to |h.catches|
      invariant edges == start + TypedEdges(m, h.catches[..k])
    {
      assert h.catches[..k + 1][..k] == h.catches[..k];
      var c := h.catches[k];
      if c.handlerAddr in m {
        edges := edges + [Edge(m[c.handlerAddr], ExceptionHandler(c.exceptionType))];
      }
    }
    assert h.catches[..|h.catches|] == h.catches;
    if h.catchAllAddr.Some? && h.catchAllAddr.value in m {
      edges := edges + [Edge(m[h.catchAllAddr.value], ExceptionCatchAll)];
    }
  }

  /** One try region: every block it overlaps gets an edge to each of its handlers. */
  /** What one try adds to a block. */
  function TryEdges(m: map<nat, nat>, t: TryItem, h: CatchHandler, b: BasicBlock): seq<Edge> {
    if Overlaps(t, b.startAddr, b.instructions) then HandlerEdges(m, h) else []
  }

  method AddTryEdges(m: map<nat, nat>, t: TryItem, h: CatchHandler, start: seq<BasicBlock>)
    returns (blocks: seq<BasicBlock>)
    ensures SameLayout(blocks, start)
    ensures forall i :: 0 <= i < |blocks| ==>
              && blocks[i].predecessors == start[i].predecessors
              && blocks[i].successors == start[i].successors
                                         + TryEdges(m, t, h, start[i])
  {
    hide HandlerEdges, Overlaps;
    blocks := start;
    for i := 0 to |blocks|
      invariant SameLayout(blocks, start)
      invariant forall k :: i <= k < |blocks| ==> blocks[k] == start[k]
      invariant forall k :: 0 <= k < i ==>
                  && blocks[k].predecessors == start[k].predecessors
                  && blocks[k].successors == start[k].successors
                                             + TryEdges(m, t, h, start[k])
    {
      if Overlaps(t, blocks[i].startAddr, blocks[i].instructions) {
        var edges := PushHandlerEdges(m, h, blocks[i].successors);
        blocks := blocks[i := blocks[i].(successors := edges)];
      }
    }
  }

  method AddExceptionEdges(code: CodeItem, m: map<nat, nat>, start: seq<BasicBlock>) returns (blocks: seq<BasicBlock>)
    requires ValidCode(code)
    ensures SameLayout(blocks, start)
    ensures forall i :: 0 <= i < |blocks| ==>
              && blocks[i].predecessors == start[i].predecessors
              && blocks[i].successors == start[i].successors
                                         + ExceptionEdges(code, m, start[i].startAddr, start[i].instructions,
                                                          code.tries)
  {
    hide HandlerEdges, Laid, Overlaps;
    blocks := start;
    for n := 0 to |code.tries|
      invariant SameLayout(blocks, start)
      invariant forall i :: 0 <= i < |blocks| ==>
                  && blocks[i].predecessors == start[i].predecessors
                  && blocks[i].successors == start[i].successors
                                             + ExceptionEdges(code, m, start[i].startAddr, start[i].instructions,
                                                              code.tries[..n])
    {
      var t := code.tries[n];
      assert code.tries[..n + 1][..n] == code.tries[..n];
      blocks := AddTryEdges(m, t, code.catchHandlers[t.handlerIdx], blocks);
    }
    assert code.tries[..|code.tries|] == code.tries;
  }

  // ----- predecessors, regions, the whole graph -----

  predicate HasEdgeTo(edges: seq<Edge>, target: nat) {
    exists e :: e in edges && e.target == target
  }

  /** Predecessor sets and successor lists are converse to each other. */
  predicate Converse(blocks: seq<BasicBlock>) {
    forall d :: 0 <= d < |blocks| ==>
      blocks[d].predecessors == set p | 0 <= p < |blocks| && HasEdgeTo(blocks[p].successors, d)
  }

  predicate EdgesInRange(blocks: seq<BasicBlock>) {
    forall b, e :: b in blocks && e in b.successors ==> e.target < |blocks|
  }

  method FillPredecessors(start: seq<BasicBlock>) returns (blocks: seq<BasicBlock>)
    requires EdgesInRange(start)
    requires forall i :: 0 <= i < |start| ==> start[i].id == i && start[i].predecessors == {}
    ensures SameLayout(blocks, start) && Converse(blocks)
    ensures forall i :: 0 <= i < |blocks| ==> blocks[i].successors == start[i].successors
  {
    blocks := start;
    for p := 0 to |start|
      invariant SameLayout(blocks, start)
      invariant forall i :: 0 <= i < |blocks| ==> blocks[i].successors == start[i].successors
      invariant forall d :: 0 <= d < |blocks| ==>
                  blocks[d].predecessors == set q | 0 <= q < p && HasEdgeTo(start[q].successors, d)
    {
      var edges := start[p].successors;
      ghost var before := blocks;
      assert start[p] in start;
      for k := 0 to |edges|
        invariant SameLayout(blocks, start)
        invariant forall i :: 0 <= i < |blocks| ==> blocks[i].successors == start[i].successors
        invariant forall d :: 0 <= d < |blocks| ==>
                    blocks[d].predecessors ==
                    before[d].predecessors + (if HasEdgeTo(edges[..k], d) then {p} else {})
      {
        var d := edges[k].target;
        assert edges[k] in start[p].successors;
        ghost var mid := blocks;
        blocks := blocks[d := blocks[d].(predecessors := blocks[d].predecessors + {start[p].id})];
        forall i | 0 <= i < |blocks|
          ensures HasEdgeTo(edges[..k + 1], i) <==> HasEdgeTo(edges[..k], i) || i == d
        {
          HasEdgeToAppend(edges, k, i);
        }
      }
      assert edges[..|edges|] == edges;
    }
  }

  lemma HasEdgeToAppend(edges: seq<Edge>, k: nat, d: nat)
    requires k < |edges|
    ensures HasEdgeTo(edges[..k + 1], d) <==> HasEdgeTo(edges[..k], d) || edges[k].target == d
  {
    assert edges[..k + 1] == edges[..k] + [edges[k]];
    if edges[k].target == d {
      assert edges[k] in edges[..k + 1];
    }
    if HasEdgeTo(edges[..k], d) {
      var e :| e in edges[..k] && e.target == d;
      assert e in edges[..k + 1];
    }
  }

  function Region(code: CodeItem, m: map<nat, nat>, t: TryItem): ExceptionRegion
    requires t.handlerIdx < |code.catchHandlers|
  {
    ExceptionRegion(t.startAddr, t.End(), HandlerEdges(m, code.catchHandlers[t.handlerIdx]))
  }

  function Starts(blocks: seq<BasicBlock>): (s: seq<nat>)
    ensures |s| == |blocks|
  {
    seq(|blocks|, i requires 0 <= i < |blocks| => blocks[i].startAddr)
  }

  /** Each block has its own instructions and, in order, its normal and its exception edges. */
  predicate Wired(code: CodeItem, m: map<nat, nat>, leaders: seq<nat>, blocks: seq<BasicBlock>)
    requires ValidCode(code) && LeaderList(leaders)
  {
    |blocks| == |leaders| &&
    forall i :: 0 <= i < |blocks| ==>
      var b := blocks[i];
      && IsBlock(b, code.instructions, leaders, i)
      && b.successors == NormalEdges(code, m, b.instructions)
                         + ExceptionEdges(code, m, b.startAddr, b.instructions, code.tries)
  }

  /** What `Cfg::build` guarantees of its result on a non-empty method. */
  ghost predicate IsCfgOf(code: CodeItem, cfg: Cfg)
    requires ValidCode(code)
  {
    var leaders := Starts(cfg.blocks);
    && LeaderList(leaders) && Elems(leaders) == Leaders(code)
    && IsAddrMap(cfg.addrToBlock, leaders)
    && cfg.entry == 0
    && Wired(code, cfg.addrToBlock, leaders, cfg.blocks)
    && EdgesInRange(cfg.blocks) && Converse(cfg.blocks)
    && |cfg.exceptionRegions| == |code.tries|
    && (forall i :: 0 <= i < |code.tries| ==> cfg.exceptionRegions[i] == Region(code, cfg.addrToBlock, code.tries[i]))
  }

  /** What `Cfg::build` guarantees of its result: without instructions there are no blocks, whatever the tries. */
  ghost predicate IsBuilt(code: CodeItem, cfg: Cfg)
    requires ValidCode(code)
  {
    if code.instructions == [] then cfg == Cfg([], 0, [], map[]) else IsCfgOf(code, cfg)
  }

  method Build(code: CodeItem) returns (cfg: Cfg)
    requires ValidCode(code)
    ensures IsBuilt(code, cfg)
  {
    if |code.instructions| == 0 {
      return Cfg([], 0, [], map[]);
    }
    hide NormalEdges, ExceptionEdges, BlockContents, Leaders, Region, Laid;
    var leaders := FindLeaders(code);
    LeaderListOf(code, leaders);
    var blocks, m := BuildWired(code, leaders);
    SuccessorsInRange(code, m, leaders, blocks);
    ghost var wired := blocks;
    blocks := FillPredecessors(blocks);
    StillWired(code, m, leaders, wired, blocks);
    var regions := BuildExceptionRegions(code, m);
    cfg := Cfg(blocks, 0, regions, m);
  }

  /** The block, normal-edge and exception-edge phases. */
  method BuildWired(code: CodeItem, leaders: seq<nat>) returns (blocks: seq<BasicBlock>, m: map<nat, nat>)
    requires ValidCode(code) && LeaderList(leaders)
    ensures IsAddrMap(m, leaders) && Wired(code, m, leaders, blocks)
    ensures forall i :: 0 <= i < |blocks| ==> blocks[i].predecessors == {}
  {
    hide NormalEdges, ExceptionEdges, BlockContents, Laid;
    blocks, m := BuildBlocks(code, leaders);
    blocks := AddEdges(code, m, blocks);
    blocks := AddExceptionEdges(code, m, blocks);
  }

  lemma StillWired(code: CodeItem, m: map<nat, nat>, leaders: seq<nat>, a: seq<BasicBlock>, b: seq<BasicBlock>)
    requires ValidCode(code) && LeaderList(leaders) && Wired(code, m, leaders, a) && EdgesInRange(a)
    requires SameLayout(b, a) && forall i :: 0 <= i < |b| ==> b[i].successors == a[i].successors
    ensures Wired(code, m, leaders, b) && EdgesInRange(b) && Starts(b) == leaders
  {
    hide NormalEdges, ExceptionEdges, BlockContents, Laid;
    forall x, e | x in b && e in x.successors
      ensures e.target < |b|
    {
      var i :| 0 <= i < |b| && b[i] == x;
      assert a[i] in a && e in a[i].successors;
    }
  }

  method BuildExceptionRegions(code: CodeItem, m: map<nat, nat>) returns (regions: seq<ExceptionRegion>)
    requires ValidCode(code)
    ensures |regions| == |code.tries|
    ensures forall i :: 0 <= i < |code.tries| ==> regions[i] == Region(code, m, code.tries[i])
  {
    regions := [];
    for i := 0 to |code.tries|
      invariant |regions| == i
      invariant forall k :: 0 <= k < i ==> regions[k] == Region(code, m, code.tries[k])
    {
      var t := code.tries[i];
      var handlerBlocks := PushHandlerEdges(m, code.catchHandlers[t.handlerIdx], []);
      assert [] + HandlerEdges(m, code.catchHandlers[t.handlerIdx]) ==
          HandlerEdges(m, code.catchHandlers[t.handlerIdx]);
      regions := regions + [ExceptionRegion(t.startAddr, t.End(), handlerBlocks)];
    }
  }

  lemma LeaderListOf(code: CodeItem, leaders: seq<nat>)
    requires ValidCode(code) && StrictlyAscending(leaders) && Elems(leaders) == Leaders(code)
    ensures LeaderList(leaders)
  {
    assert 0 in Elems(leaders);
    LeaderBounds(code);
    forall i | 0 <= i < |leaders| ensures leaders[i] <= U32_MAX {
      assert leaders[i] in Elems(leaders);
    }
  }

  // ----- where edges lead -----

  /** All edges go to blocks of the map, at an address the map knows. */
  predicate Known(m: map<nat, nat>, edges: seq<Edge>) {
    forall e :: e in edges ==> e.target in m.Values
  }

  lemma {:induction false} CaseEdgesKnown(m: map<nat, nat>, keys: seq<int>, targets: seq<nat>)
    ensures Known(m, CaseEdges(m, keys, targets))
    decreases |keys|
  {
    if keys != [] && targets != [] {
      var n := if |keys| < |targets| then |keys| else |targets|;
      CaseEdgesKnown(m, keys[..n - 1], targets[..n - 1]);
    }
  }

  lemma {:induction false} TypedEdgesKnown(m: map<nat, nat>, catches: seq<TypedCatch>)
    ensures Known(m, TypedEdges(m, catches))
  {
    if catches != [] {
      TypedEdgesKnown(m, catches[..|catches| - 1]);
    }
  }

  lemma {:induction false} ExceptionEdgesKnown(code: CodeItem, m: map<nat, nat>, startAddr: nat,
                                               insns: seq<Instruction>, tries: seq<TryItem>)
    requires forall t :: t in tries ==> t.handlerIdx < |code.catchHandlers|
    ensures Known(m, ExceptionEdges(code, m, startAddr, insns, tries))
  {
    if tries != [] {
      var t := tries[|tries| - 1];
      TypedEdgesKnown(m, code.catchHandlers[t.handlerIdx].catches);
      ExceptionEdgesKnown(code, m, startAddr, insns, tries[..|tries| - 1]);
    }
  }

  lemma NormalEdgesKnown(code: CodeItem, m: map<nat, nat>, insns: seq<Instruction>)
    ensures Known(m, NormalEdges(code, m, insns))
  {
    if insns != [] {
      var last := insns[|insns| - 1];
      CaseEdgesKnown(m, TableKeys(code, last), SwitchTargets(code, last));
      hide CaseEdges, TableKeys, SwitchTargets;
    }
  }

  lemma SuccessorsInRange(code: CodeItem, m: map<nat, nat>, leaders: seq<nat>, blocks: seq<BasicBlock>)
    requires ValidCode(code) && LeaderList(leaders) && IsAddrMap(m, leaders) && Wired(code, m, leaders, blocks)
    ensures EdgesInRange(blocks)
  {
    hide NormalEdges, ExceptionEdges, Laid;
    forall b, e | b in blocks && e in b.successors
      ensures e.target < |blocks|
    {
      NormalEdgesKnown(code, m, b.instructions);
      ExceptionEdgesKnown(code, m, b.startAddr, b.instructions, code.tries);
      assert e.target in m.Values;
      var a :| a in m && m[a] == e.target;
      assert a in leaders;
    }
  }

  // ----- graph views -----

  /** `Cfg::block_at`: the block of the greatest leader at or below `addr`. */
  function BlockAt(cfg: Cfg, addr: nat): Option<nat> {
    var below := LeadersUpTo(cfg, addr);
    if below == {} then None else Some(cfg.addrToBlock[Greatest(below)])
  }

  function LeadersUpTo(cfg: Cfg, addr: nat): set<nat> {
    set a | a in cfg.addrToBlock && a <= addr
  }

  /** Normal-flow view: predecessors with at least one edge that is not an exception edge. */
  function NormalPredecessors(cfg: Cfg, node: nat): set<nat>
    requires node < |cfg.blocks|
  {
    set p | p in cfg.blocks[node].predecessors && p < |cfg.blocks| && HasNormalEdgeTo(cfg.blocks[p].successors, node)
  }

  predicate HasNormalEdgeTo(edges: seq<Edge>, target: nat) {
    exists e :: e in edges && e.target == target && !e.kind.IsException()
  }
}
