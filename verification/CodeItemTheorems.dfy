/**
 What a parsed `code_item` guarantees: try ranges cut to the code, order,
 handler indices that mean what the bytes say, and a graph in which every
 stored try reaches its handlers.
 */
module CodeItemTheorems {
  import opened Basics
  import opened Leb128
  import opened CodeModel
  import opened InsnDecoder
  import opened InsnTheorems
  import opened CodeItemParser
  import opened Cfg
  import opened CfgWalk
  import opened CfgTheorems
  import opened CfgEdges

  // ----- try ranges -----

  predicate InKept(t: TryItem, pc: nat) {
    t.startAddr <= pc < t.End()
  }

  /** `pc` is in the stored range and in the code. */
  predicate InStored(t: RawTry, insnsSize: nat, pc: nat) {
    t.startAddr <= pc < t.startAddr + t.insnCount && pc < insnsSize
  }

  /** A kept range is the stored range cut to the code, pc by pc, and does not overflow. */
  lemma KeptRangeIsCut(t: RawTry, insnsSize: nat, idx: nat, pc: nat)
    requires t.startAddr <= U32_MAX && t.insnCount <= U16_MAX && insnsSize <= U32_MAX
    ensures var kept := Keep(t, insnsSize, idx);
            && kept.End() <= U32_MAX && kept.insnCount <= t.insnCount
            && (InKept(kept, pc) <==> InStored(t, insnsSize, pc))
  {
  }

  lemma {:induction false} OrderedTries(raws: seq<RawTry>, i: nat, j: nat)
    requires !Disordered(raws) && i < j < |raws| && forall t :: t in raws ==> t.startAddr <= U32_MAX
    ensures raws[i].SaturatedEnd() <= raws[j].startAddr
    decreases |raws|
  {
    var n := |raws| - 1;
    if j < n {
      assert raws[..n][i] == raws[i] && raws[..n][j] == raws[j];
      OrderedTries(raws[..n], i, j);
    } else if i < n - 1 {
      assert raws[..n][i] == raws[i] && raws[..n][n - 1] == raws[n - 1];
      OrderedTries(raws[..n], i, n - 1);
      assert raws[n - 1] in raws;
    }
  }

  predicate Apart(a: RawTry, b: RawTry) {
    a.SaturatedEnd() <= b.startAddr
  }

  lemma {:induction false} NonEmptyOrdered(raws: seq<RawTry>)
    requires !Disordered(raws) && forall t :: t in raws ==> t.startAddr <= U32_MAX
    ensures forall i, j :: 0 <= i < j < |NonEmpty(raws)| ==> Apart(NonEmpty(raws)[i], NonEmpty(raws)[j])
    decreases |raws|
  {
    hide Disordered;
    if raws != [] {
      var n := |raws| - 1;
      PrefixOrdered(raws);
      NonEmptyOrdered(raws[..n]);
      var init := NonEmpty(raws[..n]);
      forall i | 0 <= i < |init| ensures Apart(init[i], raws[n]) {
        assert init[i] in raws[..n];
        var k :| 0 <= k < n && raws[..n][k] == init[i];
        OrderedTries(raws, k, n);
      }
    }
  }

  lemma PrefixOrdered(raws: seq<RawTry>)
    requires !Disordered(raws) && raws != []
    ensures !Disordered(raws[..|raws| - 1])
  {
  }

  lemma {:induction false} ResolvedAre(kept: seq<RawTry>, insnsSize: nat, list: seq<PlacedHandler>, handlersOff: nat,
                                       k: nat)
    requires forall t :: t in kept ==> t.startAddr <= U32_MAX
    requires ResolveTries(kept, insnsSize, list, handlersOff).Ok? && k < |kept|
    ensures var idx := HandlerIndex(list, handlersOff, kept[k].handlerOff);
            idx.Some? && ResolveTries(kept, insnsSize, list, handlersOff).value[k] ==
                Keep(kept[k], insnsSize, idx.value)
    decreases |kept|
  {
    hide HandlerIndex, Keep;
    var n := |kept| - 1;
    if k < n {
      assert kept[..n][k] == kept[k];
      ResolvedAre(kept[..n], insnsSize, list, handlersOff, k);
    }
  }

  // ----- handlers -----

  /** Each placed handler is what its bytes encode, and positions ascend. */
  lemma {:induction false} HandlersArePlaced(data: seq<byte>, pos: nat, n: nat)
    requires Handlers(data, pos, n).Ok?
    ensures var list := Handlers(data, pos, n).value.value;
            && (forall i :: 0 <= i < n ==>
                HandlerAt(data, list[i].pos).Ok? && HandlerAt(data, list[i].pos).value.value == list[i].handler)
            && (forall i, j :: 0 <= i < j < n ==> list[i].pos < list[j].pos)
    decreases n
  {
    hide HandlerAt;
    if n > 0 {
      HandlersArePlaced(data, pos, n - 1);
      var init := Handlers(data, pos, n - 1).value;
      assert forall i :: 0 <= i < n - 1 ==> init.value[i] in init.value;
    }
  }

  // ----- the parsed item -----

  /** Layout of a code item: where its parts are. */
  datatype Layout = Layout(insnsSize: u32, triesSize: nat, triesOff: nat, handlersOff: nat)

  function LayoutOf(data: seq<byte>, base: nat): Result<Layout> {
    var triesSize :- HalfWord(data, base + 6);
    var insnsSize :- Word(data, base + 12);
    var triesOff := TriesOff(base + 16, insnsSize);
    Ok(Layout(insnsSize, triesSize, triesOff, triesOff + TRY_ITEM_SIZE * triesSize))
  }

  /** The stored try table of a code item. */
  function StoredTries(data: seq<byte>, base: nat): Result<seq<RawTry>> {
    var layout :- LayoutOf(data, base);
    RawTries(data, layout.triesOff, layout.triesSize)
  }

  lemma NoStoredTries(data: seq<byte>, off: nat)
    ensures RawTries(data, off, 0) == Ok([])
  {
  }

  lemma CodeParts(data: seq<byte>, base: nat)
    requires ParseCode(data, base).Ok?
    ensures LayoutOf(data, base).Ok? && StoredTries(data, base).Ok?
    ensures var layout := LayoutOf(data, base).value;
            var p := ParseCode(data, base).value;
            && IsDecoded(p.code, data, base + 16, layout.insnsSize)
            && Decode(data, base + 16, layout.insnsSize).value.violations <= p.violations
            && (layout.triesSize == 0 ==> p.code.tries == [] && p.code.catchHandlers == [])
            && (layout.triesSize > 0 ==>
                  var table := ParseExceptions(data, layout.triesOff, layout.triesSize, layout.insnsSize);
                  && table.Ok? && p.code.tries == table.value.tries &&
                      p.code.catchHandlers == Bare(table.value.handlers)
                  && (forall v :: v in table.value.log ==> v in p.violations))
  {
    hide Decode, ParseExceptions, HalfWord, Word, Bare, RawTries;
    var layout := LayoutOf(data, base).value;
    if layout.triesSize == 0 {
      NoStoredTries(data, layout.triesOff);
      BareNone();
    } else {
      ExceptionsNeedTries(data, layout.triesOff, layout.triesSize, layout.insnsSize);
    }
  }

  lemma ExceptionsNeedTries(data: seq<byte>, triesOff: nat, triesSize: nat, insnsSize: nat)
    requires ParseExceptions(data, triesOff, triesSize, insnsSize).Ok?
    ensures RawTries(data, triesOff, triesSize).Ok?
  {
  }

  /** What the kept tries of an exception table are. */
  lemma TableTries(data: seq<byte>, triesOff: nat, triesSize: nat, insnsSize: nat, k: nat)
    requires insnsSize <= U32_MAX && ParseExceptions(data, triesOff, triesSize, insnsSize).Ok?
    ensures RawTries(data, triesOff, triesSize).Ok?
    ensures var raws := RawTries(data, triesOff, triesSize).value;
            var table := ParseExceptions(data, triesOff, triesSize, insnsSize).value;
            var handlersOff := triesOff + TRY_ITEM_SIZE * triesSize;
            && |table.tries| == |NonEmpty(raws)|
            && (k < |table.tries| ==>
                  var t, raw := table.tries[k], NonEmpty(raws)[k];
                  && t == Keep(raw, insnsSize, t.handlerIdx)
                  && t.handlerIdx < |table.handlers|
                  && HandlerAt(data, handlersOff + raw.handlerOff).Ok?
                  && Bare(table.handlers)[t.handlerIdx] == HandlerAt(data, handlersOff + raw.handlerOff).value.value)
  {
    hide RawTries, NonEmpty, HandlerAt, Handlers, Keep, HandlerIndex, ResolveTries, TryLog;
    var raws := RawTries(data, triesOff, triesSize).value;
    var handlersOff := triesOff + TRY_ITEM_SIZE * triesSize;
    var list := HandlerList(data, handlersOff).value;
    var kept := NonEmpty(raws);
    if k < |kept| {
      ResolvedAre(kept, insnsSize, list, handlersOff, k);
      KeepIdx(kept[k], insnsSize, HandlerIndex(list, handlersOff, kept[k].handlerOff).value);
      var count := Uleb(data, handlersOff).value;
      HandlersArePlaced(data, count.next, count.value);
    }
  }

  lemma KeepIdx(t: RawTry, insnsSize: nat, idx: nat)
    requires t.startAddr <= U32_MAX
    ensures Keep(t, insnsSize, idx).handlerIdx == idx
  {
  }

  /**
   The kept tries are the non-empty stored ones, in order, each cut to the code, and each with the
   index of exactly the handler encoded at its stored byte offset.
   */
  lemma TriesMeanTheirBytes(data: seq<byte>, base: nat, k: nat)
    requires ParseCode(data, base).Ok?
    ensures StoredTries(data, base).Ok? && LayoutOf(data, base).Ok?
    ensures var code := ParseCode(data, base).value.code;
            var raws := StoredTries(data, base).value;
            var layout := LayoutOf(data, base).value;
            && |code.tries| == |NonEmpty(raws)|
            && (k < |code.tries| ==>
                  var t, raw := code.tries[k], NonEmpty(raws)[k];
                  && t.End() <= U32_MAX
                  && (forall pc: nat :: InKept(t, pc) <==> InStored(raw, layout.insnsSize, pc))
                  && t.handlerIdx < |code.catchHandlers|
                  && HandlerAt(data, layout.handlersOff + raw.handlerOff).Ok?
                  && code.catchHandlers[t.handlerIdx] ==
                      HandlerAt(data, layout.handlersOff + raw.handlerOff).value.value)
  {
    hide ParseCode, Decode, ParseExceptions, HandlerAt, RawTries, Word, HalfWord, NonEmpty, Keep, Bare;
    CodeParts(data, base);
    var raws := StoredTries(data, base).value;
    var layout := LayoutOf(data, base).value;
    var code := ParseCode(data, base).value.code;
    if layout.triesSize == 0 {
      NoStoredTries(data, layout.triesOff);
      NoTries(0);
    } else {
      TableTries(data, layout.triesOff, layout.triesSize, layout.insnsSize, k);
      if k < |code.tries| {
        var t, raw := code.tries[k], NonEmpty(raws)[k];
        assert raw in raws;
        forall pc: nat ensures InKept(t, pc) <==> InStored(raw, layout.insnsSize, pc) {
          KeptRangeIsCut(raw, layout.insnsSize, t.handlerIdx, pc);
        }
        KeptRangeIsCut(raw, layout.insnsSize, t.handlerIdx, 0);
      }
    }
  }

  /** A parsed item is what the graph builder needs. */
  lemma ParsedCodeIsValid(data: seq<byte>, base: nat)
    requires ParseCode(data, base).Ok?
    ensures ValidCode(ParseCode(data, base).value.code)
  {
    hide *;
    CodeParts(data, base);
    var code := ParseCode(data, base).value.code;
    DecodedIsLaid(code, data, base + 16, LayoutOf(data, base).value.insnsSize);
    forall t | t in code.tries ensures t.End() <= U32_MAX && t.handlerIdx < |code.catchHandlers| {
      var k :| 0 <= k < |code.tries| && code.tries[k] == t;
      TriesMeanTheirBytes(data, base, k);
    }
    ValidIf(code);
  }

  lemma DecodedIsLaid(code: CodeItem, data: seq<byte>, insnsOff: nat, insnsSize: u32)
    requires IsDecoded(code, data, insnsOff, insnsSize)
    ensures Laid(code.instructions)
  {
    hide Decode, Laid;
    DecodeTiles(data, insnsOff, insnsSize);
  }

  lemma ValidIf(code: CodeItem)
    requires Laid(code.instructions)
    requires forall t :: t in code.tries ==> t.End() <= U32_MAX && t.handlerIdx < |code.catchHandlers|
    ensures ValidCode(code)
  {
  }

  // ----- order -----

  predicate Disjoint(tries: seq<TryItem>) {
    forall i, j :: 0 <= i < j < |tries| ==> tries[i].End() <= tries[j].startAddr
  }

  ghost predicate HasOrderViolation(log: seq<Violation>) {
    exists v :: v in log && v.TryItemsUnsortedOrOverlapping?
  }

  /** The order gauge fires exactly on tables with some adjacent offence. */
  lemma {:induction false} OrderIsLogged(raws: seq<RawTry>, insnsSize: nat)
    ensures HasOrderViolation(TryLog(raws, insnsSize)) <==> Disordered(raws)
    decreases |raws|
  {
    if raws != [] {
      var i := |raws| - 1;
      OrderIsLogged(raws[..i], insnsSize);
      if Disordered(raws[..i]) {
        var v :| v in TryLog(raws[..i], insnsSize) && v.TryItemsUnsortedOrOverlapping?;
        assert v in TryLog(raws, insnsSize);
      } else if Disordered(raws) {
        var v := TryItemsUnsortedOrOverlapping(TryIdx(i), raws[i - 1].SaturatedEnd(), raws[i].startAddr);
        assert v in TryLog(raws, insnsSize);
      }
    }
  }

  /** With no order violation logged, the kept tries are sorted and pairwise disjoint. */
  lemma UnloggedTriesAreDisjoint(data: seq<byte>, base: nat)
    requires ParseCode(data, base).Ok? && !HasOrderViolation(ParseCode(data, base).value.violations)
    ensures Disjoint(ParseCode(data, base).value.code.tries)
  {
    hide ParseCode, Decode, LayoutOf, NonEmpty, Disordered, TryLog, RawTries, HandlerAt;
    CodeParts(data, base);
    var p := ParseCode(data, base).value;
    var layout := LayoutOf(data, base).value;
    if layout.triesSize > 0 {
      var raws := StoredTries(data, base).value;
      OrderIsLogged(raws, layout.insnsSize);
      LoggedTable(data, layout.triesOff, layout.triesSize, layout.insnsSize);
      NonEmptyOrdered(raws);
      forall i, j | 0 <= i < j < |p.code.tries| ensures p.code.tries[i].End() <= p.code.tries[j].startAddr {
        TableTries(data, layout.triesOff, layout.triesSize, layout.insnsSize, i);
        TableTries(data, layout.triesOff, layout.triesSize, layout.insnsSize, j);
        assert Apart(NonEmpty(raws)[i], NonEmpty(raws)[j]);
        assert NonEmpty(raws)[i] in raws;
      }
    }
  }

  lemma LoggedTable(data: seq<byte>, triesOff: nat, triesSize: nat, insnsSize: nat)
    requires ParseExceptions(data, triesOff, triesSize, insnsSize).Ok?
    ensures RawTries(data, triesOff, triesSize).Ok?
    ensures ParseExceptions(data, triesOff, triesSize, insnsSize).value.log ==
        TryLog(RawTries(data, triesOff, triesSize).value, insnsSize)
  {
  }

  // ----- end to end -----

  /** Instruction `x` and the stored range of `t` share a unit of the code. */
  predicate Meets(t: RawTry, x: Instruction, insnsSize: nat, u: nat) {
    x.addr <= u < x.End() && InStored(t, insnsSize, u)
  }

  lemma {:induction false} NonEmptyKeeps(raws: seq<RawTry>, t: RawTry)
    requires t in raws && t.insnCount > 0
    ensures t in NonEmpty(raws)
    decreases |raws|
  {
    var n := |raws| - 1;
    if t != raws[n] {
      assert raws == raws[..n] + [raws[n]];
      NonEmptyKeeps(raws[..n], t);
    }
  }

  /** Every instruction a stored try touches is in a block with an edge to each handler the try's bytes name. */
  lemma StoredTryReachesHandlers(data: seq<byte>, base: nat, code: CodeItem, layout: Layout, raws: seq<RawTry>,
                                 h: CatchHandler,
                                 cfg: Cfg, i: nat, raw: RawTry, u: nat, kind: EdgeKind, a: nat)
    requires ParseCode(data, base).Ok? && ParseCode(data, base).value.code == code && ValidCode(code) &&
        IsCfgOf(code, cfg)
    requires LayoutOf(data, base) == Ok(layout) && StoredTries(data, base) == Ok(raws)
    requires i < |code.instructions| && raw in raws && Meets(raw, code.instructions[i], layout.insnsSize, u)
    requires HandlerAt(data, layout.handlersOff + raw.handlerOff).Ok?
    requires HandlerAt(data, layout.handlersOff + raw.handlerOff).value.value == h && InHandler(h, kind, a)
    ensures |cfg.blocks| > 0
    ensures var block := cfg.blocks[HomeOf(code, cfg, i)];
            code.instructions[i] in block.instructions && exists e :: e in block.successors && EdgeTo(cfg, e, kind, a)
  {
    hide ParseCode, LayoutOf, StoredTries, IsCfgOf, HandlerAt, NonEmpty, InHandler, HomeOf, Laid;
    NonEmptyKeeps(raws, raw);
    var k :| 0 <= k < |NonEmpty(raws)| && NonEmpty(raws)[k] == raw;
    TriesMeanTheirBytes(data, base, k);
    var t := code.tries[k];
    assert InKept(t, u);
    TryHandlersReached(code, cfg, i, t, kind, a);
  }

  /** An item parsed without violations, whose cases and handlers land on instructions, keeps every run in its graph. */
  lemma CleanItemStaysInGraph(data: seq<byte>, base: nat, cfg: Cfg)
    requires ParseCode(data, base).Ok? && ParseCode(data, base).value.violations == []
    requires var code := ParseCode(data, base).value.code;
             ValidCode(code) && IsCfgOf(code, cfg) && CasesLand(code) && HandlersLand(code)
    ensures var code := ParseCode(data, base).value.code;
            Unsplit(code) && AllStepsWalk(code, cfg)
  {
    hide *;
    CodeParts(data, base);
    var layout := LayoutOf(data, base).value;
    CleanCodeStaysInGraph(ParseCode(data, base).value.code, cfg, data, base + 16, layout.insnsSize);
  }

  /** A parsed item also meets what the naive builder asks: every sparse table has one target per key. */
  lemma ParsedTablesPaired(data: seq<byte>, base: nat)
    requires ParseCode(data, base).Ok?
    ensures TablesPaired(ParseCode(data, base).value.code.payloads)
  {
    hide ParseCode, Decode, LayoutOf, StoredTries;
    CodeParts(data, base);
    DecodedTablesPaired(data, base + 16, LayoutOf(data, base).value.insnsSize);
  }
}
