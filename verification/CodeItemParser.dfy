/**
 `code_item` parsing (src/decode.rs): the header, the instruction stream, the
 try table with its clamps and gauges, and the catch-handler list.
 */
module CodeItemParser {
  import opened Basics
  import opened Leb128
  import opened CodeModel
  import opened InsnDecoder

  const TRY_ITEM_SIZE: nat := 8
  const CATCH_HANDLER_ITEM_MIN_SIZE: nat := 2

  /** A `try_item` as stored. */
  datatype RawTry = RawTry(startAddr: nat, insnCount: nat, handlerOff: nat) {
    /** End of the stored range, saturating at the largest address. */
    function SaturatedEnd(): nat {
      if startAddr + insnCount <= U32_MAX then startAddr + insnCount else U32_MAX
    }
  }

  datatype ParsedCode = ParsedCode(
    registersSize: nat,
    insSize: nat,
    outsSize: nat,
    debugInfoOff: nat,
    code: CodeItem,
    violations: seq<Violation>)

  // ----- the try table -----

  function RawTryAt(data: seq<byte>, off: nat): (r: Result<RawTry>)
    ensures r.Ok? ==> r.value.startAddr <= U32_MAX && r.value.insnCount <= U16_MAX
  {
    var startAddr :- Word(data, off);
    var insnCount :- HalfWord(data, off + 4);
    var handlerOff :- HalfWord(data, off + 6);
    Ok(RawTry(startAddr, insnCount, handlerOff))
  }

  function RawTries(data: seq<byte>, off: nat, n: nat): (r: Result<seq<RawTry>>)
    ensures r.Ok? ==> |r.value| == n
    ensures r.Ok? ==> forall t :: t in r.value ==> t.startAddr <= U32_MAX && t.insnCount <= U16_MAX
  {
    if n == 0 then Ok([])
    else
      var init :- RawTries(data, off, n - 1);
      var t :- RawTryAt(data, off + TRY_ITEM_SIZE * (n - 1));
      Ok(init + [t])
  }

  predicate InCode(t: RawTry, insnsSize: nat) {
    t.startAddr + t.insnCount <= U32_MAX && t.startAddr + t.insnCount <= insnsSize
  }

  /** The instruction count that is kept: the stored one, or what fits below the end of the code. */
  function ClampedCount(t: RawTry, insnsSize: nat): nat {
    if InCode(t, insnsSize) then t.insnCount
    else
      var fits := if t.startAddr <= insnsSize then insnsSize - t.startAddr else 0;
      if fits <= U16_MAX then fits else U16_MAX
  }

  /** Some try starts before the stored end of the one before it. */
  predicate Disordered(raws: seq<RawTry>) {
    var n := |raws|;
    n > 1 && (Disordered(raws[..n - 1]) || raws[n - 1].startAddr < raws[n - 2].SaturatedEnd())
  }

  function TryIdx(i: nat): nat {
    if i <= U16_MAX then i else U16_MAX
  }

  /** What is logged about the last try of the list: order (the first offence only), emptiness, range. */
  function LastTryLog(raws: seq<RawTry>, insnsSize: nat): seq<Violation>
    requires raws != []
  {
    var i := |raws| - 1;
    var t := raws[i];
    (if Disordered(raws) && !Disordered(raws[..i])
     then [TryItemsUnsortedOrOverlapping(TryIdx(i), raws[i - 1].SaturatedEnd(), t.startAddr)] else []) +
    (if t.insnCount == 0 then [EmptyTryRegion(TryIdx(i), t.startAddr)]
     else if !InCode(t, insnsSize) then [TryItemRangeInvalid(TryIdx(i), t.startAddr, t.insnCount, insnsSize)]
     else [])
  }

  function TryLog(raws: seq<RawTry>, insnsSize: nat): seq<Violation> {
    if raws == [] then [] else TryLog(raws[..|raws| - 1], insnsSize) + LastTryLog(raws, insnsSize)
  }

  /** The tries that are kept, in order; empty ones are dropped. */
  function NonEmpty(raws: seq<RawTry>): (kept: seq<RawTry>)
    ensures forall t :: t in kept ==> t in raws && t.insnCount > 0
  {
    if raws == [] then []
    else
      var t := raws[|raws| - 1];
      NonEmpty(raws[..|raws| - 1]) + if t.insnCount == 0 then [] else [t]
  }

  // ----- the handler list -----

  function TypedCatches(data: seq<byte>, pos: nat, n: nat): (r: Result<Read<seq<TypedCatch>>>)
    ensures r.Ok? ==> pos + 2 * n <= r.value.next && |r.value.value| == n
    ensures r.Ok? && n > 0 ==> r.value.next <= |data|
  {
    if n == 0 then Ok(Read([], pos))
    else
      var init :- TypedCatches(data, pos, n - 1);
      var ty :- Uleb(data, init.next);
      var addr :- Uleb(data, ty.next);
      Ok(Read(init.value + [TypedCatch(ty.value, addr.value)], addr.next))
  }

  /** One `encoded_catch_handler`: a size whose sign tells whether a catch-all follows. */
  function HandlerAt(data: seq<byte>, pos: nat): (r: Result<Read<CatchHandler>>)
    ensures r.Ok? ==> pos < r.value.next
  {
    var size :- Sleb(data, pos);
    var n :- BoundCount(if size.value < 0 then -size.value else size.value, CATCH_HANDLER_ITEM_MIN_SIZE, |data|);
    var catches :- TypedCatches(data, size.next, n);
    if size.value <= 0 then
      var addr :- Uleb(data, catches.next);
      Ok(Read(CatchHandler(catches.value, Some(addr.value)), addr.next))
    else Ok(Read(CatchHandler(catches.value, None), catches.next))
  }

  datatype PlacedHandler = PlacedHandler(pos: nat, handler: CatchHandler)

  /** `n` handlers from `pos`, each with the position of its first byte. */
  function Handlers(data: seq<byte>, pos: nat, n: nat): (r: Result<Read<seq<PlacedHandler>>>)
    ensures r.Ok? ==> pos <= r.value.next && |r.value.value| == n
    ensures r.Ok? ==> forall h :: h in r.value.value ==> pos <= h.pos < r.value.next
  {
    if n == 0 then Ok(Read([], pos))
    else
      var init :- Handlers(data, pos, n - 1);
      var h :- HandlerAt(data, init.next);
      Ok(Read(init.value + [PlacedHandler(init.next, h.value)], h.next))
  }

  function HandlerList(data: seq<byte>, handlersOff: nat): (r: Result<seq<PlacedHandler>>)
    ensures r.Ok? ==> forall h :: h in r.value ==> handlersOff < h.pos
  {
    var count :- Uleb(data, handlersOff);
    var n :- BoundCount(count.value, 1, |data|);
    var list :- Handlers(data, count.next, n);
    Ok(list.value)
  }

  /** Index of the handler that starts at byte `off` of the list. */
  function HandlerIndex(list: seq<PlacedHandler>, handlersOff: nat, off: nat): (r: Option<nat>)
    ensures r.Some? ==> r.value < |list| && list[r.value].pos == handlersOff + off
  {
    if list == [] then None
    else if list[|list| - 1].pos == handlersOff + off then Some(|list| - 1)
    else HandlerIndex(list[..|list| - 1], handlersOff, off)
  }

  function Keep(t: RawTry, insnsSize: nat, idx: nat): TryItem
    requires t.startAddr <= U32_MAX
  {
    TryItem(t.startAddr, ClampedCount(t, insnsSize), idx)
  }

  /** The kept tries with their handler offsets turned into indices. */
  function ResolveTries(kept: seq<RawTry>, insnsSize: nat, list: seq<PlacedHandler>,
                        handlersOff: nat): (r: Result<seq<TryItem>>)
    requires forall t :: t in kept ==> t.startAddr <= U32_MAX
    ensures r.Ok? ==> |r.value| == |kept|
  {
    if kept == [] then Ok([])
    else
      var t := kept[|kept| - 1];
      var init :- ResolveTries(kept[..|kept| - 1], insnsSize, list, handlersOff);
      var idx := HandlerIndex(list, handlersOff, t.handlerOff);
      if idx.None? then Err(InvalidInstruction(0))
      else Ok(init + [Keep(t, insnsSize, idx.value)])
  }

  function Bare(list: seq<PlacedHandler>): (hs: seq<CatchHandler>)
    ensures |hs| == |list|
  {
    seq(|list|, i requires 0 <= i < |list| => list[i].handler)
  }

  /** Byte offset of the try table: after the code, padded to four bytes. */
  function TriesOff(insnsOff: nat, insnsSize: nat): nat {
    insnsOff + 2 * insnsSize + if insnsSize % 2 != 0 then 2 else 0
  }

  datatype ExceptionTable = ExceptionTable(tries: seq<TryItem>, handlers: seq<PlacedHandler>, log: seq<Violation>)

  function ParseExceptions(data: seq<byte>, triesOff: nat, triesSize: nat, insnsSize: nat): Result<ExceptionTable> {
    var n :- BoundCount(triesSize, TRY_ITEM_SIZE, |data|);
    var raws :- RawTries(data, triesOff, n);
    var handlersOff := triesOff + TRY_ITEM_SIZE * triesSize;
    var list :- HandlerList(data, handlersOff);
    var tries :- ResolveTries(NonEmpty(raws), insnsSize, list, handlersOff);
    Ok(ExceptionTable(tries, list, TryLog(raws, insnsSize)))
  }

  function RegisterLog(registersSize: nat, insSize: nat): seq<Violation> {
    if insSize > registersSize then [RegisterCountInverted(registersSize, insSize)] else []
  }

  /** The meaning of `parse_code_item`. */
  function ParseCode(data: seq<byte>, base: nat): Result<ParsedCode> {
    var registersSize :- HalfWord(data, base);
    var insSize :- HalfWord(data, base + 2);
    var outsSize :- HalfWord(data, base + 4);
    var triesSize :- HalfWord(data, base + 6);
    var debugInfoOff :- Word(data, base + 8);
    var insnsSize :- Word(data, base + 12);
    var d :- Decode(data, base + 16, insnsSize);
    var table :- if triesSize == 0 then Ok(ExceptionTable([], [], []))
                 else ParseExceptions(data, TriesOff(base + 16, insnsSize), triesSize, insnsSize);
    Ok(ParsedCode(registersSize, insSize, outsSize, debugInfoOff,
                  CodeItem(d.instructions, table.tries, Bare(table.handlers), d.payloads),
                  d.violations + table.log + RegisterLog(registersSize, insSize)))
  }

  // ----- the parser -----

  lemma {:induction false} RawTriesFail(data: seq<byte>, off: nat, i: nat, n: nat)
    requires i < n && RawTries(data, off, i + 1).Err?
    ensures RawTries(data, off, n) == RawTries(data, off, i + 1)
    decreases n
  {
    hide RawTryAt;
    if i + 1 < n {
      RawTriesFail(data, off, i, n - 1);
    }
  }

  lemma TryStep(raws: seq<RawTry>, t: RawTry, insnsSize: nat)
    ensures Disordered(raws + [t]) <==>
        Disordered(raws) || (raws != [] && t.startAddr < raws[|raws| - 1].SaturatedEnd())
    ensures TryLog(raws + [t], insnsSize) == TryLog(raws, insnsSize) + LastTryLog(raws + [t], insnsSize)
    ensures NonEmpty(raws + [t]) == NonEmpty(raws) + if t.insnCount == 0 then [] else [t]
  {
    assert (raws + [t])[..|raws|] == raws;
  }

  /** The non-empty tries and everything logged about the table. */
  function KeptTries(data: seq<byte>, off: nat, n: nat, insnsSize: nat): Result<(seq<RawTry>, seq<Violation>)> {
    var raws :- RawTries(data, off, n);
    Ok((NonEmpty(raws), TryLog(raws, insnsSize)))
  }

  /** The loop over the try table; kept tries still carry their handler byte offset. */
  method ReadTries(data: seq<byte>, off: nat, n: nat, insnsSize: nat) returns (r: Result<(seq<RawTry>, seq<Violation>)>)
    ensures r == KeptTries(data, off, n, insnsSize)
  {
    hide RawTryAt, Disordered, TryLog, NonEmpty;
    var kept: seq<RawTry> := [];
    var log: seq<Violation> := [];
    var prevEnd: Option<nat> := None;
    var orderRecorded := false;
    ghost var raws: seq<RawTry> := [];
    NoTries(insnsSize);
    for i := 0 to n
      invariant RawTries(data, off, i) == Ok(raws)
      invariant kept == NonEmpty(raws) && log == TryLog(raws, insnsSize)
      invariant prevEnd == if i == 0 then None else Some(raws[i - 1].SaturatedEnd())
      invariant orderRecorded <==> Disordered(raws)
    {
      var entry := RawTryAt(data, off + TRY_ITEM_SIZE * i);
      if entry.Err? {
        RawTriesFail(data, off, i, n);
        return Err(entry.error);
      }
      var t := entry.value;
      TryStep(raws, t, insnsSize);
      assert (raws + [t])[..i] == raws;
      var found: seq<Violation> := [];
      if prevEnd.Some? && t.startAddr < prevEnd.value && !orderRecorded {
        found := [TryItemsUnsortedOrOverlapping(TryIdx(i), prevEnd.value, t.startAddr)];
        orderRecorded := true;
      }
      prevEnd := Some(t.SaturatedEnd());
      if t.insnCount == 0 {
        found := found + [EmptyTryRegion(TryIdx(i), t.startAddr)];
      } else {
        if !InCode(t, insnsSize) {
          found := found + [TryItemRangeInvalid(TryIdx(i), t.startAddr, t.insnCount, insnsSize)];
        }
        kept := kept + [t];
      }
      assert found == LastTryLog(raws + [t], insnsSize);
      log := log + found;
      raws := raws + [t];
    }
    return Ok((kept, log));
  }

  lemma NoTries(insnsSize: nat)
    ensures NonEmpty([]) == [] && TryLog([], insnsSize) == [] && !Disordered([])
  {
  }

  lemma {:induction false} CatchesFail(data: seq<byte>, pos: nat, i: nat, n: nat)
    requires i < n && TypedCatches(data, pos, i + 1).Err?
    ensures TypedCatches(data, pos, n) == TypedCatches(data, pos, i + 1)
    decreases n
  {
    hide Uleb;
    if i + 1 < n {
      CatchesFail(data, pos, i, n - 1);
    }
  }

  method ReadCatches(data: seq<byte>, start: nat, n: nat) returns (r: Result<Read<seq<TypedCatch>>>)
    ensures r == TypedCatches(data, start, n)
  {
    hide Uleb;
    var catches: seq<TypedCatch>, pos := [], start;
    for i := 0 to n
      invariant TypedCatches(data, start, i) == Ok(Read(catches, pos))
    {
      var ty := ReadUleb128(data, pos);
      if ty.Err? {
        CatchesFail(data, start, i, n);
        return Err(ty.error);
      }
      var addr := ReadUleb128(data, ty.value.next);
      if addr.Err? {
        CatchesFail(data, start, i, n);
        return Err(addr.error);
      }
      catches, pos := catches + [TypedCatch(ty.value.value, addr.value.value)], addr.value.next;
    }
    return Ok(Read(catches, pos));
  }

  method ReadHandler(data: seq<byte>, pos: nat) returns (r: Result<Read<CatchHandler>>)
    ensures r == HandlerAt(data, pos)
  {
    hide Uleb, Sleb, TypedCatches;
    var size :- ReadSleb128(data, pos);
    var n :- BoundCount(if size.value < 0 then -size.value else size.value, CATCH_HANDLER_ITEM_MIN_SIZE, |data|);
    var catches :- ReadCatches(data, size.next, n);
    if size.value <= 0 {
      var addr :- ReadUleb128(data, catches.next);
      return Ok(Read(CatchHandler(catches.value, Some(addr.value)), addr.next));
    }
    return Ok(Read(CatchHandler(catches.value, None), catches.next));
  }

  lemma {:induction false} HandlersFail(data: seq<byte>, pos: nat, i: nat, n: nat)
    requires i < n && Handlers(data, pos, i + 1).Err?
    ensures Handlers(data, pos, n) == Handlers(data, pos, i + 1)
    decreases n
  {
    hide HandlerAt;
    if i + 1 < n {
      HandlersFail(data, pos, i, n - 1);
    }
  }

  /** The map from byte offset to handler index agrees with the placed handlers. */
  ghost predicate IsOffsetMap(m: map<nat, nat>, list: seq<PlacedHandler>, handlersOff: nat) {
    forall off: nat :: (off in m <==> HandlerIndex(list, handlersOff, off).Some?) &&
                       (off in m ==> HandlerIndex(list, handlersOff, off) == Some(m[off]))
  }

  lemma OffsetMapStep(m: map<nat, nat>, list: seq<PlacedHandler>, handlersOff: nat, pos: nat, h: CatchHandler)
    requires IsOffsetMap(m, list, handlersOff) && handlersOff <= pos
    ensures IsOffsetMap(m[pos - handlersOff := |list|], list + [PlacedHandler(pos, h)], handlersOff)
  {
    assert (list + [PlacedHandler(pos, h)])[..|list|] == list;
  }

  /** The loop over the handler list, filling the offset map as it goes. */
  method ReadHandlers(data: seq<byte>, handlersOff: nat)
    returns (r: Result<seq<CatchHandler>>, m: map<nat, nat>, ghost list: seq<PlacedHandler>)
    ensures r.Err? ==> HandlerList(data, handlersOff) == Err(r.error)
    ensures r.Ok? ==> HandlerList(data, handlersOff) == Ok(list) && r.value == Bare(list)
    ensures r.Ok? ==> IsOffsetMap(m, list, handlersOff)
  {
    hide Uleb, HandlerAt, HandlerIndex, IsOffsetMap;
    m, list := map[], [];
    var count := ReadUleb128(data, handlersOff);
    if count.Err? {
      return Err(count.error), m, list;
    }
    var n := BoundCount(count.value.value, 1, |data|);
    if n.Err? {
      return Err(n.error), m, list;
    }
    var start := count.value.next;
    var pos: nat := start;
    var handlers: seq<CatchHandler> := [];
    NoHandlers(handlersOff);
    for i := 0 to n.value
      invariant Handlers(data, start, i) == Ok(Read(list, pos))
      invariant handlers == Bare(list) && IsOffsetMap(m, list, handlersOff)
    {
      var h := ReadHandler(data, pos);
      if h.Err? {
        HandlersFail(data, start, i, n.value);
        return Err(h.error), m, list;
      }
      OffsetMapStep(m, list, handlersOff, pos, h.value.value);
      m := m[pos - handlersOff := i];
      handlers := handlers + [h.value.value];
      list := list + [PlacedHandler(pos, h.value.value)];
      pos := h.value.next;
    }
    return Ok(handlers), m, list;
  }

  lemma NoHandlers(handlersOff: nat)
    ensures IsOffsetMap(map[], [], handlersOff)
  {
  }

  lemma {:induction false} ResolveTriesFail(kept: seq<RawTry>, insnsSize: nat, list: seq<PlacedHandler>,
                                            handlersOff: nat, i: nat)
    requires forall t :: t in kept ==> t.startAddr <= U32_MAX
    requires i < |kept| && HandlerIndex(list, handlersOff, kept[i].handlerOff).None?
    ensures ResolveTries(kept, insnsSize, list, handlersOff) == Err(InvalidInstruction(0))
    decreases |kept|
  {
    hide HandlerIndex, Keep;
    var n := |kept| - 1;
    if i < n {
      assert kept[..n][i] == kept[i];
      ResolveTriesFail(kept[..n], insnsSize, list, handlersOff, i);
    } else {
      OnlyOneError(kept[..n], insnsSize, list, handlersOff);
    }
  }

  lemma {:induction false} OnlyOneError(kept: seq<RawTry>, insnsSize: nat, list: seq<PlacedHandler>, handlersOff: nat)
    requires forall t :: t in kept ==> t.startAddr <= U32_MAX
    ensures ResolveTries(kept, insnsSize, list, handlersOff).Err? ==>
              ResolveTries(kept, insnsSize, list, handlersOff) == Err(InvalidInstruction(0))
    decreases |kept|
  {
    hide HandlerIndex, Keep;
    if kept != [] {
      OnlyOneError(kept[..|kept| - 1], insnsSize, list, handlersOff);
    }
  }

  /** The pass that turns handler byte offsets into handler indices. */
  method ResolveHandlers(kept: seq<RawTry>, insnsSize: nat, m: map<nat, nat>, ghost list: seq<PlacedHandler>,
                         handlersOff: nat)
    returns (r: Result<seq<TryItem>>)
    requires IsOffsetMap(m, list, handlersOff) && forall t :: t in kept ==> t.startAddr <= U32_MAX
    ensures r == ResolveTries(kept, insnsSize, list, handlersOff)
  {
    hide HandlerIndex, ClampedCount;
    var tries: seq<TryItem> := [];
    for i := 0 to |kept|
      invariant ResolveTries(kept[..i], insnsSize, list, handlersOff) == Ok(tries)
    {
      var t := kept[i];
      assert HandlerIndex(list, handlersOff, t.handlerOff).Some? <==> t.handlerOff in m;
      if t.handlerOff !in m {
        ResolveTriesFail(kept, insnsSize, list, handlersOff, i);
        return Err(InvalidInstruction(0));
      }
      assert kept[..i + 1][..i] == kept[..i];
      tries := tries + [Keep(t, insnsSize, m[t.handlerOff])];
    }
    assert kept[..|kept|] == kept;
    return Ok(tries);
  }

  /** An exception table without the positions of its handlers. */
  function ExceptionParts(data: seq<byte>, triesOff: nat, triesSize: nat, insnsSize: nat)
    : Result<(seq<TryItem>, seq<CatchHandler>, seq<Violation>)>
  {
    var table :- ParseExceptions(data, triesOff, triesSize, insnsSize);
    Ok((table.tries, Bare(table.handlers), table.log))
  }

  method ReadExceptions(data: seq<byte>, triesOff: nat, triesSize: nat, insnsSize: nat)
    returns (r: Result<(seq<TryItem>, seq<CatchHandler>, seq<Violation>)>)
    ensures r == ExceptionParts(data, triesOff, triesSize, insnsSize)
  {
    hide RawTries, HandlerList, ResolveTries, NonEmpty, TryLog, Bare, IsOffsetMap;
    var n :- BoundCount(triesSize, TRY_ITEM_SIZE, |data|);
    var entries :- ReadTries(data, triesOff, n, insnsSize);
    var handlersOff := triesOff + TRY_ITEM_SIZE * triesSize;
    var handlers, m, list := ReadHandlers(data, handlersOff);
    if handlers.Err? {
      return Err(handlers.error);
    }
    var tries :- ResolveHandlers(entries.0, insnsSize, m, list, handlersOff);
    return Ok((tries, handlers.value, entries.1));
  }

  /** `parse_code_item`. */
  method ParseCodeItem(data: seq<byte>, codeOff: nat) returns (r: Result<ParsedCode>)
    ensures r == ParseCode(data, codeOff)
  {
    hide Decode, ParseExceptions, HalfWord, Word, Bare;
    var registersSize :- HalfWord(data, codeOff);
    var insSize :- HalfWord(data, codeOff + 2);
    var outsSize :- HalfWord(data, codeOff + 4);
    var triesSize :- HalfWord(data, codeOff + 6);
    var debugInfoOff :- Word(data, codeOff + 8);
    var insnsSize :- Word(data, codeOff + 12);
    var d :- DecodeInsns(data, codeOff + 16, insnsSize);
    var tries: seq<TryItem>, handlers: seq<CatchHandler>, log := [], [], d.violations;
    if triesSize > 0 {
      var table :- ReadExceptions(data, TriesOff(codeOff + 16, insnsSize), triesSize, insnsSize);
      tries, handlers, log := table.0, table.1, log + table.2;
    } else {
      BareNone();
      assert log == d.violations + [];
    }
    ghost var before := log;
    if insSize > registersSize {
      log := log + [RegisterCountInverted(registersSize, insSize)];
    }
    assert log == before + RegisterLog(registersSize, insSize);
    return Ok(ParsedCode(registersSize, insSize, outsSize, debugInfoOff,
                         CodeItem(d.instructions, tries, handlers, d.payloads), log));
  }

  lemma BareNone()
    ensures Bare([]) == []
  {
  }
}
