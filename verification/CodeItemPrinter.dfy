/**
 A whole `code_item` written and read back: header, code units, padding, try
 table and handler list, with tries naming their handlers by position.
 */
module CodeItemPrinter {
  import opened Basics
  import opened Leb128
  import opened CodeModel
  import opened InsnDecoder
  import opened BranchEncoding
  import opened CodeItemParser
  import opened HandlerEncoding
  import opened CodeItemTheorems

  // ----- the try table -----

  predicate StorableTry(t: RawTry) {
    t.startAddr <= U32_MAX && t.insnCount <= U16_MAX && t.handlerOff <= U16_MAX
  }

  predicate StorableTries(ts: seq<RawTry>) {
    forall i :: 0 <= i < |ts| ==> StorableTry(ts[i])
  }

  /** Eight bytes: start address, instruction count, handler offset. */
  function PrintTry(t: RawTry): (bs: seq<byte>)
    requires StorableTry(t)
    ensures |bs| == 8
  {
    WordBytes(t.startAddr) + (UnitBytes(t.insnCount) + UnitBytes(t.handlerOff))
  }

  function PrintTries(ts: seq<RawTry>): (bs: seq<byte>)
    requires StorableTries(ts)
    ensures |bs| == 8 * |ts|
  {
    if ts == [] then [] else PrintTries(ts[..|ts| - 1]) + PrintTry(ts[|ts| - 1])
  }

  lemma TryRoundTrip(data: seq<byte>, off: nat, t: RawTry)
    requires StorableTry(t) && HasAt(data, off, PrintTry(t))
    ensures RawTryAt(data, off) == Ok(t)
  {
    hide HasAt, Word, HalfWord, WordBytes, UnitBytes;
    HasAtSplit(data, off, WordBytes(t.startAddr), UnitBytes(t.insnCount) + UnitBytes(t.handlerOff));
    HasAtSplit(data, off + 4, UnitBytes(t.insnCount), UnitBytes(t.handlerOff));
    WordPrinted(data, off, t.startAddr);
    UnitPrinted(data, off + 4, t.insnCount);
    UnitPrinted(data, off + 6, t.handlerOff);
  }

  /** A written try table reads back entry by entry. */
  lemma {:induction false} TriesRoundTrip(data: seq<byte>, off: nat, ts: seq<RawTry>)
    requires StorableTries(ts) && HasAt(data, off, PrintTries(ts))
    ensures RawTries(data, off, |ts|) == Ok(ts)
    decreases |ts|
  {
    hide HasAt, RawTryAt, PrintTry;
    if ts != [] {
      var n := |ts| - 1;
      HasAtSplit(data, off, PrintTries(ts[..n]), PrintTry(ts[n]));
      TriesRoundTrip(data, off, ts[..n]);
      TryRoundTrip(data, off + 8 * n, ts[n]);
      assert ts[..n] + [ts[n]] == ts;
    }
  }

  // ----- the handler list -----

  /** A handler and the bytes chosen for its signed size. */
  datatype StoredHandler = StoredHandler(handler: CatchHandler, sleb: seq<byte>)

  predicate StorableHandlers(hs: seq<StoredHandler>) {
    forall i :: 0 <= i < |hs| ==>
      Encodable(hs[i].handler) && Sleb(hs[i].sleb, 0) == Ok(Read(SignedSize(hs[i].handler), |hs[i].sleb|))
  }

  function PrintHandler(h: StoredHandler): seq<byte> {
    h.sleb + (PrintCatches(h.handler.catches) + PrintCatchAll(h.handler))
  }

  function PrintHandlers(hs: seq<StoredHandler>): seq<byte> {
    if hs == [] then [] else PrintHandlers(hs[..|hs| - 1]) + PrintHandler(hs[|hs| - 1])
  }

  lemma HandlersSplit(hs: seq<StoredHandler>)
    requires hs != []
    ensures PrintHandlers(hs) == PrintHandlers(hs[..|hs| - 1]) + PrintHandler(hs[|hs| - 1])
  {
  }

  lemma HandlerTakesBytes(h: StoredHandler)
    requires Sleb(h.sleb, 0).Ok?
    ensures |PrintHandler(h)| >= 1
  {
    hide PrintCatches, PrintCatchAll;
  }

  lemma {:induction false} HandlersTakeBytes(hs: seq<StoredHandler>)
    requires StorableHandlers(hs)
    ensures |hs| <= |PrintHandlers(hs)|
    decreases |hs|
  {
    hide PrintHandler, Sleb, Encodable;
    if hs != [] {
      var n := |hs| - 1;
      HandlersTakeBytes(hs[..n]);
      HandlerTakesBytes(hs[n]);
    }
  }

  /** Each handler stands where the ones before it end. */
  predicate ArePlaced(list: seq<PlacedHandler>, pos: nat, hs: seq<StoredHandler>) {
    && |list| == |hs|
    && forall i :: 0 <= i < |hs| ==> list[i] == PlacedHandler(pos + |PrintHandlers(hs[..i])|, hs[i].handler)
  }

  lemma {:induction false} HandlersPrinted(data: seq<byte>, pos: nat, hs: seq<StoredHandler>)
    requires StorableHandlers(hs) && HasAt(data, pos, PrintHandlers(hs))
    ensures var r := Handlers(data, pos, |hs|);
            r.Ok? && r.value.next == pos + |PrintHandlers(hs)| && ArePlaced(r.value.value, pos, hs)
    decreases |hs|
  {
    hide HasAt, PrintHandlers, PrintHandler, HandlerAt, Sleb, Encodable;
    if hs == [] {
      NoHandlers();
    } else {
      var n := |hs| - 1;
      HandlersSplit(hs);
      var init := PrintHandlers(hs[..n]);
      HasAtSplit(data, pos, init, PrintHandler(hs[n]));
      HandlersPrinted(data, pos, hs[..n]);
      OneHandlerPrinted(data, pos + |init|, hs[n]);
      var list := Handlers(data, pos, |hs|).value.value;
      forall i | 0 <= i < |hs|
        ensures list[i] == PlacedHandler(pos + |PrintHandlers(hs[..i])|, hs[i].handler)
      {
        if i < n {
          assert hs[..n][i] == hs[i] && hs[..n][..i] == hs[..i];
        }
      }
    }
  }

  lemma NoHandlers()
    ensures PrintHandlers([]) == []
  {
  }

  lemma OneHandlerPrinted(data: seq<byte>, pos: nat, h: StoredHandler)
    requires Encodable(h.handler) && Sleb(h.sleb, 0) == Ok(Read(SignedSize(h.handler), |h.sleb|))
    requires HasAt(data, pos, PrintHandler(h))
    ensures HandlerAt(data, pos) == Ok(Read(h.handler, pos + |PrintHandler(h)|))
  {
    hide HasAt, HandlerAt, Sleb, Encodable, PrintCatches, PrintCatchAll;
    HandlerRoundTrip(h.handler, h.sleb, data, pos);
  }

  function PrintHandlerList(hs: seq<StoredHandler>): seq<byte> {
    EncodeUleb(|hs|) + PrintHandlers(hs)
  }

  /** Byte offset of handler `k` in the list. */
  function HandlerOffset(hs: seq<StoredHandler>, k: nat): nat
    requires k <= |hs|
  {
    |EncodeUleb(|hs|)| + |PrintHandlers(hs[..k])|
  }

  lemma {:induction false} OffsetsAscend(hs: seq<StoredHandler>, i: nat, j: nat)
    requires StorableHandlers(hs) && i < j <= |hs|
    ensures HandlerOffset(hs, i) < HandlerOffset(hs, j)
    decreases j
  {
    hide PrintHandler, EncodeUleb, Sleb, Encodable;
    HandlersSplit(hs[..j]);
    assert hs[..j][..j - 1] == hs[..j - 1];
    HandlerTakesBytes(hs[j - 1]);
    if i < j - 1 {
      OffsetsAscend(hs, i, j - 1);
    }
  }

  lemma HandlerListRoundTrip(data: seq<byte>, off: nat, hs: seq<StoredHandler>)
    requires StorableHandlers(hs) && |hs| <= U32_MAX && HasAt(data, off, PrintHandlerList(hs))
    ensures HandlerList(data, off).Ok?
    ensures ArePlaced(HandlerList(data, off).value, off + |EncodeUleb(|hs|)|, hs)
  {
    hide HasAt, PrintHandlers, Handlers, Uleb, EncodeUleb, StorableHandlers, ArePlaced;
    HasAtSplit(data, off, EncodeUleb(|hs|), PrintHandlers(hs));
    UlebRoundTrip(|hs|, data, off);
    HandlersPrinted(data, off + |EncodeUleb(|hs|)|, hs);
    HandlersTakeBytes(hs);
    HasAtFits(data, off + |EncodeUleb(|hs|)|, PrintHandlers(hs));
    BoundIsCapacity(|hs|, 1, |data|);
  }

  /** The offset of a written handler finds that handler and no other. */
  lemma OffsetFindsHandler(list: seq<PlacedHandler>, off: nat, hs: seq<StoredHandler>, k: nat)
    requires StorableHandlers(hs) && k < |hs| && ArePlaced(list, off + |EncodeUleb(|hs|)|, hs)
    ensures HandlerIndex(list, off, HandlerOffset(hs, k)) == Some(k)
  {
    hide EncodeUleb, PrintHandlers, StorableHandlers;
    var at := HandlerOffset(hs, k);
    assert list[k].pos == off + at;
    var found := HandlerIndex(list, off, at);
    FoundIfPresent(list, off, at, k);
    if found.value < k {
      OffsetsAscend(hs, found.value, k);
    } else if k < found.value {
      OffsetsAscend(hs, k, found.value);
    }
  }

  lemma {:induction false} FoundIfPresent(list: seq<PlacedHandler>, off: nat, at: nat, k: nat)
    requires k < |list| && list[k].pos == off + at
    ensures HandlerIndex(list, off, at).Some?
    decreases |list|
  {
    if list[|list| - 1].pos != off + at {
      assert list[..|list| - 1][k] == list[k];
      FoundIfPresent(list[..|list| - 1], off, at, k);
    }
  }

  // ----- the exception table -----

  /** A try that names its handler by position in the list. */
  datatype StoredTry = StoredTry(startAddr: nat, insnCount: nat, handler: nat)

  /** The try as stored, with the byte offset of its handler. */
  function RawOf(t: StoredTry, hs: seq<StoredHandler>): RawTry
    requires t.handler < |hs|
  {
    RawTry(t.startAddr, t.insnCount, HandlerOffset(hs, t.handler))
  }

  predicate NamesHandlers(ts: seq<StoredTry>, hs: seq<StoredHandler>) {
    forall i :: 0 <= i < |ts| ==>
      && ts[i].handler < |hs| && ts[i].startAddr <= U32_MAX && ts[i].insnCount <= U16_MAX
      && HandlerOffset(hs, ts[i].handler) <= U16_MAX
  }

  function RawsOf(ts: seq<StoredTry>, hs: seq<StoredHandler>): (raws: seq<RawTry>)
    requires NamesHandlers(ts, hs)
    ensures |raws| == |ts| && StorableTries(raws)
  {
    seq(|ts|, i requires 0 <= i < |ts| => RawOf(ts[i], hs))
  }

  /** The tries that cover at least one instruction unit, in order. */
  function Covering(ts: seq<StoredTry>): (kept: seq<StoredTry>)
    ensures forall t :: t in kept ==> t in ts
  {
    if ts == [] then []
    else
      var t := ts[|ts| - 1];
      Covering(ts[..|ts| - 1]) + if t.insnCount == 0 then [] else [t]
  }

  lemma {:induction false} CoveringRaws(ts: seq<StoredTry>, hs: seq<StoredHandler>)
    requires NamesHandlers(ts, hs)
    ensures NamesHandlers(Covering(ts), hs)
    ensures NonEmpty(RawsOf(ts, hs)) == RawsOf(Covering(ts), hs)
    decreases |ts|
  {
    hide HandlerOffset;
    forall i | 0 <= i < |Covering(ts)| ensures Covering(ts)[i] in ts {
    }
    if ts != [] {
      var n := |ts| - 1;
      CoveringRaws(ts[..n], hs);
      assert RawsOf(ts, hs)[..n] == RawsOf(ts[..n], hs);
      assert RawsOf(Covering(ts), hs) ==
             RawsOf(Covering(ts[..n]), hs) + if ts[n].insnCount == 0 then [] else [RawOf(ts[n], hs)];
    }
  }

  /** Try `t` of the parsed item is the stored one cut to the code, with its own handler. */
  ghost predicate IsTry(t: TryItem, s: StoredTry, insnsSize: nat) {
    && t.handlerIdx == s.handler
    && t.startAddr == s.startAddr
    && (s.startAddr + s.insnCount <= insnsSize ==> t.insnCount == s.insnCount)
    && (forall pc: nat :: InKept(t, pc) <==> s.startAddr <= pc < s.startAddr + s.insnCount && pc < insnsSize)
  }

  lemma KeptTryIs(s: StoredTry, hs: seq<StoredHandler>, insnsSize: nat)
    requires s.handler < |hs| && s.startAddr <= U32_MAX && s.insnCount <= U16_MAX && insnsSize <= U32_MAX
    ensures IsTry(Keep(RawOf(s, hs), insnsSize, s.handler), s, insnsSize)
  {
    hide HandlerOffset;
    var raw := RawOf(s, hs);
    var t := Keep(raw, insnsSize, s.handler);
    forall pc: nat ensures InKept(t, pc) <==> s.startAddr <= pc < s.startAddr + s.insnCount && pc < insnsSize {
      KeptRangeIsCut(raw, insnsSize, s.handler, pc);
    }
  }

  /** Resolving the handler offsets of written tries gives each its own handler. */
  lemma {:induction false} ResolvedTries(ts: seq<StoredTry>, hs: seq<StoredHandler>, insnsSize: nat,
                                         list: seq<PlacedHandler>, off: nat)
    requires NamesHandlers(ts, hs) && StorableHandlers(hs) && ArePlaced(list, off + |EncodeUleb(|hs|)|, hs)
    requires insnsSize <= U32_MAX
    ensures var r := ResolveTries(RawsOf(ts, hs), insnsSize, list, off);
            r.Ok? && forall i :: 0 <= i < |ts| ==> IsTry(r.value[i], ts[i], insnsSize)
    decreases |ts|
  {
    hide HandlerOffset, EncodeUleb, ArePlaced, StorableHandlers, HandlerIndex, Keep, IsTry;
    if ts != [] {
      var n := |ts| - 1;
      ResolvedTries(ts[..n], hs, insnsSize, list, off);
      assert RawsOf(ts, hs)[..n] == RawsOf(ts[..n], hs);
      OffsetFindsHandler(list, off, hs, ts[n].handler);
      KeptTryIs(ts[n], hs, insnsSize);
      assert forall i :: 0 <= i < n ==> ts[..n][i] == ts[i];
    }
  }

  function PrintExceptions(ts: seq<StoredTry>, hs: seq<StoredHandler>): seq<byte>
    requires NamesHandlers(ts, hs)
  {
    PrintTries(RawsOf(ts, hs)) + PrintHandlerList(hs)
  }

  ghost predicate AreTries(tries: seq<TryItem>, ts: seq<StoredTry>, insnsSize: nat) {
    |tries| == |ts| && forall i :: 0 <= i < |ts| ==> IsTry(tries[i], ts[i], insnsSize)
  }

  predicate AreHandlers(handlers: seq<CatchHandler>, hs: seq<StoredHandler>) {
    |handlers| == |hs| && forall i :: 0 <= i < |hs| ==> handlers[i] == hs[i].handler
  }

  /** A written exception table reads back: its covering tries, in order, and all its handlers. */
  lemma ExceptionsRoundTrip(data: seq<byte>, off: nat, ts: seq<StoredTry>, hs: seq<StoredHandler>, insnsSize: nat)
    requires NamesHandlers(ts, hs) && StorableHandlers(hs) && |hs| <= U32_MAX && insnsSize <= U32_MAX
    requires HasAt(data, off, PrintExceptions(ts, hs))
    ensures var r := ParseExceptions(data, off, |ts|, insnsSize);
            && r.Ok? && AreTries(r.value.tries, Covering(ts), insnsSize) && AreHandlers(Bare(r.value.handlers), hs)
  {
    hide HasAt, PrintTries, PrintHandlerList, RawTries, NonEmpty, HandlerList, ResolveTries, NamesHandlers,
         StorableHandlers, Covering, IsTry, TryLog, RawsOf, EncodeUleb;
    var raws := RawsOf(ts, hs);
    HasAtSplit(data, off, PrintTries(raws), PrintHandlerList(hs));
    TriesRoundTrip(data, off, raws);
    HasAtFits(data, off, PrintTries(raws));
    BoundIsCapacity(|ts|, 8, |data|);
    HandlerListRoundTrip(data, off + 8 * |ts|, hs);
    CoveringRaws(ts, hs);
    ResolvedTries(Covering(ts), hs, insnsSize, HandlerList(data, off + 8 * |ts|).value, off + 8 * |ts|);
  }

  // ----- the item -----

  datatype StoredItem = StoredItem(
    registersSize: nat,
    insSize: nat,
    outsSize: nat,
    debugInfoOff: nat,
    units: seq<nat>,
    tries: seq<StoredTry>,
    handlers: seq<StoredHandler>)

  predicate Storable(item: StoredItem) {
    && item.registersSize <= U16_MAX && item.insSize <= U16_MAX && item.outsSize <= U16_MAX
    && item.debugInfoOff <= U32_MAX && |item.units| <= U32_MAX && AreUnits(item.units)
    && |item.tries| <= U16_MAX && |item.handlers| <= U32_MAX
    && NamesHandlers(item.tries, item.handlers) && StorableHandlers(item.handlers)
  }

  /** Sixteen bytes of sizes and offsets. */
  function PrintSizes(item: StoredItem): (bs: seq<byte>)
    requires Storable(item)
    ensures |bs| == 16
  {
    UnitBytes(item.registersSize) + (UnitBytes(item.insSize) + (UnitBytes(item.outsSize) + (UnitBytes(|item.tries|)
    + (WordBytes(item.debugInfoOff) + WordBytes(|item.units|)))))
  }

  /** The try table starts on a four-byte boundary: an odd number of units is followed by a unit of padding. */
  function Padding(item: StoredItem, pad: nat): (bs: seq<byte>)
    requires pad <= U16_MAX
  {
    if item.tries != [] && |item.units| % 2 != 0 then UnitBytes(pad) else []
  }

  function PrintItem(item: StoredItem, pad: nat): seq<byte>
    requires Storable(item) && pad <= U16_MAX
  {
    PrintSizes(item) + (PrintUnits(item.units) + (Padding(item, pad)
    + if item.tries == [] then [] else PrintExceptions(item.tries, item.handlers)))
  }

  lemma SizesPrinted(data: seq<byte>, base: nat, item: StoredItem)
    requires Storable(item) && HasAt(data, base, PrintSizes(item))
    ensures HalfWord(data, base) == Ok(item.registersSize)
    ensures HalfWord(data, base + 2) == Ok(item.insSize)
    ensures HalfWord(data, base + 4) == Ok(item.outsSize)
    ensures HalfWord(data, base + 6) == Ok(|item.tries|)
    ensures Word(data, base + 8) == Ok(item.debugInfoOff)
    ensures Word(data, base + 12) == Ok(|item.units|)
  {
    hide HasAt, HalfWord, Word, UnitBytes, WordBytes, NamesHandlers, StorableHandlers, AreUnits;
    var f := WordBytes(|item.units|);
    var e := WordBytes(item.debugInfoOff) + f;
    var d := UnitBytes(|item.tries|) + e;
    var c := UnitBytes(item.outsSize) + d;
    var b := UnitBytes(item.insSize) + c;
    HasAtSplit(data, base, UnitBytes(item.registersSize), b);
    HasAtSplit(data, base + 2, UnitBytes(item.insSize), c);
    HasAtSplit(data, base + 4, UnitBytes(item.outsSize), d);
    HasAtSplit(data, base + 6, UnitBytes(|item.tries|), e);
    HasAtSplit(data, base + 8, WordBytes(item.debugInfoOff), f);
    UnitPrinted(data, base, item.registersSize);
    UnitPrinted(data, base + 2, item.insSize);
    UnitPrinted(data, base + 4, item.outsSize);
    UnitPrinted(data, base + 6, |item.tries|);
    WordPrinted(data, base + 8, item.debugInfoOff);
    WordPrinted(data, base + 12, |item.units|);
  }

  /** Where the parts of a written item are. */
  lemma PartsPrinted(data: seq<byte>, base: nat, item: StoredItem, pad: nat)
    requires Storable(item) && pad <= U16_MAX && HasAt(data, base, PrintItem(item, pad))
    ensures HasAt(data, base, PrintSizes(item)) && HasAt(data, base + 16, PrintUnits(item.units))
    ensures item.tries != [] ==>
              HasAt(data, TriesOff(base + 16, |item.units|), PrintExceptions(item.tries, item.handlers))
  {
    hide HasAt, PrintSizes, PrintUnits, PrintExceptions, NamesHandlers, StorableHandlers, AreUnits, UnitBytes;
    var last := if item.tries == [] then [] else PrintExceptions(item.tries, item.handlers);
    var code := PrintUnits(item.units);
    HasAtSplit(data, base, PrintSizes(item), code + (Padding(item, pad) + last));
    HasAtSplit(data, base + 16, code, Padding(item, pad) + last);
    HasAtSplit(data, base + 16 + |code|, Padding(item, pad), last);
  }

  /**
   A written code item whose units decode is read back whole: the four sizes and offsets, the instructions and
   tables of its own units, every covering try with its range cut to the code and its own handler, all handlers.
   */
  lemma CodeItemRoundTrip(data: seq<byte>, base: nat, item: StoredItem, pad: nat)
    requires Storable(item) && pad <= U16_MAX && HasAt(data, base, PrintItem(item, pad))
    requires Decode(data, base + 16, |item.units|).Ok?
    ensures UnitsAt(data, base + 16, 0, |item.units|) == Ok(item.units)
    ensures ParseCode(data, base).Ok?
    ensures var d := Decode(data, base + 16, |item.units|).value;
            var p := ParseCode(data, base).value;
            && p.registersSize == item.registersSize && p.insSize == item.insSize && p.outsSize == item.outsSize
            && p.debugInfoOff == item.debugInfoOff
            && p.code.instructions == d.instructions && p.code.payloads == d.payloads
            && AreTries(p.code.tries, Covering(item.tries), |item.units|)
            && AreHandlers(p.code.catchHandlers, if item.tries == [] then [] else item.handlers)
  {
    hide HasAt, HalfWord, Word, PrintItem, PrintSizes, PrintUnits, PrintExceptions, Decode, ParseExceptions,
         NamesHandlers, StorableHandlers, AreUnits, IsTry, UnitsAt, TriesOff;
    PartsPrinted(data, base, item, pad);
    SizesPrinted(data, base, item);
    UnitsPrinted(data, base + 16, 0, item.units);
    if item.tries != [] {
      ExceptionsRoundTrip(data, TriesOff(base + 16, |item.units|), item.tries, item.handlers, |item.units|);
    }
  }

  /** A covering try whose offset is not that of a handler refuses the whole item. */
  lemma UnresolvedRefused(data: seq<byte>, off: nat, raws: seq<RawTry>, hs: seq<StoredHandler>, insnsSize: nat, k: nat)
    requires StorableTries(raws) && StorableHandlers(hs) && |hs| <= U32_MAX
    requires HasAt(data, off, PrintTries(raws) + PrintHandlerList(hs))
    requires k < |raws| && raws[k].insnCount > 0 && NoHandlerAt(hs, raws[k].handlerOff)
    ensures ParseExceptions(data, off, |raws|, insnsSize) == Err(InvalidInstruction(0))
  {
    hide HasAt, PrintTries, PrintHandlerList, RawTries, NonEmpty, HandlerList, ResolveTries, StorableHandlers,
         EncodeUleb, NoHandlerAt, ArePlaced, ParseExceptions, StorableTries;
    var at := off + 8 * |raws|;
    HasAtSplit(data, off, PrintTries(raws), PrintHandlerList(hs));
    TriesRoundTrip(data, off, raws);
    HasAtFits(data, off, PrintTries(raws));
    HandlerListRoundTrip(data, at, hs);
    var list := HandlerList(data, at).value;
    NonEmptyKeeps(raws, raws[k]);
    NotPlaced(list, at, hs, raws[k].handlerOff);
    Unresolved(NonEmpty(raws), insnsSize, list, at, raws[k]);
    ResolutionFails(data, off, raws, insnsSize);
  }

  predicate NoHandlerAt(hs: seq<StoredHandler>, at: nat) {
    forall i :: 0 <= i < |hs| ==> HandlerOffset(hs, i) != at
  }

  lemma ResolutionFails(data: seq<byte>, off: nat, raws: seq<RawTry>, insnsSize: nat)
    requires RawTries(data, off, |raws|) == Ok(raws) && 8 * |raws| <= |data|
    requires HandlerList(data, off + 8 * |raws|).Ok?
    requires var list := HandlerList(data, off + 8 * |raws|).value;
             ResolveTries(NonEmpty(raws), insnsSize, list, off + 8 * |raws|) == Err(InvalidInstruction(0))
    ensures ParseExceptions(data, off, |raws|, insnsSize) == Err(InvalidInstruction(0))
  {
    hide RawTries, NonEmpty, HandlerList, ResolveTries, TryLog;
    BoundIsCapacity(|raws|, 8, |data|);
  }

  lemma NotPlaced(list: seq<PlacedHandler>, off: nat, hs: seq<StoredHandler>, at: nat)
    requires ArePlaced(list, off + |EncodeUleb(|hs|)|, hs) && NoHandlerAt(hs, at)
    ensures HandlerIndex(list, off, at) == None
  {
    hide EncodeUleb, PrintHandlers;
  }

  lemma {:induction false} Unresolved(kept: seq<RawTry>, insnsSize: nat, list: seq<PlacedHandler>, off: nat, t: RawTry)
    requires (forall t :: t in kept ==> t.startAddr <= U32_MAX) && t in kept
    requires HandlerIndex(list, off, t.handlerOff) == None
    ensures ResolveTries(kept, insnsSize, list, off) == Err(InvalidInstruction(0))
    decreases |kept|
  {
    hide HandlerIndex, Keep;
    var n := |kept| - 1;
    if t != kept[n] {
      assert kept == kept[..n] + [kept[n]];
      Unresolved(kept[..n], insnsSize, list, off, t);
    } else {
      OnlyOneError(kept[..n], insnsSize, list, off);
    }
  }

  lemma {:induction false} OnlyOneError(kept: seq<RawTry>, insnsSize: nat, list: seq<PlacedHandler>, off: nat)
    requires forall t :: t in kept ==> t.startAddr <= U32_MAX
    ensures ResolveTries(kept, insnsSize, list, off).Err? ==>
              ResolveTries(kept, insnsSize, list, off) == Err(InvalidInstruction(0))
    decreases |kept|
  {
    hide HandlerIndex, Keep;
    if kept != [] {
      OnlyOneError(kept[..|kept| - 1], insnsSize, list, off);
    }
  }
}
