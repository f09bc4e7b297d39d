/**
 Catch handlers written and read back: the sign of the size tells whether a
 catch-all address follows the typed catches.
 */
module HandlerEncoding {
  import opened Basics
  import opened Leb128
  import opened CodeModel
  import opened CodeItemParser

  /** Values fit 32 bits; a handler with nothing to catch has no encoding. */
  predicate Encodable(h: CatchHandler) {
    && (h.catches != [] || h.catchAllAddr.Some?)
    && forall i :: 0 <= i < |h.catches| ==> h.catches[i].exceptionType <= U32_MAX
  }

  /** The signed size: minus the number of typed catches when there is a catch-all. */
  function SignedSize(h: CatchHandler): int {
    if h.catchAllAddr.Some? then -|h.catches| else |h.catches|
  }

  function PrintCatch(c: TypedCatch): (bs: seq<byte>)
    ensures |bs| >= 2
  {
    EncodeUleb(c.exceptionType) + EncodeUleb(c.handlerAddr)
  }

  function PrintCatches(catches: seq<TypedCatch>): (bs: seq<byte>)
    ensures |bs| >= 2 * |catches|
  {
    if catches == [] then []
    else PrintCatches(catches[..|catches| - 1]) + PrintCatch(catches[|catches| - 1])
  }

  function PrintCatchAll(h: CatchHandler): seq<byte> {
    if h.catchAllAddr.Some? then EncodeUleb(h.catchAllAddr.value) else []
  }

  lemma CatchPrinted(data: seq<byte>, pos: nat, c: TypedCatch)
    requires c.exceptionType <= U32_MAX && HasAt(data, pos, PrintCatch(c))
    ensures var mid := pos + |EncodeUleb(c.exceptionType)|;
            && Uleb(data, pos) == Ok(Read(c.exceptionType, mid))
            && Uleb(data, mid) == Ok(Read(c.handlerAddr, pos + |PrintCatch(c)|))
  {
    hide Uleb, HasAt, EncodeUleb;
    HasAtSplit(data, pos, EncodeUleb(c.exceptionType), EncodeUleb(c.handlerAddr));
    UlebRoundTrip(c.exceptionType, data, pos);
    UlebRoundTrip(c.handlerAddr, data, pos + |EncodeUleb(c.exceptionType)|);
  }

  lemma CatchStep(data: seq<byte>, pos: nat, init: seq<TypedCatch>, next: nat, c: TypedCatch)
    requires TypedCatches(data, pos, |init|) == Ok(Read(init, next))
    requires Uleb(data, next).Ok? && Uleb(data, next).value.value == c.exceptionType
    requires Uleb(data, Uleb(data, next).value.next).Ok? &&
        Uleb(data, Uleb(data, next).value.next).value.value == c.handlerAddr
    ensures TypedCatches(data, pos, |init| + 1) ==
        Ok(Read(init + [c], Uleb(data, Uleb(data, next).value.next).value.next))
  {
    hide Uleb;
  }

  lemma {:induction false} CatchesPrinted(data: seq<byte>, pos: nat, catches: seq<TypedCatch>)
    requires forall i :: 0 <= i < |catches| ==> catches[i].exceptionType <= U32_MAX
    requires HasAt(data, pos, PrintCatches(catches))
    ensures TypedCatches(data, pos, |catches|) == Ok(Read(catches, pos + |PrintCatches(catches)|))
    decreases |catches|
  {
    hide *;
    if catches == [] {
      NoCatches(data, pos);
    } else {
      var n := |catches| - 1;
      CatchesSplit(catches);
      var init := PrintCatches(catches[..n]);
      HasAtSplit(data, pos, init, PrintCatch(catches[n]));
      CatchesPrinted(data, pos, catches[..n]);
      CatchPrinted(data, pos + |init|, catches[n]);
      CatchStep(data, pos, catches[..n], pos + |init|, catches[n]);
      assert catches[..n] + [catches[n]] == catches;
    }
  }

  lemma NoCatches(data: seq<byte>, pos: nat)
    ensures PrintCatches([]) == [] && TypedCatches(data, pos, 0) == Ok(Read([], pos))
  {
  }

  lemma CatchesSplit(catches: seq<TypedCatch>)
    requires catches != []
    ensures PrintCatches(catches) == PrintCatches(catches[..|catches| - 1]) + PrintCatch(catches[|catches| - 1])
  {
  }

  lemma BoundHolds(n: nat, dataLen: nat)
    requires 2 * n <= dataLen
    ensures BoundCount(n, CATCH_HANDLER_ITEM_MIN_SIZE, dataLen) == Ok(n)
  {
  }

  /** A handler written with any encoding of its signed size reads back whole, wherever it stands. */
  lemma HandlerRoundTrip(h: CatchHandler, sleb: seq<byte>, data: seq<byte>, pos: nat)
    requires Encodable(h) && Sleb(sleb, 0) == Ok(Read(SignedSize(h), |sleb|))
    requires HasAt(data, pos, sleb + (PrintCatches(h.catches) + PrintCatchAll(h)))
    ensures HandlerAt(data, pos) == Ok(Read(h, pos + |sleb| + |PrintCatches(h.catches)| + |PrintCatchAll(h)|))
  {
    hide Uleb, Sleb, HasAt, EncodeUleb, PrintCatches, TypedCatches, BoundCount;
    var body := pos + |sleb|;
    HasAtSplit(data, pos, sleb, PrintCatches(h.catches) + PrintCatchAll(h));
    HasAtSplit(data, body, PrintCatches(h.catches), PrintCatchAll(h));
    SlebPrinted(data, pos, SignedSize(h), sleb);
    CatchesPrinted(data, body, h.catches);
    HasAtFits(data, body, PrintCatches(h.catches));
    BoundHolds(|h.catches|, |data|);
    if h.catchAllAddr.Some? {
      UlebRoundTrip(h.catchAllAddr.value, data, body + |PrintCatches(h.catches)|);
    }
  }
}
