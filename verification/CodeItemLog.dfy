/**
 The log of a whole `code_item`, exactly: what is recorded about the try table
 and the register counts, beside what the instruction decoder records.
 */
module CodeItemLog {
  import opened Basics
  import opened CodeModel
  import opened InsnDecoder
  import opened CodeItemParser
  import opened CodeItemTheorems

  /** Try `k` starts before the end of the one before it; stored ends stop at the greatest address. */
  predicate Offends(raws: seq<RawTry>, k: nat) {
    && 0 < k < |raws| && raws[k].startAddr < raws[k - 1].startAddr + raws[k - 1].insnCount
    && raws[k].startAddr < U32_MAX
  }

  /** The position a violation reports: the index in the table, saturated to 16 bits. */
  predicate Reports(idx: nat, k: nat) {
    idx == if k < 0x1_0000 then k else 0xFFFF
  }

  /** The try table has the fault `v` names. */
  predicate TryFault(raws: seq<RawTry>, insnsSize: nat, v: Violation) {
    match v
    case EmptyTryRegion(idx, start) =>
      exists k :: 0 <= k < |raws| && Reports(idx, k) && raws[k].startAddr == start && raws[k].insnCount == 0
    case TryItemRangeInvalid(idx, start, count, size) =>
      size == insnsSize && count > 0 && start + count > insnsSize &&
      exists k :: 0 <= k < |raws| && Reports(idx, k) && raws[k].startAddr == start && raws[k].insnCount == count
    case TryItemsUnsortedOrOverlapping(idx, prevEnd, start) =>
      exists k :: 0 < k < |raws| && FirstOffence(raws, k) && IsOffence(raws, k, idx, prevEnd, start)
    case _ => false
  }

  predicate IsOffence(raws: seq<RawTry>, k: nat, idx: nat, prevEnd: nat, start: nat)
    requires 0 < k < |raws|
  {
    Reports(idx, k) && raws[k].startAddr == start && raws[k - 1].SaturatedEnd() == prevEnd
  }

  predicate FirstOffence(raws: seq<RawTry>, k: nat) {
    Offends(raws, k) && forall j :: 0 < j < k ==> !Offends(raws, j)
  }

  lemma {:induction false} DisorderIsOffence(raws: seq<RawTry>)
    requires forall t :: t in raws ==> t.startAddr <= U32_MAX
    ensures Disordered(raws) <==> exists k: nat :: Offends(raws, k)
    decreases |raws|
  {
    var n := |raws| - 1;
    if n > 0 {
      DisorderIsOffence(raws[..n]);
      assert raws[n] in raws;
      assert Offends(raws, n) <==> raws[n].startAddr < raws[n - 1].SaturatedEnd();
      forall k: nat | k < n ensures Offends(raws[..n], k) <==> Offends(raws, k) {
      }
      if k: nat :| Offends(raws[..n], k) {
        assert Offends(raws, k);
      }
      if k: nat :| Offends(raws, k) {
        assert k == n || Offends(raws[..n], k);
      }
    }
  }

  /** What the last try of a table adds. */
  lemma LastFault(raws: seq<RawTry>, insnsSize: nat, v: Violation)
    requires raws != [] && insnsSize <= U32_MAX && forall t :: t in raws ==> t.startAddr <= U32_MAX
    ensures TryFault(raws, insnsSize, v) <==>
            TryFault(raws[..|raws| - 1], insnsSize, v) || v in LastTryLog(raws, insnsSize)
  {
    hide Disordered;
    var n := |raws| - 1;
    var init := raws[..n];
    assert raws[n] in raws;
    if v.TryItemsUnsortedOrOverlapping? {
      LastOffence(raws);
      forall k | 0 < k < n ensures FirstOffence(raws, k) <==> FirstOffence(init, k) {
        FirstOffencePrefix(raws, k);
      }
      OrderFault(raws, insnsSize, v);
    }
  }

  lemma FirstOffencePrefix(raws: seq<RawTry>, k: nat)
    requires 0 < k < |raws| - 1
    ensures FirstOffence(raws, k) <==> FirstOffence(raws[..|raws| - 1], k)
  {
    var init := raws[..|raws| - 1];
    forall j: nat | j <= k ensures Offends(raws, j) <==> Offends(init, j) {
    }
  }

  /** The last try is the first offence exactly when only the whole table is disordered. */
  lemma LastOffence(raws: seq<RawTry>)
    requires raws != [] && forall t :: t in raws ==> t.startAddr <= U32_MAX
    ensures var n := |raws| - 1;
            FirstOffence(raws, n) <==> Disordered(raws) && !Disordered(raws[..n])
  {
    hide Disordered;
    var n := |raws| - 1;
    DisorderIsOffence(raws);
    DisorderIsOffence(raws[..n]);
    forall k: nat | k < n ensures Offends(raws[..n], k) <==> Offends(raws, k) {
    }
    if k: nat :| Offends(raws, k) {
      assert k == n || Offends(raws[..n], k);
    }
  }

  lemma OrderFault(raws: seq<RawTry>, insnsSize: nat, v: Violation)
    requires raws != [] && v.TryItemsUnsortedOrOverlapping?
    requires var n := |raws| - 1; FirstOffence(raws, n) <==> Disordered(raws) && !Disordered(raws[..n])
    requires var n := |raws| - 1; forall k :: 0 < k < n ==> (FirstOffence(raws, k) <==> FirstOffence(raws[..n], k))
    ensures TryFault(raws, insnsSize, v) <==>
            TryFault(raws[..|raws| - 1], insnsSize, v) || v in LastTryLog(raws, insnsSize)
  {
    hide Disordered, FirstOffence, IsOffence, LastTryLog;
    var n := |raws| - 1;
    var init := raws[..n];
    LastOrderLog(raws, insnsSize, v);
    forall k | 0 < k < n
      ensures IsOffence(raws, k, v.tryIdx, v.prevEnd, v.startAddr) <==>
              IsOffence(init, k, v.tryIdx, v.prevEnd, v.startAddr)
    {
      SameOffence(raws, k, v.tryIdx, v.prevEnd, v.startAddr);
    }
    if k :| 0 < k < |init| && FirstOffence(init, k) && IsOffence(init, k, v.tryIdx, v.prevEnd, v.startAddr) {
      assert FirstOffence(raws, k);
    }
  }

  lemma SameOffence(raws: seq<RawTry>, k: nat, idx: nat, prevEnd: nat, start: nat)
    requires 0 < k < |raws| - 1
    ensures IsOffence(raws, k, idx, prevEnd, start) <==> IsOffence(raws[..|raws| - 1], k, idx, prevEnd, start)
  {
  }

  lemma LastOrderLog(raws: seq<RawTry>, insnsSize: nat, v: Violation)
    requires raws != [] && v.TryItemsUnsortedOrOverlapping?
    requires var n := |raws| - 1; FirstOffence(raws, n) <==> Disordered(raws) && !Disordered(raws[..n])
    ensures var n := |raws| - 1;
            v in LastTryLog(raws, insnsSize) <==>
            n > 0 && FirstOffence(raws, n) && IsOffence(raws, n, v.tryIdx, v.prevEnd, v.startAddr)
  {
    hide Disordered, FirstOffence;
    if FirstOffence(raws, |raws| - 1) {
      FirstIsLater(raws);
    }
  }

  lemma FirstIsLater(raws: seq<RawTry>)
    requires raws != [] && FirstOffence(raws, |raws| - 1)
    ensures |raws| > 1
  {
  }

  /** The try log holds a violation if and only if the table has the fault. */
  lemma {:induction false} TryLogExact(raws: seq<RawTry>, insnsSize: nat, v: Violation)
    requires insnsSize <= U32_MAX && forall t :: t in raws ==> t.startAddr <= U32_MAX
    ensures v in TryLog(raws, insnsSize) <==> TryFault(raws, insnsSize, v)
    decreases |raws|
  {
    hide LastTryLog, TryFault;
    if raws == [] {
      NoFault(insnsSize, v);
    } else {
      TryLogExact(raws[..|raws| - 1], insnsSize, v);
      LastFault(raws, insnsSize, v);
    }
  }

  lemma NoFault(insnsSize: nat, v: Violation)
    ensures !TryFault([], insnsSize, v)
  {
  }

  /** The log of a parsed item: that of its code, the faults of its try table, and inverted register counts. */
  lemma ItemLogExact(data: seq<byte>, base: nat, v: Violation)
    requires ParseCode(data, base).Ok?
    ensures LayoutOf(data, base).Ok? && StoredTries(data, base).Ok?
    ensures var p := ParseCode(data, base).value;
            var layout := LayoutOf(data, base).value;
            && Decode(data, base + 16, layout.insnsSize).Ok?
            && (v in p.violations <==>
                || v in Decode(data, base + 16, layout.insnsSize).value.violations
                || TryFault(StoredTries(data, base).value, layout.insnsSize, v)
                || (v == RegisterCountInverted(p.registersSize, p.insSize) && p.insSize > p.registersSize))
  {
    hide Decode, HalfWord, Word, Bare, RawTries, TryFault, TryLog, HandlerList, ResolveTries, NonEmpty;
    CodeParts(data, base);
    var layout := LayoutOf(data, base).value;
    var raws := StoredTries(data, base).value;
    TryLogExact(raws, layout.insnsSize, v);
    if layout.triesSize == 0 {
      NoStoredTries(data, layout.triesOff);
      NoFault(layout.insnsSize, v);
    } else {
      LoggedTable(data, layout.triesOff, layout.triesSize, layout.insnsSize);
    }
  }
}
