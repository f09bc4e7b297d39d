/**
 The amplification guard at every place a count is read: a count whose items
 could not fit the input, at their least size on disk, is refused before any
 item is read.
 */
module CountGuards {
  import opened Basics
  import opened Leb128
  import CodeModel
  import opened InsnDecoder
  import opened BranchEncoding
  import CodeItemParser
  import ValueGrammar
  import DebugInfo
  import ClassData

  lemma Refused(count: nat, stride: nat, dataLen: nat)
    requires stride > 0 && count * stride > dataLen
    ensures BoundCount(count, stride, dataLen) == Err(BoundCountExceeded(count, dataLen))
  {
    BoundIsCapacity(count, stride, dataLen);
  }

  /** Array values take at least one byte, annotation elements at least two. */
  lemma ValueCounts(data: seq<byte>, pos: nat, ty: nat, n: nat, budget: nat)
    requires n <= U32_MAX && ty <= U32_MAX
    ensures HasAt(data, pos, EncodeUleb(n)) && n > |data| ==>
              ValueGrammar.ParseArray(data, pos, budget) == Err(BoundCountExceeded(n, |data|))
    ensures HasAt(data, pos, EncodeUleb(ty) + EncodeUleb(n)) && 2 * n > |data| ==>
              ValueGrammar.ParseAnnotation(data, pos, budget) == Err(BoundCountExceeded(n, |data|))
  {
    hide Uleb, EncodeUleb, HasAt;
    if HasAt(data, pos, EncodeUleb(n)) && n > |data| {
      UlebRoundTrip(n, data, pos);
      Refused(n, 1, |data|);
    }
    if HasAt(data, pos, EncodeUleb(ty) + EncodeUleb(n)) && 2 * n > |data| {
      HasAtSplit(data, pos, EncodeUleb(ty), EncodeUleb(n));
      UlebRoundTrip(ty, data, pos);
      UlebRoundTrip(n, data, pos + |EncodeUleb(ty)|);
      Refused(n, 2, |data|);
    }
  }

  /** Parameter names take at least one byte. */
  lemma NameCounts(data: seq<byte>, offset: nat, lineStart: nat, n: nat, pools: DebugInfo.Pools)
    requires lineStart <= U32_MAX && n <= U32_MAX && n > |data|
    requires HasAt(data, offset, EncodeUleb(lineStart) + EncodeUleb(n))
    ensures DebugInfo.ParseHeader(data, offset, pools) == Err(BoundCountExceeded(n, |data|))
  {
    hide Uleb, EncodeUleb, HasAt;
    HasAtSplit(data, offset, EncodeUleb(lineStart), EncodeUleb(n));
    UlebRoundTrip(lineStart, data, offset);
    UlebRoundTrip(n, data, offset + |EncodeUleb(lineStart)|);
    Refused(n, 1, |data|);
  }

  /** Switch table entries take four bytes, or eight with a key. */
  lemma TableCounts(data: seq<byte>, insnsOff: nat, p: u32, switchPc: u32, n: nat)
    requires Unit(data, insnsOff, p, 1) == Ok(n)
    ensures 4 * n > |data| ==> PackedTable(data, insnsOff, p, switchPc) == Err(BoundCountExceeded(n, |data|))
    ensures 8 * n > |data| ==> SparseTable(data, insnsOff, p, switchPc) == Err(BoundCountExceeded(n, |data|))
  {
    hide Unit, SignedWord;
    if 4 * n > |data| {
      Refused(n, 4, |data|);
    }
    if 8 * n > |data| {
      Refused(n, 8, |data|);
    }
  }

  /** Try items take eight bytes, handlers at least one, typed catches at least two. */
  lemma TryCounts(data: seq<byte>, triesOff: nat, triesSize: nat, insnsSize: nat)
    requires 8 * triesSize > |data|
    ensures CodeItemParser.ParseExceptions(data, triesOff, triesSize, insnsSize) ==
            Err(BoundCountExceeded(triesSize, |data|))
  {
    Refused(triesSize, 8, |data|);
  }

  lemma HandlerCounts(data: seq<byte>, off: nat, n: nat)
    requires n <= U32_MAX && n > |data| && HasAt(data, off, EncodeUleb(n))
    ensures CodeItemParser.HandlerList(data, off) == Err(BoundCountExceeded(n, |data|))
  {
    hide Uleb, EncodeUleb, HasAt;
    UlebRoundTrip(n, data, off);
    Refused(n, 1, |data|);
  }

  lemma CatchCounts(data: seq<byte>, pos: nat, size: int, next: nat)
    requires Sleb(data, pos) == Ok(Read(size, next))
    requires 2 * (if size < 0 then -size else size) > |data|
    ensures CodeItemParser.HandlerAt(data, pos) ==
            Err(BoundCountExceeded(if size < 0 then -size else size, |data|))
  {
    hide Sleb;
    Refused(if size < 0 then -size else size, 2, |data|);
  }

  /** Fields take at least two bytes, methods three; the lists are checked in order, all before any is read. */
  lemma MemberCounts(data: seq<byte>, off: nat, s: ClassData.Sizes, next: nat)
    requires ClassData.ReadSizes(data, off) == Ok(Read(s, next))
    ensures 2 * s.staticFields > |data| ==>
              ClassData.Parse(data, off) == Err(BoundCountExceeded(s.staticFields, |data|))
    ensures 2 * s.staticFields <= |data| < 2 * s.instanceFields ==>
              ClassData.Parse(data, off) == Err(BoundCountExceeded(s.instanceFields, |data|))
    ensures 2 * s.staticFields <= |data| && 2 * s.instanceFields <= |data| < 3 * s.directMethods ==>
              ClassData.Parse(data, off) == Err(BoundCountExceeded(s.directMethods, |data|))
    ensures 2 * s.staticFields <= |data| && 2 * s.instanceFields <= |data| && 3 * s.directMethods <= |data|
            && |data| < 3 * s.virtualMethods ==>
              ClassData.Parse(data, off) == Err(BoundCountExceeded(s.virtualMethods, |data|))
  {
    hide ClassData.ReadSizes, ClassData.Lists;
    BoundIsCapacity(s.staticFields, 2, |data|);
    BoundIsCapacity(s.instanceFields, 2, |data|);
    BoundIsCapacity(s.directMethods, 3, |data|);
    BoundIsCapacity(s.virtualMethods, 3, |data|);
  }
}
