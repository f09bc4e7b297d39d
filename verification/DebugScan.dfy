/**
 The scanner that delimits a `debug_info_item` without interpreting it, and
 why the bytes it captures stand for the original item.
 */
module DebugScan {
  import opened Basics
  import opened Leb128
  import opened DebugInfo

  function SkipUlebs(data: seq<byte>, pos: nat, n: nat): (r: Result<nat>)
    ensures r.Ok? ==> pos + n <= r.value && (n > 0 ==> r.value <= |data|)
    ensures n == 0 ==> r == Ok(pos)
  {
    if n == 0 then Ok(pos)
    else
      var p :- SkipUlebs(data, pos, n - 1);
      var u :- Uleb(data, p);
      Ok(u.next)
  }

  /** Number of ULEB128 operands after the opcode byte; the line advance has an SLEB128 instead. */
  function UlebOperands(opcode: byte): nat {
    if opcode == DBG_START_LOCAL then 3
    else if opcode == DBG_START_LOCAL_EXTENDED then 4
    else if opcode in {DBG_ADVANCE_PC, DBG_END_LOCAL, DBG_RESTART_LOCAL, DBG_SET_FILE} then 1
    else 0
  }

  function ScanOp(data: seq<byte>, pos: nat): (r: Result<nat>)
    requires pos < |data|
    ensures r.Ok? ==> pos < r.value <= |data|
  {
    if data[pos] == DBG_ADVANCE_LINE then
      var d :- Sleb(data, pos + 1);
      Ok(d.next)
    else SkipUlebs(data, pos + 1, UlebOperands(data[pos]))
  }

  /** The position just after the end marker. */
  function ScanOps(data: seq<byte>, pos: nat): (r: Result<nat>)
    ensures r.Ok? ==> pos < r.value <= |data| && data[r.value - 1] == DBG_END_SEQUENCE
    decreases |data| - pos
  {
    if pos >= |data| then Err(Truncated(pos))
    else if data[pos] == DBG_END_SEQUENCE then Ok(pos + 1)
    else
      var next :- ScanOp(data, pos);
      ScanOps(data, next)
  }

  function ScanHeader(data: seq<byte>, offset: nat): (r: Result<nat>)
    ensures r.Ok? ==> offset < r.value <= |data|
  {
    var lineStart :- Uleb(data, offset);
    var size :- Uleb(data, lineStart.next);
    var n :- BoundCount(size.value, 1, |data|);
    SkipUlebs(data, size.next, n)
  }

  function ScanEnd(data: seq<byte>, offset: nat): (r: Result<nat>)
    ensures r.Ok? ==> offset < r.value <= |data| && data[r.value - 1] == DBG_END_SEQUENCE
  {
    var body :- ScanHeader(data, offset);
    ScanOps(data, body)
  }

  function Scan(data: seq<byte>, offset: nat): Result<seq<byte>> {
    if offset > |data| then Err(OffsetOutOfBounds(offset, |data|))
    else
      var end :- ScanEnd(data, offset);
      Ok(data[offset..end])
  }

  lemma {:induction false} SkipFails(data: seq<byte>, pos: nat, i: nat, n: nat)
    requires i < n && SkipUlebs(data, pos, i).Ok? && Uleb(data, SkipUlebs(data, pos, i).value).Err?
    ensures SkipUlebs(data, pos, n) == Err(Uleb(data, SkipUlebs(data, pos, i).value).error)
    decreases n
  {
    hide Uleb;
    if i + 1 < n {
      SkipFails(data, pos, i, n - 1);
    }
  }

  method Skip(data: seq<byte>, pos: nat, n: nat) returns (r: Result<nat>)
    ensures r == SkipUlebs(data, pos, n)
  {
    hide Uleb;
    var p := pos;
    for i := 0 to n
      invariant SkipUlebs(data, pos, i) == Ok(p)
    {
      var u := ReadUleb128(data, p);
      if u.Err? {
        SkipFails(data, pos, i, n);
        return Err(u.error);
      }
      p := u.value.next;
    }
    return Ok(p);
  }

  /** `scan_debug_info_bytes`. */
  method ScanDebugInfoBytes(data: seq<byte>, offset: nat) returns (r: Result<seq<byte>>)
    ensures r == Scan(data, offset)
  {
    hide Uleb, Sleb, SkipUlebs;
    if offset > |data| {
      return Err(OffsetOutOfBounds(offset, |data|));
    }
    var lineStart :- ReadUleb128(data, offset);
    var size :- ReadUleb128(data, lineStart.next);
    var n :- BoundCount(size.value, 1, |data|);
    var pos :- Skip(data, size.next, n);
    ghost var body := pos;
    while true
      invariant ScanOps(data, pos) == ScanOps(data, body)
      decreases |data| - pos
    {
      if pos >= |data| {
        return Err(Truncated(pos));
      }
      var opcode := data[pos];
      if opcode == DBG_END_SEQUENCE {
        return Ok(data[offset..pos + 1]);
      } else if opcode == DBG_ADVANCE_LINE {
        var d :- ReadSleb128(data, pos + 1);
        pos := d.next;
      } else {
        var next :- Skip(data, pos + 1, UlebOperands(opcode));
        pos := next;
      }
    }
  }

  // ----- the captured bytes stand for the item -----

  /** Results of the same read at two places, `delta` apart. */
  ghost predicate SameRead<T>(a: Result<Read<T>>, pos: nat, b: Result<Read<T>>, at: nat) {
    match a
    case Err(e) => b == Err(e)
    case Ok(x) => x.next >= pos && b == Ok(Read(x.value, at + (x.next - pos)))
  }

  lemma {:induction false} ParamsLocal(data: seq<byte>, pos: nat, n: nat, copy: seq<byte>, at: nat, pools: Pools)
    requires pos <= |data| && SkipUlebs(data, pos, n).Ok?
    requires HasAt(copy, at, data[pos..SkipUlebs(data, pos, n).value])
    ensures SkipUlebs(copy, at, n) == Ok(at + (SkipUlebs(data, pos, n).value - pos))
    ensures ParamNames(data, pos, n, pools).Ok? &&
        ParamNames(data, pos, n, pools).value.next == SkipUlebs(data, pos, n).value
    ensures SameRead(ParamNames(data, pos, n, pools), pos, ParamNames(copy, at, n, pools), at)
    decreases n
  {
    hide Uleb, PoolEntry, HasAt;
    if n > 0 {
      var mid := SkipUlebs(data, pos, n - 1).value;
      var end := SkipUlebs(data, pos, n).value;
      HasAtSub(copy, at, data, pos, end, pos, mid);
      HasAtSub(copy, at, data, pos, end, mid, end);
      ParamsLocal(data, pos, n - 1, copy, at, pools);
      UlebLocal(data, mid, copy, at + (mid - pos));
    }
  }

  lemma HeaderLocal(data: seq<byte>, offset: nat, copy: seq<byte>, at: nat, pools: Pools)
    requires ScanHeader(data, offset).Ok?
    requires HasAt(copy, at, data[offset..ScanHeader(data, offset).value])
    ensures ScanHeader(copy, at) == Ok(at + (ScanHeader(data, offset).value - offset))
    ensures ParseHeader(data, offset, pools).Ok? &&
        ParseHeader(data, offset, pools).value.next == ScanHeader(data, offset).value
    ensures SameRead(ParseHeader(data, offset, pools), offset, ParseHeader(copy, at, pools), at)
  {
    hide Uleb, SkipUlebs, ParamNames, HasAt;
    var a := Uleb(data, offset).value.next;
    var size := Uleb(data, a).value;
    var end := ScanHeader(data, offset).value;
    HasAtSub(copy, at, data, offset, end, offset, a);
    UlebLocal(data, offset, copy, at);
    HasAtSub(copy, at, data, offset, end, a, size.next);
    UlebLocal(data, a, copy, at + (a - offset));
    HasAtSub(copy, at, data, offset, end, size.next, end);
    ParamsLocal(data, size.next, size.value, copy, at + (size.next - offset), pools);
    assert |copy| >= at + (end - offset) by { HasAtFits(copy, at, data[offset..end]); }
  }

  /** Interpreting an instruction at its scanned extent depends only on that extent. */
  ghost predicate SameOp(a: Result<Read<Op>>, next: nat, b: Result<Read<Op>>, next': nat) {
    match a
    case Err(e) => b == Err(e)
    case Ok(x) => x.next == next && b == Ok(Read(x.value, next'))
  }

  lemma OneUlebLocal(data: seq<byte>, pos: nat, copy: seq<byte>, at: nat)
    requires SkipUlebs(data, pos, 1).Ok?
    requires HasAt(copy, at, data[pos..SkipUlebs(data, pos, 1).value])
    ensures Uleb(data, pos).Ok? && Uleb(data, pos).value.next == SkipUlebs(data, pos, 1).value
    ensures SameRead(Uleb(data, pos), pos, Uleb(copy, at), at)
    ensures SkipUlebs(copy, at, 1) == Ok(at + (SkipUlebs(data, pos, 1).value - pos))
  {
    hide Uleb;
    assert SkipUlebs(data, pos, 0) == Ok(pos);
    UlebLocal(data, pos, copy, at);
    assert SkipUlebs(copy, at, 0) == Ok(at);
  }

  lemma SkipMore(data: seq<byte>, pos: nat, n: nat)
    requires SkipUlebs(data, pos, n + 1).Ok?
    ensures SkipUlebs(data, pos, n).Ok?
    ensures Uleb(data, SkipUlebs(data, pos, n).value).Ok?
    ensures Uleb(data, SkipUlebs(data, pos, n).value).value.next == SkipUlebs(data, pos, n + 1).value
  {
  }

  /** Operand `n` of a list of skipped operands reads the same in the copy. */
  lemma OperandLocal(data: seq<byte>, pos: nat, n: nat, total: nat, copy: seq<byte>, at: nat)
    requires n < total && pos <= |data| && SkipUlebs(data, pos, total).Ok?
    requires HasAt(copy, at, data[pos..SkipUlebs(data, pos, total).value])
    ensures SkipUlebs(data, pos, n).Ok? && SkipUlebs(copy, at, n) == Ok(at + (SkipUlebs(data, pos, n).value - pos))
    ensures SkipUlebs(data, pos, n + 1).Ok? &&
        SkipUlebs(copy, at, n + 1) == Ok(at + (SkipUlebs(data, pos, n + 1).value - pos))
    ensures var p := SkipUlebs(data, pos, n).value;
            && Uleb(data, p).Ok? && Uleb(data, p).value.next == SkipUlebs(data, pos, n + 1).value
            && Uleb(copy, at + (p - pos)) ==
                Ok(Read(Uleb(data, p).value.value, at + (SkipUlebs(data, pos, n + 1).value - pos)))
  {
    hide Uleb, HasAt, SkipUlebs;
    SkipPrefix(data, pos, n + 1, total);
    SkipMore(data, pos, n);
    var p, next, end := SkipUlebs(data, pos, n).value, SkipUlebs(data, pos, n + 1).value,
        SkipUlebs(data, pos, total).value;
    HasAtSub(copy, at, data, pos, end, pos, next);
    ParamsLocal(data, pos, n + 1, copy, at, Pools([], []));
    HasAtSub(copy, at, data, pos, end, pos, p);
    ParamsLocal(data, pos, n, copy, at, Pools([], []));
    HasAtSub(copy, at, data, pos, end, p, next);
    UlebLocal(data, p, copy, at + (p - pos));
  }

  lemma {:induction false} SkipPrefix(data: seq<byte>, pos: nat, n: nat, total: nat)
    requires n <= total && SkipUlebs(data, pos, total).Ok?
    ensures SkipUlebs(data, pos, n).Ok? && SkipUlebs(data, pos, n).value <= SkipUlebs(data, pos, total).value
    decreases total
  {
    hide Uleb;
    if n < total {
      SkipPrefix(data, pos, n, total - 1);
    }
  }

  lemma StartLocalLocal(data: seq<byte>, pos: nat, extended: bool, copy: seq<byte>, at: nat, registersSize: nat,
                        pools: Pools)
    requires pos <= |data|
    requires var n := if extended then 4 else 3;
             SkipUlebs(data, pos, n).Ok? && HasAt(copy, at, data[pos..SkipUlebs(data, pos, n).value])
    ensures var n := if extended then 4 else 3;
            && SkipUlebs(copy, at, n) == Ok(at + (SkipUlebs(data, pos, n).value - pos))
            && SameOp(DecodeStartLocal(data, pos, extended, registersSize, pools), SkipUlebs(data, pos, n).value,
                      DecodeStartLocal(copy, at, extended, registersSize, pools),
                      at + (SkipUlebs(data, pos, n).value - pos))
  {
    hide Uleb, PoolEntry, HasAt, SkipUlebs, NarrowRegister;
    var n := if extended then 4 else 3;
    OperandLocal(data, pos, 0, n, copy, at);
    OperandLocal(data, pos, 1, n, copy, at);
    OperandLocal(data, pos, 2, n, copy, at);
    if extended {
      OperandLocal(data, pos, 3, n, copy, at);
    }
  }

  lemma OpLocal(data: seq<byte>, pos: nat, copy: seq<byte>, at: nat, registersSize: nat, pools: Pools)
    requires pos < |data| && ScanOp(data, pos).Ok?
    requires HasAt(copy, at, data[pos..ScanOp(data, pos).value])
    ensures at < |copy| && copy[at] == data[pos]
    ensures var next := ScanOp(data, pos).value;
            && ScanOp(copy, at) == Ok(at + (next - pos))
            && SameOp(DecodeOp(data, pos, registersSize, pools), next,
                      DecodeOp(copy, at, registersSize, pools), at + (next - pos))
  {
    hide Uleb, Sleb, HasAt, SkipUlebs, DecodeStartLocal;
    var next := ScanOp(data, pos).value;
    HasAtFits(copy, at, data[pos..next]);
    assert copy[at + 0] == data[pos..next][0];
    HasAtSub(copy, at, data, pos, next, pos + 1, next);
    if data[pos] == DBG_ADVANCE_LINE {
      SlebLocal(data, pos + 1, copy, at + 1);
    } else if UlebOperands(data[pos]) >= 3 {
      StartLocalLocal(data, pos + 1, data[pos] == DBG_START_LOCAL_EXTENDED, copy, at + 1, registersSize, pools);
    } else if UlebOperands(data[pos]) == 1 {
      OneUlebLocal(data, pos + 1, copy, at + 1);
    }
  }

  lemma {:induction false} OpsLocal(data: seq<byte>, pos: nat, copy: seq<byte>, at: nat, s: State, registersSize: nat,
                                    pools: Pools)
    requires ScanOps(data, pos).Ok?
    requires HasAt(copy, at, data[pos..ScanOps(data, pos).value])
    ensures ScanOps(copy, at) == Ok(at + (ScanOps(data, pos).value - pos))
    ensures Trace(copy, at, s, registersSize, pools) == Trace(data, pos, s, registersSize, pools)
    decreases |data| - pos
  {
    hide ScanOp, HasAt, Step, Overflows, DecodeOp;
    var end := ScanOps(data, pos).value;
    HasAtFits(copy, at, data[pos..end]);
    assert copy[at + 0] == data[pos..end][0];
    if data[pos] == DBG_END_SEQUENCE {
      TraceAtEnd(data, pos, s, registersSize, pools);
      TraceAtEnd(copy, at, s, registersSize, pools);
    } else {
      var next := ScanOp(data, pos).value;
      HasAtSub(copy, at, data, pos, end, pos, next);
      OpLocal(data, pos, copy, at, registersSize, pools);
      HasAtSub(copy, at, data, pos, end, next, end);
      var d := DecodeOp(data, pos, registersSize, pools);
      OpsLocal(data, next, copy, at + (next - pos), if d.Ok? then Step(s, d.value.value) else s, registersSize, pools);
    }
  }

  /** Wherever the scanner succeeds, its bytes alone parse to the same result, and scan to themselves. */
  lemma ScannedBytesParseTheSame(data: seq<byte>, offset: nat, registersSize: nat, pools: Pools)
    requires Scan(data, offset).Ok?
    ensures var bytes := Scan(data, offset).value;
            && HasAt(data, offset, bytes)
            && |bytes| > 0 && bytes[|bytes| - 1] == DBG_END_SEQUENCE
            && Scan(bytes, 0) == Ok(bytes)
            && Parse(bytes, 0, registersSize, pools) == Parse(data, offset, registersSize, pools)
  {
    hide ScanOps, ScanHeader, ParseHeader, Trace, Fold, Locals;
    var end := ScanEnd(data, offset).value;
    var body := ScanHeader(data, offset).value;
    var bytes := data[offset..end];
    assert HasAt(bytes, 0, data[offset..end]);
    HasAtSub(bytes, 0, data, offset, end, offset, body);
    HeaderLocal(data, offset, bytes, 0, pools);
    HasAtSub(bytes, 0, data, offset, end, body, end);
    var h := ParseHeader(data, offset, pools).value;
    OpsLocal(data, body, bytes, body - offset, Initial(h.value.lineStart), registersSize, pools);
    assert bytes[0..|bytes|] == bytes;
  }
}
