/**
 A debug stream, as bytes, on which restarting a live register loses a name.
 */
module DebugExamples {
  import opened Basics
  import opened Leb128
  import opened DebugInfo
  import opened DebugPrinter
  import opened DebugTheorems

  const POOLS := Pools(["a", "b"], [])

  /**
   Line 1, no parameters; register 0 is `a` at 0 and ended there, `b` from 1 on; at 3 the register,
   still live, is restarted.
   */
  const RESTART_BYTES: seq<byte> := [1, 0, 3, 0, 1, 0, 5, 0, 1, 1, 3, 0, 2, 0, 1, 2, 6, 0, 0]

  const RAW0 := RawStartLocal(0, 1, 0)
  const RAW1 := RawEndLocal(0)
  const RAW2 := RawAdvancePc(1)
  const RAW3 := RawStartLocal(0, 2, 0)
  const RAW4 := RawAdvancePc(2)
  const RAW5 := RawRestartLocal(0)

  /** The last `n` of the six stored instructions. */
  function RawTail(n: nat): seq<RawOp> {
    if n == 0 then [] else [if n == 1 then RAW5 else if n == 2 then RAW4 else if n == 3 then RAW3
                            else if n == 4 then RAW2 else if n == 5 then RAW1 else RAW0] + RawTail(n - 1)
  }

  function OpTail(n: nat): seq<Op> {
    ResolveOps(RawTail(n), POOLS)
  }

  lemma TailStep(n: nat)
    requires n > 0
    ensures RawTail(n)[1..] == RawTail(n - 1) && RawTail(n) == [RawTail(n)[0]] + RawTail(n - 1)
    ensures OpTail(n) == [Resolve(RawTail(n)[0], POOLS)] + OpTail(n - 1)
    ensures PrintStream(RawTail(n)) == PrintOp(RawTail(n)[0]) + PrintStream(RawTail(n - 1))
  {
    hide Resolve, PrintOp;
  }

  lemma OneByte(v: nat)
    requires v < 128
    ensures EncodeUleb(v) == [v]
  {
  }

  lemma PrintedOps()
    ensures PrintOp(RAW0) == [3, 0, 1, 0] && PrintOp(RAW1) == [5, 0] && PrintOp(RAW2) == [1, 1]
    ensures PrintOp(RAW3) == [3, 0, 2, 0] && PrintOp(RAW4) == [1, 2] && PrintOp(RAW5) == [6, 0]
  {
    hide EncodeUleb;
    OneByte(0);
    OneByte(1);
    OneByte(2);
  }

  lemma HeadOf(n: nat)
    requires 1 <= n <= 6
    ensures RawTail(n)[0] == [RAW5, RAW4, RAW3, RAW2, RAW1, RAW0][n - 1]
    ensures PrintStream(RawTail(n)) ==
            PrintOp([RAW5, RAW4, RAW3, RAW2, RAW1, RAW0][n - 1]) + PrintStream(RawTail(n - 1))
  {
    hide PrintOp, Resolve;
    TailStep(n);
  }

  lemma PrintedTail()
    ensures PrintStream(RawTail(6)) == RESTART_BYTES[2..]
  {
    hide PrintStream, PrintOp, RawTail;
    PrintedOps();
    LastPrinted();
    HeadOf(1);
    assert PrintStream(RawTail(1)) == [6, 0, 0];
    HeadOf(2);
    assert PrintStream(RawTail(2)) == [1, 2, 6, 0, 0];
    HeadOf(3);
    assert PrintStream(RawTail(3)) == [3, 0, 2, 0, 1, 2, 6, 0, 0];
    HeadOf(4);
    assert PrintStream(RawTail(4)) == [1, 1, 3, 0, 2, 0, 1, 2, 6, 0, 0];
    HeadOf(5);
    assert PrintStream(RawTail(5)) == [5, 0, 1, 1, 3, 0, 2, 0, 1, 2, 6, 0, 0];
    HeadOf(6);
  }

  lemma LastPrinted()
    ensures PrintStream(RawTail(0)) == [DBG_END_SEQUENCE]
  {
  }

  /** One instruction of a machine run, of a replay and of an executable list. */
  lemma Heads(s: State, n: Names, op: Op, rest: seq<Op>, pc: nat)
    ensures Fold(s, [op] + rest) == Fold(Step(s, op), rest)
    ensures ReplayStep(n, op).address <= pc ==> Replay(n, [op] + rest, pc) == Replay(ReplayStep(n, op), rest, pc)
    ensures ReplayStep(n, op).address > pc ==> Replay(n, [op] + rest, pc) == n
    ensures Executable(s, [op] + rest, 1) <==>
            !op.EndSequence? && !Overflows(s, op) && InRange(op, 1) && Executable(Step(s, op), rest, 1)
  {
    assert ([op] + rest)[1..] == rest;
  }

  lemma FoldNil(s: State)
    ensures Fold(s, []) == s && Executable(s, [], 1)
  {
  }

  lemma LastIs(l: LocalVar)
    ensures LastOf([l], l.register) == Some(0)
  {
  }

  const PAST := LocalVar(0, Some("a"), None, 0, Some(0))
  const FINAL := State(3, 1, map[0 := LocalVar(0, Some("a"), None, 3, None)], [PAST], [Position(0, 1)])

  /** What the machine and the replay make of the six instructions. */
  lemma RestartRun()
    ensures Executable(Initial(1), OpTail(6), 1) && Fold(Initial(1), OpTail(6)) == FINAL
    ensures LiveName(Replay(NO_NAMES, OpTail(6), 1), 0) == Some("b")
  {
    hide Fold, Replay, Executable, RawTail, OpTail;
    var a, b := Some("a"), Some("b");
    var lines := [Position(0, 1)];
    var s1 := State(0, 1, map[0 := LocalVar(0, a, None, 0, None)], [], lines);
    var s3 := State(1, 1, map[], [PAST], lines);
    var s4 := State(1, 1, map[0 := LocalVar(0, b, None, 1, None)], [PAST], lines);
    TailIs();
    Heads(Initial(1), NO_NAMES, StartLocal(0, a, None), OpTail(5), 1);
    Heads(s1, Names(0, map[0 := a], map[]), EndLocal(0), OpTail(4), 1);
    Heads(s3.(address := 0), Names(0, map[], map[0 := a]), AdvancePc(1), OpTail(3), 1);
    Heads(s3, Names(1, map[], map[0 := a]), StartLocal(0, b, None), OpTail(2), 1);
    Heads(s4, Names(1, map[0 := b], map[0 := a]), AdvancePc(2), OpTail(1), 1);
    Heads(s4.(address := 3), Names(1, map[0 := b], map[0 := a]), RestartLocal(0), [], 1);
    LastIs(PAST);
    FoldNil(FINAL);
    assert Step(s4.(address := 3), RestartLocal(0)) == FINAL;
    assert Step(s1, EndLocal(0)) == s3.(address := 0);
  }

  lemma TailIs()
    ensures OpTail(0) == [] && OpTail(1) == [RestartLocal(0)] + [] && OpTail(2) == [AdvancePc(2)] + OpTail(1)
    ensures OpTail(3) == [StartLocal(0, Some("b"), None)] + OpTail(2) && OpTail(4) == [AdvancePc(1)] + OpTail(3)
    ensures OpTail(5) == [EndLocal(0)] + OpTail(4) && OpTail(6) == [StartLocal(0, Some("a"), None)] + OpTail(5)
  {
    hide OpTail;
    NoTail();
    TailStep(1);
    TailStep(2);
    TailStep(3);
    TailStep(4);
    TailStep(5);
    TailStep(6);
  }

  lemma NoTail()
    ensures OpTail(0) == []
  {
  }

  lemma FinalNames()
    ensures LocalNameAt(Locals(FINAL, 1), 0, 1) == None
  {
    var open := LocalVar(0, Some("a"), None, 3, None);
    assert StillActive(FINAL.active, 0) == [];
    assert StillActive(FINAL.active, 1) == [open];
    assert Locals(FINAL, 1) == [PAST, open];
    NameOfNone(Locals(FINAL, 1), 0, 1);
  }

  lemma HeaderIs()
    ensures ParseHeader(RESTART_BYTES, 0, POOLS) == Ok(Read(Header(1, []), 2))
  {
    hide Uleb;
    SmallUleb(RESTART_BYTES, 0);
    SmallUleb(RESTART_BYTES, 1);
    assert ParamNames(RESTART_BYTES, 2, 0, POOLS) == Ok(Read([], 2));
  }

  lemma RawTailWritable()
    ensures AllWritable(RawTail(6), 1)
  {
    hide Writable;
    TailStep(1);
    TailStep(2);
    TailStep(3);
    TailStep(4);
    TailStep(5);
    TailStep(6);
    AllSix();
  }

  lemma AllSix()
    ensures Writable(RAW0, 1) && Writable(RAW1, 1) && Writable(RAW2, 1)
    ensures Writable(RAW3, 1) && Writable(RAW4, 1) && Writable(RAW5, 1)
  {
  }

  /** The parsed bytes name nothing in register 0 at pc 1, where a replay of them has `b` live. */
  lemma RestartBytesLoseName()
    ensures Parse(RESTART_BYTES, 0, 1, POOLS).Ok?
    ensures LocalNameAt(Parse(RESTART_BYTES, 0, 1, POOLS).value.locals, 0, 1) == None
    ensures LiveName(Replay(NO_NAMES, Executed(RESTART_BYTES, 0, 1, POOLS), 1), 0) == Some("b")
  {
    hide *;
    HeaderIs();
    PrintedTail();
    RawTailWritable();
    RestartRun();
    TailAt();
    StreamRoundTrip(RESTART_BYTES, 2, RawTail(6), Initial(1), 1, POOLS);
    FinalNames();
    ParsedIs();
  }

  lemma TailAt()
    requires PrintStream(RawTail(6)) == RESTART_BYTES[2..]
    ensures HasAt(RESTART_BYTES, 2, PrintStream(RawTail(6)))
    ensures ResolveOps(RawTail(6), POOLS) == OpTail(6)
  {
    hide PrintStream, RawTail;
  }

  lemma ParsedIs()
    requires ParseHeader(RESTART_BYTES, 0, POOLS) == Ok(Read(Header(1, []), 2))
    requires Trace(RESTART_BYTES, 2, Initial(1), 1, POOLS) == Ok(OpTail(6)) && Fold(Initial(1), OpTail(6)) == FINAL
    ensures Parse(RESTART_BYTES, 0, 1, POOLS).Ok?
    ensures Parse(RESTART_BYTES, 0, 1, POOLS).value.locals == Locals(FINAL, 1)
    ensures Executed(RESTART_BYTES, 0, 1, POOLS) == OpTail(6)
  {
    hide ParseHeader, Trace, Fold, Locals, OpTail;
  }
}
