/**
 The iterative `encoded_value` parser of src/annotation.rs: an explicit stack of
 half-collected composites instead of recursion. It is proved to return exactly
 what the recursive-descent grammar returns, errors included.
 */
module CollectorStack {
  import opened Basics
  import opened Leb128
  import opened EncodedValues
  import opened ValueGrammar

  const PARSE_STACK_FRAME_CAP: nat := 65_536

  datatype Frame =
    | ArrayFrame(startPos: nat, remaining: nat, children: seq<EncodedValue>)
    | AnnotationFrame(startPos: nat, remaining: nat, typeIdx: nat, elements: Elements, pendingName: Option<nat>)

  /** A value and the number of bytes it took. */
  datatype Parsed<+T> = Parsed(value: T, consumed: nat)

  predicate Complete(f: Frame) {
    f.remaining == 0 && (f.AnnotationFrame? ==> f.pendingName.None?)
  }

  function Assemble(f: Frame): EncodedValue {
    match f
    case ArrayFrame(_, _, children) => Array(children)
    case AnnotationFrame(_, _, ty, elements, _) => Annotation(ty, elements)
  }

  /** The frame can take a child now. */
  predicate Waiting(f: Frame) {
    f.remaining > 0 && (f.AnnotationFrame? ==> f.pendingName.Some?)
  }

  /** A pending name only ever belongs to an element still to come. */
  predicate Sound(f: Frame) {
    f.AnnotationFrame? && f.pendingName.Some? ==> f.remaining > 0
  }

  /** The frame after it has been given one child. */
  function Deliver(f: Frame, v: EncodedValue): Frame
    requires Waiting(f)
  {
    match f
    case ArrayFrame(_, remaining, children) => f.(remaining := remaining - 1, children := children + [v])
    case AnnotationFrame(_, remaining, _, elements, pending) =>
      f.(remaining := remaining - 1, elements := Insert(elements, pending.value, v), pendingName := None)
  }

  predicate NeedsName(f: Frame) {
    f.AnnotationFrame? && f.pendingName.None? && f.remaining > 0
  }

  /** Read the next element name when the frame wants one. */
  function Prime(data: seq<byte>, cur: nat, f: Frame): Result<Read<Frame>> {
    if NeedsName(f) then
      var name :- Uleb(data, cur);
      Ok(Read(f.(pendingName := Some(name.value)), name.next))
    else Ok(Read(f, cur))
  }

  // ----- what is left to do, as the grammar sees it -----

  /** The value of a frame once the grammar has read its missing children. */
  function FinishFrame(data: seq<byte>, cur: nat, f: Frame, budget: nat): (r: Result<Read<EncodedValue>>)
    requires Sound(f)
    ensures r.Ok? ==> cur <= r.value.next
  {
    match f
    case ArrayFrame(_, remaining, children) =>
      var vs :- ParseValues(data, cur, remaining, budget);
      Ok(Read(Array(children + NormalizeAll(vs.value)), vs.next))
    case AnnotationFrame(_, remaining, ty, elements, pending) =>
      var es :- if pending.Some? then ParseNamed(data, cur, pending.value, remaining, budget)
                else ParseElements(data, cur, remaining, budget);
      Ok(Read(Annotation(ty, InsertAll(elements, NormalizeElements(es.value))), es.next))
  }

  /** The result of the whole parse from a machine state: finish the top frame, deliver, go on below. */
  function Finish(data: seq<byte>, cur: nat, stack: seq<Frame>): Result<Read<EncodedValue>>
    requires ValidStack(stack)
    decreases |stack|
  {
    var n := |stack|;
    var r :- FinishFrame(data, cur, stack[n - 1], PARSE_STACK_FRAME_CAP - n);
    if n == 1 then Ok(r)
    else Finish(data, r.next, stack[..n - 2] + [Deliver(stack[n - 2], r.value)])
  }

  predicate ValidStack(stack: seq<Frame>) {
    && 1 <= |stack| <= PARSE_STACK_FRAME_CAP
    && Sound(stack[|stack| - 1])
    && forall i :: 0 <= i < |stack| - 1 ==> Waiting(stack[i])
  }

  lemma {:induction false} PrimeKeepsMeaning(data: seq<byte>, cur: nat, f: Frame, budget: nat)
    requires Sound(f)
    ensures FinishFrame(data, cur, f, budget) ==
            match Prime(data, cur, f)
            case Err(e) => Err(e)
            case Ok(p) => FinishFrame(data, p.next, p.value, budget)
  {
  }

  lemma {:induction false} DeliverKeepsMeaning(data: seq<byte>, cur: nat, f: Frame, budget: nat)
    requires Waiting(f)
    ensures FinishFrame(data, cur, f, budget) ==
            match ParseValue(data, cur, budget)
            case Err(e) => Err(e)
            case Ok(v) => FinishFrame(data, v.next, Deliver(f, Normalize(v.value)), budget)
  {
    if ParseValue(data, cur, budget).Ok? && f.ArrayFrame? {
      var v := ParseValue(data, cur, budget).value;
      var rest := ParseValues(data, v.next, f.remaining - 1, budget);
      if rest.Ok? {
        var all := [v.value] + rest.value.value;
        assert all[0] == v.value && all[1..] == rest.value.value;
        assert f.children + NormalizeAll(all) == f.children + [Normalize(v.value)] + NormalizeAll(rest.value.value);
      }
    }
  }

  /** Replace the top frame. */
  function WithTop(stack: seq<Frame>, f: Frame): (s: seq<Frame>)
    requires stack != []
    ensures |s| == |stack| && s[|s| - 1] == f
    ensures forall i :: 0 <= i < |s| - 1 ==> s[i] == stack[i]
  {
    stack[..|stack| - 1] + [f]
  }

  lemma {:induction false} FinishPrime(data: seq<byte>, cur: nat, stack: seq<Frame>)
    requires ValidStack(stack)
    ensures Finish(data, cur, stack) ==
            match Prime(data, cur, stack[|stack| - 1])
            case Err(e) => Err(e)
            case Ok(p) => Finish(data, p.next, WithTop(stack, p.value))
  {
    var n := |stack|;
    PrimeKeepsMeaning(data, cur, stack[n - 1], PARSE_STACK_FRAME_CAP - n);
    if Prime(data, cur, stack[n - 1]).Ok? {
      var s := WithTop(stack, Prime(data, cur, stack[n - 1]).value.value);
      assert n > 1 ==> s[..n - 2] == stack[..n - 2];
    }
  }

  lemma {:induction false} FinishDeliver(data: seq<byte>, cur: nat, stack: seq<Frame>)
    requires ValidStack(stack) && Waiting(stack[|stack| - 1])
    ensures Finish(data, cur, stack) ==
            match ParseValue(data, cur, PARSE_STACK_FRAME_CAP - |stack|)
            case Err(e) => Err(e)
            case Ok(v) => Finish(data, v.next, WithTop(stack, Deliver(stack[|stack| - 1], Normalize(v.value))))
  {
    var n := |stack|;
    DeliverKeepsMeaning(data, cur, stack[n - 1], PARSE_STACK_FRAME_CAP - n);
    var p := ParseValue(data, cur, PARSE_STACK_FRAME_CAP - n);
    if p.Ok? {
      var s := WithTop(stack, Deliver(stack[n - 1], Normalize(p.value.value)));
      assert n > 1 ==> s[..n - 2] == stack[..n - 2];
    }
  }

  /** A completed top frame is assembled and handed to the frame below. */
  lemma {:induction false} FinishPop(data: seq<byte>, cur: nat, stack: seq<Frame>)
    requires ValidStack(stack) && Complete(stack[|stack| - 1])
    ensures Finish(data, cur, stack) ==
            var v := Assemble(stack[|stack| - 1]);
            if |stack| == 1 then Ok(Read(v, cur))
            else Finish(data, cur, WithTop(stack[..|stack| - 1], Deliver(stack[|stack| - 2], v)))
  {
    var n := |stack|;
    var top := stack[n - 1];
    assert top.ArrayFrame? ==> top.children + NormalizeAll([]) == top.children;
    assert FinishFrame(data, cur, top, PARSE_STACK_FRAME_CAP - n) == Ok(Read(Assemble(top), cur));
    if n > 1 {
      assert stack[..n - 1][..n - 2] == stack[..n - 2];
    }
  }

  // ----- opening a composite -----

  /** The fresh frame of the composite whose header byte is at `pos`, and where its body starts. */
  function Open(data: seq<byte>, pos: nat): (r: Result<Read<Frame>>)
    requires pos < |data|
    ensures r.Ok? ==> pos < r.value.next <= |data| && Sound(r.value.value) && r.value.value.startPos == pos
  {
    if data[pos] % 32 == TAG_ARRAY then
      var size :- Uleb(data, pos + 1);
      var n :- BoundCount(size.value, 1, |data|);
      Ok(Read(ArrayFrame(pos, n, []), size.next))
    else OpenAnnotation(data, pos, pos + 1)
  }

  function OpenAnnotation(data: seq<byte>, startPos: nat, pos: nat): (r: Result<Read<Frame>>)
    ensures r.Ok? ==> pos < r.value.next <= |data| && Sound(r.value.value) && r.value.value.startPos == startPos
  {
    var ty :- Uleb(data, pos);
    var size :- Uleb(data, ty.next);
    var n :- BoundCount(size.value, 2, |data|);
    Ok(Read(AnnotationFrame(startPos, n, ty.value, NoElements, None), size.next))
  }

  /** The parser's view of a grammar result. */
  function Normalized(r: Result<Read<EncodedValue>>): Result<Read<EncodedValue>> {
    var v :- r;
    Ok(Read(Normalize(v.value), v.next))
  }

  lemma {:induction false} OpenThenFinish(data: seq<byte>, pos: nat, budget: nat)
    requires pos < |data|
    ensures Normalized(ParseComposite(data, pos, budget)) ==
            match Open(data, pos)
            case Err(e) => Err(e)
            case Ok(f) => FinishFrame(data, f.next, f.value, budget)
  {
    if data[pos] % 32 == TAG_ARRAY {
      OpenArrayThenFinish(data, pos, budget);
    } else {
      OpenAnnotationThenFinish(data, pos, pos + 1, budget);
    }
  }

  lemma {:induction false} OpenArrayThenFinish(data: seq<byte>, pos: nat, budget: nat)
    requires pos < |data| && data[pos] % 32 == TAG_ARRAY
    ensures Normalized(ParseArray(data, pos + 1, budget)) ==
            match Open(data, pos)
            case Err(e) => Err(e)
            case Ok(o) => FinishFrame(data, o.next, o.value, budget)
  {
    if Open(data, pos).Ok? {
      var o := Open(data, pos).value;
      var vs := ParseValues(data, o.next, o.value.remaining, budget);
      if vs.Ok? {
        ArrayNormalizes(vs.value.value);
      }
    }
  }

  lemma {:induction false} ArrayNormalizes(vs: seq<EncodedValue>)
    ensures Normalize(Array(vs)) == Array([] + NormalizeAll(vs))
  {
    assert [] + NormalizeAll(vs) == NormalizeAll(vs);
  }

  lemma {:induction false} OpenAnnotationThenFinish(data: seq<byte>, startPos: nat, pos: nat, budget: nat)
    ensures Normalized(ParseAnnotation(data, pos, budget)) ==
            match OpenAnnotation(data, startPos, pos)
            case Err(e) => Err(e)
            case Ok(f) => FinishFrame(data, f.next, f.value, budget)
  {
  }

  // ----- the machine -----

  /** `r` is a machine state, or an error, that stands for the same parse as (`cur`, `stack`); its top wants no name. */
  ghost predicate Resumes(data: seq<byte>, cur: nat, stack: seq<Frame>, r: Result<Read<seq<Frame>>>)
    requires ValidStack(stack)
  {
    match r
    case Err(e) => Finish(data, cur, stack) == Err(e)
    case Ok(s) =>
      && ValidStack(s.value) && |s.value| == |stack|
      && !NeedsName(s.value[|stack| - 1])
      && cur <= s.next && (cur <= |data| ==> s.next <= |data|)
      && Finish(data, s.next, s.value) == Finish(data, cur, stack)
  }

  method OpenFrame(data: seq<byte>, pos: nat) returns (r: Result<Read<Frame>>)
    requires pos < |data|
    ensures r == Open(data, pos)
  {
    if data[pos] % 32 == TAG_ARRAY {
      var size :- ReadUleb128(data, pos + 1);
      var n :- BoundCount(size.value, 1, |data|);
      return Ok(Read(ArrayFrame(pos, n, []), size.next));
    } else {
      r := OpenAnnotationFrame(data, pos, pos + 1);
    }
  }

  method OpenAnnotationFrame(data: seq<byte>, startPos: nat, pos: nat) returns (r: Result<Read<Frame>>)
    ensures r == OpenAnnotation(data, startPos, pos)
  {
    var ty :- ReadUleb128(data, pos);
    var size :- ReadUleb128(data, ty.next);
    var n :- BoundCount(size.value, 2, |data|);
    return Ok(Read(AnnotationFrame(startPos, n, ty.value, NoElements, None), size.next));
  }

  /** Phase A: the top annotation frame reads its next name. */
  method PrimeTop(data: seq<byte>, cur: nat, stack: seq<Frame>) returns (r: Result<Read<seq<Frame>>>)
    requires stack != []
    ensures r == match Prime(data, cur, stack[|stack| - 1])
                 case Err(e) => Err(e)
                 case Ok(p) => Ok(Read(WithTop(stack, p.value), p.next))
    ensures ValidStack(stack) ==> Resumes(data, cur, stack, r)
  {
    hide Finish;
    var top := stack[|stack| - 1];
    if ValidStack(stack) {
      FinishPrime(data, cur, stack);
    }
    if NeedsName(top) {
      var name :- ReadUleb128(data, cur);
      return Ok(Read(WithTop(stack, top.(pendingName := Some(name.value))), name.next));
    } else {
      assert stack == WithTop(stack, top);
      return Ok(Read(stack, cur));
    }
  }

  /** `deliver_to_top`; its two internal errors are the empty stack and a missing pending name. */
  method DeliverToTop(data: seq<byte>, cur: nat, stack: seq<Frame>, v: EncodedValue)
    returns (r: Result<Read<seq<Frame>>>)
    ensures stack != [] && Waiting(stack[|stack| - 1]) ==>
              r == match Prime(data, cur, Deliver(stack[|stack| - 1], v))
                   case Err(e) => Err(e)
                   case Ok(p) => Ok(Read(WithTop(stack, p.value), p.next))
    ensures ValidStack(stack) && Waiting(stack[|stack| - 1]) ==>
              Resumes(data, cur, WithTop(stack, Deliver(stack[|stack| - 1], v)), r)
  {
    if |stack| == 0 {
      return Err(WorkStackExhausted);
    }
    var top := stack[|stack| - 1];
    var s: seq<Frame>;
    match top {
      case ArrayFrame(_, remaining, children) =>
        s := WithTop(stack, top.(remaining := if remaining == 0 then 0 else remaining - 1, children := children + [v]));
      case AnnotationFrame(_, remaining, _, elements, pending) =>
        match pending {
          case None => return Err(WorkStackExhausted);
          case Some(name) =>
            s := WithTop(stack, top.(remaining := if remaining == 0 then 0 else remaining - 1,
                                elements := Insert(elements, name, v), pendingName := None));
        }
    }
    r := PrimeTop(data, cur, s);
    assert Waiting(top) ==> s == WithTop(stack, Deliver(top, v));
    if Waiting(top) && Prime(data, cur, Deliver(top, v)).Ok? {
      var f := Prime(data, cur, Deliver(top, v)).value.value;
      assert WithTop(s, f) == WithTop(stack, f);
    }
  }

  /** `drive_collector_stack`: the machine computes what the grammar says its start state stands for. */
  method DriveCollectorStack(data: seq<byte>, bodyStart: nat, root: Frame) returns (r: Result<Parsed<EncodedValue>>)
    requires Sound(root) && root.startPos <= bodyStart <= |data|
    ensures r == match FinishFrame(data, bodyStart, root, PARSE_STACK_FRAME_CAP - 1)
                 case Err(e) => Err(e)
                 case Ok(v) => Ok(Parsed(v.value, v.next - root.startPos))
  {
    hide FinishFrame, ParseValue, ParseComposite, Normalize, Open, Primitive, Insert;
    var stack := [root];
    var cur := bodyStart;
    ghost var goal := FinishFrame(data, bodyStart, root, PARSE_STACK_FRAME_CAP - 1);
    while true
      invariant ValidStack(stack)
      invariant bodyStart <= cur <= |data|
      invariant Finish(data, cur, stack) == goal
      decreases Left(data, cur)
    {
      var named :- PrimeTop(data, cur, stack);
      var popped :- PopCompleted(data, named.next, named.value);
      stack, cur := popped.value, popped.next;
      if |stack| == 1 && Complete(stack[0]) {
        FinishPop(data, cur, stack);
        return Ok(Parsed(Assemble(stack[0]), cur - root.startPos));
      }

      assert Waiting(stack[|stack| - 1]);
      FinishDeliver(data, cur, stack);
      ParseValueCases(data, cur, PARSE_STACK_FRAME_CAP - |stack|);
      var prim :- DecodePrimitive(data, cur);
      match prim {
        case Some(p) =>
          var delivered :- DeliverToTop(data, p.next, stack, p.value);
          stack, cur := delivered.value, delivered.next;
        case None =>
          if |stack| >= PARSE_STACK_FRAME_CAP {
            return Err(WorkStackExhausted);
          }
          FinishPushed(data, cur, stack);
          var pushed :- OpenFrame(data, cur);
          stack, cur := stack + [pushed.value], pushed.next;
      }
    }
  }

  /** Phase B: assemble completed frames and deliver them, down to an incomplete frame or the completed root. */
  method PopCompleted(data: seq<byte>, start: nat, s: seq<Frame>) returns (r: Result<Read<seq<Frame>>>)
    requires ValidStack(s) && !NeedsName(s[|s| - 1])
    ensures match r
            case Err(e) => Finish(data, start, s) == Err(e)
            case Ok(t) =>
              && ValidStack(t.value)
              && start <= t.next && (start <= |data| ==> t.next <= |data|)
              && Finish(data, t.next, t.value) == Finish(data, start, s)
              && (Waiting(t.value[|t.value| - 1]) || (|t.value| == 1 && Complete(t.value[0])))
  {
    hide Finish, Insert;
    var stack, cur := s, start;
    while Complete(stack[|stack| - 1]) && |stack| > 1
      invariant ValidStack(stack) && !NeedsName(stack[|stack| - 1])
      invariant start <= cur && (start <= |data| ==> cur <= |data|)
      invariant Finish(data, cur, stack) == Finish(data, start, s)
      decreases |stack|
    {
      FinishPop(data, cur, stack);
      var v := Assemble(stack[|stack| - 1]);
      stack := stack[..|stack| - 1];
      var delivered :- DeliverToTop(data, cur, stack, v);
      stack, cur := delivered.value, delivered.next;
    }
    return Ok(Read(stack, cur));
  }

  lemma {:induction false} ParseValueCases(data: seq<byte>, pos: nat, budget: nat)
    ensures ParseValue(data, pos, budget) ==
            match Primitive(data, pos)
            case Err(e) => Err(e)
            case Ok(Some(v)) => Ok(v)
            case Ok(None) => if budget == 0 then Err(WorkStackExhausted) else ParseComposite(data, pos, budget - 1)
    ensures Primitive(data, pos).Ok? && Primitive(data, pos).value.Some? ==>
              Normalize(Primitive(data, pos).value.value.value) == Primitive(data, pos).value.value.value
  {
  }

  /** Pushing the frame of a composite leaves the meaning of the state unchanged. */
  lemma {:induction false} FinishPushed(data: seq<byte>, cur: nat, stack: seq<Frame>)
    requires ValidStack(stack) && Waiting(stack[|stack| - 1])
    requires |stack| < PARSE_STACK_FRAME_CAP && Primitive(data, cur) == Ok(None)
    ensures Finish(data, cur, stack) ==
            match Open(data, cur)
            case Err(e) => Err(e)
            case Ok(f) => Finish(data, f.next, stack + [f.value])
  {
    hide FinishFrame, ParseValue, ParseComposite, Normalize;
    var n := |stack|;
    FinishDeliver(data, cur, stack);
    ParseValueCases(data, cur, PARSE_STACK_FRAME_CAP - n);
    OpenThenFinish(data, cur, PARSE_STACK_FRAME_CAP - n - 1);
    if Open(data, cur).Ok? {
      var s := stack + [Open(data, cur).value.value];
      assert s[..n - 1] == stack[..n - 1];
      assert ValidStack(s);
    }
  }

  // ----- entry points -----

  /** From an end position to the number of bytes consumed since `pos`. */
  function Consumed<T>(pos: nat, r: Result<Read<T>>): Result<Parsed<T>>
    requires r.Ok? ==> pos <= r.value.next
  {
    var v :- r;
    Ok(Parsed(v.value, v.next - pos))
  }

  /** `parse_encoded_value`. */
  method ParseEncodedValue(data: seq<byte>, pos: nat) returns (r: Result<Parsed<EncodedValue>>)
    ensures r == Consumed(pos, Normalized(ParseValue(data, pos, PARSE_STACK_FRAME_CAP)))
  {
    hide FinishFrame, ParseValue, ParseComposite, Normalize, Open, Primitive;
    ParseValueCases(data, pos, PARSE_STACK_FRAME_CAP);
    var prim :- DecodePrimitive(data, pos);
    match prim {
      case Some(p) =>
        return Ok(Parsed(p.value, p.next - pos));
      case None =>
        OpenThenFinish(data, pos, PARSE_STACK_FRAME_CAP - 1);
        var root :- OpenFrame(data, pos);
        r := DriveCollectorStack(data, root.next, root.value);
    }
  }

  /** `parse_encoded_annotation`: an annotation body without the header byte. */
  method ParseEncodedAnnotation(data: seq<byte>, pos: nat) returns (r: Result<Parsed<EncodedValue>>)
    ensures r == Consumed(pos, Normalized(ParseAnnotation(data, pos, PARSE_STACK_FRAME_CAP - 1)))
  {
    hide FinishFrame, ParseAnnotation, OpenAnnotation, Normalize;
    OpenAnnotationThenFinish(data, pos, pos, PARSE_STACK_FRAME_CAP - 1);
    var root :- OpenAnnotationFrame(data, pos, pos);
    r := DriveCollectorStack(data, root.next, root.value);
  }

  /** The values of an array item with the byte width of each payload, clamped to a byte. */
  datatype Items = Items(values: seq<EncodedValue>, widths: seq<byte>)

  function ItemsFrom(data: seq<byte>, pos: nat, n: nat): Result<Items>
    decreases n
  {
    if n == 0 then Ok(Items([], []))
    else
      var v :- ParseValue(data, pos, PARSE_STACK_FRAME_CAP);
      var rest :- ItemsFrom(data, v.next, n - 1);
      Ok(Items([Normalize(v.value)] + rest.values, [ClampWidth(v.next - pos - 1)] + rest.widths))
  }

  function ClampWidth(w: nat): byte {
    if w <= 255 then w else 255
  }

  /** The items of an array are its elements as the grammar reads them, a scalar's width its payload's. */
  lemma {:induction false} ItemsAreValues(data: seq<byte>, pos: nat, n: nat)
    ensures match ParseValues(data, pos, n, PARSE_STACK_FRAME_CAP)
            case Err(e) => ItemsFrom(data, pos, n) == Err(e)
            case Ok(vs) =>
              && ItemsFrom(data, pos, n).Ok?
              && ItemsFrom(data, pos, n).value.values == NormalizeAll(vs.value)
              && |ItemsFrom(data, pos, n).value.widths| == n
              && forall i :: 0 <= i < n && vs.value[i].Scalar? ==>
                   Fits(vs.value[i].kind, vs.value[i].value, ItemsFrom(data, pos, n).value.widths[i])
    decreases n
  {
    hide Normalize, Nesting, ParseValue, Fits, ClampWidth;
    if n > 0 && ParseValue(data, pos, PARSE_STACK_FRAME_CAP).Ok? {
      var v := ParseValue(data, pos, PARSE_STACK_FRAME_CAP).value;
      ItemsAreValues(data, v.next, n - 1);
      ScalarWidth(data, pos);
      var vs := ParseValues(data, pos, n, PARSE_STACK_FRAME_CAP);
      if vs.Ok? {
        assert vs.value.value[1..] == ParseValues(data, v.next, n - 1, PARSE_STACK_FRAME_CAP).value.value;
      }
    }
  }

  lemma {:induction false} ScalarWidth(data: seq<byte>, pos: nat)
    requires ParseValue(data, pos, PARSE_STACK_FRAME_CAP).Ok?
    ensures var v := ParseValue(data, pos, PARSE_STACK_FRAME_CAP).value;
            v.value.Scalar? ==> Fits(v.value.kind, v.value.value, ClampWidth(v.next - pos - 1))
  {
    ParseValueCases(data, pos, PARSE_STACK_FRAME_CAP);
    var v := ParseValue(data, pos, PARSE_STACK_FRAME_CAP).value;
    if v.value.Scalar? {
      PayloadReprint(v.value.kind, data[pos + 1..v.next]);
    }
  }

  function Glue(values: seq<EncodedValue>, widths: seq<byte>, rest: Result<Items>): Result<Items> {
    var more :- rest;
    Ok(Items(values + more.values, widths + more.widths))
  }

  lemma {:induction false} GlueEnds(data: seq<byte>, pos: nat, n: nat, values: seq<EncodedValue>, widths: seq<byte>)
    ensures Glue([], [], ItemsFrom(data, pos, n)) == ItemsFrom(data, pos, n)
    ensures Glue(values, widths, ItemsFrom(data, pos, 0)) == Ok(Items(values, widths))
  {
    var rest := ItemsFrom(data, pos, n);
    if rest.Ok? {
      assert [] + rest.value.values == rest.value.values;
      assert [] + rest.value.widths == rest.value.widths;
    }
    assert values + [] == values && widths + [] == widths;
  }

  lemma {:induction false} GlueStep(data: seq<byte>, pos: nat, n: nat, values: seq<EncodedValue>, widths: seq<byte>)
    requires n > 0
    ensures Glue(values, widths, ItemsFrom(data, pos, n)) ==
            match ParseValue(data, pos, PARSE_STACK_FRAME_CAP)
            case Err(e) => Err(e)
            case Ok(v) =>
              Glue(values + [Normalize(v.value)], widths + [ClampWidth(v.next - pos - 1)],
                   ItemsFrom(data, v.next, n - 1))
  {
    hide ParseValue, Normalize;
    var p := ParseValue(data, pos, PARSE_STACK_FRAME_CAP);
    if p.Ok? && ItemsFrom(data, p.value.next, n - 1).Ok? {
      var more := ItemsFrom(data, p.value.next, n - 1).value;
      var v, w := Normalize(p.value.value), ClampWidth(p.value.next - pos - 1);
      assert values + ([v] + more.values) == values + [v] + more.values;
      assert widths + ([w] + more.widths) == widths + [w] + more.widths;
    }
  }

  function ArrayItem(data: seq<byte>, offset: nat): Result<Items> {
    var size :- Uleb(data, offset);
    var count :- BoundCount(size.value, 1, |data|);
    ItemsFrom(data, size.next, count)
  }

  /** `parse_encoded_array`: an `encoded_array_item`, each element with the full nesting allowance. */
  method ParseEncodedArray(data: seq<byte>, offset: nat) returns (r: Result<Items>)
    ensures r == ArrayItem(data, offset)
  {
    hide Normalize, ParseValue, ItemsFrom, Glue;
    var size :- ReadUleb128(data, offset);
    var count :- BoundCount(size.value, 1, |data|);
    var values, widths := [], [];
    var pos: nat := size.next;
    GlueEnds(data, pos, count, values, widths);
    for i := 0 to count
      invariant pos <= |data|
      invariant Glue(values, widths, ItemsFrom(data, pos, count - i)) == ItemsFrom(data, size.next, count)
    {
      GlueStep(data, pos, count - i, values, widths);
      var v :- ParseEncodedValue(data, pos);
      values := values + [v.value];
      widths := widths + [ClampWidth(v.consumed - 1)];
      pos := pos + v.consumed;
    }
    GlueEnds(data, pos, 0, values, widths);
    return Ok(Items(values, widths));
  }

  /**
   When the stack limit is met: exactly when more than 65536 composites are open
   at once; otherwise the limit is not noticed, and for a readable value the
   limit is on the height of its tree.
   */
  lemma {:induction false} StackLimit(data: seq<byte>, pos: nat)
    ensures var r := ParseValue(data, pos, PARSE_STACK_FRAME_CAP);
            && (r == Err(WorkStackExhausted) <==> Nesting(data, pos) > 65_536)
            && (r != Err(WorkStackExhausted) ==> r == Unlimited(data, pos))
            && (Unlimited(data, pos).Ok? ==>
                  (r.Ok? <==> Height(Unlimited(data, pos).value.value) <= 65_536))
  {
    hide ParseValue, Nesting, Height;
    BudgetExact(data, pos, PARSE_STACK_FRAME_CAP);
    NeverExhausted(data, pos, |data|);
    if Unlimited(data, pos).Ok? {
      NestingIsHeight(data, pos);
    }
  }

  /** The same for a bare annotation body, whose own frame is one of the 65536. */
  lemma {:induction false} AnnotationStackLimit(data: seq<byte>, pos: nat)
    ensures var r := ParseAnnotation(data, pos, PARSE_STACK_FRAME_CAP - 1);
            var unlimited := ParseAnnotation(data, pos, |data|);
            && (r == Err(WorkStackExhausted) <==> AnnotationNesting(data, pos) + 1 > 65_536)
            && (r != Err(WorkStackExhausted) ==> r == unlimited)
            && (unlimited.Ok? ==> (r.Ok? <==> Height(unlimited.value.value) <= 65_536))
  {
    hide ParseAnnotation, AnnotationNesting, Height;
    AnnotationBudgetExact(data, pos, PARSE_STACK_FRAME_CAP - 1);
    BodyNeverExhausted(data, pos, |data|);
    if ParseAnnotation(data, pos, |data|).Ok? {
      AnnotationNestingIsHeight(data, pos, |data|);
    }
  }
}
