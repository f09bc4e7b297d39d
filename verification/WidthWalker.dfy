/**
 `walk_one_for_widths` of src/annotation.rs: a second walk over the bytes,
 steered by the parsed tree, that recovers the on-disk width of every scalar.
 */
module WidthWalker {
  import opened Basics
  import opened Leb128
  import opened EncodedValues
  import opened ValueGrammar
  import opened ValuePrinter

  function Walk(data: seq<byte>, pos: nat, v: EncodedValue): Result<Read<seq<nat>>>
    decreases v, 0
  {
    var header :- Header(data, pos);
    match v
    case Scalar(_, _) => Ok(Read([header / 32 + 1], pos + 1 + (header / 32 + 1)))
    case Array(vs) => WalkArrayBody(data, pos + 1, vs)
    case Annotation(_, es) => WalkAnnotationBody(data, pos + 1, es)
    case _ => Ok(Read([], pos + 1))
  }

  function WalkArrayBody(data: seq<byte>, pos: nat, vs: seq<EncodedValue>): Result<Read<seq<nat>>>
    decreases vs, 1
  {
    var size :- Uleb(data, pos);
    WalkAll(data, size.next, vs)
  }

  function WalkAnnotationBody(data: seq<byte>, pos: nat, es: Elements): Result<Read<seq<nat>>>
    decreases es, 1
  {
    var ty :- Uleb(data, pos);
    var size :- Uleb(data, ty.next);
    WalkElements(data, size.next, es)
  }

  function WalkAll(data: seq<byte>, pos: nat, vs: seq<EncodedValue>): Result<Read<seq<nat>>>
    decreases vs, 0
  {
    if vs == [] then Ok(Read([], pos))
    else
      var first :- Walk(data, pos, vs[0]);
      var rest :- WalkAll(data, first.next, vs[1..]);
      Ok(Read(first.value + rest.value, rest.next))
  }

  function WalkElements(data: seq<byte>, pos: nat, es: Elements): Result<Read<seq<nat>>>
    decreases es, 0
  {
    match es
    case NoElements => Ok(Read([], pos))
    case Element(_, v, rest) =>
      var name :- Uleb(data, pos);
      var first :- Walk(data, name.next, v);
      var more :- WalkElements(data, first.next, rest);
      Ok(Read(first.value + more.value, more.next))
  }

  /** The accumulator form: `widths` so far, then what the walk adds. */
  function Extend(widths: seq<nat>, r: Result<Read<seq<nat>>>): Result<Read<seq<nat>>> {
    var more :- r;
    Ok(Read(widths + more.value, more.next))
  }

  lemma {:induction false} ExtendTwice(a: seq<nat>, b: seq<nat>, r: Result<Read<seq<nat>>>)
    ensures Extend(a, Extend(b, r)) == Extend(a + b, r)
    ensures Extend([], r) == r
  {
    if r.Ok? {
      assert a + (b + r.value.value) == a + b + r.value.value;
      assert [] + r.value.value == r.value.value;
    }
  }

  /** `walk_one_for_widths`: `pos` and `widths` are threaded through the recursion. */
  method WalkOneForWidths(data: seq<byte>, pos: nat, val: EncodedValue, widths: seq<nat>)
    returns (r: Result<Read<seq<nat>>>)
    ensures r == Extend(widths, Walk(data, pos, val))
    decreases val, 0
  {
    if pos >= |data| {
      return Err(ScrollRead(pos));
    }
    var size := data[pos] / 32 + 1;
    match val {
      case Scalar(_, _) =>
        return Ok(Read(widths + [size], pos + 1 + size));
      case Array(vs) =>
        r := WalkArrayForWidths(data, pos + 1, vs, widths);
      case Annotation(_, es) =>
        r := WalkAnnotationForWidths(data, pos + 1, es, widths);
      case _ =>
        assert widths + [] == widths;
        return Ok(Read(widths, pos + 1));
    }
  }

  method WalkArrayForWidths(data: seq<byte>, pos: nat, vs: seq<EncodedValue>, widths: seq<nat>)
    returns (r: Result<Read<seq<nat>>>)
    ensures r == Extend(widths, WalkArrayBody(data, pos, vs))
    decreases vs, 1
  {
    hide Walk;
    var size :- ReadUleb128(data, pos);
    var cur, ws := size.next, widths;
    for i := 0 to |vs|
      invariant Extend(ws, WalkAll(data, cur, vs[i..])) == Extend(widths, WalkAll(data, size.next, vs))
    {
      assert vs[i..][0] == vs[i] && vs[i..][1..] == vs[i + 1..];
      var child :- WalkOneForWidths(data, cur, vs[i], ws);
      var own := Walk(data, cur, vs[i]).value;
      ExtendTwice(ws, own.value, WalkAll(data, own.next, vs[i + 1..]));
      cur, ws := child.next, child.value;
    }
    assert ws + [] == ws;
    return Ok(Read(ws, cur));
  }

  method WalkAnnotationForWidths(data: seq<byte>, pos: nat, es: Elements, widths: seq<nat>)
    returns (r: Result<Read<seq<nat>>>)
    ensures r == Extend(widths, WalkAnnotationBody(data, pos, es))
    decreases es, 1
  {
    hide Walk;
    var ty :- ReadUleb128(data, pos);
    var size :- ReadUleb128(data, ty.next);
    var cur, ws, left := size.next, widths, es;
    while left.Element?
      invariant left == es || (es decreases to left)
      invariant Extend(ws, WalkElements(data, cur, left)) == Extend(widths, WalkElements(data, size.next, es))
      decreases left
    {
      var name :- ReadUleb128(data, cur);
      var child :- WalkOneForWidths(data, name.next, left.value, ws);
      var own := Walk(data, name.next, left.value).value;
      ExtendTwice(ws, own.value, WalkElements(data, own.next, left.rest));
      cur, ws, left := child.next, child.value, left.rest;
    }
    assert ws + [] == ws;
    return Ok(Read(ws, cur));
  }

  // ----- what the walk depends on -----

  /** The same nesting of arrays and annotations, with scalars and payload-free values in the same places. */
  predicate SameShape(v: EncodedValue, w: EncodedValue) {
    match v
    case Scalar(_, _) => w.Scalar?
    case Array(vs) => w.Array? && SameShapes(vs, w.values)
    case Annotation(_, es) => w.Annotation? && SameElementShapes(es, w.elements)
    case _ => w.Null? || w.Boolean?
  }

  predicate SameShapes(vs: seq<EncodedValue>, ws: seq<EncodedValue>) {
    if vs == [] || ws == [] then vs == ws
    else SameShape(vs[0], ws[0]) && SameShapes(vs[1..], ws[1..])
  }

  predicate SameElementShapes(es: Elements, fs: Elements) {
    match es
    case NoElements => fs.NoElements?
    case Element(_, v, rest) => fs.Element? && SameShape(v, fs.value) && SameElementShapes(rest, fs.rest)
  }

  /** The walk sees nothing of the tree but its shape. */
  lemma {:induction false} WalkSeesShape(data: seq<byte>, pos: nat, v: EncodedValue, w: EncodedValue)
    requires SameShape(v, w)
    ensures Walk(data, pos, v) == Walk(data, pos, w) && ScalarCount(v) == ScalarCount(w)
    decreases v, 0
  {
    hide Uleb;
    match v
    case Array(vs) =>
      var p := Uleb(data, pos + 1);
      WalkSeesShapes(data, if p.Ok? then p.value.next else 0, vs, w.values);
    case Annotation(_, es) =>
      var ty := Uleb(data, pos + 1);
      var size := Uleb(data, if ty.Ok? then ty.value.next else 0);
      WalkSeesElementShapes(data, if size.Ok? then size.value.next else 0, es, w.elements);
    case _ =>
  }

  lemma {:induction false} WalkSeesShapes(data: seq<byte>, pos: nat, vs: seq<EncodedValue>, ws: seq<EncodedValue>)
    requires SameShapes(vs, ws)
    ensures WalkAll(data, pos, vs) == WalkAll(data, pos, ws) && ScalarCountAll(vs) == ScalarCountAll(ws)
    decreases vs, 0
  {
    hide Walk, SameShape, ScalarCount;
    if vs != [] && ws != [] {
      WalkSeesShape(data, pos, vs[0], ws[0]);
      var first := Walk(data, pos, vs[0]);
      WalkSeesShapes(data, if first.Ok? then first.value.next else 0, vs[1..], ws[1..]);
    }
  }

  lemma {:induction false} WalkSeesElementShapes(data: seq<byte>, pos: nat, es: Elements, fs: Elements)
    requires SameElementShapes(es, fs)
    ensures WalkElements(data, pos, es) == WalkElements(data, pos, fs)
    ensures ScalarCountElements(es) == ScalarCountElements(fs)
    decreases es, 0
  {
    hide Walk, SameShape, ScalarCount, Uleb;
    if es.Element? {
      var name := Uleb(data, pos);
      var p := if name.Ok? then name.value.next else 0;
      WalkSeesShape(data, p, es.value, fs.value);
      var first := Walk(data, p, es.value);
      WalkSeesElementShapes(data, if first.Ok? then first.value.next else 0, es.rest, fs.rest);
    }
  }

  // ----- the walk keeps step with the parser -----

  /** A walk that ended at `next` with one admissible width per scalar of `v`. */
  predicate WalksTo(v: EncodedValue, r: Result<Read<seq<nat>>>, next: nat) {
    r.Ok? && r.value.next == next && |r.value.value| == ScalarCount(v) && Admissible(v, r.value.value)
  }

  lemma {:induction false} WalkFollowsParser(data: seq<byte>, pos: nat, budget: nat)
    requires ParseValue(data, pos, budget).Ok?
    ensures var p := ParseValue(data, pos, budget).value;
            WalksTo(p.value, Walk(data, pos, p.value), p.next)
    decreases Left(data, pos), 1
  {
    hide ParseArray, ParseAnnotation, AdmissibleAll, AdmissibleElements, Uleb;
    if Primitive(data, pos) == Ok(None) {
      WalkFollowsBody(data, pos + 1, budget - 1);
    } else {
      WalkFollowsPrimitive(data, pos);
    }
  }

  lemma {:induction false} WalkFollowsPrimitive(data: seq<byte>, pos: nat)
    requires Primitive(data, pos).Ok? && Primitive(data, pos).value.Some?
    ensures var p := Primitive(data, pos).value.value;
            WalksTo(p.value, Walk(data, pos, p.value), p.next)
  {
    hide Payload, Fits;
    var p := Primitive(data, pos).value.value;
    if p.value.Scalar? {
      PayloadReprint(p.value.kind, data[pos + 1..p.next]);
    }
  }

  lemma {:induction false} WalkFollowsBody(data: seq<byte>, pos: nat, budget: nat)
    ensures match ParseArray(data, pos, budget)
            case Err(_) => true
            case Ok(p) => WalksTo(p.value, WalkArrayBody(data, pos, p.value.values), p.next)
    ensures match ParseAnnotation(data, pos, budget)
            case Err(_) => true
            case Ok(p) => WalksTo(p.value, WalkAnnotationBody(data, pos, p.value.elements), p.next)
    decreases Left(data, pos), 0
  {
    hide ParseValues, ParseElements, AdmissibleAll, AdmissibleElements, WalkAll, WalkElements;
    if ParseArray(data, pos, budget).Ok? {
      var size := Uleb(data, pos).value;
      WalkFollowsValues(data, size.next, size.value, budget);
    }
    if ParseAnnotation(data, pos, budget).Ok? {
      var ty := Uleb(data, pos).value;
      var size := Uleb(data, ty.next).value;
      WalkFollowsElements(data, size.next, size.value, budget);
    }
  }

  lemma {:induction false} WalkFollowsValues(data: seq<byte>, pos: nat, n: nat, budget: nat)
    requires ParseValues(data, pos, n, budget).Ok?
    ensures var p := ParseValues(data, pos, n, budget).value;
            var r := WalkAll(data, pos, p.value);
            r.Ok? && r.value.next == p.next && |r.value.value| == ScalarCountAll(p.value) &&
                AdmissibleAll(p.value, r.value.value)
    decreases Left(data, pos), 2
  {
    hide ParseValue, Walk, Admissible, ScalarCount;
    if n > 0 {
      var v := ParseValue(data, pos, budget).value;
      WalkFollowsParser(data, pos, budget);
      WalkFollowsValues(data, v.next, n - 1, budget);
      var rest := ParseValues(data, v.next, n - 1, budget).value.value;
      assert ([v.value] + rest)[1..] == rest;
      var w, ws := Walk(data, pos, v.value).value.value, WalkAll(data, v.next, rest).value.value;
      assert (w + ws)[..|w|] == w && (w + ws)[|w|..] == ws;
    }
  }

  lemma {:induction false} WalkFollowsElements(data: seq<byte>, pos: nat, n: nat, budget: nat)
    requires ParseElements(data, pos, n, budget).Ok?
    ensures var p := ParseElements(data, pos, n, budget).value;
            var r := WalkElements(data, pos, p.value);
            r.Ok? && r.value.next == p.next && |r.value.value| == ScalarCountElements(p.value) &&
                AdmissibleElements(p.value, r.value.value)
    decreases Left(data, pos), 2
  {
    hide ParseValue, Walk, Admissible, ScalarCount;
    if n > 0 {
      var name := Uleb(data, pos).value;
      var v := ParseValue(data, name.next, budget).value;
      WalkFollowsParser(data, name.next, budget);
      WalkFollowsElements(data, v.next, n - 1, budget);
      var rest := ParseElements(data, v.next, n - 1, budget).value.value;
      var w, ws := Walk(data, name.next, v.value).value.value, WalkElements(data, v.next, rest).value.value;
      assert (w + ws)[..|w|] == w && (w + ws)[|w|..] == ws;
    }
  }

  // ----- reprinting -----

  /** Minimal ULEBs, and unused header bits clear, everywhere in the bytes of `v`. */
  predicate Canonical(data: seq<byte>, pos: nat, v: EncodedValue)
    decreases v, 0
  {
    pos < |data| &&
    match v
    case Scalar(_, _) => true
    case Array(vs) =>
      && data[pos] == TAG_ARRAY && Uleb(data, pos + 1).Ok? && MinimalUleb(data, pos + 1)
      && CanonicalAll(data, Uleb(data, pos + 1).value.next, vs)
    case Annotation(_, es) =>
      && data[pos] == TAG_ANNOTATION && Uleb(data, pos + 1).Ok? && MinimalUleb(data, pos + 1)
      && var p2 := Uleb(data, pos + 1).value.next;
      && Uleb(data, p2).Ok? && MinimalUleb(data, p2)
      && CanonicalElements(data, Uleb(data, p2).value.next, es)
    case Null => data[pos] == TAG_NULL
    case Boolean(b) => data[pos] == if b then TAG_BOOLEAN + 32 else TAG_BOOLEAN
  }

  predicate CanonicalAll(data: seq<byte>, pos: nat, vs: seq<EncodedValue>)
    decreases vs, 0
  {
    vs == [] ||
    (Canonical(data, pos, vs[0]) && Walk(data, pos, vs[0]).Ok? &&
     CanonicalAll(data, Walk(data, pos, vs[0]).value.next, vs[1..]))
  }

  predicate CanonicalElements(data: seq<byte>, pos: nat, es: Elements)
    decreases es, 0
  {
    match es
    case NoElements => true
    case Element(_, v, rest) =>
      && Uleb(data, pos).Ok? && MinimalUleb(data, pos)
      && var p := Uleb(data, pos).value.next;
      && Canonical(data, p, v) && Walk(data, p, v).Ok?
      && CanonicalElements(data, Walk(data, p, v).value.next, rest)
  }

  /** Printing the tree read with the widths walked gives back the bytes exactly when they are canonical. */
  lemma {:induction false} ReprintExact(data: seq<byte>, pos: nat, budget: nat)
    requires ParseValue(data, pos, budget).Ok?
    ensures var p := ParseValue(data, pos, budget).value;
            var w := Walk(data, pos, p.value);
            && WalksTo(p.value, w, p.next)
            && (HasAt(data, pos, Print(p.value, w.value.value)) <==> Canonical(data, pos, p.value))
    decreases Left(data, pos), 1
  {
    hide ParseArray, ParseAnnotation, AdmissibleAll, AdmissibleElements, Uleb, PrintAll, PrintElements, MinimalUleb;
    hide EncodeUleb, CanonicalAll, CanonicalElements, WalkArrayBody, WalkAnnotationBody, HasAt;
    WalkFollowsParser(data, pos, budget);
    HasAtByte(data, pos);
    var p := ParseValue(data, pos, budget).value;
    var ws := Walk(data, pos, p.value).value.value;
    if Primitive(data, pos) == Ok(None) {
      if data[pos] % 32 == TAG_ARRAY {
        ReprintArray(data, pos + 1, budget - 1);
        HasAtConcat(data, pos, [TAG_ARRAY], EncodeUleb(|p.value.values|) + PrintAll(p.value.values, ws));
      } else {
        ReprintAnnotation(data, pos + 1, budget - 1);
        var es := p.value.elements;
        HasAtConcat(data, pos, [TAG_ANNOTATION],
                    EncodeUleb(p.value.typeIdx) + (EncodeUleb(Count(es)) + PrintElements(es, ws)));
      }
    } else {
      ReprintPrimitive(data, pos);
    }
  }

  lemma {:induction false} ReprintPrimitive(data: seq<byte>, pos: nat)
    requires Primitive(data, pos).Ok? && Primitive(data, pos).value.Some?
    ensures var p := Primitive(data, pos).value.value;
            var w := Walk(data, pos, p.value);
            && WalksTo(p.value, w, p.next)
            && (HasAt(data, pos, Print(p.value, w.value.value)) <==> Canonical(data, pos, p.value))
  {
    hide Payload, Fits, PayloadBytes;
    WalkFollowsPrimitive(data, pos);
    var v := Primitive(data, pos).value.value.value;
    var next := Primitive(data, pos).value.value.next;
    if v.Scalar? {
      var bs := data[pos + 1..next];
      TagOfKind(data[pos] % 32);
      PayloadReprint(v.kind, bs);
      assert data[pos..next] == [data[pos]] + bs;
    } else {
      assert data[pos..pos + 1] == [data[pos]];
    }
  }

  lemma {:induction false} ReprintArray(data: seq<byte>, pos: nat, budget: nat)
    requires ParseArray(data, pos, budget).Ok?
    ensures var vs := ParseArray(data, pos, budget).value.value.values;
            var w := WalkArrayBody(data, pos, vs);
            && Uleb(data, pos).Ok? && w.Ok? && AdmissibleAll(vs, w.value.value)
            && (HasAt(data, pos, EncodeUleb(|vs|) + PrintAll(vs, w.value.value)) <==>
                MinimalUleb(data, pos) && CanonicalAll(data, Uleb(data, pos).value.next, vs))
    decreases Left(data, pos), 0
  {
    hide ParseValues, AdmissibleAll, Uleb, PrintAll, MinimalUleb, EncodeUleb, HasAt;
    var size := Uleb(data, pos).value;
    WalkFollowsValues(data, size.next, size.value, budget);
    ReprintValues(data, size.next, size.value, budget);
    var vs := ParseArray(data, pos, budget).value.value.values;
    var ws := WalkAll(data, size.next, vs).value.value;
    HasAtConcat(data, pos, EncodeUleb(|vs|), PrintAll(vs, ws));
    MinimalUlebIsEncoded(data, pos);
    EncodedUlebEnds(data, pos);
  }

  /** An encoded ULEB ends where it was read to end. */
  lemma {:induction false} EncodedUlebEnds(data: seq<byte>, pos: nat)
    requires Uleb(data, pos).Ok?
    ensures var r := Uleb(data, pos).value;
            HasAt(data, pos, EncodeUleb(r.value)) ==> pos + |EncodeUleb(r.value)| == r.next
  {
    hide LebLen, GroupsValue, EncodeUleb;
    var r := Uleb(data, pos).value;
    if HasAt(data, pos, EncodeUleb(r.value)) {
      UlebRoundTrip(r.value, data, pos);
    }
  }

  lemma {:induction false} ReprintAnnotation(data: seq<byte>, pos: nat, budget: nat)
    requires ParseAnnotation(data, pos, budget).Ok?
    ensures var a := ParseAnnotation(data, pos, budget).value.value;
            var w := WalkAnnotationBody(data, pos, a.elements);
            && Uleb(data, pos).Ok? && w.Ok? && AdmissibleElements(a.elements, w.value.value)
            && var p2 := Uleb(data, pos).value.next;
            && Uleb(data, p2).Ok?
            && (HasAt(data, pos,
                      EncodeUleb(a.typeIdx) +
                      (EncodeUleb(Count(a.elements)) + PrintElements(a.elements, w.value.value)))
                <==>
                MinimalUleb(data, pos) && MinimalUleb(data, p2) &&
                CanonicalElements(data, Uleb(data, p2).value.next, a.elements))
    decreases Left(data, pos), 0
  {
    hide ParseElements, AdmissibleElements, Uleb, PrintElements, MinimalUleb, EncodeUleb, HasAt;
    var ty := Uleb(data, pos).value;
    var size := Uleb(data, ty.next).value;
    WalkFollowsElements(data, size.next, size.value, budget);
    ReprintElements(data, size.next, size.value, budget);
    var es := ParseAnnotation(data, pos, budget).value.value.elements;
    var ws := WalkElements(data, size.next, es).value.value;
    HasAtConcat(data, pos, EncodeUleb(ty.value), EncodeUleb(Count(es)) + PrintElements(es, ws));
    HasAtConcat(data, ty.next, EncodeUleb(Count(es)), PrintElements(es, ws));
    MinimalUlebIsEncoded(data, pos);
    MinimalUlebIsEncoded(data, ty.next);
    EncodedUlebEnds(data, pos);
    EncodedUlebEnds(data, ty.next);
  }

  /** A printed value ends where the parser ended. */
  lemma {:induction false} PrintedEnds(data: seq<byte>, pos: nat, budget: nat, ws: seq<nat>)
    requires ParseValue(data, pos, budget).Ok?
    requires Admissible(ParseValue(data, pos, budget).value.value, ws)
    ensures var p := ParseValue(data, pos, budget).value;
            HasAt(data, pos, Print(p.value, ws)) ==> pos + |Print(p.value, ws)| == p.next
  {
    hide ParseValue, Admissible, Print, HasAt, Height, Nesting;
    var p := ParseValue(data, pos, budget).value;
    BudgetExact(data, pos, budget);
    NestingIsHeight(data, pos);
    if HasAt(data, pos, Print(p.value, ws)) {
      ParsePrinted(p.value, ws, data, pos, budget);
    }
  }

  lemma {:induction false} ReprintValues(data: seq<byte>, pos: nat, n: nat, budget: nat)
    requires ParseValues(data, pos, n, budget).Ok? && pos <= |data|
    ensures var vs := ParseValues(data, pos, n, budget).value.value;
            var w := WalkAll(data, pos, vs);
            && w.Ok? && AdmissibleAll(vs, w.value.value)
            && (HasAt(data, pos, PrintAll(vs, w.value.value)) <==> CanonicalAll(data, pos, vs))
    decreases Left(data, pos), 2
  {
    hide ParseValue, Walk, Admissible, ScalarCount, Print, Canonical;
    WalkFollowsValues(data, pos, n, budget);
    if n > 0 {
      var v := ParseValue(data, pos, budget).value;
      ReprintExact(data, pos, budget);
      ReprintValues(data, v.next, n - 1, budget);
      var vs := ParseValues(data, pos, n, budget).value.value;
      var rest := ParseValues(data, v.next, n - 1, budget).value.value;
      assert vs[0] == v.value && vs[1..] == rest;
      var w, ws := Walk(data, pos, v.value).value.value, WalkAll(data, v.next, rest).value.value;
      assert (w + ws)[..|w|] == w && (w + ws)[|w|..] == ws;
      PrintedEnds(data, pos, budget, w);
      HasAtConcat(data, pos, Print(v.value, w), PrintAll(rest, ws));
    }
  }

  lemma {:induction false} ReprintElements(data: seq<byte>, pos: nat, n: nat, budget: nat)
    requires ParseElements(data, pos, n, budget).Ok? && pos <= |data|
    ensures var es := ParseElements(data, pos, n, budget).value.value;
            var w := WalkElements(data, pos, es);
            && w.Ok? && AdmissibleElements(es, w.value.value)
            && (HasAt(data, pos, PrintElements(es, w.value.value)) <==> CanonicalElements(data, pos, es))
    decreases Left(data, pos), 2
  {
    hide ParseValue, Walk, Admissible, ScalarCount, Print, Canonical, EncodeUleb, Uleb, MinimalUleb, HasAt;
    WalkFollowsElements(data, pos, n, budget);
    HasAtNothing(data, pos);
    if n > 0 {
      var name := Uleb(data, pos).value;
      var v := ParseValue(data, name.next, budget).value;
      ReprintExact(data, name.next, budget);
      ReprintElements(data, v.next, n - 1, budget);
      var rest := ParseElements(data, v.next, n - 1, budget).value.value;
      var w, ws := Walk(data, name.next, v.value).value.value, WalkElements(data, v.next, rest).value.value;
      assert (w + ws)[..|w|] == w && (w + ws)[|w|..] == ws;
      MinimalUlebIsEncoded(data, pos);
      EncodedUlebEnds(data, pos);
      PrintedEnds(data, name.next, budget, w);
      HasAtConcat(data, pos, EncodeUleb(name.value), Print(v.value, w) + PrintElements(rest, ws));
      HasAtConcat(data, name.next, Print(v.value, w), PrintElements(rest, ws));
    }
  }

  lemma {:induction false} HasAtByte(data: seq<byte>, pos: nat)
    ensures forall b: byte :: HasAt(data, pos, [b]) <==> pos < |data| && data[pos] == b
  {
  }

  lemma {:induction false} HasAtNothing(data: seq<byte>, pos: nat)
    ensures HasAt(data, pos, []) <==> pos <= |data|
  {
  }

  // ----- recovering the widths a tree was written with -----

  lemma {:induction false} WalkPrinted(v: EncodedValue, ws: seq<nat>, data: seq<byte>, pos: nat)
    requires Admissible(v, ws) && HasAt(data, pos, Print(v, ws))
    ensures Walk(data, pos, v) == Ok(Read(ws, pos + |Print(v, ws)|))
    decreases v, 1
  {
    hide AdmissibleAll, AdmissibleElements, PrintAll, PrintElements, EncodeUleb, WalkAll, WalkElements, Uleb, Fits,
        PayloadBytes;
    var first := Print(v, ws)[0];
    assert data[pos] == data[pos..pos + |Print(v, ws)|][0] == first;
    match v
    case Scalar(k, _) =>
      assert first / 32 + 1 == ws[0] by { ScalarHeader(k, ws[0]); }
      assert ws == [ws[0]];
    case Array(vs) =>
      var body := PrintAll(vs, ws);
      HasAtSplit(data, pos, [TAG_ARRAY], EncodeUleb(|vs|) + body);
      HasAtSplit(data, pos + 1, EncodeUleb(|vs|), body);
      UlebRoundTrip(|vs|, data, pos + 1);
      WalkPrintedValues(vs, ws, data, pos + 1 + |EncodeUleb(|vs|)|);
    case Annotation(ty, es) =>
      WalkPrintedAnnotation(ty, es, ws, data, pos);
    case _ =>
  }

  lemma ScalarHeader(k: Kind, w: nat)
    requires 1 <= w <= 8
    ensures (Tag(k) + 32 * (w - 1)) / 32 + 1 == w
  {
  }

  lemma {:induction false} WalkPrintedAnnotation(ty: nat, es: Elements, ws: seq<nat>, data: seq<byte>, pos: nat)
    requires Admissible(Annotation(ty, es), ws) && HasAt(data, pos, Print(Annotation(ty, es), ws))
    ensures WalkAnnotationBody(data, pos + 1, es) == Ok(Read(ws, pos + |Print(Annotation(ty, es), ws)|))
    decreases es, 1
  {
    hide AdmissibleElements, PrintElements, EncodeUleb, WalkElements, Uleb, HasAt;
    var body := PrintElements(es, ws);
    var p1 := pos + 1;
    var p2 := p1 + |EncodeUleb(ty)|;
    HasAtSplit(data, pos, [TAG_ANNOTATION], EncodeUleb(ty) + (EncodeUleb(Count(es)) + body));
    HasAtSplit(data, p1, EncodeUleb(ty), EncodeUleb(Count(es)) + body);
    HasAtSplit(data, p2, EncodeUleb(Count(es)), body);
    UlebRoundTrip(ty, data, p1);
    UlebRoundTrip(Count(es), data, p2);
    WalkPrintedElements(es, ws, data, p2 + |EncodeUleb(Count(es))|);
  }

  lemma {:induction false} WalkPrintedValues(vs: seq<EncodedValue>, ws: seq<nat>, data: seq<byte>, pos: nat)
    requires AdmissibleAll(vs, ws) && HasAt(data, pos, PrintAll(vs, ws))
    ensures WalkAll(data, pos, vs) == Ok(Read(ws, pos + |PrintAll(vs, ws)|))
    decreases vs, 0
  {
    hide Admissible, Print, Walk, ScalarCount, HasAt;
    if vs != [] {
      var k := ScalarCount(vs[0]);
      var first := Print(vs[0], ws[..k]);
      HasAtSplit(data, pos, first, PrintAll(vs[1..], ws[k..]));
      WalkPrinted(vs[0], ws[..k], data, pos);
      WalkPrintedValues(vs[1..], ws[k..], data, pos + |first|);
      assert ws[..k] + ws[k..] == ws;
    }
  }

  lemma {:induction false} WalkPrintedElements(es: Elements, ws: seq<nat>, data: seq<byte>, pos: nat)
    requires AdmissibleElements(es, ws) && HasAt(data, pos, PrintElements(es, ws))
    ensures WalkElements(data, pos, es) == Ok(Read(ws, pos + |PrintElements(es, ws)|))
    decreases es, 0
  {
    hide Admissible, Print, Walk, ScalarCount, HasAt, EncodeUleb, Uleb;
    match es
    case NoElements =>
    case Element(name, v, rest) =>
      var k := ScalarCount(v);
      var first, second := EncodeUleb(name), Print(v, ws[..k]);
      HasAtSplit(data, pos, first, second + PrintElements(rest, ws[k..]));
      HasAtSplit(data, pos + |first|, second, PrintElements(rest, ws[k..]));
      UlebRoundTrip(name, data, pos);
      WalkPrinted(v, ws[..k], data, pos + |first|);
      WalkPrintedElements(rest, ws[k..], data, pos + |first| + |second|);
      assert ws[..k] + ws[k..] == ws;
  }
}
