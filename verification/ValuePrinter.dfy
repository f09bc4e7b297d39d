/**
 Writing an `encoded_value` tree with a chosen payload width for every scalar,
 and the round trip through the parser. Widths are listed in pre-order.
 */
module ValuePrinter {
  import opened Basics
  import opened Leb128
  import opened EncodedValues
  import opened ValueGrammar

  /** Number of width-bearing primitives. */
  function ScalarCount(v: EncodedValue): nat {
    match v
    case Scalar(_, _) => 1
    case Array(vs) => ScalarCountAll(vs)
    case Annotation(_, es) => ScalarCountElements(es)
    case _ => 0
  }

  function ScalarCountAll(vs: seq<EncodedValue>): nat {
    if vs == [] then 0 else ScalarCount(vs[0]) + ScalarCountAll(vs[1..])
  }

  function ScalarCountElements(es: Elements): nat {
    match es
    case NoElements => 0
    case Element(_, v, rest) => ScalarCount(v) + ScalarCountElements(rest)
  }

  /** Indices and counts fit 32 bits, and the widths are one per scalar, each wide enough. */
  predicate Admissible(v: EncodedValue, ws: seq<nat>) {
    match v
    case Scalar(k, x) => |ws| == 1 && Fits(k, x, ws[0])
    case Array(vs) => |vs| <= U32_MAX && AdmissibleAll(vs, ws)
    case Annotation(ty, es) => ty <= U32_MAX && Count(es) <= U32_MAX && AdmissibleElements(es, ws)
    case _ => ws == []
  }

  predicate AdmissibleAll(vs: seq<EncodedValue>, ws: seq<nat>) {
    if vs == [] then ws == []
    else
      var k := ScalarCount(vs[0]);
      k <= |ws| && Admissible(vs[0], ws[..k]) && AdmissibleAll(vs[1..], ws[k..])
  }

  predicate AdmissibleElements(es: Elements, ws: seq<nat>) {
    match es
    case NoElements => ws == []
    case Element(name, v, rest) =>
      var k := ScalarCount(v);
      name <= U32_MAX && k <= |ws| && Admissible(v, ws[..k]) && AdmissibleElements(rest, ws[k..])
  }

  function Print(v: EncodedValue, ws: seq<nat>): (bs: seq<byte>)
    requires Admissible(v, ws)
    ensures |bs| >= 1
  {
    match v
    case Scalar(k, x) => [Tag(k) + 32 * (ws[0] - 1)] + PayloadBytes(k, x, ws[0])
    case Array(vs) => [TAG_ARRAY] + (EncodeUleb(|vs|) + PrintAll(vs, ws))
    case Annotation(ty, es) => [TAG_ANNOTATION] + (EncodeUleb(ty) + (EncodeUleb(Count(es)) + PrintElements(es, ws)))
    case Null => [TAG_NULL]
    case Boolean(b) => [if b then TAG_BOOLEAN + 32 else TAG_BOOLEAN]
  }

  function PrintAll(vs: seq<EncodedValue>, ws: seq<nat>): (bs: seq<byte>)
    requires AdmissibleAll(vs, ws)
    ensures |bs| >= |vs|
  {
    if vs == [] then []
    else
      var k := ScalarCount(vs[0]);
      Print(vs[0], ws[..k]) + PrintAll(vs[1..], ws[k..])
  }

  function PrintElements(es: Elements, ws: seq<nat>): (bs: seq<byte>)
    requires AdmissibleElements(es, ws)
    ensures |bs| >= 2 * Count(es)
  {
    match es
    case NoElements => []
    case Element(name, v, rest) =>
      var k := ScalarCount(v);
      EncodeUleb(name) + (Print(v, ws[..k]) + PrintElements(rest, ws[k..]))
  }

  /** Whatever surrounds the printed bytes, the grammar reads back the tree and stops at their end. */
  lemma {:induction false} ParsePrinted(v: EncodedValue, ws: seq<nat>, data: seq<byte>, pos: nat, budget: nat)
    requires Admissible(v, ws) && Height(v) <= budget
    requires HasAt(data, pos, Print(v, ws))
    ensures ParseValue(data, pos, budget) == Ok(Read(v, pos + |Print(v, ws)|))
    decreases v
  {
    hide *;
    FirstByte(data, pos, Print(v, ws));
    ParseValueByHeader(data, pos, budget);
    match v
    case Array(vs) =>
      ArrayShape(vs, ws);
      HasAtSplit(data, pos, [TAG_ARRAY], EncodeUleb(|vs|) + PrintAll(vs, ws));
      ParsePrintedArray(vs, ws, data, pos + 1, budget - 1);
    case Annotation(ty, es) =>
      AnnotationShape(ty, es, ws);
      HasAtSplit(data, pos, [TAG_ANNOTATION], EncodeUleb(ty) + (EncodeUleb(Count(es)) + PrintElements(es, ws)));
      ParsePrintedAnnotation(ty, es, ws, data, pos + 1, budget - 1);
    case _ =>
      ParsePrintedPrimitive(v, ws, data, pos);
  }

  lemma ArrayShape(vs: seq<EncodedValue>, ws: seq<nat>)
    requires Admissible(Array(vs), ws)
    ensures |vs| <= U32_MAX && AdmissibleAll(vs, ws) && Height(Array(vs)) == 1 + HeightAll(vs)
    ensures Print(Array(vs), ws) == [TAG_ARRAY] + (EncodeUleb(|vs|) + PrintAll(vs, ws))
  {
    hide AdmissibleAll, HeightAll, PrintAll, EncodeUleb;
  }

  lemma AnnotationShape(ty: nat, es: Elements, ws: seq<nat>)
    requires Admissible(Annotation(ty, es), ws)
    ensures ty <= U32_MAX && Count(es) <= U32_MAX && AdmissibleElements(es, ws)
    ensures Height(Annotation(ty, es)) == 1 + HeightElements(es)
    ensures Print(Annotation(ty, es), ws) ==
            [TAG_ANNOTATION] + (EncodeUleb(ty) + (EncodeUleb(Count(es)) + PrintElements(es, ws)))
  {
    hide AdmissibleElements, HeightElements, PrintElements, EncodeUleb;
  }

  lemma FirstByte(data: seq<byte>, pos: nat, bs: seq<byte>)
    requires HasAt(data, pos, bs) && bs != []
    ensures pos < |data| && data[pos] == bs[0]
  {
    assert data[pos..pos + |bs|][0] == bs[0];
  }

  lemma {:induction false} ParseValueByHeader(data: seq<byte>, pos: nat, budget: nat)
    requires pos < |data|
    ensures data[pos] == TAG_ARRAY && budget > 0 ==>
        ParseValue(data, pos, budget) == ParseArray(data, pos + 1, budget - 1)
    ensures data[pos] == TAG_ANNOTATION && budget > 0 ==>
              ParseValue(data, pos, budget) == ParseAnnotation(data, pos + 1, budget - 1)
    ensures Primitive(data, pos).Ok? && Primitive(data, pos).value.Some? ==>
              ParseValue(data, pos, budget) == Ok(Primitive(data, pos).value.value)
  {
    hide ParseArray, ParseAnnotation;
  }

  lemma {:induction false} ParsePrintedPrimitive(v: EncodedValue, ws: seq<nat>, data: seq<byte>, pos: nat)
    requires !v.Array? && !v.Annotation? && Admissible(v, ws)
    requires HasAt(data, pos, Print(v, ws))
    ensures Primitive(data, pos) == Ok(Some(Read(v, pos + |Print(v, ws)|)))
  {
    hide PayloadBytes, Payload, HasAt;
    FirstByte(data, pos, Print(v, ws));
    if v.Scalar? {
      ParsePrintedScalar(v.kind, v.value, ws[0], data, pos);
    }
  }

  lemma ParsePrintedScalar(k: Kind, x: int, w: nat, data: seq<byte>, pos: nat)
    requires Fits(k, x, w) && HasAt(data, pos, Print(Scalar(k, x), [w]))
    ensures Primitive(data, pos) == Ok(Some(Read(Scalar(k, x), pos + |Print(Scalar(k, x), [w])|)))
  {
    hide PayloadBytes, Payload, Fits;
    var printed := Print(Scalar(k, x), [w]);
    PayloadRoundTrip(k, x, w);
    assert data[pos] == printed[0];
    HeaderSplits(k, x, w);
    HasAtSplit(data, pos, [printed[0]], PayloadBytes(k, x, w));
  }

  lemma HeaderSplits(k: Kind, x: int, w: nat)
    requires Fits(k, x, w)
    ensures var h := Print(Scalar(k, x), [w])[0]; h % 32 == Tag(k) && h / 32 + 1 == w <= MaxSize(k)
    ensures KindOf(Tag(k)) == Some(k)
  {
    hide PayloadBytes;
  }

  lemma {:induction false} ParsePrintedArray(vs: seq<EncodedValue>, ws: seq<nat>, data: seq<byte>, pos: nat,
                                             budget: nat)
    requires |vs| <= U32_MAX && AdmissibleAll(vs, ws) && HeightAll(vs) <= budget
    requires HasAt(data, pos, EncodeUleb(|vs|) + PrintAll(vs, ws))
    ensures ParseArray(data, pos, budget) == Ok(Read(Array(vs), pos + |EncodeUleb(|vs|)| + |PrintAll(vs, ws)|))
    decreases vs, 1
  {
    hide Uleb, EncodeUleb, HasAt, PrintAll, ParseValues, HeightAll, AdmissibleAll;
    HasAtSplit(data, pos, EncodeUleb(|vs|), PrintAll(vs, ws));
    UlebRoundTrip(|vs|, data, pos);
    ParsePrintedValues(vs, ws, data, pos + |EncodeUleb(|vs|)|, budget);
  }

  lemma {:induction false} ParsePrintedAnnotation(ty: nat, es: Elements, ws: seq<nat>, data: seq<byte>, pos: nat,
                                                  budget: nat)
    requires ty <= U32_MAX && Count(es) <= U32_MAX && AdmissibleElements(es, ws) && HeightElements(es) <= budget
    requires HasAt(data, pos, EncodeUleb(ty) + (EncodeUleb(Count(es)) + PrintElements(es, ws)))
    ensures ParseAnnotation(data, pos, budget) ==
            Ok(Read(Annotation(ty, es),
                    pos + |EncodeUleb(ty)| + |EncodeUleb(Count(es))| + |PrintElements(es, ws)|))
    decreases es, 1
  {
    hide Uleb, EncodeUleb, HasAt, PrintElements, ParseElements, HeightElements, AdmissibleElements;
    var p2 := pos + |EncodeUleb(ty)|;
    HasAtSplit(data, pos, EncodeUleb(ty), EncodeUleb(Count(es)) + PrintElements(es, ws));
    HasAtSplit(data, p2, EncodeUleb(Count(es)), PrintElements(es, ws));
    UlebRoundTrip(ty, data, pos);
    UlebRoundTrip(Count(es), data, p2);
    ParsePrintedElements(es, ws, data, p2 + |EncodeUleb(Count(es))|, budget);
  }

  lemma {:induction false} ParsePrintedValues(vs: seq<EncodedValue>, ws: seq<nat>, data: seq<byte>, pos: nat,
                                              budget: nat)
    requires AdmissibleAll(vs, ws) && HeightAll(vs) <= budget
    requires HasAt(data, pos, PrintAll(vs, ws))
    ensures ParseValues(data, pos, |vs|, budget) == Ok(Read(vs, pos + |PrintAll(vs, ws)|))
    decreases vs, 0
  {
    hide HasAt, Print, ParseValue, Height, Admissible;
    if vs != [] {
      var k := ScalarCount(vs[0]);
      var first := Print(vs[0], ws[..k]);
      HasAtSplit(data, pos, first, PrintAll(vs[1..], ws[k..]));
      ParsePrinted(vs[0], ws[..k], data, pos, budget);
      ParsePrintedValues(vs[1..], ws[k..], data, pos + |first|, budget);
      assert [vs[0]] + vs[1..] == vs;
    }
  }

  lemma {:induction false} ParsePrintedElements(es: Elements, ws: seq<nat>, data: seq<byte>, pos: nat, budget: nat)
    requires AdmissibleElements(es, ws) && HeightElements(es) <= budget
    requires HasAt(data, pos, PrintElements(es, ws))
    ensures ParseElements(data, pos, Count(es), budget) == Ok(Read(es, pos + |PrintElements(es, ws)|))
    decreases es, 0
  {
    hide Uleb, EncodeUleb, HasAt, Print, ParseValue, Height, Admissible, ScalarCount;
    match es
    case NoElements =>
    case Element(name, v, rest) =>
      var k := ScalarCount(v);
      var first, second := EncodeUleb(name), Print(v, ws[..k]);
      HasAtSplit(data, pos, first, second + PrintElements(rest, ws[k..]));
      HasAtSplit(data, pos + |first|, second, PrintElements(rest, ws[k..]));
      UlebRoundTrip(name, data, pos);
      ParsePrinted(v, ws[..k], data, pos + |first|, budget);
      ParsePrintedElements(rest, ws[k..], data, pos + |first| + |second|, budget);
  }

  // ----- locality -----

  /** A value is read from its own bytes alone: the same bytes elsewhere read the same. */
  lemma {:induction false} ValueLocal(data: seq<byte>, pos: nat, budget: nat, copy: seq<byte>, at: nat)
    requires ParseValue(data, pos, budget).Ok?
    requires HasAt(copy, at, data[pos..ParseValue(data, pos, budget).value.next])
    ensures var v := ParseValue(data, pos, budget).value;
            ParseValue(copy, at, budget) == Ok(Read(v.value, at + (v.next - pos)))
    decreases Left(data, pos), 1
  {
    hide ParseArray, ParseAnnotation, Uleb;
    var next := ParseValue(data, pos, budget).value.next;
    assert copy[at] == copy[at..at + (next - pos)][0] == data[pos];
    if Primitive(data, pos) == Ok(None) {
      HasAtSub(copy, at, data, pos, next, pos + 1, next);
      if data[pos] % 32 == TAG_ARRAY {
        ArrayLocal(data, pos + 1, budget - 1, copy, at + 1);
      } else {
        AnnotationLocal(data, pos + 1, budget - 1, copy, at + 1);
      }
    } else {
      PrimitiveLocal(data, pos, copy, at);
    }
  }

  lemma {:induction false} PrimitiveLocal(data: seq<byte>, pos: nat, copy: seq<byte>, at: nat)
    requires Primitive(data, pos).Ok? && Primitive(data, pos).value.Some?
    requires HasAt(copy, at, data[pos..Primitive(data, pos).value.value.next])
    ensures var v := Primitive(data, pos).value.value;
            Primitive(copy, at) == Ok(Some(Read(v.value, at + (v.next - pos))))
  {
    hide Payload;
    var next := Primitive(data, pos).value.value.next;
    assert copy[at] == copy[at..at + (next - pos)][0] == data[pos];
    assert copy[at + 1..at + (next - pos)] == copy[at..at + (next - pos)][1..];
    assert data[pos + 1..next] == data[pos..next][1..];
  }

  lemma {:induction false} ArrayLocal(data: seq<byte>, pos: nat, budget: nat, copy: seq<byte>, at: nat)
    requires ParseArray(data, pos, budget).Ok?
    requires HasAt(copy, at, data[pos..ParseArray(data, pos, budget).value.next])
    ensures var v := ParseArray(data, pos, budget).value;
            ParseArray(copy, at, budget) == Ok(Read(v.value, at + (v.next - pos)))
    decreases Left(data, pos), 0
  {
    hide Uleb, HasAt, ParseValues;
    var next := ParseArray(data, pos, budget).value.next;
    var size := Uleb(data, pos).value;
    HasAtSub(copy, at, data, pos, next, pos, size.next);
    HasAtSub(copy, at, data, pos, next, size.next, next);
    UlebLocal(data, pos, copy, at);
    ValuesLocal(data, size.next, size.value, budget, copy, at + (size.next - pos));
  }

  lemma {:induction false} AnnotationLocal(data: seq<byte>, pos: nat, budget: nat, copy: seq<byte>, at: nat)
    requires ParseAnnotation(data, pos, budget).Ok?
    requires HasAt(copy, at, data[pos..ParseAnnotation(data, pos, budget).value.next])
    ensures var v := ParseAnnotation(data, pos, budget).value;
            ParseAnnotation(copy, at, budget) == Ok(Read(v.value, at + (v.next - pos)))
    decreases Left(data, pos), 0
  {
    hide Uleb, HasAt, ParseElements;
    var next := ParseAnnotation(data, pos, budget).value.next;
    var ty := Uleb(data, pos).value;
    var size := Uleb(data, ty.next).value;
    HasAtSub(copy, at, data, pos, next, pos, ty.next);
    HasAtSub(copy, at, data, pos, next, ty.next, size.next);
    HasAtSub(copy, at, data, pos, next, size.next, next);
    UlebLocal(data, pos, copy, at);
    UlebLocal(data, ty.next, copy, at + (ty.next - pos));
    ElementsLocal(data, size.next, size.value, budget, copy, at + (size.next - pos));
  }

  lemma {:induction false} ValuesLocal(data: seq<byte>, pos: nat, n: nat, budget: nat, copy: seq<byte>, at: nat)
    requires pos <= |data| && ParseValues(data, pos, n, budget).Ok?
    requires HasAt(copy, at, data[pos..ParseValues(data, pos, n, budget).value.next])
    ensures var vs := ParseValues(data, pos, n, budget).value;
            ParseValues(copy, at, n, budget) == Ok(Read(vs.value, at + (vs.next - pos)))
    decreases Left(data, pos), 2
  {
    hide HasAt, ParseValue;
    if n > 0 {
      var next := ParseValues(data, pos, n, budget).value.next;
      var v := ParseValue(data, pos, budget).value;
      HasAtSub(copy, at, data, pos, next, pos, v.next);
      HasAtSub(copy, at, data, pos, next, v.next, next);
      ValueLocal(data, pos, budget, copy, at);
      ValuesLocal(data, v.next, n - 1, budget, copy, at + (v.next - pos));
    }
  }

  lemma {:induction false} ElementsLocal(data: seq<byte>, pos: nat, n: nat, budget: nat, copy: seq<byte>, at: nat)
    requires pos <= |data| && ParseElements(data, pos, n, budget).Ok?
    requires HasAt(copy, at, data[pos..ParseElements(data, pos, n, budget).value.next])
    ensures var es := ParseElements(data, pos, n, budget).value;
            ParseElements(copy, at, n, budget) == Ok(Read(es.value, at + (es.next - pos)))
    decreases Left(data, pos), 2
  {
    hide Uleb, HasAt, ParseValue;
    if n > 0 {
      var next := ParseElements(data, pos, n, budget).value.next;
      var name := Uleb(data, pos).value;
      var v := ParseValue(data, name.next, budget).value;
      HasAtSub(copy, at, data, pos, next, pos, name.next);
      HasAtSub(copy, at, data, pos, next, name.next, v.next);
      HasAtSub(copy, at, data, pos, next, v.next, next);
      UlebLocal(data, pos, copy, at);
      ValueLocal(data, name.next, budget, copy, at + (name.next - pos));
      ElementsLocal(data, v.next, n - 1, budget, copy, at + (v.next - pos));
    }
  }
}
