/**
 What the `encoded_value` pieces promise together, stated of the values the
 iterative parser returns.
 */
module AnnotationTheorems {
  import opened Basics
  import opened Leb128
  import opened EncodedValues
  import opened ValueGrammar
  import opened CollectorStack
  import opened ValuePrinter
  import opened WidthWalker

  /** The result of `ParseEncodedValue`, with its end position. */
  function ParserResult(data: seq<byte>, pos: nat): Result<Read<EncodedValue>> {
    Normalized(ParseValue(data, pos, PARSE_STACK_FRAME_CAP))
  }

  /**
   Print any tree, with any admissible widths, anywhere in a file: the parser
   returns the tree with its annotations as ordered maps, hence the tree itself
   exactly when its names ascend; it refuses exactly trees too deep for its stack.
   */
  lemma RoundTrip(v: EncodedValue, ws: seq<nat>, before: seq<byte>, after: seq<byte>)
    requires Admissible(v, ws)
    ensures var data := before + Print(v, ws) + after;
            var r := ParserResult(data, |before|);
            if Height(v) <= PARSE_STACK_FRAME_CAP then
              && r == Ok(Read(Normalize(v), |before| + |Print(v, ws)|))
              && (r.value.value == v <==> Ascending(v))
            else r == Err(WorkStackExhausted)
  {
    hide ParseValue, Print, Height, Normalize, Ascending, Nesting, Admissible;
    var data := before + Print(v, ws) + after;
    var pos := |before|;
    assert HasAt(data, pos, Print(v, ws));
    NormalizeIsIdentity(v);
    if Height(v) <= PARSE_STACK_FRAME_CAP {
      ParsePrinted(v, ws, data, pos, PARSE_STACK_FRAME_CAP);
    } else {
      ParsePrinted(v, ws, data, pos, Height(v));
      BudgetExact(data, pos, Height(v));
      NestingIsHeight(data, pos);
      StackLimit(data, pos);
    }
  }

  /** Parsing exactly the bytes a value took, on their own, gives the same value: no file-wide count cap intervenes. */
  lemma ParserIsLocal(data: seq<byte>, pos: nat)
    requires ParserResult(data, pos).Ok?
    ensures var r := ParserResult(data, pos).value;
            ParserResult(data[pos..r.next], 0) == Ok(Read(r.value, r.next - pos))
  {
    hide ParseValue, Normalize;
    var next := ParserResult(data, pos).value.next;
    ValueLocal(data, pos, PARSE_STACK_FRAME_CAP, data[pos..next], 0);
  }

  /** Walking the parsed value and printing it with the widths found gives back the bytes it was parsed from. */
  predicate Restores(data: seq<byte>, pos: nat, r: Read<EncodedValue>) {
    var w := Walk(data, pos, r.value);
    && pos <= r.next <= |data|
    && w.Ok? && Admissible(r.value, w.value.value) && data[pos..r.next] == Print(r.value, w.value.value)
  }

  /**
   The parsed value and its walked widths restore the bytes if and only if every annotation on disk lists
   its names in ascending order and the encoding is canonical. The walk ends where the parser ended, with one
   width per scalar, already when the ordered maps leave the shape of the tree as it is on disk; with
   ascending names every width fits its value.
   */
  lemma WidthsOfParsedValue(data: seq<byte>, pos: nat)
    requires ParseValue(data, pos, PARSE_STACK_FRAME_CAP).Ok?
    ensures var v := ParseValue(data, pos, PARSE_STACK_FRAME_CAP).value.value;
            var r := ParserResult(data, pos).value;
            var w := Walk(data, pos, r.value);
            && (Restores(data, pos, r) <==> Ascending(v) && Canonical(data, pos, v))
            && (SameShape(v, r.value) ==> w.Ok? && w.value.next == r.next && |w.value.value| == ScalarCount(r.value))
            && (Ascending(v) ==> WalksTo(r.value, w, r.next))
  {
    hide ParseValue, Walk, Normalize, Ascending, Canonical, Print, Admissible, ScalarCount, SameShape;
    var p := ParseValue(data, pos, PARSE_STACK_FRAME_CAP).value;
    var r := ParserResult(data, pos).value;
    WalkFollowsParser(data, pos, PARSE_STACK_FRAME_CAP);
    if SameShape(p.value, r.value) {
      WalkSeesShape(data, pos, p.value, r.value);
    }
    NormalizeIsIdentity(p.value);
    if Ascending(p.value) {
      ReprintExact(data, pos, PARSE_STACK_FRAME_CAP);
      PrintedEnds(data, pos, PARSE_STACK_FRAME_CAP, Walk(data, pos, p.value).value.value);
    } else if Restores(data, pos, r) {
      RestoredIsAscending(data, pos);
    }
  }

  /** Bytes that are a printing of the parsed value hold its names in the order of the map. */
  lemma RestoredIsAscending(data: seq<byte>, pos: nat)
    requires ParseValue(data, pos, PARSE_STACK_FRAME_CAP).Ok? && Restores(data, pos, ParserResult(data, pos).value)
    ensures Ascending(ParseValue(data, pos, PARSE_STACK_FRAME_CAP).value.value)
  {
    hide ParseValue, Walk, Normalize, Ascending, Print, Admissible, Height;
    var p := ParseValue(data, pos, PARSE_STACK_FRAME_CAP).value;
    var v := ParserResult(data, pos).value.value;
    var ws := Walk(data, pos, v).value.value;
    var budget := if Height(v) <= PARSE_STACK_FRAME_CAP then PARSE_STACK_FRAME_CAP else Height(v);
    ParsePrinted(v, ws, data, pos, budget);
    BudgetExact(data, pos, budget);
    BudgetExact(data, pos, PARSE_STACK_FRAME_CAP);
    NormalizeIsIdentity(p.value);
  }

  const REPEATED_NAME: seq<byte> := [0x1d, 0, 2, 5, 0x00, 7, 5, 0x00, 8]

  /** Without ascending names the walk can lose its place: an element name stored twice is visited once. */
  lemma WalkLosesRepeatedName()
    ensures var r := ParserResult(REPEATED_NAME, 0);
            && r == Ok(Read(Annotation(0, Element(5, Scalar(Byte, 8), NoElements)), 9))
            && Walk(REPEATED_NAME, 0, r.value.value) == Ok(Read([1], 6))
  {
    RepeatedNameParses();
    RepeatedNameWalks();
  }

  lemma RepeatedNameParses()
    ensures ParserResult(REPEATED_NAME, 0) == Ok(Read(Annotation(0, Element(5, Scalar(Byte, 8), NoElements)), 9))
  {
    var d, b := REPEATED_NAME, PARSE_STACK_FRAME_CAP;
    var last := Element(5, Scalar(Byte, 8), NoElements);
    var both := Element(5, Scalar(Byte, 7), last);
    RepeatedNameItems();
    hide Uleb, Primitive;
    assert ParseElements(d, 9, 0, b - 1) == Ok(Read(NoElements, 9));
    assert ParseElements(d, 6, 1, b - 1) == Ok(Read(last, 9));
    assert ParseElements(d, 3, 2, b - 1) == Ok(Read(both, 9));
    assert ParseAnnotation(d, 1, b - 1) == Ok(Read(Annotation(0, both), 9));
    assert ParseValue(d, 0, b) == ParseAnnotation(d, 1, b - 1);
    assert InsertAll(Element(5, Scalar(Byte, 7), NoElements), last) == last;
    assert NormalizeElements(last) == last;
  }

  lemma RepeatedNameWalks()
    ensures Walk(REPEATED_NAME, 0, Annotation(0, Element(5, Scalar(Byte, 8), NoElements))) == Ok(Read([1], 6))
  {
    var d := REPEATED_NAME;
    RepeatedNameItems();
    hide Uleb;
    assert Walk(d, 4, Scalar(Byte, 8)) == Ok(Read([1], 6));
    assert [1] + [] == [1];
    assert WalkElements(d, 3, Element(5, Scalar(Byte, 8), NoElements)) == Ok(Read([1], 6));
  }

  lemma RepeatedNameItems()
    ensures var d := REPEATED_NAME;
            && Primitive(d, 0) == Ok(None)
            && Uleb(d, 1) == Ok(Read(0, 2)) && Uleb(d, 2) == Ok(Read(2, 3))
            && Uleb(d, 3) == Ok(Read(5, 4)) && Uleb(d, 6) == Ok(Read(5, 7))
            && Primitive(d, 4) == Ok(Some(Read(Scalar(Byte, 7), 6)))
            && Primitive(d, 7) == Ok(Some(Read(Scalar(Byte, 8), 9)))
  {
    hide Uleb, Primitive;
    var d := REPEATED_NAME;
    SmallUleb(d, 1);
    SmallUleb(d, 2);
    SmallUleb(d, 3);
    SmallUleb(d, 6);
    SmallByte(d, 4);
    SmallByte(d, 7);
    CompositeHeader(d, 0);
  }

  lemma CompositeHeader(data: seq<byte>, pos: nat)
    requires pos < |data| && data[pos] == TAG_ANNOTATION
    ensures Primitive(data, pos) == Ok(None)
  {
    hide Payload;
  }

  lemma SmallByte(data: seq<byte>, pos: nat)
    requires pos + 1 < |data| && data[pos] == 0 && data[pos + 1] < 128
    ensures Primitive(data, pos) == Ok(Some(Read(Scalar(Byte, data[pos + 1]), pos + 2)))
  {
    var bs := data[pos + 1..pos + 2];
    assert bs[1..] == [];
    assert LittleEndian(bs) == data[pos + 1];
  }

  // ----- array items -----

  /** Bytes after the header of each printed element, as one byte that stops at 255. */
  function PrintedWidths(vs: seq<EncodedValue>, ws: seq<nat>): (widths: seq<byte>)
    requires AdmissibleAll(vs, ws)
    ensures |widths| == |vs|
  {
    if vs == [] then []
    else
      var k := ScalarCount(vs[0]);
      var n := |Print(vs[0], ws[..k])| - 1;
      [if n < 256 then n else 255] + PrintedWidths(vs[1..], ws[k..])
  }

  lemma {:induction false} ItemsPrinted(vs: seq<EncodedValue>, ws: seq<nat>, data: seq<byte>, pos: nat)
    requires AdmissibleAll(vs, ws) && HeightAll(vs) <= PARSE_STACK_FRAME_CAP && HasAt(data, pos, PrintAll(vs, ws))
    ensures ItemsFrom(data, pos, |vs|) == Ok(Items(NormalizeAll(vs), PrintedWidths(vs, ws)))
    decreases |vs|
  {
    hide HasAt, Print, Height, Normalize, Admissible, ScalarCount, ParseValue;
    if vs != [] {
      var k := ScalarCount(vs[0]);
      var first := Print(vs[0], ws[..k]);
      HasAtSplit(data, pos, first, PrintAll(vs[1..], ws[k..]));
      ParsePrinted(vs[0], ws[..k], data, pos, PARSE_STACK_FRAME_CAP);
      ItemsPrinted(vs[1..], ws[k..], data, pos + |first|);
    }
  }

  lemma {:induction false} PrintedTakesBytes(vs: seq<EncodedValue>, ws: seq<nat>)
    requires AdmissibleAll(vs, ws)
    ensures |vs| <= |PrintAll(vs, ws)|
  {
    hide Print;
  }

  /** A printed array item is read back: its values as maps, and for each the number of bytes after its header. */
  lemma ArrayItemRoundTrip(vs: seq<EncodedValue>, ws: seq<nat>, data: seq<byte>, offset: nat)
    requires |vs| <= U32_MAX && AdmissibleAll(vs, ws) && HeightAll(vs) <= PARSE_STACK_FRAME_CAP
    requires HasAt(data, offset, EncodeUleb(|vs|) + PrintAll(vs, ws))
    ensures ArrayItem(data, offset) == Ok(Items(NormalizeAll(vs), PrintedWidths(vs, ws)))
  {
    hide HasAt, EncodeUleb, Uleb, PrintAll, AdmissibleAll, HeightAll, ItemsFrom, PrintedWidths, NormalizeAll;
    var n := EncodeUleb(|vs|);
    HasAtSplit(data, offset, n, PrintAll(vs, ws));
    UlebRoundTrip(|vs|, data, offset);
    ItemsPrinted(vs, ws, data, offset + |n|);
    PrintedTakesBytes(vs, ws);
    HasAtFits(data, offset + |n|, PrintAll(vs, ws));
    BoundIsCapacity(|vs|, 1, |data|);
  }

  /** For an array of scalars these are the widths it was written with. */
  lemma {:induction false} ScalarWidths(vs: seq<EncodedValue>, ws: seq<nat>)
    requires AdmissibleAll(vs, ws) && forall i :: 0 <= i < |vs| ==> vs[i].Scalar?
    ensures |ws| == |vs| && forall i :: 0 <= i < |vs| ==> PrintedWidths(vs, ws)[i] == ws[i]
    decreases |vs|
  {
    if vs != [] {
      ScalarWidths(vs[1..], ws[1..]);
      assert |Print(vs[0], ws[..1])| == 1 + ws[0];
    }
  }
}
