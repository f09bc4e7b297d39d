/**
 `class_data_item` (src/decode.rs): four delta-coded member lists. Parsing is
 local to the bytes consumed and inverts the delta-coded layout.
 */
module ClassData {
  import opened Basics
  import opened Leb128

  datatype Scope = Field | Method {
    /** Bytes a member takes at least. */
    function MinSize(): nat {
      if Field? then 2 else 3
    }

    /** The access-flag bits the scope allows. */
    function Mask(): nat {
      if Field? then 0x0000_50DF else 0x0003_1DFF
    }
  }

  datatype Member =
    | EncodedField(idx: nat, accessFlags: nat)
    | EncodedMethod(idx: nat, accessFlags: nat, codeOff: nat)

  datatype ClassData = ClassData(
    staticFields: seq<Member>,
    instanceFields: seq<Member>,
    directMethods: seq<Member>,
    virtualMethods: seq<Member>)

  /** Every bit of `raw` is a bit of `mask`. */
  predicate Within(raw: nat, mask: nat) {
    raw == 0 || (raw % 2 <= mask % 2 && Within(raw / 2, mask / 2))
  }

  function Validate(raw: nat, scope: Scope): Result<nat> {
    if Within(raw, scope.Mask()) then Ok(raw) else Err(InvalidAccessFlags(raw))
  }

  /** The member at `pos`, whose index is coded as the distance from `prev`. */
  function MemberAt(data: seq<byte>, pos: nat, prev: nat, scope: Scope, itemOff: nat): (r: Result<Read<Member>>)
    ensures r.Ok? ==> pos + scope.MinSize() <= r.value.next <= |data| && prev <= r.value.value.idx
    ensures r.Ok? ==> WellFormed(r.value.value, scope)
  {
    var diff :- Uleb(data, pos);
    if prev + diff.value > U32_MAX then Err(InvalidInstruction(itemOff))
    else
      var raw :- Uleb(data, diff.next);
      var flags :- Validate(raw.value, scope);
      if scope.Field? then Ok(Read(EncodedField(prev + diff.value, flags), raw.next))
      else
        var codeOff :- Uleb(data, raw.next);
        Ok(Read(EncodedMethod(prev + diff.value, flags, codeOff.value), codeOff.next))
  }

  predicate WellFormed(m: Member, scope: Scope) {
    && m.idx <= U32_MAX && m.accessFlags <= U32_MAX && Within(m.accessFlags, scope.Mask())
    && (scope.Field? <==> m.EncodedField?) && (m.EncodedMethod? ==> m.codeOff <= U32_MAX)
  }

  function LastIdx(ms: seq<Member>): nat {
    if ms == [] then 0 else ms[|ms| - 1].idx
  }

  function Members(data: seq<byte>, pos: nat, n: nat, scope: Scope, itemOff: nat): (r: Result<Read<seq<Member>>>)
    ensures r.Ok? ==> pos + 2 * n <= r.value.next && (scope.Method? ==> pos + 3 * n <= r.value.next)
    ensures r.Ok? ==> |r.value.value| == n
    ensures r.Ok? ==> (n > 0 ==> r.value.next <= |data|) && (n == 0 ==> r.value.next == pos)
  {
    if n == 0 then Ok(Read([], pos))
    else
      var init :- Members(data, pos, n - 1, scope, itemOff);
      var m :- MemberAt(data, init.next, LastIdx(init.value), scope, itemOff);
      Ok(Read(init.value + [m.value], m.next))
  }

  datatype Sizes = Sizes(staticFields: nat, instanceFields: nat, directMethods: nat, virtualMethods: nat)

  function ReadSizes(data: seq<byte>, off: nat): (r: Result<Read<Sizes>>)
    ensures r.Ok? ==> off < r.value.next <= |data|
  {
    var a :- Uleb(data, off);
    var b :- Uleb(data, a.next);
    var c :- Uleb(data, b.next);
    var d :- Uleb(data, c.next);
    Ok(Read(Sizes(a.value, b.value, c.value, d.value), d.next))
  }

  function BoundSizes(s: Sizes, dataLen: nat): Result<Sizes> {
    var a :- BoundCount(s.staticFields, Field.MinSize(), dataLen);
    var b :- BoundCount(s.instanceFields, Field.MinSize(), dataLen);
    var c :- BoundCount(s.directMethods, Method.MinSize(), dataLen);
    var d :- BoundCount(s.virtualMethods, Method.MinSize(), dataLen);
    Ok(s)
  }

  function Lists(data: seq<byte>, pos: nat, s: Sizes, itemOff: nat): (r: Result<Read<ClassData>>)
    ensures r.Ok? && pos <= |data| ==> pos <= r.value.next <= |data|
  {
    var a :- Members(data, pos, s.staticFields, Field, itemOff);
    var b :- Members(data, a.next, s.instanceFields, Field, itemOff);
    var c :- Members(data, b.next, s.directMethods, Method, itemOff);
    var d :- Members(data, c.next, s.virtualMethods, Method, itemOff);
    Ok(Read(ClassData(a.value, b.value, c.value, d.value), d.next))
  }

  /** The class data at `off` and the position after it: `parse_class_data_with_consumed`. */
  function Parse(data: seq<byte>, off: nat): (r: Result<Read<ClassData>>)
    ensures r.Ok? ==> off < r.value.next <= |data|
  {
    var sizes :- ReadSizes(data, off);
    var s :- BoundSizes(sizes.value, |data|);
    Lists(data, sizes.next, s, off)
  }

  // ----- the parser -----

  lemma {:induction false} MembersFail(data: seq<byte>, pos: nat, i: nat, n: nat, scope: Scope, itemOff: nat)
    requires i < n && Members(data, pos, i + 1, scope, itemOff).Err?
    ensures Members(data, pos, n, scope, itemOff) == Members(data, pos, i + 1, scope, itemOff)
    decreases n
  {
    hide MemberAt;
    if i + 1 < n {
      MembersFail(data, pos, i, n - 1, scope, itemOff);
    }
  }

  method ReadMember(data: seq<byte>, pos: nat, prev: nat, scope: Scope, itemOff: nat) returns (r: Result<Read<Member>>)
    ensures r == MemberAt(data, pos, prev, scope, itemOff)
  {
    hide Uleb, Within;
    var diff :- ReadUleb128(data, pos);
    if prev + diff.value > U32_MAX {
      return Err(InvalidInstruction(itemOff));
    }
    var raw :- ReadUleb128(data, diff.next);
    var flags :- Validate(raw.value, scope);
    if scope == Field {
      return Ok(Read(EncodedField(prev + diff.value, flags), raw.next));
    }
    var codeOff :- ReadUleb128(data, raw.next);
    return Ok(Read(EncodedMethod(prev + diff.value, flags, codeOff.value), codeOff.next));
  }

  /** One list: the index accumulator starts again at zero. */
  method ReadMembers(data: seq<byte>, start: nat, n: nat, scope: Scope, itemOff: nat)
    returns (r: Result<Read<seq<Member>>>)
    ensures r == Members(data, start, n, scope, itemOff)
  {
    hide MemberAt;
    var members: seq<Member>, pos, acc := [], start, 0;
    for i := 0 to n
      invariant Members(data, start, i, scope, itemOff) == Ok(Read(members, pos)) && acc == LastIdx(members)
    {
      var m := ReadMember(data, pos, acc, scope, itemOff);
      if m.Err? {
        MembersFail(data, start, i, n, scope, itemOff);
        return Err(m.error);
      }
      members, pos, acc := members + [m.value.value], m.value.next, m.value.value.idx;
    }
    return Ok(Read(members, pos));
  }

  /** The class data and the number of bytes it takes. */
  function WithConsumed(data: seq<byte>, off: nat): Result<(ClassData, nat)> {
    var x :- Parse(data, off);
    Ok((x.value, x.next - off))
  }

  method ParseClassData(data: seq<byte>, off: nat) returns (r: Result<(ClassData, nat)>)
    ensures r == WithConsumed(data, off)
  {
    hide Uleb, Members;
    var a :- ReadUleb128(data, off);
    var b :- ReadUleb128(data, a.next);
    var c :- ReadUleb128(data, b.next);
    var d :- ReadUleb128(data, c.next);
    var s :- BoundSizes(Sizes(a.value, b.value, c.value, d.value), |data|);
    var sf :- ReadMembers(data, d.next, s.staticFields, Field, off);
    var inf :- ReadMembers(data, sf.next, s.instanceFields, Field, off);
    var dm :- ReadMembers(data, inf.next, s.directMethods, Method, off);
    var vm :- ReadMembers(data, dm.next, s.virtualMethods, Method, off);
    return Ok((ClassData(sf.value, inf.value, dm.value, vm.value), vm.next - off));
  }

  // ----- locality -----

  lemma MemberLocal(data: seq<byte>, pos: nat, prev: nat, scope: Scope, itemOff: nat, copy: seq<byte>, at: nat,
                    itemOff': nat)
    requires MemberAt(data, pos, prev, scope, itemOff).Ok?
    requires HasAt(copy, at, data[pos..MemberAt(data, pos, prev, scope, itemOff).value.next])
    ensures var m := MemberAt(data, pos, prev, scope, itemOff).value;
            MemberAt(copy, at, prev, scope, itemOff') == Ok(Read(m.value, at + (m.next - pos)))
  {
    hide Uleb, HasAt, Within;
    var end := MemberAt(data, pos, prev, scope, itemOff).value.next;
    var p1 := Uleb(data, pos).value.next;
    var p2 := Uleb(data, p1).value.next;
    HasAtSub(copy, at, data, pos, end, pos, p1);
    UlebLocal(data, pos, copy, at);
    HasAtSub(copy, at, data, pos, end, p1, p2);
    UlebLocal(data, p1, copy, at + (p1 - pos));
    if scope == Method {
      HasAtSub(copy, at, data, pos, end, p2, end);
      UlebLocal(data, p2, copy, at + (p2 - pos));
    }
  }

  lemma {:induction false} MembersLocal(data: seq<byte>, pos: nat, n: nat, scope: Scope, itemOff: nat, copy: seq<byte>,
                                        at: nat, itemOff': nat)
    requires pos <= |data| && Members(data, pos, n, scope, itemOff).Ok?
    requires HasAt(copy, at, data[pos..Members(data, pos, n, scope, itemOff).value.next])
    ensures var ms := Members(data, pos, n, scope, itemOff).value;
            Members(copy, at, n, scope, itemOff') == Ok(Read(ms.value, at + (ms.next - pos)))
    decreases n
  {
    hide MemberAt, HasAt;
    if n > 0 {
      var mid := Members(data, pos, n - 1, scope, itemOff).value;
      var end := Members(data, pos, n, scope, itemOff).value.next;
      HasAtSub(copy, at, data, pos, end, pos, mid.next);
      MembersLocal(data, pos, n - 1, scope, itemOff, copy, at, itemOff');
      HasAtSub(copy, at, data, pos, end, mid.next, end);
      MemberLocal(data, mid.next, LastIdx(mid.value), scope, itemOff, copy, at + (mid.next - pos), itemOff');
    }
  }

  lemma SizesLocal(data: seq<byte>, off: nat, copy: seq<byte>, at: nat)
    requires ReadSizes(data, off).Ok?
    requires HasAt(copy, at, data[off..ReadSizes(data, off).value.next])
    ensures ReadSizes(copy, at) ==
        Ok(Read(ReadSizes(data, off).value.value, at + (ReadSizes(data, off).value.next - off)))
  {
    hide Uleb, HasAt;
    var a := Uleb(data, off).value.next;
    var b := Uleb(data, a).value.next;
    var c := Uleb(data, b).value.next;
    var d := Uleb(data, c).value.next;
    HasAtSub(copy, at, data, off, d, off, a);
    UlebLocal(data, off, copy, at);
    HasAtSub(copy, at, data, off, d, a, b);
    UlebLocal(data, a, copy, at + (a - off));
    HasAtSub(copy, at, data, off, d, b, c);
    UlebLocal(data, b, copy, at + (b - off));
    HasAtSub(copy, at, data, off, d, c, d);
    UlebLocal(data, c, copy, at + (c - off));
  }

  lemma ListsLocal(data: seq<byte>, pos: nat, s: Sizes, itemOff: nat, copy: seq<byte>, at: nat, itemOff': nat)
    requires pos <= |data| && Lists(data, pos, s, itemOff).Ok?
    requires HasAt(copy, at, data[pos..Lists(data, pos, s, itemOff).value.next])
    ensures var x := Lists(data, pos, s, itemOff).value;
            && Lists(copy, at, s, itemOff') == Ok(Read(x.value, at + (x.next - pos)))
            && BoundSizes(s, x.next - pos) == Ok(s)
  {
    hide Members, HasAt, BoundSizes;
    var end := Lists(data, pos, s, itemOff).value.next;
    var a := Members(data, pos, s.staticFields, Field, itemOff).value.next;
    var b := Members(data, a, s.instanceFields, Field, itemOff).value.next;
    var c := Members(data, b, s.directMethods, Method, itemOff).value.next;
    HasAtSub(copy, at, data, pos, end, pos, a);
    MembersLocal(data, pos, s.staticFields, Field, itemOff, copy, at, itemOff');
    HasAtSub(copy, at, data, pos, end, a, b);
    MembersLocal(data, a, s.instanceFields, Field, itemOff, copy, at + (a - pos), itemOff');
    HasAtSub(copy, at, data, pos, end, b, c);
    MembersLocal(data, b, s.directMethods, Method, itemOff, copy, at + (b - pos), itemOff');
    HasAtSub(copy, at, data, pos, end, c, end);
    MembersLocal(data, c, s.virtualMethods, Method, itemOff, copy, at + (c - pos), itemOff');
    SizesFit(s, end - pos);
  }

  /** The consumed bytes alone parse to the same class data: the count caps never reject the shorter slice. */
  lemma ClassDataIsLocal(data: seq<byte>, off: nat)
    requires Parse(data, off).Ok?
    ensures var x := Parse(data, off).value;
            Parse(data[off..x.next], 0) == Ok(Read(x.value, x.next - off))
  {
    hide ReadSizes, Lists, BoundSizes;
    var x := Parse(data, off).value;
    var sizes := ReadSizes(data, off).value;
    var slice := data[off..x.next];
    assert HasAt(slice, 0, data[off..x.next]);
    SizesBounded(sizes.value, |data|);
    HasAtSub(slice, 0, data, off, x.next, off, sizes.next);
    SizesLocal(data, off, slice, 0);
    HasAtSub(slice, 0, data, off, x.next, sizes.next, x.next);
    ListsLocal(data, sizes.next, sizes.value, off, slice, sizes.next - off, 0);
    BoundGrows(sizes.value, x.next - sizes.next, |slice|);
  }

  lemma SizesBounded(s: Sizes, dataLen: nat)
    ensures BoundSizes(s, dataLen).Ok? ==> BoundSizes(s, dataLen) == Ok(s)
  {
  }

  lemma SizesFit(s: Sizes, dataLen: nat)
    requires 2 * s.staticFields <= dataLen && 2 * s.instanceFields <= dataLen
    requires 3 * s.directMethods <= dataLen && 3 * s.virtualMethods <= dataLen
    ensures BoundSizes(s, dataLen) == Ok(s)
  {
    CountFits(s.staticFields, 2, dataLen);
    CountFits(s.instanceFields, 2, dataLen);
    CountFits(s.directMethods, 3, dataLen);
    CountFits(s.virtualMethods, 3, dataLen);
  }

  lemma CountFits(count: nat, stride: nat, dataLen: nat)
    requires (stride == 2 || stride == 3) && stride * count <= dataLen
    ensures BoundCount(count, stride, dataLen) == Ok(count)
  {
  }

  lemma BoundGrows(s: Sizes, small: nat, large: nat)
    requires small <= large && BoundSizes(s, small) == Ok(s)
    ensures BoundSizes(s, large) == Ok(s)
  {
  }

  // ----- the delta coding is inverted -----

  /** Members a list can hold: in index order, with legal flags. */
  predicate Listable(ms: seq<Member>, scope: Scope) {
    && (forall m :: m in ms ==> WellFormed(m, scope))
    && (forall i, j :: 0 <= i < j < |ms| ==> ms[i].idx <= ms[j].idx)
    && |ms| <= U32_MAX
  }

  lemma PrefixListable(ms: seq<Member>, scope: Scope)
    requires Listable(ms, scope) && ms != []
    ensures Listable(ms[..|ms| - 1], scope) && WellFormed(ms[|ms| - 1], scope) &&
        LastIdx(ms[..|ms| - 1]) <= ms[|ms| - 1].idx
  {
    assert ms[|ms| - 1] in ms;
  }

  function PrintMember(m: Member, prev: nat): (bs: seq<byte>)
    requires prev <= m.idx
    ensures |bs| >= 2 && (m.EncodedMethod? ==> |bs| >= 3)
  {
    EncodeUleb(m.idx - prev) + EncodeUleb(m.accessFlags) + if m.EncodedMethod? then EncodeUleb(m.codeOff) else []
  }

  function PrintMembers(ms: seq<Member>, scope: Scope): (bs: seq<byte>)
    requires Listable(ms, scope)
    ensures |bs| >= 2 * |ms| && (scope.Method? ==> |bs| >= 3 * |ms|)
  {
    if ms == [] then []
    else
      var n := |ms| - 1;
      PrefixListable(ms, scope);
      PrintMembers(ms[..n], scope) + PrintMember(ms[n], LastIdx(ms[..n]))
  }

  predicate Printable(cd: ClassData) {
    && Listable(cd.staticFields, Field) && Listable(cd.instanceFields, Field)
    && Listable(cd.directMethods, Method) && Listable(cd.virtualMethods, Method)
  }

  function PrintSizes(s: Sizes): seq<byte> {
    EncodeUleb(s.staticFields) +
        (EncodeUleb(s.instanceFields) + (EncodeUleb(s.directMethods) + EncodeUleb(s.virtualMethods)))
  }

  function SizesOf(cd: ClassData): Sizes {
    Sizes(|cd.staticFields|, |cd.instanceFields|, |cd.directMethods|, |cd.virtualMethods|)
  }

  function PrintLists(cd: ClassData): seq<byte>
    requires Printable(cd)
  {
    PrintMembers(cd.staticFields, Field) + (PrintMembers(cd.instanceFields, Field) +
    (PrintMembers(cd.directMethods, Method) + PrintMembers(cd.virtualMethods, Method)))
  }

  lemma MemberPrinted(data: seq<byte>, pos: nat, m: Member, prev: nat, scope: Scope, itemOff: nat)
    requires WellFormed(m, scope) && prev <= m.idx && HasAt(data, pos, PrintMember(m, prev))
    ensures MemberAt(data, pos, prev, scope, itemOff) == Ok(Read(m, pos + |PrintMember(m, prev)|))
  {
    hide Uleb, HasAt, Within, EncodeUleb;
    var a, b := EncodeUleb(m.idx - prev), EncodeUleb(m.accessFlags);
    var c := if m.EncodedMethod? then EncodeUleb(m.codeOff) else [];
    HasAtSplit(data, pos, a + b, c);
    HasAtSplit(data, pos, a, b);
    UlebRoundTrip(m.idx - prev, data, pos);
    UlebRoundTrip(m.accessFlags, data, pos + |a|);
    if m.EncodedMethod? {
      assert pos + |a + b| == pos + |a| + |b|;
      UlebRoundTrip(m.codeOff, data, pos + |a| + |b|);
    }
  }

  lemma PrintedSplit(ms: seq<Member>, scope: Scope)
    requires Listable(ms, scope) && ms != []
    ensures var n := |ms| - 1;
            && Listable(ms[..n], scope) && WellFormed(ms[n], scope) && LastIdx(ms[..n]) <= ms[n].idx
            && PrintMembers(ms, scope) == PrintMembers(ms[..n], scope) + PrintMember(ms[n], LastIdx(ms[..n]))
  {
    hide PrintMember, LastIdx, Listable, WellFormed;
    PrefixListable(ms, scope);
  }

  lemma MembersStep(data: seq<byte>, pos: nat, init: seq<Member>, mid: nat, m: Member, next: nat, scope: Scope,
                    itemOff: nat)
    requires Members(data, pos, |init|, scope, itemOff) == Ok(Read(init, mid))
    requires MemberAt(data, mid, LastIdx(init), scope, itemOff) == Ok(Read(m, next))
    ensures Members(data, pos, |init| + 1, scope, itemOff) == Ok(Read(init + [m], next))
  {
    hide MemberAt;
  }

  lemma NothingPrinted(data: seq<byte>, pos: nat, scope: Scope, itemOff: nat)
    ensures Listable([], scope) && PrintMembers([], scope) == [] &&
        Members(data, pos, 0, scope, itemOff) == Ok(Read([], pos))
  {
  }

  lemma {:induction false} MembersPrinted(data: seq<byte>, pos: nat, ms: seq<Member>, scope: Scope, itemOff: nat)
    requires Listable(ms, scope) && HasAt(data, pos, PrintMembers(ms, scope))
    ensures Members(data, pos, |ms|, scope, itemOff) == Ok(Read(ms, pos + |PrintMembers(ms, scope)|))
    decreases |ms|
  {
    hide *;
    if ms == [] {
      NothingPrinted(data, pos, scope, itemOff);
    } else {
      var n := |ms| - 1;
      PrintedSplit(ms, scope);
      var init := PrintMembers(ms[..n], scope);
      var last := PrintMember(ms[n], LastIdx(ms[..n]));
      HasAtSplit(data, pos, init, last);
      MembersPrinted(data, pos, ms[..n], scope, itemOff);
      MemberPrinted(data, pos + |init|, ms[n], LastIdx(ms[..n]), scope, itemOff);
      MembersStep(data, pos, ms[..n], pos + |init|, ms[n], pos + |init| + |last|, scope, itemOff);
      assert ms[..n] + [ms[n]] == ms;
    }
  }

  lemma SizesPrinted(data: seq<byte>, pos: nat, s: Sizes)
    requires s.staticFields <= U32_MAX && s.instanceFields <= U32_MAX && s.directMethods <= U32_MAX &&
        s.virtualMethods <= U32_MAX
    requires HasAt(data, pos, PrintSizes(s))
    ensures ReadSizes(data, pos) == Ok(Read(s, pos + |PrintSizes(s)|))
  {
    hide Uleb, HasAt, EncodeUleb;
    var a, b, c, d := EncodeUleb(s.staticFields), EncodeUleb(s.instanceFields), EncodeUleb(s.directMethods),
        EncodeUleb(s.virtualMethods);
    HasAtSplit(data, pos, a, b + (c + d));
    HasAtSplit(data, pos + |a|, b, c + d);
    HasAtSplit(data, pos + |a| + |b|, c, d);
    UlebRoundTrip(s.staticFields, data, pos);
    UlebRoundTrip(s.instanceFields, data, pos + |a|);
    UlebRoundTrip(s.directMethods, data, pos + |a| + |b|);
    UlebRoundTrip(s.virtualMethods, data, pos + |a| + |b| + |c|);
  }

  lemma ListsPrinted(data: seq<byte>, pos: nat, cd: ClassData, itemOff: nat)
    requires Printable(cd) && HasAt(data, pos, PrintLists(cd))
    ensures Lists(data, pos, SizesOf(cd), itemOff) == Ok(Read(cd, pos + |PrintLists(cd)|))
    ensures BoundSizes(SizesOf(cd), |PrintLists(cd)|) == Ok(SizesOf(cd))
  {
    hide HasAt, Listable, PrintMembers, Members, BoundSizes;
    var a, b := PrintMembers(cd.staticFields, Field), PrintMembers(cd.instanceFields, Field);
    var c, d := PrintMembers(cd.directMethods, Method), PrintMembers(cd.virtualMethods, Method);
    HasAtSplit(data, pos, a, b + (c + d));
    HasAtSplit(data, pos + |a|, b, c + d);
    HasAtSplit(data, pos + |a| + |b|, c, d);
    MembersPrinted(data, pos, cd.staticFields, Field, itemOff);
    MembersPrinted(data, pos + |a|, cd.instanceFields, Field, itemOff);
    MembersPrinted(data, pos + |a| + |b|, cd.directMethods, Method, itemOff);
    MembersPrinted(data, pos + |a| + |b| + |c|, cd.virtualMethods, Method, itemOff);
    SizesFit(SizesOf(cd), |PrintLists(cd)|);
  }

  /** Reading inverts the delta-coded layout, wherever it stands and whatever follows. */
  lemma ClassDataRoundTrip(cd: ClassData, data: seq<byte>, off: nat)
    requires Printable(cd) && HasAt(data, off, PrintSizes(SizesOf(cd)) + PrintLists(cd))
    ensures Parse(data, off) == Ok(Read(cd, off + |PrintSizes(SizesOf(cd)) + PrintLists(cd)|))
  {
    hide HasAt, PrintSizes, PrintLists, ReadSizes, Lists, BoundSizes;
    var head, body := PrintSizes(SizesOf(cd)), PrintLists(cd);
    HasAtSplit(data, off, head, body);
    SizesPrinted(data, off, SizesOf(cd));
    ListsPrinted(data, off + |head|, cd, off);
    assert off + |head| + |body| <= |data| by { HasAtFits(data, off + |head|, body); }
    BoundGrows(SizesOf(cd), |body|, |data|);
  }

  /** Every list that parses is one the layout can hold: indices never decrease and flags are legal. */
  lemma {:induction false} ParsedMembersListable(data: seq<byte>, pos: nat, n: nat, scope: Scope, itemOff: nat)
    requires n <= U32_MAX && Members(data, pos, n, scope, itemOff).Ok?
    ensures Listable(Members(data, pos, n, scope, itemOff).value.value, scope)
    decreases n
  {
    hide MemberAt, WellFormed;
    if n > 0 {
      ParsedMembersListable(data, pos, n - 1, scope, itemOff);
    }
  }

  lemma ParsedClassDataPrintable(data: seq<byte>, off: nat)
    requires Parse(data, off).Ok?
    ensures Printable(Parse(data, off).value.value)
  {
    hide Uleb, Members, Listable;
    var sizes := ReadSizes(data, off).value;
    var s := sizes.value;
    var a := Members(data, sizes.next, s.staticFields, Field, off).value.next;
    var b := Members(data, a, s.instanceFields, Field, off).value.next;
    var c := Members(data, b, s.directMethods, Method, off).value.next;
    ParsedMembersListable(data, sizes.next, s.staticFields, Field, off);
    ParsedMembersListable(data, a, s.instanceFields, Field, off);
    ParsedMembersListable(data, b, s.directMethods, Method, off);
    ParsedMembersListable(data, c, s.virtualMethods, Method, off);
  }

  // ----- access flags -----

  function Pow2(k: nat): (p: nat)
    ensures p > 0
  {
    if k == 0 then 1 else 2 * Pow2(k - 1)
  }

  /** Bit `k` of `x` is set. */
  predicate HasBit(x: nat, k: nat) {
    x / Pow2(k) % 2 == 1
  }

  lemma HalfQuotient(x: nat, p: nat)
    requires p > 0
    ensures x / 2 / p == x / (2 * p)
  {
    var q := x / (2 * p);
    QuotientBounds(x, 2 * p);
    assert q * (2 * p) == 2 * (q * p);
    DivUnique(x / 2, p, q);
  }

  lemma QuotientBounds(x: nat, m: nat)
    requires m > 0
    ensures (x / m) * m <= x < (x / m) * m + m
  {
  }

  lemma BitOfHalf(x: nat, k: nat)
    ensures HasBit(x / 2, k) <==> HasBit(x, k + 1)
  {
    HalfQuotient(x, Pow2(k));
  }

  ghost predicate BitsWithin(raw: nat, mask: nat) {
    forall k: nat :: HasBit(raw, k) ==> HasBit(mask, k)
  }

  /** The mask test is a statement about each bit. */
  lemma {:induction false} WithinIsBitwise(raw: nat, mask: nat)
    ensures Within(raw, mask) <==> BitsWithin(raw, mask)
    decreases raw
  {
    hide HasBit;
    LowBit(raw);
    LowBit(mask);
    if raw == 0 {
      forall k: nat ensures !HasBit(0, k) {
        ZeroHasNoBit(k);
      }
    } else {
      WithinIsBitwise(raw / 2, mask / 2);
      forall k: nat ensures HasBit(raw / 2, k) == HasBit(raw, k + 1) && HasBit(mask / 2, k) == HasBit(mask, k + 1) {
        BitOfHalf(raw, k);
        BitOfHalf(mask, k);
      }
      if BitsWithin(raw, mask) {
        forall k: nat | HasBit(raw / 2, k) ensures HasBit(mask / 2, k) {
          assert HasBit(raw, k + 1);
        }
      }
      if BitsWithin(raw / 2, mask / 2) {
        forall k: nat | k > 0 && HasBit(raw, k) ensures HasBit(mask, k) {
          assert HasBit(raw / 2, k - 1);
        }
      }
    }
  }

  lemma LowBit(x: nat)
    ensures HasBit(x, 0) <==> x % 2 == 1
  {
  }

  lemma ZeroHasNoBit(k: nat)
    ensures !HasBit(0, k)
  {
  }

  /**
   The bits a member may carry. Fields: public, private, protected, static, final, volatile, transient,
   synthetic, enum. Methods: the first five, synchronized, bridge, varargs, native, abstract, strict,
   synthetic, constructor, declared-synchronized.
   */
  function LegalBits(scope: Scope): set<nat> {
    if scope.Field? then {0, 1, 2, 3, 4, 6, 7, 12, 14}
    else {0, 1, 2, 3, 4, 5, 6, 7, 8, 10, 11, 12, 16, 17}
  }

  lemma PowersOfTwo()
    ensures Pow2(0) == 1 && Pow2(1) == 2 && Pow2(2) == 4 && Pow2(3) == 8 && Pow2(4) == 0x10 && Pow2(5) == 0x20
    ensures Pow2(6) == 0x40 && Pow2(7) == 0x80 && Pow2(8) == 0x100 && Pow2(9) == 0x200 && Pow2(10) == 0x400
    ensures Pow2(11) == 0x800 && Pow2(12) == 0x1000 && Pow2(13) == 0x2000 && Pow2(14) == 0x4000
    ensures Pow2(15) == 0x8000 && Pow2(16) == 0x1_0000 && Pow2(17) == 0x2_0000 && Pow2(18) == 0x4_0000
  {
    assert Pow2(4) == 0x10;
    assert Pow2(6) == 0x40;
    assert Pow2(8) == 0x100;
    assert Pow2(10) == 0x400;
    assert Pow2(12) == 0x1000;
    assert Pow2(14) == 0x4000;
    assert Pow2(16) == 0x1_0000;
  }

  lemma {:induction false} PowersGrow(k: nat)
    requires k >= 18
    ensures Pow2(k) >= 0x4_0000
    decreases k
  {
    PowersOfTwo();
    if k > 18 {
      PowersGrow(k - 1);
    }
  }

  lemma FieldMaskBits(k: nat)
    requires k < 18
    ensures HasBit(0x0000_50DF, k) <==> k in {0, 1, 2, 3, 4, 6, 7, 12, 14}
  {
    hide Pow2;
    PowersOfTwo();
  }

  lemma MethodMaskBits(k: nat)
    requires k < 18
    ensures HasBit(0x0003_1DFF, k) <==> k in {0, 1, 2, 3, 4, 5, 6, 7, 8, 10, 11, 12, 16, 17}
  {
    hide Pow2;
    PowersOfTwo();
  }

  lemma HighBits(x: nat, k: nat)
    requires x < 0x4_0000 && k >= 18
    ensures !HasBit(x, k)
  {
    hide Pow2;
    PowersGrow(k);
  }

  lemma MaskBits(scope: Scope, k: nat)
    ensures HasBit(scope.Mask(), k) <==> k in LegalBits(scope)
  {
    hide HasBit;
    if k >= 18 {
      HighBits(scope.Mask(), k);
    } else {
      FieldMaskBits(k);
      MethodMaskBits(k);
    }
  }

  /** A flag word is accepted, unchanged, if and only if each of its bits is one the scope knows. */
  lemma FlagsExact(raw: nat, scope: Scope)
    ensures Validate(raw, scope) == Ok(raw) <==> forall k: nat :: HasBit(raw, k) ==> k in LegalBits(scope)
  {
    hide HasBit, LegalBits, Within;
    WithinIsBitwise(raw, scope.Mask());
    forall k: nat ensures HasBit(scope.Mask(), k) <==> k in LegalBits(scope) {
      MaskBits(scope, k);
    }
  }

  /** An index past 32 bits, or a flag the scope does not know, refuses the member. */
  lemma MemberRefusals(data: seq<byte>, pos: nat, prev: nat, scope: Scope, itemOff: nat, diff: nat, raw: nat)
    requires diff <= U32_MAX && raw <= U32_MAX && HasAt(data, pos, EncodeUleb(diff) + EncodeUleb(raw))
    ensures prev + diff > U32_MAX ==> MemberAt(data, pos, prev, scope, itemOff) == Err(InvalidInstruction(itemOff))
    ensures prev + diff <= U32_MAX && (exists k: nat :: HasBit(raw, k) && k !in LegalBits(scope)) ==>
              MemberAt(data, pos, prev, scope, itemOff) == Err(InvalidAccessFlags(raw))
  {
    hide Uleb, EncodeUleb, HasAt, HasBit, LegalBits, Within;
    HasAtSplit(data, pos, EncodeUleb(diff), EncodeUleb(raw));
    UlebRoundTrip(diff, data, pos);
    UlebRoundTrip(raw, data, pos + |EncodeUleb(diff)|);
    FlagsExact(raw, scope);
  }
}
