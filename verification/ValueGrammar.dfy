/**
 The reference meaning of an `encoded_value`: a recursive-descent grammar.

 `ParseValue` returns the tree in on-disk element order, reading composites to
 a nesting depth of `budget`. `Normalize` is what the parser's ordered map makes
 of that tree: elements sorted by name, the last of equal names kept.
 */
module ValueGrammar {
  import opened Basics
  import opened Leb128
  import opened EncodedValues

  function Left(data: seq<byte>, pos: nat): nat {
    if pos < |data| then |data| - pos else 0
  }

  function ParseValue(data: seq<byte>, pos: nat, budget: nat): (r: Result<Read<EncodedValue>>)
    ensures r.Ok? ==> pos < r.value.next <= |data|
    decreases Left(data, pos), 1
  {
    var prim :- Primitive(data, pos);
    match prim
    case Some(v) => Ok(v)
    case None => if budget == 0 then Err(WorkStackExhausted) else ParseComposite(data, pos, budget - 1)
  }

  function ParseComposite(data: seq<byte>, pos: nat, budget: nat): (r: Result<Read<EncodedValue>>)
    requires pos < |data|
    ensures r.Ok? ==> pos < r.value.next <= |data|
    decreases Left(data, pos), 0
  {
    if data[pos] % 32 == TAG_ARRAY then ParseArray(data, pos + 1, budget)
    else ParseAnnotation(data, pos + 1, budget)
  }

  /** The body of an array: element count, then that many values. */
  function ParseArray(data: seq<byte>, pos: nat, budget: nat): (r: Result<Read<EncodedValue>>)
    ensures r.Ok? ==> pos < r.value.next <= |data| && r.value.value.Array?
    decreases Left(data, pos), 0
  {
    var size :- Uleb(data, pos);
    var n :- BoundCount(size.value, 1, |data|);
    var vs :- ParseValues(data, size.next, n, budget);
    Ok(Read(Array(vs.value), vs.next))
  }

  /** An `encoded_annotation`: type, element count, then name/value pairs. */
  function ParseAnnotation(data: seq<byte>, pos: nat, budget: nat): (r: Result<Read<EncodedValue>>)
    ensures r.Ok? ==> pos < r.value.next <= |data| && r.value.value.Annotation?
    decreases Left(data, pos), 0
  {
    var ty :- Uleb(data, pos);
    var size :- Uleb(data, ty.next);
    var n :- BoundCount(size.value, 2, |data|);
    var es :- ParseElements(data, size.next, n, budget);
    Ok(Read(Annotation(ty.value, es.value), es.next))
  }

  function ParseValues(data: seq<byte>, pos: nat, n: nat, budget: nat): (r: Result<Read<seq<EncodedValue>>>)
    ensures r.Ok? ==> |r.value.value| == n && pos + n <= r.value.next && (n > 0 ==> r.value.next <= |data|)
    ensures r.Ok? && n == 0 ==> r.value.next == pos
    decreases Left(data, pos), 2
  {
    if n == 0 then Ok(Read([], pos))
    else
      var v :- ParseValue(data, pos, budget);
      var rest :- ParseValues(data, v.next, n - 1, budget);
      Ok(Read([v.value] + rest.value, rest.next))
  }

  function Count(es: Elements): nat {
    match es
    case NoElements => 0
    case Element(_, _, rest) => 1 + Count(rest)
  }

  function ParseElements(data: seq<byte>, pos: nat, n: nat, budget: nat): (r: Result<Read<Elements>>)
    ensures r.Ok? ==> Count(r.value.value) == n && pos + 2 * n <= r.value.next && (n > 0 ==> r.value.next <= |data|)
    ensures r.Ok? && n == 0 ==> r.value.next == pos
    decreases Left(data, pos), 2
  {
    if n == 0 then Ok(Read(NoElements, pos))
    else
      var name :- Uleb(data, pos);
      ParseNamed(data, name.next, name.value, n, budget)
  }

  /** The rest of an element list whose first name has been read. */
  function ParseNamed(data: seq<byte>, pos: nat, name: nat, n: nat, budget: nat): (r: Result<Read<Elements>>)
    requires n > 0
    ensures r.Ok? ==> Count(r.value.value) == n && pos + 2 * n - 1 <= r.value.next <= |data|
    decreases Left(data, pos), 3
  {
    var v :- ParseValue(data, pos, budget);
    var rest :- ParseElements(data, v.next, n - 1, budget);
    Ok(Read(Element(name, v.value, rest.value), rest.next))
  }

  // ----- the nesting limit -----

  /** Depth of composites in a tree. */
  function Height(v: EncodedValue): nat {
    match v
    case Array(vs) => 1 + HeightAll(vs)
    case Annotation(_, es) => 1 + HeightElements(es)
    case _ => 0
  }

  function HeightAll(vs: seq<EncodedValue>): nat {
    if vs == [] then 0 else Max(Height(vs[0]), HeightAll(vs[1..]))
  }

  function HeightElements(es: Elements): nat {
    match es
    case NoElements => 0
    case Element(_, v, rest) => Max(Height(v), HeightElements(rest))
  }

  function Max(a: nat, b: nat): nat {
    if a < b then b else a
  }

  /** Reading without a nesting limit: no nesting can exceed the number of bytes. */
  function Unlimited(data: seq<byte>, pos: nat): Result<Read<EncodedValue>> {
    ParseValue(data, pos, |data|)
  }

  /** Greatest number of composites open at once while reading the value at `pos`, also when the read fails. */
  function Nesting(data: seq<byte>, pos: nat): nat
    decreases Left(data, pos), 1
  {
    if Primitive(data, pos) != Ok(None) then 0
    else if data[pos] % 32 == TAG_ARRAY then 1 + ArrayNesting(data, pos + 1)
    else 1 + AnnotationNesting(data, pos + 1)
  }

  function ArrayNesting(data: seq<byte>, pos: nat): nat
    decreases Left(data, pos), 0
  {
    match Uleb(data, pos)
    case Err(_) => 0
    case Ok(size) => if size.value > |data| then 0 else ValuesNesting(data, size.next, size.value)
  }

  function AnnotationNesting(data: seq<byte>, pos: nat): nat
    decreases Left(data, pos), 0
  {
    match Uleb(data, pos)
    case Err(_) => 0
    case Ok(ty) =>
      match Uleb(data, ty.next)
      case Err(_) => 0
      case Ok(size) => if size.value > |data| / 2 then 0 else ElementsNesting(data, size.next, size.value)
  }

  function ValuesNesting(data: seq<byte>, pos: nat, n: nat): nat
    decreases Left(data, pos), 2
  {
    if n == 0 then 0
    else
      match Unlimited(data, pos)
      case Err(_) => Nesting(data, pos)
      case Ok(v) => Max(Nesting(data, pos), ValuesNesting(data, v.next, n - 1))
  }

  function ElementsNesting(data: seq<byte>, pos: nat, n: nat): nat
    decreases Left(data, pos), 2
  {
    if n == 0 then 0
    else
      match Uleb(data, pos)
      case Err(_) => 0
      case Ok(name) =>
        match Unlimited(data, name.next)
        case Err(_) => Nesting(data, name.next)
        case Ok(v) => Max(Nesting(data, name.next), ElementsNesting(data, v.next, n - 1))
  }

  /** A budget matters exactly when it is smaller than the nesting met. */
  function Capped<T>(nesting: nat, budget: nat, full: Result<T>): Result<T> {
    if nesting > budget then Err(WorkStackExhausted) else full
  }

  lemma {:induction false} BudgetExact(data: seq<byte>, pos: nat, budget: nat)
    ensures Nesting(data, pos) <= Left(data, pos)
    ensures ParseValue(data, pos, budget) == Capped(Nesting(data, pos), budget, Unlimited(data, pos))
    decreases Left(data, pos), 1
  {
    if Primitive(data, pos) == Ok(None) && budget > 0 {
      CompositeBudgetExact(data, pos, budget);
    } else if Primitive(data, pos) == Ok(None) {
      CompositeBudgetExact(data, pos, 1);
    }
  }

  lemma {:induction false} CompositeBudgetExact(data: seq<byte>, pos: nat, budget: nat)
    requires Primitive(data, pos) == Ok(None) && budget > 0
    ensures 1 <= Nesting(data, pos) <= Left(data, pos)
    ensures ParseComposite(data, pos, budget - 1) ==
            Capped(Nesting(data, pos), budget, ParseComposite(data, pos, |data| - 1))
    decreases Left(data, pos), 0
  {
    hide ParseArray, ParseAnnotation, ArrayNesting, AnnotationNesting;
    if data[pos] % 32 == TAG_ARRAY {
      ArrayBudgetExact(data, pos + 1, budget - 1);
      ArrayBudgetExact(data, pos + 1, |data| - 1);
    } else {
      AnnotationBudgetExact(data, pos + 1, budget - 1);
      AnnotationBudgetExact(data, pos + 1, |data| - 1);
    }
  }

  lemma {:induction false} ArrayBudgetExact(data: seq<byte>, pos: nat, budget: nat)
    ensures ArrayNesting(data, pos) <= Left(data, pos)
    ensures ParseArray(data, pos, budget) ==
            Capped(ArrayNesting(data, pos), budget, ParseArray(data, pos, |data|))
    decreases Left(data, pos), 0
  {
    if Uleb(data, pos).Ok? {
      var size := Uleb(data, pos).value;
      if size.value <= |data| {
        ValuesBudgetExact(data, size.next, size.value, budget);
      }
    }
  }

  lemma {:induction false} AnnotationBudgetExact(data: seq<byte>, pos: nat, budget: nat)
    ensures AnnotationNesting(data, pos) <= Left(data, pos)
    ensures ParseAnnotation(data, pos, budget) ==
            Capped(AnnotationNesting(data, pos), budget, ParseAnnotation(data, pos, |data|))
    decreases Left(data, pos), 0
  {
    if Uleb(data, pos).Ok? {
      var ty := Uleb(data, pos).value;
      if Uleb(data, ty.next).Ok? {
        var size := Uleb(data, ty.next).value;
        if size.value <= |data| / 2 {
          ElementsBudgetExact(data, size.next, size.value, budget);
        }
      }
    }
  }

  lemma {:induction false} ValuesBudgetExact(data: seq<byte>, pos: nat, n: nat, budget: nat)
    ensures ValuesNesting(data, pos, n) <= Left(data, pos)
    ensures ParseValues(data, pos, n, budget) ==
            Capped(ValuesNesting(data, pos, n), budget, ParseValues(data, pos, n, |data|))
    decreases Left(data, pos), 2
  {
    if n > 0 {
      BudgetExact(data, pos, budget);
      if Unlimited(data, pos).Ok? {
        ValuesBudgetExact(data, Unlimited(data, pos).value.next, n - 1, budget);
      }
    }
  }

  lemma {:induction false} ElementsBudgetExact(data: seq<byte>, pos: nat, n: nat, budget: nat)
    ensures ElementsNesting(data, pos, n) <= Left(data, pos)
    ensures ParseElements(data, pos, n, budget) ==
            Capped(ElementsNesting(data, pos, n), budget, ParseElements(data, pos, n, |data|))
    decreases Left(data, pos), 2
  {
    if n > 0 && Uleb(data, pos).Ok? {
      var name := Uleb(data, pos).value;
      BudgetExact(data, name.next, budget);
      if Unlimited(data, name.next).Ok? {
        ElementsBudgetExact(data, Unlimited(data, name.next).value.next, n - 1, budget);
      }
    }
  }

  /** A budget of one per byte is never exhausted. */
  lemma {:induction false} NeverExhausted(data: seq<byte>, pos: nat, budget: nat)
    requires budget >= Left(data, pos)
    ensures ParseValue(data, pos, budget) != Err(WorkStackExhausted)
    decreases Left(data, pos), 1
  {
    if Primitive(data, pos) == Ok(None) {
      BodyNeverExhausted(data, pos + 1, budget - 1);
    }
  }

  lemma {:induction false} BodyNeverExhausted(data: seq<byte>, pos: nat, budget: nat)
    requires budget >= Left(data, pos)
    ensures ParseArray(data, pos, budget) != Err(WorkStackExhausted)
    ensures ParseAnnotation(data, pos, budget) != Err(WorkStackExhausted)
    decreases Left(data, pos), 0
  {
    if Uleb(data, pos).Ok? {
      var first := Uleb(data, pos).value;
      ValuesNeverExhausted(data, first.next, first.value, budget);
      if Uleb(data, first.next).Ok? {
        var size := Uleb(data, first.next).value;
        ElementsNeverExhausted(data, size.next, size.value, budget);
      }
    }
  }

  lemma {:induction false} ValuesNeverExhausted(data: seq<byte>, pos: nat, n: nat, budget: nat)
    requires budget >= Left(data, pos)
    ensures ParseValues(data, pos, n, budget) != Err(WorkStackExhausted)
    decreases Left(data, pos), 2
  {
    if n > 0 {
      NeverExhausted(data, pos, budget);
      if ParseValue(data, pos, budget).Ok? {
        ValuesNeverExhausted(data, ParseValue(data, pos, budget).value.next, n - 1, budget);
      }
    }
  }

  lemma {:induction false} ElementsNeverExhausted(data: seq<byte>, pos: nat, n: nat, budget: nat)
    requires budget >= Left(data, pos)
    ensures ParseElements(data, pos, n, budget) != Err(WorkStackExhausted)
    decreases Left(data, pos), 2
  {
    if n > 0 && Uleb(data, pos).Ok? {
      var p := Uleb(data, pos).value.next;
      NeverExhausted(data, p, budget);
      if ParseValue(data, p, budget).Ok? {
        ElementsNeverExhausted(data, ParseValue(data, p, budget).value.next, n - 1, budget);
      }
    }
  }

  lemma PrimitiveIsFlat(data: seq<byte>, pos: nat)
    ensures var p := Primitive(data, pos); p.Ok? && p.value.Some? ==> Height(p.value.value.value) == 0
  {
  }

  /** Without a failure the nesting met is the height of the tree read. */
  lemma {:induction false} NestingIsHeight(data: seq<byte>, pos: nat)
    requires Unlimited(data, pos).Ok?
    ensures Nesting(data, pos) == Height(Unlimited(data, pos).value.value)
    decreases Left(data, pos), 1
  {
    hide Primitive, ParseArray, ParseAnnotation, ArrayNesting, AnnotationNesting, HeightAll, HeightElements;
    PrimitiveIsFlat(data, pos);
    if Primitive(data, pos) == Ok(None) {
      assert Unlimited(data, pos) == ParseComposite(data, pos, |data| - 1);
      if data[pos] % 32 == TAG_ARRAY {
        ArrayNestingIsHeight(data, pos + 1, |data| - 1);
      } else {
        AnnotationNestingIsHeight(data, pos + 1, |data| - 1);
      }
    }
  }

  lemma {:induction false} ArrayNestingIsHeight(data: seq<byte>, pos: nat, budget: nat)
    requires ParseArray(data, pos, budget).Ok?
    ensures ArrayNesting(data, pos) + 1 == Height(ParseArray(data, pos, budget).value.value)
    decreases Left(data, pos), 0
  {
    var size := Uleb(data, pos).value;
    ValuesBudgetExact(data, size.next, size.value, budget);
    ValuesNestingIsHeight(data, size.next, size.value);
  }

  lemma {:induction false} AnnotationNestingIsHeight(data: seq<byte>, pos: nat, budget: nat)
    requires ParseAnnotation(data, pos, budget).Ok?
    ensures AnnotationNesting(data, pos) + 1 == Height(ParseAnnotation(data, pos, budget).value.value)
    decreases Left(data, pos), 0
  {
    var ty := Uleb(data, pos).value;
    var size := Uleb(data, ty.next).value;
    ElementsBudgetExact(data, size.next, size.value, budget);
    ElementsNestingIsHeight(data, size.next, size.value);
  }

  lemma {:induction false} ValuesNestingIsHeight(data: seq<byte>, pos: nat, n: nat)
    requires ParseValues(data, pos, n, |data|).Ok?
    ensures ValuesNesting(data, pos, n) == HeightAll(ParseValues(data, pos, n, |data|).value.value)
    decreases Left(data, pos), 2
  {
    if n > 0 {
      NestingIsHeight(data, pos);
      ValuesNestingIsHeight(data, Unlimited(data, pos).value.next, n - 1);
    }
  }

  lemma {:induction false} ElementsNestingIsHeight(data: seq<byte>, pos: nat, n: nat)
    requires ParseElements(data, pos, n, |data|).Ok?
    ensures ElementsNesting(data, pos, n) == HeightElements(ParseElements(data, pos, n, |data|).value.value)
    decreases Left(data, pos), 2
  {
    if n > 0 {
      var p := Uleb(data, pos).value.next;
      NestingIsHeight(data, p);
      ElementsNestingIsHeight(data, Unlimited(data, p).value.next, n - 1);
    }
  }

  // ----- the ordered element map -----

  /** `BTreeMap::insert` on the ascending list: replace an equal name, else keep the order. */
  function Insert(m: Elements, name: nat, v: EncodedValue): Elements {
    match m
    case NoElements => Element(name, v, NoElements)
    case Element(n, w, rest) =>
      if n < name then Element(n, w, Insert(rest, name, v))
      else if n == name then Element(name, v, rest)
      else Element(name, v, m)
  }

  function InsertAll(m: Elements, es: Elements): Elements
    decreases es
  {
    match es
    case NoElements => m
    case Element(name, v, rest) => InsertAll(Insert(m, name, v), rest)
  }

  /** Names strictly ascending from `low` on. */
  predicate AscendingFrom(low: nat, es: Elements)
    decreases es
  {
    match es
    case NoElements => true
    case Element(name, _, rest) => low <= name && AscendingFrom(name + 1, rest)
  }

  function AsMap(es: Elements): map<nat, EncodedValue> {
    match es
    case NoElements => map[]
    case Element(name, v, rest) => AsMap(rest)[name := v]
  }

  /** The ascending list is a map: insertion keeps it ascending and updates exactly one key. */
  lemma {:induction false} InsertIsMapUpdate(low: nat, m: Elements, name: nat, v: EncodedValue)
    requires AscendingFrom(low, m)
    ensures AscendingFrom(if name < low then name else low, Insert(m, name, v))
    ensures AsMap(Insert(m, name, v)) == AsMap(m)[name := v]
    decreases m
  {
    match m
    case NoElements =>
    case Element(n, w, rest) =>
      NamesAbove(n + 1, rest);
      if n < name {
        InsertIsMapUpdate(n + 1, rest, name, v);
      }
  }

  lemma {:induction false} NamesAbove(low: nat, m: Elements)
    requires AscendingFrom(low, m)
    ensures forall n :: n in AsMap(m) ==> low <= n
    decreases m
  {
    match m
    case NoElements =>
    case Element(n, _, rest) => NamesAbove(n + 1, rest);
  }

  function Append(a: Elements, b: Elements): Elements {
    match a
    case NoElements => b
    case Element(name, v, rest) => Element(name, v, Append(rest, b))
  }

  predicate Below(m: Elements, bound: nat) {
    match m
    case NoElements => true
    case Element(name, _, rest) => name < bound && Below(rest, bound)
  }

  lemma {:induction false} InsertAppends(m: Elements, name: nat, v: EncodedValue)
    requires Below(m, name)
    ensures Insert(m, name, v) == Append(m, Element(name, v, NoElements))
    ensures Below(Insert(m, name, v), name + 1)
    ensures forall es :: Append(Insert(m, name, v), es) == Append(m, Element(name, v, es))
  {
    match m
    case NoElements =>
    case Element(n, _, rest) =>
      InsertAppends(rest, name, v);
      BelowWeaken(rest, name, name + 1);
  }

  lemma {:induction false} BelowWeaken(m: Elements, a: nat, b: nat)
    requires Below(m, a) && a <= b
    ensures Below(m, b)
  {
    match m
    case NoElements =>
    case Element(_, _, rest) => BelowWeaken(rest, a, b);
  }

  lemma {:induction false} InsertAllAppends(m: Elements, low: nat, es: Elements)
    requires Below(m, low) && AscendingFrom(low, es)
    ensures InsertAll(m, es) == Append(m, es)
    decreases es
  {
    match es
    case NoElements => AppendNone(m);
    case Element(name, v, rest) =>
      BelowWeaken(m, low, name);
      InsertAppends(m, name, v);
      InsertAllAppends(Insert(m, name, v), name + 1, rest);
  }

  lemma {:induction false} AppendNone(m: Elements)
    ensures Append(m, NoElements) == m
  {
    match m
    case NoElements =>
    case Element(_, _, rest) => AppendNone(rest);
  }

  lemma {:induction false} InsertAllIsAscending(m: Elements, es: Elements)
    requires AscendingFrom(0, m)
    ensures AscendingFrom(0, InsertAll(m, es))
    decreases es
  {
    match es
    case NoElements =>
    case Element(name, v, rest) =>
      InsertIsMapUpdate(0, m, name, v);
      InsertAllIsAscending(Insert(m, name, v), rest);
  }

  /** What the parser's maps make of a tree read in on-disk order. */
  function Normalize(v: EncodedValue): EncodedValue {
    match v
    case Array(vs) => Array(NormalizeAll(vs))
    case Annotation(ty, es) => Annotation(ty, InsertAll(NoElements, NormalizeElements(es)))
    case _ => v
  }

  function NormalizeAll(vs: seq<EncodedValue>): seq<EncodedValue> {
    if vs == [] then [] else [Normalize(vs[0])] + NormalizeAll(vs[1..])
  }

  function NormalizeElements(es: Elements): Elements {
    match es
    case NoElements => NoElements
    case Element(name, v, rest) => Element(name, Normalize(v), NormalizeElements(rest))
  }

  /** Every annotation of the tree lists its names in strictly ascending order. */
  predicate Ascending(v: EncodedValue) {
    match v
    case Array(vs) => AscendingAll(vs)
    case Annotation(_, es) => AscendingFrom(0, es) && AscendingElements(es)
    case _ => true
  }

  predicate AscendingAll(vs: seq<EncodedValue>) {
    vs == [] || (Ascending(vs[0]) && AscendingAll(vs[1..]))
  }

  predicate AscendingElements(es: Elements) {
    match es
    case NoElements => true
    case Element(_, v, rest) => Ascending(v) && AscendingElements(rest)
  }

  /** The map loses nothing exactly when every annotation is stored in ascending order. */
  lemma {:induction false} NormalizeIsIdentity(v: EncodedValue)
    ensures Ascending(v) <==> Normalize(v) == v
  {
    match v
    case Array(vs) => NormalizeAllIsIdentity(vs);
    case Annotation(_, es) =>
      NormalizeElementsIsIdentity(es);
      InsertAllIsAscending(NoElements, NormalizeElements(es));
      SameNames(0, es);
      if AscendingFrom(0, es) {
        InsertAllAppends(NoElements, 0, NormalizeElements(es));
      }
    case _ =>
  }

  lemma {:induction false} SameNames(low: nat, es: Elements)
    ensures AscendingFrom(low, NormalizeElements(es)) == AscendingFrom(low, es)
    decreases es
  {
    match es
    case NoElements =>
    case Element(name, _, rest) => SameNames(name + 1, rest);
  }

  lemma {:induction false} NormalizeAllIsIdentity(vs: seq<EncodedValue>)
    ensures AscendingAll(vs) <==> NormalizeAll(vs) == vs
  {
    if vs != [] {
      NormalizeIsIdentity(vs[0]);
      NormalizeAllIsIdentity(vs[1..]);
      assert NormalizeAll(vs)[1..] == NormalizeAll(vs[1..]);
      assert NormalizeAll(vs)[0] == Normalize(vs[0]);
    }
  }

  lemma {:induction false} NormalizeElementsIsIdentity(es: Elements)
    ensures AscendingElements(es) <==> NormalizeElements(es) == es
  {
    match es
    case NoElements =>
    case Element(_, v, rest) =>
      NormalizeIsIdentity(v);
      NormalizeElementsIsIdentity(rest);
  }
}
