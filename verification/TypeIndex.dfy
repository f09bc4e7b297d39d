/**
 The type-to-class_def index of src/classes.rs and src/parser/mod.rs, and the
 bridge-constructor test that uses either the index or a linear scan.
 */
module TypeIndex {
  import opened Basics

  const ACC_SYNTHETIC: nat := 0x1000

  datatype ClassDef = ClassDef(classIdx: nat, accessFlags: nat) {
    /** Bit test against ACC_SYNTHETIC. */
    predicate Synthetic() {
      accessFlags / ACC_SYNTHETIC % 2 == 1
    }
  }

  /** Whatever the other flag bits are, only the bit 0x1000 decides. */
  lemma SyntheticIsOneBit(classIdx: nat, high: nat, bit: nat, low: nat)
    requires bit <= 1 && low < 0x1000
    ensures ClassDef(classIdx, high * 0x2000 + bit * 0x1000 + low).Synthetic() <==> bit == 1
  {
    assert (high * 0x2000 + bit * 0x1000 + low) / 0x1000 == 2 * high + bit;
  }

  /** The tables of the file that these functions read; the index is filled when the file is parsed. */
  datatype Dex = Dex(
    typeDescriptors: seq<string>,
    classDefs: seq<ClassDef>,
    typeLists: map<nat, seq<nat>>,
    classDefIndex: seq<Option<nat>>)

  datatype Proto = Proto(returnType: nat, parametersOff: nat)

  // ----- the index -----

  /** First row for type `ty` among the first `n`. */
  function FirstRow(rows: seq<ClassDef>, n: nat, ty: nat): (r: Option<nat>)
    requires n <= |rows|
    ensures r.Some? ==> r.value < n && rows[r.value].classIdx == ty
    ensures r.Some? ==> forall i :: 0 <= i < r.value ==> rows[i].classIdx != ty
    ensures r.None? ==> forall i :: 0 <= i < n ==> rows[i].classIdx != ty
  {
    if n == 0 then None
    else
      var earlier := FirstRow(rows, n - 1, ty);
      if earlier.Some? then earlier else if rows[n - 1].classIdx == ty then Some(n - 1) else None
  }

  predicate IsIndex(slots: seq<Option<nat>>, typeCount: nat, rows: seq<ClassDef>, n: nat)
    requires n <= |rows|
  {
    |slots| == typeCount && forall ty :: 0 <= ty < |slots| ==> slots[ty] == FirstRow(rows, n, ty)
  }

  /** `TypeToClassDefMap::build`: one pass, the first row of a type wins. */
  method Build(dex: Dex) returns (byTypeIdx: seq<Option<nat>>)
    ensures IsIndex(byTypeIdx, |dex.typeDescriptors|, dex.classDefs, |dex.classDefs|)
  {
    byTypeIdx := seq(|dex.typeDescriptors|, _ => None);
    for i := 0 to |dex.classDefs|
      invariant IsIndex(byTypeIdx, |dex.typeDescriptors|, dex.classDefs, i)
    {
      var ty := dex.classDefs[i].classIdx;
      if ty < |byTypeIdx| && byTypeIdx[ty].None? {
        byTypeIdx := byTypeIdx[ty := Some(i)];
      }
    }
  }

  /** `TypeToClassDefMap::lookup`. */
  function LookupSlot(byTypeIdx: seq<Option<nat>>, ty: nat): Option<nat> {
    if ty < |byTypeIdx| then byTypeIdx[ty] else None
  }

  /** Looking a type up gives its first row, for every type in range, and nothing otherwise. */
  lemma LookupIsFirstRow(dex: Dex, byTypeIdx: seq<Option<nat>>, ty: nat)
    requires IsIndex(byTypeIdx, |dex.typeDescriptors|, dex.classDefs, |dex.classDefs|)
    ensures match LookupSlot(byTypeIdx, ty)
            case None =>
              ty >= |dex.typeDescriptors| || forall i :: 0 <= i < |dex.classDefs| ==> dex.classDefs[i].classIdx != ty
            case Some(row) =>
              && ty < |dex.typeDescriptors| && row < |dex.classDefs| && dex.classDefs[row].classIdx == ty
              && forall i :: 0 <= i < row ==> dex.classDefs[i].classIdx != ty
  {
    hide FirstRow;
  }

  /** A row hidden by an earlier row of the same type. */
  predicate IsShadowed(dex: Dex, i: nat) {
    i < |dex.classDefs| &&
    var slot := LookupSlot(dex.classDefIndex, dex.classDefs[i].classIdx);
    slot.Some? && slot.value != i
  }

  // ----- the bridge-constructor test -----

  function TypeDescriptor(dex: Dex, ty: nat): Option<string> {
    if ty < |dex.typeDescriptors| then Some(dex.typeDescriptors[ty]) else None
  }

  /** Parameter type indices of a proto; `None` when its list is missing. */
  function ParamTypes(dex: Dex, proto: Proto): Option<seq<nat>> {
    if proto.parametersOff == 0 then Some([])
    else if proto.parametersOff in dex.typeLists then Some(dex.typeLists[proto.parametersOff])
    else None
  }

  /** Returns void and takes (String, int, something), all resolvable. */
  predicate HasBridgeShape(dex: Dex, proto: Proto) {
    var params := ParamTypes(dex, proto);
    && TypeDescriptor(dex, proto.returnType) == Some("V")
    && params.Some? && |params.value| == 3
    && TypeDescriptor(dex, params.value[0]) == Some("Ljava/lang/String;")
    && TypeDescriptor(dex, params.value[1]) == Some("I")
    && TypeDescriptor(dex, params.value[2]).Some?
  }

  /** Return type and parameter descriptors of a proto, if every index in it resolves. */
  function Signature(dex: Dex, proto: Proto): Option<(string, seq<string>)> {
    var params := ParamTypes(dex, proto);
    if proto.returnType < |dex.typeDescriptors| && params.Some?
       && forall i :: 0 <= i < |params.value| ==> params.value[i] < |dex.typeDescriptors| then
      Some((dex.typeDescriptors[proto.returnType],
            seq(|params.value|, i requires 0 <= i < |params.value| => dex.typeDescriptors[params.value[i]])))
    else None
  }

  /** The test looks for the signature (String, int, something) returning void, and for nothing else. */
  lemma ShapeIsSignature(dex: Dex, proto: Proto)
    ensures HasBridgeShape(dex, proto) <==>
            exists last :: Signature(dex, proto) == Some(("V", ["Ljava/lang/String;", "I", last]))
  {
    var params := ParamTypes(dex, proto);
    if HasBridgeShape(dex, proto) {
      var last := dex.typeDescriptors[params.value[2]];
      assert Signature(dex, proto).value.1 == ["Ljava/lang/String;", "I", last];
    }
    if last :| Signature(dex, proto) == Some(("V", ["Ljava/lang/String;", "I", last])) {
      var names := Signature(dex, proto).value.1;
      assert |names| == 3 && names[0] == "Ljava/lang/String;" && names[1] == "I";
    }
  }

  function LastParam(dex: Dex, proto: Proto): (ty: nat)
    requires HasBridgeShape(dex, proto)
    ensures ty < |dex.typeDescriptors|
  {
    ParamTypes(dex, proto).value[2]
  }

  /** The first row of a type carries ACC_SYNTHETIC. */
  predicate SyntheticType(dex: Dex, ty: nat) {
    var row := FirstRow(dex.classDefs, |dex.classDefs|, ty);
    row.Some? && dex.classDefs[row.value].Synthetic()
  }

  /** The branch that has an index at hand. */
  method IsBridgeIndexed(dex: Dex, proto: Proto, byTypeIdx: seq<Option<nat>>) returns (b: bool)
    requires IsIndex(byTypeIdx, |dex.typeDescriptors|, dex.classDefs, |dex.classDefs|)
    ensures b <==> HasBridgeShape(dex, proto) && SyntheticType(dex, LastParam(dex, proto))
  {
    if !HasBridgeShape(dex, proto) {
      return false;
    }
    var row := LookupSlot(byTypeIdx, LastParam(dex, proto));
    if row.None? || row.value >= |dex.classDefs| {
      return false;
    }
    return dex.classDefs[row.value].Synthetic();
  }

  /** A synthetic, unshadowed row whose descriptor is `desc`. */
  predicate Matches(dex: Dex, i: nat, desc: string) {
    && i < |dex.classDefs| && !IsShadowed(dex, i)
    && TypeDescriptor(dex, dex.classDefs[i].classIdx) == Some(desc)
    && dex.classDefs[i].Synthetic()
  }

  /** The branch that scans every row. */
  method IsBridgeScanned(dex: Dex, proto: Proto) returns (b: bool)
    ensures b <==> HasBridgeShape(dex, proto) &&
                   exists i: nat :: Matches(dex, i, dex.typeDescriptors[LastParam(dex, proto)])
  {
    if !HasBridgeShape(dex, proto) {
      return false;
    }
    var last := dex.typeDescriptors[LastParam(dex, proto)];
    for i := 0 to |dex.classDefs|
      invariant forall k: nat :: k < i ==> !Matches(dex, k, last)
    {
      if Matches(dex, i, last) {
        return true;
      }
    }
    return false;
  }

  predicate DistinctDescriptors(dex: Dex) {
    forall i, j :: 0 <= i < j < |dex.typeDescriptors| ==> dex.typeDescriptors[i] != dex.typeDescriptors[j]
  }

  /** The file's own index is complete, as it is after parsing. */
  predicate Indexed(dex: Dex) {
    IsIndex(dex.classDefIndex, |dex.typeDescriptors|, dex.classDefs, |dex.classDefs|)
  }

  /** Another type with the same descriptor as `ty` is synthetic. */
  predicate HasSyntheticTwin(dex: Dex, ty: nat)
    requires ty < |dex.typeDescriptors|
  {
    exists k :: 0 <= k < |dex.typeDescriptors| && dex.typeDescriptors[k] == dex.typeDescriptors[ty] &&
        SyntheticType(dex, k)
  }

  /** The scan finds a match exactly when some type with that descriptor is synthetic. */
  lemma ScanFindsTwin(dex: Dex, ty: nat)
    requires Indexed(dex) && ty < |dex.typeDescriptors|
    ensures (exists i: nat :: Matches(dex, i, dex.typeDescriptors[ty])) <==> HasSyntheticTwin(dex, ty)
  {
    hide FirstRow;
    var desc := dex.typeDescriptors[ty];
    if i: nat :| Matches(dex, i, desc) {
      var k := dex.classDefs[i].classIdx;
      assert dex.classDefIndex[k] == FirstRow(dex.classDefs, |dex.classDefs|, k);
      assert SyntheticType(dex, k);
    }
    if HasSyntheticTwin(dex, ty) {
      var k :| 0 <= k < |dex.typeDescriptors| && dex.typeDescriptors[k] == desc && SyntheticType(dex, k);
      var row := FirstRow(dex.classDefs, |dex.classDefs|, k).value;
      assert dex.classDefIndex[k] == Some(row);
      assert Matches(dex, row, desc);
    }
  }

  /** The two branches agree if and only if no twin descriptor is synthetic where the type itself is not. */
  lemma BranchesAgreeExactly(dex: Dex, proto: Proto)
    requires Indexed(dex) && HasBridgeShape(dex, proto)
    ensures var ty := LastParam(dex, proto);
            (SyntheticType(dex, ty) <==> exists i: nat :: Matches(dex, i, dex.typeDescriptors[ty])) <==>
            (SyntheticType(dex, ty) || !HasSyntheticTwin(dex, ty))
  {
    hide Matches, SyntheticType, HasBridgeShape;
    var ty := LastParam(dex, proto);
    ScanFindsTwin(dex, ty);
    if SyntheticType(dex, ty) {
      assert HasSyntheticTwin(dex, ty);
    }
  }

  /** With distinct descriptors the two branches give one verdict on every class table, duplicates included. */
  lemma BranchesAgree(dex: Dex, proto: Proto)
    requires Indexed(dex) && DistinctDescriptors(dex) && HasBridgeShape(dex, proto)
    ensures var ty := LastParam(dex, proto);
            SyntheticType(dex, ty) <==> exists i: nat :: Matches(dex, i, dex.typeDescriptors[ty])
  {
    hide Matches, SyntheticType, HasBridgeShape;
    var ty := LastParam(dex, proto);
    BranchesAgreeExactly(dex, proto);
    if HasSyntheticTwin(dex, ty) {
      var k :| 0 <= k < |dex.typeDescriptors| && dex.typeDescriptors[k] == dex.typeDescriptors[ty] &&
          SyntheticType(dex, k);
      assert k == ty;
    }
  }

  /** Two types called alike, only the second synthetic: the scan says yes, the index no. */
  lemma TwinsDisagree()
    ensures var dex := Dex(["V", "Ljava/lang/String;", "I", "LA;", "LA;"], [ClassDef(4, ACC_SYNTHETIC)],
                           map[8 := [1, 2, 3]],
                           [None, None, None, None, Some(0)]);
            && Indexed(dex) && HasBridgeShape(dex, Proto(0, 8))
            && !SyntheticType(dex, 3) && Matches(dex, 0, dex.typeDescriptors[3])
  {
    var rows := [ClassDef(4, ACC_SYNTHETIC)];
    assert FirstRow(rows, 0, 4) == None;
    assert FirstRow(rows, 1, 4) == Some(0);
  }
}
