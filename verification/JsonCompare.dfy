/** cJSON_Compare: the two-way walk, and the equality of meanings it decides. */
module JsonCompare {
  import opened Bytes
  import opened Json

  // ----- keys -----

  /** The form of a key that the case rule compares. */
  function Fold(k: seq<byte>, caseSensitive: bool): seq<byte> {
    if caseSensitive then k else LowerAll(k)
  }

  /** Two bytes that are equal or the two cases of one letter from A to Z. */
  predicate SameLetter(x: byte, y: byte) {
    x == y || (65 <= x <= 90 && y == x + 32) || (65 <= y <= 90 && x == y + 32)
  }

  lemma OneLetter(x: byte, y: byte)
    ensures ToLower(x) == ToLower(y) <==> SameLetter(x, y)
  {}

  lemma FoldLetters(a: seq<byte>, b: seq<byte>)
    ensures LowerAll(a) == LowerAll(b) <==> |a| == |b| && forall i :: 0 <= i < |a| ==> SameLetter(a[i], b[i])
  {
    hide ToLower, SameLetter;
    forall i | 0 <= i < |a| && i < |b|
      ensures LowerAll(a)[i] == LowerAll(b)[i] <==> SameLetter(a[i], b[i])
    {
      OneLetter(a[i], b[i]);
    }
    hide LowerAll;
  }

  /** strcmp and case_insensitive_strcmp, used as an equality test on C strings. */
  method SameKey(a: seq<byte>, b: seq<byte>, caseSensitive: bool) returns (same: bool)
    ensures same <==> Fold(a, caseSensitive) == Fold(b, caseSensitive)
    ensures caseSensitive ==> (same <==> a == b)
    ensures !caseSensitive ==> (same <==> |a| == |b| && forall i :: 0 <= i < |a| ==> SameLetter(a[i], b[i]))
  {
    FoldLetters(a, b);
    hide SameLetter;
    if caseSensitive {
      return a == b;
    }
    var i := 0;
    while i < |a| && i < |b| && ToLower(a[i]) == ToLower(b[i])
      invariant 0 <= i <= |a| && i <= |b|
      invariant forall j :: 0 <= j < i ==> ToLower(a[j]) == ToLower(b[j])
    {
      i := i + 1;
    }
    same := i == |a| == |b|;
    if i < |a| && i < |b| {
      assert LowerAll(a)[i] != LowerAll(b)[i];
    }
  }

  /** get_object_item: the first member with the key. */
  function Find(ms: Members, key: seq<byte>, caseSensitive: bool): (r: Option<Value>)
    ensures r.Some? ==> Size(r.value) <= MembersSize(ms)
  {
    match ms
    case End => None
    case Member(k, t, rest) =>
      if Fold(k, caseSensitive) == Fold(key, caseSensitive) then Some(t) else Find(rest, key, caseSensitive)
  }

  // ----- what Compare computes -----

  function Size(t: Value): (n: nat)
    ensures n > 0
  {
    match t
    case Array(es) => 1 + ElemsSize(es)
    case Object(ms) => 1 + MembersSize(ms)
    case _ => 1
  }

  function ElemsSize(es: Elems): nat {
    if es.Done? then 0 else Size(es.head) + ElemsSize(es.tail)
  }

  function MembersSize(ms: Members): nat {
    if ms.End? then 0 else Size(ms.value) + MembersSize(ms.rest)
  }

  predicate Same(a: Value, b: Value, caseSensitive: bool)
    decreases Size(a) + Size(b), 0
  {
    match (a, b)
    case (Array(xs), Array(ys)) => SameElems(xs, ys, caseSensitive)
    case (Object(xs), Object(ys)) => Within(xs, ys, caseSensitive) && Within(ys, xs, caseSensitive)
    case _ => a == b
  }

  predicate SameElems(xs: Elems, ys: Elems, caseSensitive: bool)
    decreases ElemsSize(xs) + ElemsSize(ys), 1
  {
    if xs.Elem? && ys.Elem? then Same(xs.head, ys.head, caseSensitive) && SameElems(xs.tail, ys.tail, caseSensitive)
    else xs.Done? && ys.Done?
  }

  /** Every member of `xs` is found in `ys` with an equal value. */
  predicate Within(xs: Members, ys: Members, caseSensitive: bool)
    decreases MembersSize(xs) + MembersSize(ys), 1
  {
    xs.End? ||
    (var y := Find(ys, xs.key, caseSensitive);
     y.Some? && Same(xs.value, y.value, caseSensitive) && Within(xs.rest, ys, caseSensitive))
  }

  // ----- meanings -----

  /** What a tree means under a case rule: objects are maps from folded keys. */
  datatype Meaning =
    | MLeaf(value: Value)
    | MArray(items: seq<Meaning>)
    | MObject(fields: map<seq<byte>, Meaning>)

  function MeaningOf(t: Value, caseSensitive: bool): Meaning {
    match t
    case Array(es) => MArray(Items(es, caseSensitive))
    case Object(ms) => MObject(Fields(ms, caseSensitive))
    case _ => MLeaf(t)
  }

  function Items(es: Elems, caseSensitive: bool): seq<Meaning> {
    if es.Done? then [] else [MeaningOf(es.head, caseSensitive)] + Items(es.tail, caseSensitive)
  }

  /** The first of several members with one key counts. */
  function Fields(ms: Members, caseSensitive: bool): map<seq<byte>, Meaning> {
    if ms.End? then map[]
    else Fields(ms.rest, caseSensitive)[Fold(ms.key, caseSensitive) := MeaningOf(ms.value, caseSensitive)]
  }

  /** Members that share a key mean the same, everywhere in the tree. Distinct keys are enough. */
  predicate Consistent(t: Value, caseSensitive: bool) {
    match t
    case Array(es) => ConsistentElems(es, caseSensitive)
    case Object(ms) => Agree(ms, Fields(ms, caseSensitive), caseSensitive)
    case _ => true
  }

  predicate ConsistentElems(es: Elems, caseSensitive: bool) {
    es.Done? || (Consistent(es.head, caseSensitive) && ConsistentElems(es.tail, caseSensitive))
  }

  /** Every member is consistent and means what `fields` has for its key. */
  predicate Agree(ms: Members, fields: map<seq<byte>, Meaning>, caseSensitive: bool) {
    ms.End? ||
    (var k := Fold(ms.key, caseSensitive);
     k in fields && fields[k] == MeaningOf(ms.value, caseSensitive)
     && Consistent(ms.value, caseSensitive) && Agree(ms.rest, fields, caseSensitive))
  }

  predicate DistinctKeys(t: Value, caseSensitive: bool) {
    match t
    case Array(es) => DistinctElems(es, caseSensitive)
    case Object(ms) => DistinctMembers(ms, caseSensitive)
    case _ => true
  }

  predicate DistinctElems(es: Elems, caseSensitive: bool) {
    es.Done? || (DistinctKeys(es.head, caseSensitive) && DistinctElems(es.tail, caseSensitive))
  }

  predicate DistinctMembers(ms: Members, caseSensitive: bool) {
    ms.End?
    || (Find(ms.rest, ms.key, caseSensitive) == None
        && DistinctKeys(ms.value, caseSensitive) && DistinctMembers(ms.rest, caseSensitive))
  }

  // ----- Compare decides equality of meanings -----

  lemma {:induction false} FindIsField(ms: Members, key: seq<byte>, caseSensitive: bool)
    ensures var k := Fold(key, caseSensitive); var r := Find(ms, key, caseSensitive);
      (r.Some? <==> k in Fields(ms, caseSensitive))
      && (r.Some? ==> Fields(ms, caseSensitive)[k] == MeaningOf(r.value, caseSensitive))
  {
    if ms.Member? {
      FindIsField(ms.rest, key, caseSensitive);
    }
  }

  /** One direction of the object walk: `xs` agrees with the fields of `ys`, whose values are consistent. */
  lemma {:induction false} WithinMeans(xs: Members, ys: Members, caseSensitive: bool)
    ensures Within(xs, ys, caseSensitive) ==> Agree(xs, Fields(ys, caseSensitive), caseSensitive)
    ensures Agree(xs, Fields(ys, caseSensitive), caseSensitive) && ConsistentValues(ys, caseSensitive)
      ==> Within(xs, ys, caseSensitive)
    decreases MembersSize(xs) + MembersSize(ys), 1
  {
    if xs.Member? {
      FindIsField(ys, xs.key, caseSensitive);
      WithinMeans(xs.rest, ys, caseSensitive);
      var y := Find(ys, xs.key, caseSensitive);
      if y.Some? {
        FoundConsistent(ys, xs.key, caseSensitive);
        SameIsMeaning(xs.value, y.value, caseSensitive);
      }
    }
  }

  predicate ConsistentValues(ms: Members, caseSensitive: bool) {
    ms.End? || (Consistent(ms.value, caseSensitive) && ConsistentValues(ms.rest, caseSensitive))
  }

  lemma FoundConsistent(ms: Members, key: seq<byte>, caseSensitive: bool)
    requires Find(ms, key, caseSensitive).Some?
    ensures ConsistentValues(ms, caseSensitive) ==> Consistent(Find(ms, key, caseSensitive).value, caseSensitive)
  {}

  lemma {:induction ms} AgreeConsistent(ms: Members, fields: map<seq<byte>, Meaning>, caseSensitive: bool)
    ensures Agree(ms, fields, caseSensitive) ==> ConsistentValues(ms, caseSensitive)
  {}

  /** Members that agree with `fields` give a part of it. */
  lemma {:induction false} AgreeFields(ms: Members, fields: map<seq<byte>, Meaning>, caseSensitive: bool)
    requires Agree(ms, fields, caseSensitive)
    ensures forall k :: k in Fields(ms, caseSensitive) ==> k in fields && fields[k] == Fields(ms, caseSensitive)[k]
  {
    if ms.Member? {
      AgreeFields(ms.rest, fields, caseSensitive);
    }
  }

  lemma ObjectsMean(xs: Members, ys: Members, caseSensitive: bool)
    ensures (Agree(xs, Fields(ys, caseSensitive), caseSensitive) && Agree(ys, Fields(xs, caseSensitive), caseSensitive))
      <==> (Fields(xs, caseSensitive) == Fields(ys, caseSensitive)
            && Agree(xs, Fields(xs, caseSensitive), caseSensitive)
            && Agree(ys, Fields(ys, caseSensitive), caseSensitive))
  {
    var fx, fy := Fields(xs, caseSensitive), Fields(ys, caseSensitive);
    if Agree(xs, fy, caseSensitive) && Agree(ys, fx, caseSensitive) {
      AgreeFields(xs, fy, caseSensitive);
      AgreeFields(ys, fx, caseSensitive);
      assert fx.Keys == fy.Keys;
      assert fx == fy;
    }
  }

  lemma {:induction false} SameElemsIsMeaning(xs: Elems, ys: Elems, caseSensitive: bool)
    ensures SameElems(xs, ys, caseSensitive)
      <==> (Items(xs, caseSensitive) == Items(ys, caseSensitive)
            && ConsistentElems(xs, caseSensitive) && ConsistentElems(ys, caseSensitive))
    decreases ElemsSize(xs) + ElemsSize(ys), 1
  {
    if xs.Elem? && ys.Elem? {
      SameIsMeaning(xs.head, ys.head, caseSensitive);
      SameElemsIsMeaning(xs.tail, ys.tail, caseSensitive);
      var (x, xr) := (MeaningOf(xs.head, caseSensitive), Items(xs.tail, caseSensitive));
      var (y, yr) := (MeaningOf(ys.head, caseSensitive), Items(ys.tail, caseSensitive));
      assert ([x] + xr)[0] == x && ([x] + xr)[1..] == xr;
      assert ([y] + yr)[0] == y && ([y] + yr)[1..] == yr;
    }
  }

  /**
   * cJSON_Compare on two separate trees holds exactly when they mean the same and members sharing a key agree in
   * both of them. So it is symmetric and transitive for all trees and reflexive exactly on consistent ones.
   */
  lemma {:induction false} SameIsMeaning(a: Value, b: Value, caseSensitive: bool)
    ensures Same(a, b, caseSensitive)
      <==> (MeaningOf(a, caseSensitive) == MeaningOf(b, caseSensitive)
            && Consistent(a, caseSensitive) && Consistent(b, caseSensitive))
    decreases Size(a) + Size(b), 0
  {
    match (a, b)
    case (Array(xs), Array(ys)) => SameElemsIsMeaning(xs, ys, caseSensitive);
    case (Object(xs), Object(ys)) =>
      var fx, fy := Fields(xs, caseSensitive), Fields(ys, caseSensitive);
      WithinMeans(xs, ys, caseSensitive);
      WithinMeans(ys, xs, caseSensitive);
      AgreeConsistent(xs, fy, caseSensitive);
      AgreeConsistent(ys, fx, caseSensitive);
      AgreeConsistent(xs, fx, caseSensitive);
      AgreeConsistent(ys, fy, caseSensitive);
      ObjectsMean(xs, ys, caseSensitive);
    case _ =>
  }

  /** An equivalence on consistent trees, and elsewhere all of it but reflexivity. */
  lemma CompareEquivalence(a: Value, b: Value, c: Value, caseSensitive: bool)
    ensures Same(a, a, caseSensitive) <==> Consistent(a, caseSensitive)
    ensures Same(a, b, caseSensitive) == Same(b, a, caseSensitive)
    ensures Same(a, b, caseSensitive) && Same(b, c, caseSensitive) ==> Same(a, c, caseSensitive)
  {
    SameIsMeaning(a, a, caseSensitive);
    SameIsMeaning(a, b, caseSensitive);
    SameIsMeaning(b, a, caseSensitive);
    SameIsMeaning(b, c, caseSensitive);
    SameIsMeaning(a, c, caseSensitive);
  }

  lemma {:induction false} DistinctAgree(ms: Members, fields: map<seq<byte>, Meaning>, caseSensitive: bool)
    requires DistinctMembers(ms, caseSensitive)
    requires forall k :: k in Fields(ms, caseSensitive) ==> k in fields && fields[k] == Fields(ms, caseSensitive)[k]
    ensures Agree(ms, fields, caseSensitive)
    decreases ms
  {
    if ms.Member? {
      FindIsField(ms.rest, ms.key, caseSensitive);
      DistinctConsistent(ms.value, caseSensitive);
      var k, all, part := Fold(ms.key, caseSensitive), Fields(ms, caseSensitive), Fields(ms.rest, caseSensitive);
      assert k in all;
      assert forall j :: j in part ==> j in all && all[j] == part[j];
      DistinctAgree(ms.rest, fields, caseSensitive);
    }
  }

  lemma {:induction false} DistinctElemsConsistent(es: Elems, caseSensitive: bool)
    requires DistinctElems(es, caseSensitive)
    ensures ConsistentElems(es, caseSensitive)
    decreases es
  {
    if es.Elem? {
      DistinctConsistent(es.head, caseSensitive);
      DistinctElemsConsistent(es.tail, caseSensitive);
    }
  }

  lemma {:induction false} DistinctConsistent(t: Value, caseSensitive: bool)
    requires DistinctKeys(t, caseSensitive)
    ensures Consistent(t, caseSensitive)
    decreases t
  {
    match t
    case Array(es) => DistinctElemsConsistent(es, caseSensitive);
    case Object(ms) => DistinctAgree(ms, Fields(ms, caseSensitive), caseSensitive);
    case _ =>
  }

  /** On trees whose objects have distinct keys under the case rule, Compare is exactly equality of meanings. */
  lemma DistinctCompare(a: Value, b: Value, caseSensitive: bool)
    requires DistinctKeys(a, caseSensitive) && DistinctKeys(b, caseSensitive)
    ensures Same(a, b, caseSensitive) <==> MeaningOf(a, caseSensitive) == MeaningOf(b, caseSensitive)
    ensures Same(a, a, caseSensitive)
  {
    DistinctConsistent(a, caseSensitive);
    DistinctConsistent(b, caseSensitive);
    SameIsMeaning(a, b, caseSensitive);
    SameIsMeaning(a, a, caseSensitive);
  }

  /** A tree that is not even equal to its own copy: two members with one key and different values. */
  lemma DuplicateKeysNotReflexive()
    ensures var t := Object(Member([97], Null, Member([97], Bool(true), End))); !Same(t, t, true)
  {
    var ms := Member([97], Null, Member([97], Bool(true), End));
    assert Find(ms, [97], true) == Some(Null);
    assert !Within(ms.rest, ms, true);
  }
}
