/** cJSON_Compare as it runs, on linked items. */
module JsonItemCompare {
  import opened Bytes
  import opened Json
  import opened JsonNodes
  import opened JsonTrees
  import opened JsonCompare
  import JsonDuplicate

  /** No item is part of both trees. */
  ghost predicate Apart(a: Item, lowA: set<Item>, b: Item, lowB: set<Item>) {
    a != b && a !in lowB && b !in lowA && lowA !! lowB
  }

  // ----- the values that are left -----

  lemma ElemsLeft(es: Elems, vs: seq<Value>, i: nat)
    requires i <= |vs| && ElemsValues(es) == vs[i..]
    ensures es.Elem? <==> i < |vs|
    ensures es.Elem? ==> es.head == vs[i] && ElemsValues(es.tail) == vs[i + 1..]
  {
    if es.Elem? {
      assert vs[i..][0] == es.head && vs[i..][1..] == ElemsValues(es.tail);
    }
  }

  lemma MembersLeft(ms: Members, vs: seq<Value>, names: seq<seq<byte>>, i: nat)
    requires i <= |vs| == |names| && MembersValues(ms) == vs[i..] && MembersNames(ms) == names[i..]
    ensures ms.Member? <==> i < |vs|
    ensures ms.Member? ==> ms.value == vs[i] && MembersValues(ms.rest) == vs[i + 1..]
    ensures ms.Member? ==> ms.key == names[i] && MembersNames(ms.rest) == names[i + 1..]
  {
    if ms.Member? {
      assert vs[i..][0] == ms.value && vs[i..][1..] == MembersValues(ms.rest);
      assert names[i..][0] == ms.key && names[i..][1..] == MembersNames(ms.rest);
    }
  }

  /** The children of one tree are apart from those of another. */
  lemma KidsApart(a: Item, v: Value, lowA: set<Item>, b: Item, w: Value, lowB: set<Item>, i: nat, j: nat)
    requires Tree(a, v, lowA) && Tree(b, w, lowB) && Apart(a, lowA, b, lowB) && i < |a.kids| && j < |b.kids|
    ensures Apart(a.kids[i], lowA - Set(a.kids), b.kids[j], lowB - Set(b.kids))
  {
    ChildOf(a, v, lowA, i);
    ChildOf(b, w, lowB, j);
  }

  lemma NameOf(a: Item, ms: Members, low: set<Item>, i: nat)
    requires Tree(a, Object(ms), low) && i < |a.kids|
    ensures |a.kids| == |MembersNames(ms)| == |MembersValues(ms)| && a.kids[i].name == Some(MembersNames(ms)[i])
  {}

  // ----- the code -----

  /** The child has a key, and it is the name under the case rule. */
  ghost predicate Matches(child: Item, name: seq<byte>, caseSensitive: bool)
    reads child`name
  {
    child.name.Some? && Fold(child.name.value, caseSensitive) == Fold(name, caseSensitive)
  }

  /** get_object_item: the first child whose key matches, or NULL when none does. */
  method GetObjectItem(holder: Item, name: seq<byte>, caseSensitive: bool, ghost ms: Members, ghost low: set<Item>)
    returns (item: Item?, ghost k: nat)
    requires Tree(holder, Object(ms), low)
    ensures item != null ==> item in holder.kids && Matches(item, name, caseSensitive)
    ensures item == null <==> forall j :: 0 <= j < |holder.kids| ==> !Matches(holder.kids[j], name, caseSensitive)
    ensures k <= |holder.kids| == |MembersValues(ms)| && item == At(holder.kids, k)
    ensures forall j :: 0 <= j < k ==> !Matches(holder.kids[j], name, caseSensitive)
    ensures Find(ms, name, caseSensitive) == if k < |holder.kids| then Some(MembersValues(ms)[k]) else None
  {
    hide Tree, At, Matches, Fold, Find, JsonNodes.Linked;
    item, k := holder.child, 0;
    ghost var rest := ms;
    ghost var vs, names := MembersValues(ms), MembersNames(ms);
    FirstChild(holder, Object(ms), low);
    assert vs[0..] == vs && names[0..] == names;
    while item != null
      invariant k <= |holder.kids| == |vs| && item == At(holder.kids, k)
      invariant forall j :: 0 <= j < k ==> !Matches(holder.kids[j], name, caseSensitive)
      invariant MembersValues(rest) == vs[k..] && MembersNames(rest) == names[k..]
      invariant Find(rest, name, caseSensitive) == Find(ms, name, caseSensitive)
      decreases |vs| - k
    {
      ChildOf(holder, Object(ms), low, k);
      NameOf(holder, ms, low, k);
      MembersLeft(rest, vs, names, k);
      MatchStep(item, rest, name, caseSensitive);
      var same := SameKey(name, item.name.value, caseSensitive);
      if same {
        assert item == holder.kids[k];
        return;
      }
      item := item.next;
      rest := rest.rest;
      k := k + 1;
    }
    MembersLeft(rest, vs, names, k);
    FindNone(rest, name, caseSensitive);
  }

  lemma MatchStep(child: Item, rest: Members, name: seq<byte>, caseSensitive: bool)
    requires rest.Member? && child.name == Some(rest.key)
    ensures Matches(child, name, caseSensitive) <==> Fold(name, caseSensitive) == Fold(child.name.value, caseSensitive)
    ensures Find(rest, name, caseSensitive)
         == if Matches(child, name, caseSensitive) then Some(rest.value) else Find(rest.rest, name, caseSensitive)
  {
    hide Fold;
  }

  lemma FindNone(rest: Members, name: seq<byte>, caseSensitive: bool)
    ensures rest.End? ==> Find(rest, name, caseSensitive) == None
  {}

  lemma FirstChild(n: Item, v: Value, low: set<Item>)
    requires Tree(n, v, low)
    ensures n.child == At(n.kids, 0) && |n.kids| == |Below(v)|
  {}

  lemma SameKind(a: Item, v: Value, b: Item, w: Value)
    requires Root(a, v) && Root(b, w)
    ensures a.kind == b.kind ==> v.Null? == w.Null? && (v.Bool? <==> w.Bool?) && (v.Bool? ==> v == w)
    ensures a.kind == b.kind ==> v.Number? == w.Number? && v.String? == w.String?
    ensures a.kind == b.kind ==> v.Array? == w.Array? && v.Object? == w.Object?
    ensures a.kind != b.kind ==> !Same(v, w, true) && !Same(v, w, false)
  {}

  /** cJSON_Compare, on trees without a common item or on one and the same item. */
  method Compare(a: Item?, b: Item?, caseSensitive: bool,
                 ghost v: Value, ghost w: Value, ghost lowA: set<Item>, ghost lowB: set<Item>) returns (r: bool)
    requires a != null ==> Tree(a, v, lowA)
    requires b != null ==> Tree(b, w, lowB)
    requires a != null && b != null && a != b ==> Apart(a, lowA, b, lowB)
    ensures r <==> a != null && b != null && (a == b || Same(v, w, caseSensitive))
    decreases Size(v) + Size(w), 2
  {
    if a == null || b == null {
      return false;
    }
    SameKind(a, v, b, w);
    if a.kind != b.kind {
      return false;
    }
    if a == b {
      return true;
    }
    hide Tree;
    match a.kind {
      case FALSE => r := true;
      case TRUE => r := true;
      case NULL => r := true;
      case NUMBER => r := a.valueDouble == b.valueDouble;
      case STRING => r := a.valueString.Some? && b.valueString.Some? && a.valueString == b.valueString;
      case ARRAY => r := CompareArrays(a, b, caseSensitive, v.elems, w.elems, lowA, lowB);
      case OBJECT =>
        r := CompareWithin(a, b, caseSensitive, v.members, w.members, lowA, lowB);
        if r {
          r := CompareWithin(b, a, caseSensitive, w.members, v.members, lowB, lowA);
        }
    }
  }

  /** The loop over two arrays. */
  method CompareArrays(a: Item, b: Item, caseSensitive: bool,
                       ghost es: Elems, ghost fs: Elems, ghost lowA: set<Item>, ghost lowB: set<Item>) returns (r: bool)
    requires Tree(a, Array(es), lowA) && Tree(b, Array(fs), lowB) && Apart(a, lowA, b, lowB)
    ensures r <==> SameElems(es, fs, caseSensitive)
    decreases Size(Array(es)) + Size(Array(fs)), 1
  {
    hide Tree, At, Apart;
    var x, y := a.child, b.child;
    ghost var i := 0;
    ghost var xs, ys := es, fs;
    ghost var vs, ws := ElemsValues(es), ElemsValues(fs);
    FirstChild(a, Array(es), lowA);
    FirstChild(b, Array(fs), lowB);
    assert vs[0..] == vs && ws[0..] == ws;
    while x != null && y != null
      invariant i <= |a.kids| == |vs| && i <= |b.kids| == |ws| && x == At(a.kids, i) && y == At(b.kids, i)
      invariant ElemsValues(xs) == vs[i..] && ElemsValues(ys) == ws[i..]
      invariant SameElems(xs, ys, caseSensitive) == SameElems(es, fs, caseSensitive)
      decreases |vs| - i
    {
      ChildOf(a, Array(es), lowA, i);
      ChildOf(b, Array(fs), lowB, i);
      KidsApart(a, Array(es), lowA, b, Array(fs), lowB, i, i);
      ElemsLeft(xs, vs, i);
      ElemsLeft(ys, ws, i);
      var same := Compare(x, y, caseSensitive, vs[i], ws[i], lowA - Set(a.kids), lowB - Set(b.kids));
      NotSame(a.kids[i], lowA - Set(a.kids), b.kids[i], lowB - Set(b.kids));
      if !same {
        return false;
      }
      x, y := x.next, y.next;
      xs, ys := xs.tail, ys.tail;
      i := i + 1;
    }
    ElemsLeft(xs, vs, i);
    ElemsLeft(ys, ws, i);
    return x == y;
  }

  lemma NotSame(a: Item, lowA: set<Item>, b: Item, lowB: set<Item>)
    requires Apart(a, lowA, b, lowB)
    ensures a != b
  {}

  /** One of the two loops over objects: every child of `a` is found in `b` with an equal value. */
  method CompareWithin(a: Item, b: Item, caseSensitive: bool,
                       ghost ms: Members, ghost ns: Members, ghost lowA: set<Item>, ghost lowB: set<Item>)
    returns (r: bool)
    requires Tree(a, Object(ms), lowA) && Tree(b, Object(ns), lowB) && Apart(a, lowA, b, lowB)
    ensures r <==> Within(ms, ns, caseSensitive)
    decreases Size(Object(ms)) + Size(Object(ns)), 1
  {
    hide Tree, At, Apart, Matches, Fold, Find;
    var x := a.child;
    ghost var i := 0;
    ghost var xs := ms;
    ghost var vs, names := MembersValues(ms), MembersNames(ms);
    FirstChild(a, Object(ms), lowA);
    assert vs[0..] == vs && names[0..] == names;
    while x != null
      invariant i <= |a.kids| == |vs| && x == At(a.kids, i)
      invariant MembersValues(xs) == vs[i..] && MembersNames(xs) == names[i..]
      invariant Within(xs, ns, caseSensitive) == Within(ms, ns, caseSensitive)
      decreases |vs| - i
    {
      ChildOf(a, Object(ms), lowA, i);
      NameOf(a, ms, lowA, i);
      MembersLeft(xs, vs, names, i);
      var y, k := GetObjectItem(b, x.name.value, caseSensitive, ns, lowB);
      if y == null {
        return false;
      }
      ChildOf(b, Object(ns), lowB, k);
      KidsApart(a, Object(ms), lowA, b, Object(ns), lowB, i, k);
      var same := Compare(x, y, caseSensitive, vs[i], Below(Object(ns))[k], lowA - Set(a.kids), lowB - Set(b.kids));
      NotSame(a.kids[i], lowA - Set(a.kids), b.kids[k], lowB - Set(b.kids));
      if !same {
        return false;
      }
      x := x.next;
      xs := xs.rest;
      i := i + 1;
    }
    MembersLeft(xs, vs, names, i);
    return true;
  }

  /** An item and its deep copy compare equal exactly when the tree is consistent, so whenever keys are distinct. */
  method CompareCopy(item: Item, caseSensitive: bool, ghost v: Value, ghost low: set<Item>)
    returns (r: bool, copy: Item)
    requires Tree(item, v, low)
    ensures fresh(copy)
    ensures r <==> Consistent(v, caseSensitive)
    ensures DistinctKeys(v, caseSensitive) ==> r
  {
    hide Tree;
    CompareEquivalence(v, v, v, caseSensitive);
    if DistinctKeys(v, caseSensitive) {
      DistinctConsistent(v, caseSensitive);
    }
    var c, more := JsonDuplicate.Duplicate(item, true, v, low);
    r := Compare(item, c, caseSensitive, v, v, low, more);
    copy := c;
  }
}
