/** Which tree a linked item stands for. */
module JsonTrees {
  import opened Bytes
  import opened Json
  import opened JsonNodes
  import JsonCompare

  function ElemsValues(es: Elems): (r: seq<Value>)
    ensures forall i :: 0 <= i < |r| ==> JsonCompare.Size(r[i]) <= JsonCompare.ElemsSize(es)
  {
    if es.Done? then [] else [es.head] + ElemsValues(es.tail)
  }

  function MembersValues(ms: Members): (r: seq<Value>)
    ensures forall i :: 0 <= i < |r| ==> JsonCompare.Size(r[i]) <= JsonCompare.MembersSize(ms)
  {
    if ms.End? then [] else [ms.value] + MembersValues(ms.rest)
  }

  function MembersNames(ms: Members): (r: seq<seq<byte>>)
    ensures |r| == |MembersValues(ms)|
  {
    if ms.End? then [] else [ms.key] + MembersNames(ms.rest)
  }

  /** The values directly below a tree's root. */
  function Below(v: Value): (r: seq<Value>)
    ensures forall i :: 0 <= i < |r| ==> JsonCompare.Size(r[i]) < JsonCompare.Size(v)
  {
    match v
    case Array(es) => ElemsValues(es)
    case Object(ms) => MembersValues(ms)
    case _ => []
  }

  ghost function Set(s: seq<Item>): set<Item> {
    set x | x in s
  }

  /** The scalar fields of the root agree. */
  ghost predicate Root(n: Item, v: Value)
    reads n`kind, n`valueDouble, n`valueString
  {
    match v
    case Null => n.kind == NULL
    case Bool(b) => n.kind == if b then TRUE else FALSE
    case Number(x) => n.kind == NUMBER && n.valueDouble == x
    case String(s) => n.kind == STRING && n.valueString == Some(s)
    case Array(_) => n.kind == ARRAY
    case Object(_) => n.kind == OBJECT
  }

  ghost predicate Named(kids: seq<Item>, v: Value)
    requires |kids| == |Below(v)|
    reads kids`name
  {
    v.Object? ==> forall i :: 0 <= i < |kids| ==> kids[i].name == Some(MembersNames(v.members)[i])
  }

  /**
   * The item `n`, with its descendants in `low`, stands for the tree `v`. The children's descendants lie in what
   * the children themselves leave of `low`, so no item is its own descendant. The links of `n` do not matter.
   */
  ghost predicate Tree(n: Item, v: Value, low: set<Item>)
    reads n`kind, n`valueDouble, n`valueString, n`child, n`kids, low
    decreases JsonCompare.Size(v)
  {
    Root(n, v) && Set(n.kids) <= low && n.Valid() && |n.kids| == |Below(v)| && Named(n.kids, v)
    && forall i :: 0 <= i < |n.kids| ==> Tree(n.kids[i], Below(v)[i], low - Set(n.kids))
  }

  lemma {:induction false} MoreRoom(n: Item, v: Value, low: set<Item>, more: set<Item>)
    requires Tree(n, v, low) && low <= more
    ensures Tree(n, v, more)
    decreases JsonCompare.Size(v)
  {
    forall i | 0 <= i < |n.kids| ensures Tree(n.kids[i], Below(v)[i], more - Set(n.kids)) {
      MoreRoom(n.kids[i], Below(v)[i], low - Set(n.kids), more - Set(n.kids));
    }
  }

  /** An item stands for at most one tree. */
  lemma {:induction false} TreeUnique(n: Item, v: Value, w: Value, low: set<Item>, more: set<Item>)
    requires Tree(n, v, low) && Tree(n, w, more)
    ensures v == w
    decreases JsonCompare.Size(v)
  {
    forall i | 0 <= i < |n.kids| ensures Below(v)[i] == Below(w)[i] {
      TreeUnique(n.kids[i], Below(v)[i], Below(w)[i], low - Set(n.kids), more - Set(n.kids));
    }
    assert Below(v) == Below(w);
    if v.Array? {
      ElemsUnique(v.elems, w.elems);
    } else if v.Object? {
      var a, b := MembersNames(v.members), MembersNames(w.members);
      forall i | 0 <= i < |a| ensures a[i] == b[i] {
        assert n.kids[i].name == Some(a[i]) == Some(b[i]);
      }
      assert a == b;
      MembersUnique(v.members, w.members);
    }
  }

  lemma {:induction false} ElemsUnique(a: Elems, b: Elems)
    requires ElemsValues(a) == ElemsValues(b)
    ensures a == b
  {
    if a.Elem? && b.Elem? {
      assert ElemsValues(a)[0] == ElemsValues(b)[0] && ElemsValues(a)[1..] == ElemsValues(b)[1..];
      ElemsUnique(a.tail, b.tail);
    }
  }

  lemma {:induction false} MembersUnique(a: Members, b: Members)
    requires MembersValues(a) == MembersValues(b) && MembersNames(a) == MembersNames(b)
    ensures a == b
  {
    if a.Member? && b.Member? {
      assert MembersValues(a)[0] == MembersValues(b)[0] && MembersValues(a)[1..] == MembersValues(b)[1..];
      assert MembersNames(a)[0] == MembersNames(b)[0] && MembersNames(a)[1..] == MembersNames(b)[1..];
      MembersUnique(a.rest, b.rest);
    }
  }

  /** The child at `i`, and the tree it stands for. */
  lemma ChildOf(item: Item, v: Value, low: set<Item>, i: nat)
    requires Tree(item, v, low) && i < |item.kids|
    ensures |item.kids| == |Below(v)| && At(item.kids, i) == item.kids[i] && item.kids[i].next == At(item.kids, i + 1)
    ensures Tree(item.kids[i], Below(v)[i], low - Set(item.kids)) && item.kids[i] in low
  {}
}
