/** cJSON_Duplicate on linked items: the deep copy stands for the same tree. */
module JsonDuplicate {
  import opened Bytes
  import opened Json
  import opened JsonNodes
  import opened JsonTrees
  import JsonCompare

  /** The items stand for the first of the values, all their descendants in `low`. */
  ghost predicate Forest(kids: seq<Item>, vs: seq<Value>, low: set<Item>)
    reads kids`kind, kids`valueDouble, kids`valueString, kids`child, kids`kids, low
  {
    |kids| <= |vs| && forall i :: 0 <= i < |kids| ==> Tree(kids[i], vs[i], low)
  }

  /** The names of the first items, in order. */
  ghost predicate SameNames(a: seq<Item>, b: seq<Item>)
    reads a`name, b`name
  {
    |a| <= |b| && forall i :: 0 <= i < |a| ==> a[i].name == b[i].name
  }

  lemma ForestGrows(kids: seq<Item>, n: Item, vs: seq<Value>, low: set<Item>, more: set<Item>)
    requires Forest(kids, vs, low) && |kids| < |vs| && Tree(n, vs[|kids|], more)
    ensures Forest(kids + [n], vs, low + more)
  {
    hide Tree;
    var all := kids + [n];
    forall i | 0 <= i < |all| ensures Tree(all[i], vs[i], low + more) {
      MoreRoom(all[i], vs[i], if i < |kids| then low else more, low + more);
    }
  }

  /** Hang a copied child behind the last one. */
  method Attach(parent: Item, last: Item?, item: Item)
    requires parent.Valid() && last == At(parent.kids, |parent.kids| - 1) && item.Detached() && item !in parent.kids
    modifies parent`child, parent`kids, parent.kids`next, item`prev
    ensures parent.Valid() && parent.kids == old(parent.kids) + [item]
  {
    hide At, Distinct, NextAs, PrevAs, Linked, Alone;
    ghost var s := parent.kids;
    Ends(s);
    NoLink(s, |s|, item);
    if last != null {
      PointNext(last, item, s, |s| - 1);
      item.prev := last;
    } else {
      NoLink(s, -1, item);
      parent.child := item;
    }
    LinkedInserted(s, |s|, item);
    assert Inserted(s, |s|, item) == s + [item];
    hide Inserted;
    parent.kids := s + [item];
  }

  /** cJSON_Duplicate: new items throughout, which stand for the same tree; nothing that existed changes. */
  method Duplicate(item: Item?, recurse: bool, ghost v: Value, ghost low: set<Item>)
    returns (r: Item?, ghost rLow: set<Item>)
    requires item != null ==> Tree(item, v, low)
    ensures (r == null) == (item == null)
    ensures r != null ==> fresh(r) && r.Detached() && r.name == item.name && Root(r, v)
    ensures fresh(rLow) && r !in rLow
    ensures r != null ==> if recurse then Tree(r, v, rLow) else r.child == null && r.kids == []
    decreases JsonCompare.Size(v), 2
  {
    rLow := {};
    if item == null {
      return null, rLow;
    }
    var copy := new Item(item.kind, item.valueDouble, item.valueString, item.name);
    if !recurse {
      return copy, rLow;
    }
    r := copy;
    rLow := DuplicateChildren(item, copy, v, low);
  }

  /** The first `i` children of `item` have their copies below `copy`. */
  ghost predicate Copied(item: Item, copy: Item, v: Value, i: nat, below: set<Item>)
    reads item`kids, item.kids`name, copy, copy.kids, below
  {
    copy.Valid() && |copy.kids| == i && Forest(copy.kids, Below(v), below) && SameNames(copy.kids, item.kids)
    && Set(copy.kids) !! below && copy !in below && copy !in copy.kids && Root(copy, v)
  }

  lemma CopiedNone(item: Item, copy: Item, v: Value, low: set<Item>)
    requires Tree(item, v, low) && Root(copy, v) && copy.child == null && copy.kids == []
    ensures Copied(item, copy, v, 0, {}) && copy !in Set(copy.kids) && item.child == At(item.kids, 0)
  {
    hide Below;
  }

  lemma CopiedAll(item: Item, copy: Item, v: Value, low: set<Item>, below: set<Item>)
    requires Tree(item, v, low) && Copied(item, copy, v, |item.kids|, below)
    ensures Tree(copy, v, below + Set(copy.kids))
  {
    assert below + Set(copy.kids) - Set(copy.kids) == below;
    hide Linked, JsonCompare.Size;
  }

  lemma LastAt(s: seq<Item>)
    requires s != []
    ensures At(s, |s| - 1) == s[|s| - 1]
  {}

  /** One round of the walk over the children. */
  method CopyChild(item: Item, copy: Item, child: Item, last: Item?,
                   ghost v: Value, ghost low: set<Item>, ghost i: nat, ghost below: set<Item>)
    returns (newChild: Item, ghost all: set<Item>)
    requires Tree(item, v, low) && copy !in low && copy != item && Copied(item, copy, v, i, below)
    requires i < |item.kids| && child == item.kids[i] && last == At(copy.kids, i - 1)
    modifies copy`child, copy`kids, copy.kids`next
    ensures Copied(item, copy, v, i + 1, all) && copy.kids == old(copy.kids) + [newChild]
    ensures |copy.kids| == i + 1 && newChild == At(copy.kids, i)
    ensures fresh(newChild) && fresh(all - below) && copy !in all + Set(copy.kids)
    decreases JsonCompare.Size(v), 0
  {
    hide Tree, Forest, Below, Root, Linked, At;
    ChildOf(item, v, low, i);
    ghost var more;
    newChild, more := Duplicate(child, true, Below(v)[i], low - Set(item.kids));
    ForestGrows(copy.kids, newChild, Below(v), below, more);
    Attach(copy, last, newChild);
    LastAt(copy.kids);
    all := below + more;
  }

  /** The walk over the children. */
  method DuplicateChildren(item: Item, copy: Item, ghost v: Value, ghost low: set<Item>)
    returns (ghost rLow: set<Item>)
    requires Tree(item, v, low) && copy !in low && copy != item
    requires Root(copy, v) && copy.child == null && copy.kids == []
    modifies copy`child, copy`kids
    ensures Tree(copy, v, rLow) && fresh(rLow) && copy !in rLow
    decreases JsonCompare.Size(v), 1
  {
    hide Tree, Copied, At, Root, Linked, Below;
    ghost var below := {};
    var child := item.child;
    var last: Item? := null;
    ghost var i := 0;
    CopiedNone(item, copy, v, low);
    while child != null
      invariant i <= |item.kids| && child == At(item.kids, i)
      invariant |copy.kids| == i && last == At(copy.kids, i - 1)
      invariant Copied(item, copy, v, i, below) && copy !in below + Set(copy.kids)
      invariant fresh(copy.kids) && fresh(below)
      decreases |item.kids| - i
    {
      ChildOf(item, v, low, i);
      last, below := CopyChild(item, copy, child, last, v, low, i, below);
      child := child.next;
      i := i + 1;
    }
    CopiedAll(item, copy, v, low, below);
    rLow := below + Set(copy.kids);
  }
}
