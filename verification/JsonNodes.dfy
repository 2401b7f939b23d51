/** cJSON items as linked nodes: the edits of a container's sibling list, over the sequence of its children. */
module JsonNodes {
  import opened Bytes

  datatype Kind = FALSE | TRUE | NULL | NUMBER | STRING | ARRAY | OBJECT

  class Item {
    var next: Item?
    var prev: Item?
    var child: Item?
    var kind: Kind
    var valueDouble: real
    var valueString: Option<seq<byte>>
    var name: Option<seq<byte>>
    /** The children in order; only containers have any. */
    ghost var kids: seq<Item>

    /** cJSON_New_Item, with the scalar fields already filled in. */
    constructor (kind: Kind, valueDouble: real, valueString: Option<seq<byte>>, name: Option<seq<byte>>)
      ensures next == null && prev == null && child == null && kids == []
      ensures this.kind == kind && this.valueDouble == valueDouble
      ensures this.valueString == valueString && this.name == name
    {
      next, prev, child, kids := null, null, null, [];
      this.kind, this.valueDouble, this.valueString, this.name := kind, valueDouble, valueString, name;
    }

    /** The child list is exactly `kids`: ended by NULL on both sides, links matching, no item twice. */
    ghost predicate Valid()
      reads this`child, this`kids, kids`next, kids`prev
    {
      child == At(kids, 0) && Linked(kids)
    }

    /** In nobody's list. */
    ghost predicate Detached()
      reads this`next, this`prev
    {
      next == null && prev == null
    }
  }

  function At(s: seq<Item>, i: int): (r: Item?)
    ensures r != null <==> 0 <= i < |s|
  {
    if 0 <= i < |s| then s[i] else null
  }

  ghost predicate Distinct(s: seq<Item>) {
    forall i, j :: 0 <= i < j < |s| ==> s[i] != s[j]
  }

  /** Every item but the one at `skip` points to its successor, the one at `k` to `to` instead. */
  ghost predicate NextAs(s: seq<Item>, k: int, to: Item?, skip: int)
    reads s`next
  {
    forall i :: 0 <= i < |s| && i != skip ==> s[i].next == if i == k then to else At(s, i + 1)
  }

  ghost predicate PrevAs(s: seq<Item>, k: int, to: Item?, skip: int)
    reads s`prev
  {
    forall i :: 0 <= i < |s| && i != skip ==> s[i].prev == if i == k then to else At(s, i - 1)
  }

  ghost predicate Linked(s: seq<Item>)
    reads s`next, s`prev
  {
    Distinct(s) && NextAs(s, -1, null, -1) && PrevAs(s, -1, null, -1)
  }

  /** The children of a container, none of a missing one. */
  ghost function Kids(p: Item?): seq<Item>
    reads p
  {
    if p == null then [] else p.kids
  }

  ghost function Single(p: Item?): set<Item> {
    if p == null then {} else {p}
  }

  ghost predicate ValidParent(p: Item?)
    reads p, Kids(p)
  {
    p != null ==> p.Valid()
  }

  function Inserted(s: seq<Item>, k: nat, x: Item): seq<Item>
    requires k <= |s|
  {
    s[..k] + [x] + s[k..]
  }

  function Without(s: seq<Item>, k: nat): seq<Item>
    requires k < |s|
  {
    s[..k] + s[k + 1..]
  }

  // ----- the chains that the edits leave -----

  lemma WithoutAt(s: seq<Item>, k: nat, i: int)
    requires k < |s|
    ensures At(Without(s, k), i) == At(s, if i < k then i else i + 1)
  {}

  lemma InsertedAt(s: seq<Item>, k: nat, x: Item, i: int)
    requires k <= |s|
    ensures At(Inserted(s, k, x), i) == if i < k then At(s, i) else if i == k then x else At(s, i - 1)
  {}

  lemma DistinctWithout(s: seq<Item>, k: nat)
    requires Distinct(s) && k < |s|
    ensures Distinct(Without(s, k))
  {}

  /** The items next to position `k`. */
  lemma Around(s: seq<Item>, k: nat)
    requires Linked(s) && k < |s|
    ensures s[k] == At(s, k) && s[k].prev == At(s, k - 1) && s[k].next == At(s, k + 1)
    ensures At(s, k - 1) == if k == 0 then null else s[k - 1]
    ensures At(s, k + 1) == if k + 1 == |s| then null else s[k + 1]
    ensures k == 0 <==> At(s, 0) == s[k]
    ensures Alone(s, k - 1) && Alone(s, k) && Alone(s, k + 1)
    ensures Distinct(s) && NextAs(s, -1, null, -1) && PrevAs(s, -1, null, -1)
  {}

  lemma Ends(s: seq<Item>)
    requires Linked(s)
    ensures At(s, |s|) == null && At(s, -1) == null && (At(s, 0) == null <==> s == [])
    ensures s != [] ==> At(s, |s| - 1) == s[|s| - 1] && Alone(s, |s| - 1)
    ensures Distinct(s) && NextAs(s, -1, null, -1) && PrevAs(s, -1, null, -1)
  {}

  /** No other position holds the item at `k`. */
  ghost predicate Alone(s: seq<Item>, k: int) {
    0 <= k < |s| ==> forall i :: 0 <= i < |s| && i != k ==> s[i] != s[k]
  }

  /** Once the neighbours of position `k` point past it, the rest is a chain. */
  lemma LinkedWithout(s: seq<Item>, k: nat)
    requires Distinct(s) && k < |s|
    requires NextAs(s, k - 1, At(s, k + 1), k) && PrevAs(s, k + 1, At(s, k - 1), k)
    ensures Linked(Without(s, k)) && At(Without(s, k), 0) == At(s, if k == 0 then 1 else 0)
  {
    hide At;
    var r := Without(s, k);
    DistinctWithout(s, k);
    WithoutAt(s, k, 0);
    forall i | 0 <= i < |r| ensures r[i].next == At(r, i + 1) && r[i].prev == At(r, i - 1) {
      assert r[i] == s[if i < k then i else i + 1];
      WithoutAt(s, k, i + 1);
      WithoutAt(s, k, i - 1);
      hide Without;
    }
  }

  /** Once `x` and the neighbours around position `k` point to each other, it is part of the chain. */
  lemma LinkedInserted(s: seq<Item>, k: nat, x: Item)
    requires Distinct(s) && k <= |s| && x !in s && x.next == At(s, k) && x.prev == At(s, k - 1)
    requires NextAs(s, k - 1, x, -1) && PrevAs(s, k, x, -1)
    ensures Linked(Inserted(s, k, x)) && At(Inserted(s, k, x), 0) == if k == 0 then x else At(s, 0)
  {
    hide At;
    var r := Inserted(s, k, x);
    assert Distinct(r);
    InsertedAt(s, k, x, 0);
    forall i | 0 <= i < |r| ensures r[i].next == At(r, i + 1) && r[i].prev == At(r, i - 1) {
      assert r[i] == if i < k then s[i] else if i == k then x else s[i - 1];
      InsertedAt(s, k, x, i + 1);
      InsertedAt(s, k, x, i - 1);
      hide Inserted;
    }
  }

  /** Putting `x` in the place of position `k`. */
  lemma LinkedReplaced(s: seq<Item>, k: nat, x: Item)
    requires Distinct(s) && k < |s| && x !in s && x.next == At(s, k + 1) && x.prev == At(s, k - 1)
    requires NextAs(s, k - 1, x, k) && PrevAs(s, k + 1, x, k)
    ensures Linked(s[k := x]) && At(s[k := x], 0) == if k == 0 then x else At(s, 0)
  {
    hide At;
    var r := s[k := x];
    ReplacedAt(s, k, x, 0);
    forall i | 0 <= i < |r| ensures r[i].next == At(r, i + 1) && r[i].prev == At(r, i - 1) {
      ReplacedAt(s, k, x, i + 1);
      ReplacedAt(s, k, x, i - 1);
    }
  }

  lemma ReplacedAt(s: seq<Item>, k: nat, x: Item, i: int)
    requires k < |s|
    ensures At(s[k := x], i) == if i == k then x else At(s, i)
  {}

  /** A link of nobody stays as it is. */
  lemma NoLink(s: seq<Item>, k: int, to: Item?)
    requires !(0 <= k < |s|)
    ensures NextAs(s, -1, null, -1) ==> NextAs(s, k, to, -1)
    ensures PrevAs(s, -1, null, -1) ==> PrevAs(s, k, to, -1)
  {}

  // ----- single links -----

  /** Set the `next` of the item at `k`, if there is one. */
  method PointNext(node: Item?, to: Item?, ghost s: seq<Item>, ghost k: int)
    requires node == At(s, k) && Alone(s, k) && NextAs(s, -1, null, -1)
    modifies Single(node)`next
    ensures NextAs(s, k, to, -1)
  {
    assert node != null ==> node == s[k];
    hide At;
    if node != null {
      node.next := to;
    }
  }

  /** Set the `prev` of the item at `k`, if there is one. */
  method PointPrev(node: Item?, to: Item?, ghost s: seq<Item>, ghost k: int)
    requires node == At(s, k) && Alone(s, k) && PrevAs(s, -1, null, -1)
    modifies Single(node)`prev
    ensures PrevAs(s, k, to, -1)
  {
    assert node != null ==> node == s[k];
    hide At;
    if node != null {
      node.prev := to;
    }
  }

  /** Clear both links of the item at `skip`. */
  method Release(item: Item, ghost s: seq<Item>, ghost skip: nat, ghost k: int, ghost next: Item?,
                 ghost j: int, ghost prev: Item?)
    requires skip < |s| && item == s[skip] && Alone(s, skip) && NextAs(s, k, next, -1) && PrevAs(s, j, prev, -1)
    modifies item`next, item`prev
    ensures item.Detached() && NextAs(s, k, next, skip) && PrevAs(s, j, prev, skip)
  {
    hide At;
    item.prev := null;
    item.next := null;
  }

  // ----- the edits -----

  /** get_array_item */
  method GetArrayItem(parent: Item?, index: nat) returns (item: Item?)
    requires ValidParent(parent)
    ensures item == At(Kids(parent), index)
  {
    if parent == null {
      return null;
    }
    item := parent.child;
    var i := index;
    while item != null && i > 0
      invariant 0 <= i <= index
      invariant item == At(parent.kids, index - i)
      decreases i
    {
      i := i - 1;
      item := item.next;
    }
  }

  /** cJSON_AddItemToArray: the item becomes the last child. */
  method AddItemToArray(parent: Item?, item: Item?)
    requires ValidParent(parent) && (item != null ==> item.Detached() && item !in Kids(parent))
    modifies Single(parent)`child, Single(parent)`kids, Single(item)`prev, Kids(parent)`next
    ensures ValidParent(parent)
    ensures parent != null ==> parent.kids == if item == null then old(Kids(parent)) else old(Kids(parent)) + [item]
  {
    hide At, Distinct, NextAs, PrevAs, Linked, Alone;
    if item == null || parent == null {
      return;
    }
    ghost var s := parent.kids;
    Ends(s);
    NoLink(s, |s|, item);
    var child := parent.child;
    if child == null {
      NoLink(s, -1, item);
      parent.child := item;
    } else {
      child := Last(parent);
      PointNext(child, item, s, |s| - 1);
      item.prev := child;
    }
    LinkedInserted(s, |s|, item);
    assert Inserted(s, |s|, item) == s + [item];
    hide Inserted;
    parent.kids := s + [item];
  }

  /** The walk to the last child. */
  method Last(parent: Item) returns (child: Item)
    requires parent.Valid() && parent.child != null
    ensures child == parent.kids[|parent.kids| - 1]
  {
    child := parent.child;
    ghost var i := 0;
    while child.next != null
      invariant 0 <= i < |parent.kids| && child == parent.kids[i]
      decreases |parent.kids| - i
    {
      child := child.next;
      i := i + 1;
    }
  }

  /** cJSON_InsertItemInArray: before the child at `which`, or last when there is none. */
  method InsertItemInArray(parent: Item?, which: int, item: Item?)
    requires ValidParent(parent) && (item != null ==> item !in Kids(parent))
    requires if 0 <= which < |Kids(parent)| then item != null else item != null ==> item.Detached()
    modifies Single(parent)`child, Single(parent)`kids, Single(item)`prev, Single(item)`next
    modifies Kids(parent)`next, Kids(parent)`prev
    ensures ValidParent(parent)
    ensures which < 0 || item == null ==> Kids(parent) == old(Kids(parent))
    ensures which >= 0 && item != null && parent != null ==>
        parent.kids == Inserted(old(Kids(parent)), Min(which, |old(Kids(parent))|), item)
  {
    if which < 0 {
      return;
    }
    var after := GetArrayItem(parent, which);
    if after == null {
      AddItemToArray(parent, item);
      return;
    }
    InsertBefore(parent, which, after, item);
  }

  function Min(a: nat, b: nat): nat { if a < b then a else b }

  method InsertBefore(parent: Item, ghost k: nat, after: Item, item: Item)
    requires parent.Valid() && item !in parent.kids && k < |parent.kids| && after == parent.kids[k]
    modifies parent`child, parent`kids, item`prev, item`next, parent.kids`next, parent.kids`prev
    ensures parent.Valid() && parent.kids == Inserted(old(parent.kids), k, item)
  {
    hide At, Distinct, NextAs, PrevAs, Linked, Alone;
    ghost var s := parent.kids;
    Around(s, k);
    item.next := after;
    item.prev := after.prev;
    PointPrev(after, item, s, k);
    if after == parent.child {
      NoLink(s, k - 1, item);
      parent.child := item;
    } else {
      PointNext(item.prev, item, s, k - 1);
    }
    LinkedInserted(s, k, item);
    parent.kids := Inserted(s, k, item);
  }

  /** cJSON_DetachItemViaPointer: the item leaves the list and keeps no link into it. */
  method DetachItemViaPointer(parent: Item?, item: Item?) returns (r: Item?)
    requires ValidParent(parent) && (parent != null && item != null ==> item in parent.kids)
    modifies Single(parent)`child, Single(parent)`kids, Kids(parent)`next, Kids(parent)`prev
    ensures ValidParent(parent) && r == if parent == null then null else item
    ensures r == null ==> Kids(parent) == old(Kids(parent))
    ensures r != null ==> r.Detached()
    ensures r != null ==>
        forall k :: 0 <= k < |old(Kids(parent))| && old(Kids(parent))[k] == r ==>
          parent.kids == Without(old(Kids(parent)), k)
  {
    if parent == null || item == null {
      return null;
    }
    ghost var k :| 0 <= k < |parent.kids| && parent.kids[k] == item;
    Unlink(parent, item, k);
    return item;
  }

  method Unlink(parent: Item, item: Item, ghost k: nat)
    requires parent.Valid() && k < |parent.kids| && item == parent.kids[k]
    modifies parent`child, parent`kids, parent.kids`next, parent.kids`prev
    ensures parent.Valid() && parent.kids == Without(old(parent.kids), k) && item.Detached()
  {
    hide At, Distinct, NextAs, PrevAs, Linked, Alone;
    ghost var s := parent.kids;
    Around(s, k);
    PointNext(item.prev, item.next, s, k - 1);
    PointPrev(item.next, item.prev, s, k + 1);
    if item == parent.child {
      parent.child := item.next;
    }
    Release(item, s, k, k - 1, At(s, k + 1), k + 1, At(s, k - 1));
    LinkedWithout(s, k);
    parent.kids := Without(s, k);
  }

  /** cJSON_DetachItemFromArray */
  method DetachItemFromArray(parent: Item?, which: int) returns (r: Item?)
    requires ValidParent(parent)
    modifies Single(parent)`child, Single(parent)`kids, Kids(parent)`next, Kids(parent)`prev
    ensures ValidParent(parent) && r == old(At(Kids(parent), which))
    ensures r == null ==> Kids(parent) == old(Kids(parent))
    ensures r != null ==> r.Detached() && parent.kids == Without(old(Kids(parent)), which)
  {
    if which < 0 {
      return null;
    }
    var item := GetArrayItem(parent, which);
    r := DetachItemViaPointer(parent, item);
  }

  /** cJSON_ReplaceItemViaPointer: the replacement takes the item's place. */
  method ReplaceItemViaPointer(parent: Item?, item: Item?, replacement: Item?) returns (ok: bool)
    requires ValidParent(parent) && (parent != null && item != null ==> item in parent.kids)
    requires replacement != null ==> replacement == item || replacement !in Kids(parent)
    modifies Single(parent)`child, Single(parent)`kids, Single(replacement)`next, Single(replacement)`prev
    modifies Kids(parent)`next, Kids(parent)`prev
    ensures ValidParent(parent) && ok == (parent != null && item != null && replacement != null)
    ensures !ok ==> Kids(parent) == old(Kids(parent))
    ensures ok ==>
        forall k :: 0 <= k < |old(Kids(parent))| && old(Kids(parent))[k] == item ==>
          parent.kids == old(Kids(parent))[k := replacement]
    ensures ok && replacement != item ==> item.Detached()
  {
    if parent == null || item == null || replacement == null {
      return false;
    }
    if replacement == item {
      return true;
    }
    ghost var k :| 0 <= k < |parent.kids| && parent.kids[k] == item;
    TakePlace(parent, item, replacement, k);
    return true;
  }

  method TakePlace(parent: Item, item: Item, replacement: Item, ghost k: nat)
    requires parent.Valid() && k < |parent.kids| && item == parent.kids[k] && replacement !in parent.kids
    modifies parent`child, parent`kids, replacement`next, replacement`prev, parent.kids`next, parent.kids`prev
    ensures parent.Valid() && parent.kids == old(parent.kids)[k := replacement] && item.Detached()
  {
    hide At, Distinct, NextAs, PrevAs, Linked, Alone;
    ghost var s := parent.kids;
    Around(s, k);
    replacement.next := item.next;
    replacement.prev := item.prev;
    PointPrev(replacement.next, replacement, s, k + 1);
    PointNext(replacement.prev, replacement, s, k - 1);
    if parent.child == item {
      parent.child := replacement;
    }
    Release(item, s, k, k - 1, replacement, k + 1, replacement);
    LinkedReplaced(s, k, replacement);
    parent.kids := s[k := replacement];
  }

  /** cJSON_ReplaceItemInArray */
  method ReplaceItemInArray(parent: Item?, which: int, item: Item?)
    requires ValidParent(parent) && (item != null ==> item !in Kids(parent))
    modifies Single(parent)`child, Single(parent)`kids, Single(item)`next, Single(item)`prev
    modifies Kids(parent)`next, Kids(parent)`prev
    ensures ValidParent(parent)
    ensures Kids(parent) == if 0 <= which < |old(Kids(parent))| && item != null then old(Kids(parent))[which := item]
                            else old(Kids(parent))
  {
    if which < 0 {
      return;
    }
    var place := GetArrayItem(parent, which);
    var _ := ReplaceItemViaPointer(parent, place, item);
  }

  // ----- laws of the edits -----

  /** Detaching undoes an insertion, inserting again undoes a detachment, and a replacement is one of each. */
  lemma EditLaws(s: seq<Item>, k: nat, x: Item)
    requires k < |s|
    ensures Without(Inserted(s, k, x), k) == s
    ensures Inserted(Without(s, k), k, s[k]) == s
    ensures Inserted(Without(s, k), k, x) == s[k := x]
  {
    assert Without(Inserted(s, k, x), k) == s;
  }
}
