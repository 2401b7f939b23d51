/** The singly linked device list: walks, surgery and in-place reversal over the sequence of its nodes. */
module LinkedLists {
  import opened Bytes

  datatype Device = Device(devId: seq<byte>, shortAddr: seq<byte>, flag: byte, other: byte)

  class Node {
    var data: Device
    var next: Node?

    constructor (data: Device)
      ensures this.data == data && this.next == null
    {
      this.data, this.next := data, null;
    }
  }

  /** The node at position `i`, or NULL past the end. */
  function At(s: seq<Node>, i: int): (r: Node?)
    ensures r != null <==> 0 <= i < |s|
  {
    if 0 <= i < |s| then s[i] else null
  }

  ghost predicate Distinct(s: seq<Node>) {
    forall i, j :: 0 <= i < j < |s| ==> s[i] != s[j]
  }

  /** `s` is exactly the chain of nodes from its first one to the NULL at its end; no node is met twice. */
  ghost predicate Linked(s: seq<Node>)
    reads s`next
  {
    Distinct(s) && forall i :: 0 <= i < |s| ==> s[i].next == At(s, i + 1)
  }

  // ----- sequences -----

  function Reversed<T>(s: seq<T>): (r: seq<T>)
    ensures |r| == |s| && forall i :: 0 <= i < |s| ==> r[i] == s[|s| - 1 - i]
  {
    seq(|s|, i requires 0 <= i < |s| => s[|s| - 1 - i])
  }

  function Swapped<T>(s: seq<T>, a: int, b: int): (r: seq<T>)
    requires 0 <= a < |s| && 0 <= b < |s|
    ensures |r| == |s|
  {
    s[a := s[b]][b := s[a]]
  }

  function Without<T>(s: seq<T>, p: int): seq<T>
    requires 0 <= p < |s|
  {
    s[..p] + s[p + 1..]
  }

  /** The positions list_swap exchanges. */
  predicate Swappable(n: nat, a: int, b: int) {
    0 <= a < n && 0 <= b < n && a != b
  }

  /** Exchanged nodes make a chain when each node points where the other one did. */
  lemma LinkedSwapped(s: seq<Node>, a: int, b: int)
    requires Distinct(s) && Swappable(|s|, a, b)
    requires s[a].next == At(Swapped(s, a, b), b + 1) && s[b].next == At(Swapped(s, a, b), a + 1)
    requires forall i :: 0 <= i < |s| && i != a && i != b ==> s[i].next == At(Swapped(s, a, b), i + 1)
    ensures Linked(Swapped(s, a, b))
  {}

  /** The first `k` nodes point backwards, the rest forwards. */
  ghost predicate Turned(s: seq<Node>, k: nat)
    reads s`next
  {
    Distinct(s) && forall i :: 0 <= i < |s| ==> s[i].next == if i < k then At(s, i - 1) else At(s, i + 1)
  }

  /** What list_swap's relinking needs to know about the two positions and those in front of them. */
  lemma Predecessors(s: seq<Node>, a: int, b: int)
    requires Linked(s) && Swappable(|s|, a, b)
    ensures At(s, 0) == s[0] && (s[a] == s[0] <==> a == 0) && (s[b] == s[0] <==> b == 0)
    ensures a > 0 ==> At(s, a - 1) == s[a - 1] && Alone(s, a - 1)
    ensures b > 0 ==> At(s, b - 1) == s[b - 1] && Alone(s, b - 1)
    ensures forall i :: 0 <= i < |s| ==> s[i].next == At(s, i + 1)
    ensures At(Swapped(s, a, b), 0) == if a == 0 then s[b] else if b == 0 then s[a] else s[0]
  {}

  /** No other position holds the node at `k`. */
  ghost predicate Alone(s: seq<Node>, k: int)
    requires 0 <= k < |s|
  {
    forall i :: 0 <= i < |s| && i != k ==> s[i] != s[k]
  }

  lemma SwappedAt(s: seq<Node>, a: int, b: int, i: int)
    requires Swappable(|s|, a, b)
    ensures At(Swapped(s, a, b), i) == if i == a then s[b] else if i == b then s[a] else At(s, i)
  {}

  /** With the two predecessors redirected, every position points to its successor after the swap. */
  lemma RedirectedNext(s: seq<Node>, a: int, b: int)
    requires Swappable(|s|, a, b)
    requires forall i :: 0 <= i < |s| && i != a - 1 && i != b - 1 ==> s[i].next == At(s, i + 1)
    requires a > 0 ==> s[a - 1].next == s[b]
    requires b > 0 ==> s[b - 1].next == s[a]
    ensures forall i :: 0 <= i < |s| ==> s[i].next == At(Swapped(s, a, b), i + 1)
  {
    hide At, Swapped;
    forall i | 0 <= i < |s| ensures s[i].next == At(Swapped(s, a, b), i + 1) {
      SwappedAt(s, a, b, i + 1);
    }
  }

  lemma AtIs(s: seq<Node>, k: nat)
    requires k < |s|
    ensures At(s, k) == s[k]
  {}

  lemma NotTurned(s: seq<Node>)
    requires Linked(s)
    ensures Turned(s, 0)
  {
    hide At;
  }

  lemma LinkedReversed(s: seq<Node>)
    requires Turned(s, |s|)
    ensures Linked(Reversed(s)) && At(s, |s| - 1) == At(Reversed(s), 0)
  {}

  class List {
    var head: Node?
    ghost var nodes: seq<Node>

    ghost predicate Valid()
      reads this, nodes`next
    {
      head == At(nodes, 0) && Linked(nodes)
    }

    /** list_init */
    constructor ()
      ensures Valid() && nodes == []
    {
      head, nodes := null, [];
    }

    /** list_len */
    method Length() returns (n: nat)
      requires Valid()
      ensures n == |nodes|
    {
      n := 0;
      var t := head;
      while t != null
        invariant n <= |nodes| && t == At(nodes, n)
        decreases |nodes| - n
      {
        t := t.next;
        n := n + 1;
      }
    }

    /** list_append: the new node comes last. */
    method Append(data: Device)
      requires Valid()
      modifies this, nodes`next
      ensures Valid() && |nodes| == |old(nodes)| + 1 && nodes[..|old(nodes)|] == old(nodes)
      ensures fresh(nodes[|old(nodes)|]) && nodes[|old(nodes)|].data == data
    {
      var node := new Node(data);
      if head == null {
        head := node;
      } else {
        var t := head;
        ghost var i := 0;
        while t.next != null
          invariant i < |nodes| && t == nodes[i]
          decreases |nodes| - i
        {
          t := t.next;
          i := i + 1;
        }
        t.next := node;
      }
      nodes := nodes + [node];
    }

    /** list_pop_tail */
    method PopTail() returns (ok: bool)
      requires Valid()
      modifies this, nodes`next
      ensures Valid() && ok == (old(nodes) != [])
      ensures nodes == if ok then old(nodes)[..|old(nodes)| - 1] else []
    {
      if head == null {
        return false;
      }
      if head.next == null {
        head := null;
        nodes := [];
        return true;
      }
      var t := head;
      ghost var i := 0;
      while t.next.next != null
        invariant i + 1 < |nodes| && t == nodes[i]
        decreases |nodes| - i
      {
        t := t.next;
        i := i + 1;
      }
      t.next := null;
      nodes := nodes[..|nodes| - 1];
      return true;
    }

    /** list_pop: takes out exactly position `pos`, or nothing when there is no such position. */
    method Pop(pos: int) returns (ok: bool)
      requires Valid()
      modifies this, nodes`next
      ensures Valid() && ok == (0 <= pos < |old(nodes)|)
      ensures ok ==> nodes == Without(old(nodes), pos)
      ensures !ok ==> nodes == old(nodes)
    {
      if head == null {
        return false;
      }
      var temp, i := head, 0;
      while temp != null && i != pos
        invariant 0 <= i <= |nodes| && temp == At(nodes, i) && (pos < 0 || i <= pos)
        decreases |nodes| - i
      {
        temp := temp.next;
        i := i + 1;
      }
      if temp == null {
        return false;
      }
      if temp == head {
        head := head.next;
        nodes := nodes[1..];
        return true;
      }
      var t := head;
      ghost var j := 0;
      while t.next != temp
        invariant j < pos && t == nodes[j]
        decreases pos - j
      {
        t := t.next;
        j := j + 1;
      }
      Unlink(t, temp, pos);
      return true;
    }

    /** The last step of list_pop: `temp`, at `pos`, is bypassed and cleared. */
    method Unlink(t: Node, temp: Node, ghost pos: int)
      requires Valid() && 0 < pos < |nodes| && t == nodes[pos - 1] && temp == nodes[pos]
      modifies this`nodes, nodes`next
      ensures Valid() && nodes == Without(old(nodes), pos)
    {
      t.next := temp.next;
      temp.next := null;
      nodes := Without(nodes, pos);
    }

    /** list_reverse, in place. */
    method Reverse()
      requires Valid()
      modifies this, nodes`next
      ensures Valid() && nodes == Reversed(old(nodes))
    {
      hide Linked, Turned, At, Distinct, Reversed;
      var last := TurnAll();
      LinkedReversed(nodes);
      head := last;
      nodes := Reversed(nodes);
    }

    /** The loop of list_reverse: every node is turned, and the last one is returned. */
    method TurnAll() returns (q: Node?)
      requires Valid()
      modifies nodes`next
      ensures Turned(nodes, |nodes|) && q == At(nodes, |nodes| - 1)
    {
      hide Linked, Turned, At, Distinct;
      NotTurned(nodes);
      q := null;
      var m := head;
      ghost var k := 0;
      while m != null
        invariant k <= |nodes| && m == At(nodes, k) && q == At(nodes, k - 1) && Turned(nodes, k)
        decreases |nodes| - k
      {
        AtIs(nodes, k);
        var t := Turn(m, q, k);
        q, m := m, t;
        k := k + 1;
      }
    }

    /** One round of list_reverse. */
    method Turn(m: Node, q: Node?, ghost k: nat) returns (t: Node?)
      requires Turned(nodes, k) && k < |nodes| && m == nodes[k] && q == At(nodes, k - 1)
      modifies m`next
      ensures Turned(nodes, k + 1) && t == At(nodes, k + 1)
    {
      hide At;
      t := m.next;
      m.next := q;
    }

    /** list_swap: two distinct positions exchange their nodes; anything else is refused and changes nothing. */
    method Swap(posA: int, posB: int) returns (ok: bool)
      requires Valid()
      modifies this, nodes`next
      ensures Valid() && ok == Swappable(|old(nodes)|, posA, posB)
      ensures ok ==> nodes == Swapped(old(nodes), posA, posB)
      ensures !ok ==> nodes == old(nodes)
    {
      var preA: Node?, preB: Node?, a: Node?, b: Node? := null, null, null, null;
      if posA == 0 { a := head; }
      if posB == 0 { b := head; }
      var t, i := head, 0;
      while t != null
        invariant 0 <= i <= |nodes| && t == At(nodes, i)
        invariant a == (if posA <= i then At(nodes, posA) else null)
        invariant b == (if posB <= i then At(nodes, posB) else null)
        invariant preA == (if posA <= i then At(nodes, posA - 1) else null)
        invariant preB == (if posB <= i then At(nodes, posB - 1) else null)
        decreases |nodes| - i
      {
        if i == posA - 1 {
          preA, a := t, t.next;
        }
        if i == posB - 1 {
          preB, b := t, t.next;
        }
        t := t.next;
        i := i + 1;
      }
      if a == null || b == null || a == b {
        return false;
      }
      Exchange(preA, a, preB, b, posA, posB);
      return true;
    }

    /** The predecessors' part of list_swap's relinking: each now points to the other node, or the head does. */
    method Redirect(preA: Node?, a: Node, preB: Node?, b: Node, ghost posA: int, ghost posB: int)
      requires Valid() && Swappable(|nodes|, posA, posB) && a == nodes[posA] && b == nodes[posB]
      requires preA == At(nodes, posA - 1) && preB == At(nodes, posB - 1)
      modifies this`head, nodes`next
      ensures head == At(Swapped(nodes, posA, posB), 0)
      ensures forall i :: 0 <= i < |nodes| ==> nodes[i].next == At(Swapped(nodes, posA, posB), i + 1)
    {
      hide At, Swapped, Distinct, Linked;
      Predecessors(nodes, posA, posB);
      if a == head {
        head := b;
        preB.next := a;
      } else if b == head {
        head := a;
        preA.next := b;
      } else {
        preA.next := b;
        preB.next := a;
      }
      RedirectedNext(nodes, posA, posB);
    }

    /** The relinking of list_swap; a neighbour of the other node is its predecessor too. */
    method Exchange(preA: Node?, a: Node, preB: Node?, b: Node, ghost posA: int, ghost posB: int)
      requires Valid() && Swappable(|nodes|, posA, posB) && a == nodes[posA] && b == nodes[posB]
      requires preA == At(nodes, posA - 1) && preB == At(nodes, posB - 1)
      modifies this, nodes`next
      ensures Valid() && nodes == Swapped(old(nodes), posA, posB)
    {
      Redirect(preA, a, preB, b, posA, posB);
      ghost var r := Swapped(nodes, posA, posB);
      hide Swapped, Linked;
      var t := a.next;
      a.next := b.next;
      b.next := t;
      LinkedSwapped(nodes, posA, posB);
      nodes := r;
    }
  }

  // ----- laws of the surgery -----

  /** Reversing is an involution. */
  lemma ReversedTwice<T>(s: seq<T>)
    ensures Reversed(Reversed(s)) == s
  {
    assert forall i :: 0 <= i < |s| ==> Reversed(Reversed(s))[i] == s[i];
  }

  /** A swap before a reversal is the mirrored swap after it. */
  lemma ReversedSwapped<T>(s: seq<T>, a: int, b: int)
    requires 0 <= a < |s| && 0 <= b < |s|
    ensures Reversed(Swapped(s, a, b)) == Swapped(Reversed(s), |s| - 1 - a, |s| - 1 - b)
  {
    var n := |s|;
    var left, right := Reversed(Swapped(s, a, b)), Swapped(Reversed(s), n - 1 - a, n - 1 - b);
    forall i | 0 <= i < n ensures left[i] == right[i] {
      var j := n - 1 - i;
      assert left[i] == if j == b then s[a] else if j == a then s[b] else s[j];
    }
  }

  /** Swapping again undoes a swap, and no node is lost. */
  lemma SwappedTwice<T>(s: seq<T>, a: int, b: int)
    requires 0 <= a < |s| && 0 <= b < |s|
    ensures Swapped(Swapped(s, a, b), a, b) == s && multiset(Swapped(s, a, b)) == multiset(s)
  {
    assert multiset(Swapped(s, a, b)) == multiset(s);
  }
}
