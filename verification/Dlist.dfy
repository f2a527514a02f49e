/** Circular doubly linked lists with a head (include/aos/list.h), against the sequence they hold. */
module Dlist {
  import opened Sequences

  // A dlist_t together with the structure it is embedded in; the head of a list carries no data.
  class Node<T(0)> {
    var prev: Node?<T>
    var next: Node?<T>
    var data: T

    constructor ()
      ensures prev == null && next == null
    {
      prev, next, data := null, null, *;
    }
  }

  ghost predicate Distinct<T(0)>(ring: seq<Node<T>>) {
    forall i, j :: 0 <= i < j < |ring| ==> ring[i] != ring[j]
  }

  // The element after the i-th, going round.
  ghost function After<T(0)>(ring: seq<Node<T>>, i: nat): Node<T>
    requires i < |ring|
  {
    if i + 1 < |ring| then ring[i + 1] else ring[0]
  }

  ghost predicate LinkedAt<T(0)>(ring: seq<Node<T>>, i: nat)
    requires i < |ring|
    reads ring
  {
    ring[i].next == After(ring, i) && After(ring, i).prev == ring[i]
  }

  // The head ring[0] and the entries ring[1..], linked in both directions.
  ghost predicate Ring<T(0)>(ring: seq<Node<T>>)
    reads ring
  {
    ring != [] && Distinct(ring) && forall i :: 0 <= i < |ring| ==> LinkedAt(ring, i)
  }

  // dlist_init
  method Init<T(0)>(head: Node<T>)
    modifies head`prev, head`next
    ensures Ring([head])
  {
    head.next, head.prev := head, head;
    assert LinkedAt([head], 0);
  }

  // dlist_empty
  method Empty<T(0)>(head: Node<T>, ghost ring: seq<Node<T>>) returns (empty: bool)
    requires Ring(ring) && ring[0] == head
    ensures empty <==> ring == [head]
  {
    assert LinkedAt(ring, 0);
    empty := head.next == head;
  }

  // dlist_add_tail
  method AddTail<T(0)>(node: Node<T>, head: Node<T>, ghost ring: seq<Node<T>>)
    requires Ring(ring) && ring[0] == head && node !in ring
    modifies node`prev, node`next, ring`prev, ring`next
    ensures Ring(ring + [node])
  {
    ghost var n, r := |ring|, ring + [node];
    assert LinkedAt(ring, n - 1);
    var last := head.prev;
    node.next := head;
    node.prev := last;
    last.next := node;
    head.prev := node;
    forall i | 0 <= i < |r| ensures LinkedAt(r, i) {
      if i < n { assert old(LinkedAt(ring, i)); }
    }
  }

  // dlist_del
  method Del<T(0)>(node: Node<T>, ghost ring: seq<Node<T>>, ghost k: nat)
    requires Ring(ring) && 0 < k < |ring| && ring[k] == node
    modifies ring`prev, ring`next
    ensures Ring(Drop(ring, k))
    ensures node.next == old(node.next) && node.prev == old(node.prev)
  {
    ghost var r := Drop(ring, k);
    assert LinkedAt(ring, k - 1) && LinkedAt(ring, k);
    var prev, next := node.prev, node.next;
    prev.next := next;
    next.prev := prev;
    forall i | 0 <= i < |r| ensures LinkedAt(r, i) {
      var j := if i < k then i else i + 1;
      assert old(LinkedAt(ring, j));
      if j != k - 1 { assert After(ring, j) == After(r, i); }
    }
  }

  // dlist_entry_number
  method EntryNumber<T(0)>(head: Node<T>, ghost ring: seq<Node<T>>) returns (num: nat)
    requires Ring(ring) && ring[0] == head
    ensures num == |ring| - 1
  {
    num := 0;
    var cur := head;
    assert LinkedAt(ring, 0);
    while cur.next != head
      invariant num < |ring| && cur == ring[num] && LinkedAt(ring, num)
      decreases |ring| - num
    {
      cur := cur.next;
      num := num + 1;
      assert LinkedAt(ring, num);
    }
  }
}
