/** Singly linked lists with a head (include/aos/list.h), against the sequence they hold. */
module Slist {
  import opened Sequences

  // An slist_t together with the structure it is embedded in; the head of a list carries no data.
  class SNode<T(0)> {
    var next: SNode?<T>
    var data: T

    constructor (data: T)
      ensures next == null && this.data == data
    {
      this.next, this.data := null, data;
    }
  }

  ghost function After<T(0)>(chain: seq<SNode<T>>, i: nat): SNode?<T> {
    if i + 1 < |chain| then chain[i + 1] else null
  }

  ghost predicate LinkedAt<T(0)>(chain: seq<SNode<T>>, i: nat)
    requires i < |chain|
    reads chain`next
  {
    chain[i].next == After(chain, i)
  }

  // The head chain[0] and the entries chain[1..].
  ghost predicate Chain<T(0)>(chain: seq<SNode<T>>)
    reads chain`next
  {
    && chain != []
    && (forall i, j :: 0 <= i < j < |chain| ==> chain[i] != chain[j])
    && forall i :: 0 <= i < |chain| ==> LinkedAt(chain, i)
  }

  // slist_empty
  method Empty<T(0)>(head: SNode<T>, ghost chain: seq<SNode<T>>) returns (empty: bool)
    requires Chain(chain) && chain[0] == head
    ensures empty <==> chain == [head]
  {
    assert LinkedAt(chain, 0);
    empty := head.next == null;
  }

  // slist_add_tail
  method AddTail<T(0)>(node: SNode<T>, head: SNode<T>, ghost chain: seq<SNode<T>>)
    requires Chain(chain) && chain[0] == head && node !in chain
    modifies node`next, chain`next
    ensures Chain(chain + [node])
  {
    var cur := head;
    ghost var k := 0;
    assert LinkedAt(chain, 0);
    while cur.next != null
      invariant k < |chain| && cur == chain[k] && LinkedAt(chain, k)
      decreases |chain| - k
    {
      cur := cur.next;
      k := k + 1;
      assert LinkedAt(chain, k);
    }
    node.next := cur.next;
    cur.next := node;
    ghost var r := chain + [node];
    forall i | 0 <= i < |r| ensures LinkedAt(r, i) {
      if i < |chain| { assert old(LinkedAt(chain, i)); }
    }
  }

  // slist_del: the k-th entry leaves; a node that is not on the list changes nothing.
  method Del<T(0)>(node: SNode<T>, head: SNode<T>, ghost chain: seq<SNode<T>>) returns (ghost r: seq<SNode<T>>)
    requires Chain(chain) && chain[0] == head && node != head
    modifies chain`next
    ensures Chain(r)
    ensures node !in chain ==> r == chain
    ensures forall k :: 0 <= k < |chain| && chain[k] == node ==> r == Drop(chain, k)
  {
    r := chain;
    var cur := head;
    ghost var k := 0;
    assert LinkedAt(chain, 0);
    while cur.next != null
      invariant k < |chain| && cur == chain[k] && LinkedAt(chain, k) && Chain(chain)
      invariant forall i :: 0 <= i <= k ==> chain[i] != node
      invariant r == chain
      decreases |chain| - k
    {
      assert LinkedAt(chain, k + 1);
      if cur.next == node {
        cur.next := node.next;
        r := Drop(chain, k + 1);
        forall i | 0 <= i < |r| ensures LinkedAt(r, i) {
          assert old(LinkedAt(chain, if i < k + 1 then i else i + 1));
        }
        break;
      }
      cur := cur.next;
      k := k + 1;
    }
  }
}
