/** The linked FIFO behind each scheduler (libtask/locked_linked_deque.c).

    The deque is a singly linked list behind a sentinel node.  `nodes` is the list as a
    sequence, sentinel first; `Items()` is what the deque holds, oldest first.  The mutex
    makes every operation atomic, so each method is one step.
  */
module LockedDeque {

  /** One list cell.  `owner` is the deque that holds it, if any. */
  class Node<T(0)> {
    const data: T
    var next: Node?<T>
    ghost var owner: Deque?<T>

    constructor (data: T)
      ensures this.data == data && next == null && owner == null
    {
      this.data := data;
      next := null;
      owner := null;
    }

    constructor Sentinel()
      ensures next == null && owner == null
    {
      data := *;
      next := null;
      owner := null;
    }
  }

  /** The payloads of a run of nodes, in order. */
  ghost function Payloads<T(0)>(nodes: seq<Node<T>>): (items: seq<T>) {
    seq(|nodes|, i requires 0 <= i < |nodes| => nodes[i].data)
  }

  class Deque<T(0)> {
    var head: Node<T>
    var tail: Node<T>
    var count: int
    ghost var nodes: seq<Node<T>>

    ghost predicate Valid()
      reads this, nodes
    {
      && |nodes| > 0
      && head == nodes[0]
      && tail == nodes[|nodes| - 1]
      && count == |nodes| - 1
      && (forall i, j :: 0 <= i < j < |nodes| ==> nodes[i] != nodes[j])
      && (forall i :: 0 <= i < |nodes| - 1 ==> nodes[i].next == nodes[i + 1])
      && (forall n :: n in nodes ==> n.owner == this)
      && tail.next == null
    }

    ghost function Items(): seq<T>
      requires |nodes| > 0
      reads this
    {
      Payloads(nodes[1..])
    }

    constructor ()
      ensures Valid() && |nodes| == 1 && fresh(nodes[0]) && Items() == []
    {
      var sentinel := new Node<T>.Sentinel();
      head := sentinel;
      tail := sentinel;
      count := 0;
      nodes := [sentinel];
      new;
      sentinel.owner := this;
    }

    /** Takes the oldest node, or null from an empty deque. */
    method PopHead() returns (first: Node?<T>)
      requires Valid()
      modifies this, nodes
      ensures Valid()
      ensures old(count) == 0 ==> first == null && nodes == old(nodes) && Items() == old(Items())
      ensures old(count) == 0 ==> forall n | n in nodes :: n.owner == this
      ensures old(count) > 0 ==>
                && first != null
                && first == old(nodes[1])
                && first.next == null
                && first.owner == null
                && nodes == [old(nodes[0])] + old(nodes[2..])
                && first.data == old(Items())[0]
                && Items() == old(Items())[1..]
    {
      first := head.next;
      assert |nodes| > 1 ==> nodes[0].next == nodes[0 + 1];
      if first != null {
        head.next := first.next;
        first.next := null;
        first.owner := null;
        count := count - 1;
        nodes := [nodes[0]] + nodes[2..];
      }
      if first == tail {
        tail := head;
      }
    }

    /** Appends a node that no deque holds. */
    method PushTail(node: Node<T>)
      requires Valid()
      requires node.owner == null && node.next == null
      modifies this, nodes, node
      ensures Valid()
      ensures nodes == old(nodes) + [node]
      ensures Items() == old(Items()) + [node.data]
    {
      tail.next := node;
      tail := node;
      node.owner := this;
      count := count + 1;
      nodes := nodes + [node];
    }
  }

  /** A deque stays as it was while neither it nor its nodes are written. */
  twostate lemma Untouched<T(0)>(d: Deque<T>)
    requires old(d.Valid()) && unchanged(d)
    requires forall n :: n in d.nodes ==> unchanged(n)
    ensures d.Valid() && d.Items() == old(d.Items())
  {
    assert d.tail in d.nodes;
    forall i | 0 <= i < |d.nodes| - 1
      ensures d.nodes[i].next == d.nodes[i + 1]
    {
      var n := d.nodes[i];
      assert n in d.nodes;
      assert n.next == old(n.next);
    }
  }
}
