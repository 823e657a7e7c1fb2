/**
 * LinkedQueue: a queue in a singly linked list, dequeued at the head and
 * enqueued behind the tail. Dequeue never clears `tail`; enqueue on an
 * empty queue resets both ends, so the stale tail is never followed.
 */
module LinkedQueues {
  import opened Outcomes

  class Node<T> {
    var data: T
    var next: Node?<T>

    /** A node holding `d` with no successor. */
    constructor (d: T)
      ensures data == d && next == null
    {
      data := d;
      next := null;
    }
  }

  class LinkedQueue<T> {
    var head: Node?<T>
    var tail: Node?<T>
    var numElements: int
    /** The queue, oldest first. */
    ghost var contents: seq<T>
    /** The nodes from head to tail, in list order. */
    ghost var nodes: seq<Node<T>>
    /** Every node ever linked into this queue. */
    ghost var Repr: set<Node<T>>

    /**
     * The nodes are distinct and linked head to tail by `next`, the last one
     * ends the list, each holds its element of the queue, and numElements
     * counts them.
     */
    ghost predicate Valid()
      reads this, Repr
    {
      numElements == |nodes| == |contents| &&
      (forall i :: 0 <= i < |nodes| ==> nodes[i] in Repr && nodes[i].data == contents[i]) &&
      (forall i, j :: 0 <= i < j < |nodes| ==> nodes[i] != nodes[j]) &&
      (forall i :: 0 <= i < |nodes| - 1 ==> nodes[i].next == nodes[i + 1]) &&
      (nodes == [] ==> head == null) &&
      (nodes != [] ==> head == nodes[0] && tail == nodes[|nodes| - 1] && tail.next == null)
    }

    /** An empty queue. */
    constructor ()
      ensures Valid() && contents == [] && fresh(Repr)
    {
      head := null;
      tail := null;
      numElements := 0;
      contents := [];
      nodes := [];
      Repr := {};
    }

    /** empty: whether there are no elements. */
    function IsEmpty(): (b: bool)
      reads this, Repr
      requires Valid()
      ensures b <==> contents == []
    {
      numElements == 0
    }

    /**
     * enqueue: on an empty queue the new node becomes both head and tail;
     * otherwise it is linked after the tail and becomes the tail.
     */
    method Enqueue(v: T)
      requires Valid()
      modifies this, Repr
      ensures Valid() && contents == old(contents) + [v] && fresh(Repr - old(Repr))
    {
      var n := new Node(v);
      if IsEmpty() {
        head := n;
        tail := head;
      } else {
        tail.next := n;
        tail := tail.next;
      }
      numElements := numElements + 1;
      contents := contents + [v];
      nodes := nodes + [n];
      Repr := Repr + {n};
    }

    /** dequeue: the head moves to the next node; throws on an empty queue. */
    method Dequeue() returns (r: Result<()>)
      requires Valid()
      modifies this
      ensures Valid() && Repr == old(Repr)
      ensures old(contents) == [] ==> r == Err(Empty) && contents == []
      ensures old(contents) != [] ==> r == Ok(()) && contents == old(contents)[1..]
    {
      if IsEmpty() {
        return Err(Empty);
      }
      numElements := numElements - 1;
      head := head.next;
      contents := contents[1..];
      nodes := nodes[1..];
      r := Ok(());
    }

    /** front: the element of the head node; throws on an empty queue. */
    method Front() returns (r: Result<T>)
      requires Valid()
      ensures contents == [] ==> r == Err(Empty)
      ensures contents != [] ==> r == Ok(contents[0])
    {
      if IsEmpty() {
        return Err(Empty);
      }
      r := Ok(head.data);
    }
  }
}
