/**
 * LinkedList: a positional list in a doubly linked chain between two
 * sentinel nodes, `head` and `tail`. Every insertion hands back the new
 * node as a position; a node remembers the list that owns it, and a
 * removed node forgets it, so that a position that is null, belongs to
 * another list or was removed is refused with a position error.
 */
module DoublyLinkedLists {
  import opened Outcomes
  import opened SetSpec

  class Node<T(0)> {
    var next: Node?<T>
    var prev: Node?<T>
    const data: T
    var owner: LinkedList?<T>

    /** A node holding `d` for the list `o`, linked to nothing. */
    constructor (d: T, o: LinkedList?<T>)
      ensures data == d && owner == o && next == null && prev == null
    {
      data := d;
      owner := o;
      next := null;
      prev := null;
    }

    /** get: the element at this position. */
    function Get(): T
    {
      data
    }
  }

  /**
   * The node at `i`. The list invariants are stated over this name so that
   * they come into play only where a proof names a position.
   */
  ghost function NodeAt<T(0)>(ns: seq<Node<T>>, i: int): Node<T>
    requires 0 <= i < |ns|
  {
    ns[i]
  }

  /**
   * `ns` are distinct nodes of `r`: a sentinel, one node per element of
   * `es` holding that element, and a sentinel.
   */
  ghost predicate Holding<T(0)>(ns: seq<Node<T>>, es: seq<T>, r: set<Node<T>>)
  {
    |ns| == |es| + 2 &&
    (forall i :: 0 <= i < |ns| ==> ns[i] in r) &&
    (forall i {:trigger NodeAt(ns, i)} :: 1 <= i < |ns| - 1 ==> NodeAt(ns, i).data == es[i - 1]) &&
    (forall i, j {:trigger NodeAt(ns, i), NodeAt(ns, j)} :: 0 <= i < j < |ns| ==> NodeAt(ns, i) != NodeAt(ns, j))
  }

  class LinkedList<T(0)> {
    var head: Node<T>
    var tail: Node<T>
    var numElements: int
    /** The list, front first. */
    ghost var elements: seq<T>
    /** head, the nodes of the elements in list order, tail. */
    ghost var nodes: seq<Node<T>>
    /** Every node ever created by this list. */
    ghost var Repr: set<Node<T>>

    /**
     * The nodes run from head to tail, each linked to the next both ways,
     * the element nodes hold the elements, all name this list as their
     * owner, and numElements counts the elements.
     */
    ghost predicate Valid()
      reads this, Repr
    {
      Holding(nodes, elements, Repr) && nodes[0] == head && nodes[|nodes| - 1] == tail &&
      (forall k {:trigger NodeAt(nodes, k)} :: 0 <= k < |nodes| - 1 ==>
        NodeAt(nodes, k).next == nodes[k + 1] && nodes[k + 1].prev == NodeAt(nodes, k)) &&
      (forall k {:trigger NodeAt(nodes, k)} :: 0 <= k < |nodes| ==> NodeAt(nodes, k).owner == this) &&
      numElements == |elements| && Retired()
    }

    /** Every node this list created that is no longer one of its nodes was removed, and names no owner. */
    ghost predicate Retired()
      reads this, Repr
    {
      forall q :: q in Repr && q !in nodes ==> q.owner == null
    }

    /** A node this list created and has since removed names no owner, so it is a position the list refuses. */
    lemma RemovedRefused(p: Node<T>)
      requires Valid() && p in Repr && p !in nodes
      ensures p.owner == null && Handle(p) && !Live(p)
    {
    }

    /**
     * A position this list can have handed out: null, a node of another
     * list, a removed node, or the node of one of its elements. The
     * sentinels name this list as their owner too, but no operation
     * returns them.
     */
    ghost predicate Handle(p: Node?<T>)
      reads this, p
    {
      p != null && p.owner == this ==> Live(p)
    }

    /** `p` is the node of one of the elements. */
    ghost predicate Live(p: Node?<T>)
      reads this
    {
      p != null && p in nodes && p != head && p != tail
    }

    /** The place of the element node `p` in the list, counting from 0 at the front. */
    ghost function Place(p: Node<T>): (i: int)
      requires Valid() && Live(p)
      reads this, Repr
      ensures 0 <= i < |elements| && nodes[i + 1] == p
    {
      IndexOf(nodes, p) - 1
    }

    /** The node of the element at `i` has place `i`. */
    lemma PlaceOf(i: int)
      requires Valid() && 0 <= i < |elements|
      ensures Live(nodes[i + 1]) && Place(nodes[i + 1]) == i
    {
      var k := IndexOf(nodes, nodes[i + 1]);
      assert NodeAt(nodes, k) == NodeAt(nodes, i + 1);
      assert NodeAt(nodes, 0) == head && NodeAt(nodes, |nodes| - 1) == tail;
    }

    /** An empty list: the two sentinels, linked to each other and owned by it. */
    constructor ()
      ensures Valid() && elements == [] && fresh(Repr)
    {
      var none: T := *;
      var h := new Node(none, null);
      var t := new Node(none, null);
      head := h;
      tail := t;
      new;
      h.owner := this;
      t.owner := this;
      h.next := t;
      t.prev := h;
      numElements := 0;
      elements := [];
      nodes := [h, t];
      Repr := {h, t};
      assert NodeAt(nodes, 0) == h && NodeAt(nodes, 1) == t;
    }

    /** An element node of a valid list is one of its nodes whose owner is this list. */
    lemma Ownership(p: Node?<T>)
      requires Valid() && p != null && p in nodes
      ensures p.owner == this
    {
      var i :| 0 <= i < |nodes| && nodes[i] == p;
      assert NodeAt(nodes, i) == p;
    }

    /**
     * convert: a position is accepted exactly when it is the node of one of
     * the elements; null, foreign and removed positions are refused.
     */
    method Convert(p: Node?<T>) returns (r: Result<Node<T>>)
      requires Valid() && Handle(p)
      ensures r.Ok? <==> Live(p)
      ensures r.Ok? ==> r.value == p
      ensures r.Err? ==> r.error == Position
    {
      if p != null && p in nodes {
        Ownership(p);
      }
      if p == null || p.owner != this {
        return Err(Position);
      }
      return Ok(p);
    }

    /** length: the number of elements. */
    function Length(): (n: int)
      reads this, Repr
      requires Valid()
      ensures n == |elements|
    {
      numElements
    }

    /** empty: whether there are no elements. */
    function IsEmpty(): (b: bool)
      reads this, Repr
      requires Valid()
      ensures b <==> elements == []
    {
      numElements == 0
    }

    /**
     * The ghost side of an insertion: the fresh node `n`, linked both ways
     * between the nodes at `j - 1` and `j`, joins the list of nodes there
     * and its element joins the list.
     */
    ghost method Enter(j: int, n: Node<T>)
      requires Holding(nodes, elements, Repr) && nodes[0] == head && nodes[|nodes| - 1] == tail
      requires 1 <= j < |nodes| && n !in Repr && n.owner == this
      requires forall k {:trigger NodeAt(nodes, k)} :: 0 <= k < |nodes| - 1 && k != j - 1 ==>
        NodeAt(nodes, k).next == nodes[k + 1] && nodes[k + 1].prev == NodeAt(nodes, k)
      requires forall k {:trigger NodeAt(nodes, k)} :: 0 <= k < |nodes| ==> NodeAt(nodes, k).owner == this
      requires nodes[j - 1].next == n && n.prev == nodes[j - 1] && n.next == nodes[j] && nodes[j].prev == n
      requires numElements == |elements| + 1 && Retired()
      modifies this
      ensures Valid() && head == old(head) && tail == old(tail) && Repr == old(Repr) + {n}
      ensures nodes == old(nodes[..j]) + [n] + old(nodes[j..])
      ensures elements == old(elements[..j - 1] + [n.data] + elements[j - 1..])
      ensures Live(n) && Place(n) == j - 1
    {
      JoinNode(nodes, elements, Repr, j, n);
      JoinLinks(nodes, j, n);
      JoinOwner(nodes, j, n, this);
      nodes := nodes[..j] + [n] + nodes[j..];
      elements := elements[..j - 1] + [n.data] + elements[j - 1..];
      Repr := Repr + {n};
      PlaceOf(j - 1);
    }

    /**
     * The ghost side of a removal: the node at `j`, bypassed by its
     * neighbours and no longer owned by this list, leaves the list of nodes
     * and its element the list.
     */
    ghost method Leave(j: int)
      requires Holding(nodes, elements, Repr) && nodes[0] == head && nodes[|nodes| - 1] == tail
      requires 1 <= j < |nodes| - 1
      requires forall k {:trigger NodeAt(nodes, k)} :: 0 <= k < |nodes| && k != j ==> NodeAt(nodes, k).owner == this
      requires forall k {:trigger NodeAt(nodes, k)} :: 0 <= k < |nodes| - 1 && k != j - 1 && k != j ==>
        NodeAt(nodes, k).next == nodes[k + 1] && nodes[k + 1].prev == NodeAt(nodes, k)
      requires nodes[j - 1].next == nodes[j + 1] && nodes[j + 1].prev == nodes[j - 1]
      requires numElements == |elements| - 1 && Retired() && nodes[j].owner == null
      modifies this
      ensures Valid() && head == old(head) && tail == old(tail) && Repr == old(Repr)
      ensures nodes == old(nodes[..j] + nodes[j + 1..])
      ensures elements == old(elements[..j - 1] + elements[j..])
    {
      DropNode(nodes, elements, Repr, j);
      DropLinks(nodes, j);
      ghost var ms := nodes[..j] + nodes[j + 1..];
      forall k | 0 <= k < |ms|
        ensures NodeAt(ms, k).owner == this
      {
        assert NodeAt(ms, k) == NodeAt(nodes, if k < j then k else k + 1);
      }
      nodes := ms;
      elements := elements[..j - 1] + elements[j..];
    }

    /** The four assignments of every insertion: `n` goes between `a` and `b`, linked both ways. */
    static method Link(a: Node<T>, n: Node<T>, b: Node<T>)
      requires a != n && n != b && a != b
      modifies a, n, b
      ensures a.next == n && n.prev == a && n.next == b && b.prev == n
      ensures a.prev == old(a.prev) && b.next == old(b.next)
      ensures a.owner == old(a.owner) && n.owner == old(n.owner) && b.owner == old(b.owner)
    {
      a.next := n;
      n.prev := a;
      n.next := b;
      b.prev := n;
    }

    /** insertFront: a new node holding `d` goes between head and the old front node. */
    method InsertFront(d: T) returns (n: Node<T>)
      requires Valid()
      modifies this, Repr
      ensures Valid() && fresh(n) && Repr == old(Repr) + {n}
      ensures elements == [d] + old(elements) && Live(n) && Place(n) == 0
      ensures nodes == old(nodes[..1]) + [n] + old(nodes[1..])
    {
      ghost var ns := nodes;
      assert NodeAt(ns, 0) == head && NodeAt(ns, 1) == head.next;
      n := new Node(d, this);
      var currFront := head.next;
      Link(head, n, currFront);
      numElements := numElements + 1;
      forall k | 0 <= k < |ns| - 1 && k != 0
        ensures NodeAt(ns, k).next == ns[k + 1] && ns[k + 1].prev == NodeAt(ns, k)
      {
        assert NodeAt(ns, k + 1) == ns[k + 1];
      }
      Enter(1, n);
      assert elements == [d] + old(elements);
    }

    /** insertBack: a new node holding `d` goes between the old back node and tail. */
    method InsertBack(d: T) returns (n: Node<T>)
      requires Valid()
      modifies this, Repr
      ensures Valid() && fresh(n) && Repr == old(Repr) + {n}
      ensures elements == old(elements) + [d] && Live(n) && Place(n) == |elements| - 1
      ensures nodes == old(nodes[..|nodes| - 1]) + [n] + old(nodes[|nodes| - 1..])
    {
      ghost var ns := nodes;
      ghost var j := |ns| - 1;
      assert NodeAt(ns, j) == tail && NodeAt(ns, j - 1) == tail.prev;
      n := new Node(d, this);
      var currBack := tail.prev;
      tail.prev := n;
      n.next := tail;
      n.prev := currBack;
      currBack.next := n;
      numElements := numElements + 1;
      forall k | 0 <= k < |ns| - 1 && k != j - 1
        ensures NodeAt(ns, k).next == ns[k + 1] && ns[k + 1].prev == NodeAt(ns, k)
      {
        assert NodeAt(ns, k + 1) == ns[k + 1];
      }
      Enter(j, n);
      assert elements == old(elements) + [d];
    }

    /**
     * The linking shared by insertBefore and insertAfter: a new node holding
     * `d` goes between `a` and `b`, the nodes at `j - 1` and `j`.
     */
    method AddBetween(a: Node<T>, b: Node<T>, d: T, ghost j: int) returns (n: Node<T>)
      requires Valid() && 1 <= j < |nodes| && a == nodes[j - 1] && b == nodes[j]
      modifies this, Repr
      ensures Valid() && fresh(n) && Repr == old(Repr) + {n}
      ensures nodes == old(nodes[..j]) + [n] + old(nodes[j..])
      ensures elements == old(elements[..j - 1] + [d] + elements[j - 1..])
      ensures Live(n) && Place(n) == j - 1
    {
      ghost var ns := nodes;
      assert NodeAt(ns, j - 1) == a && NodeAt(ns, j) == b;
      n := new Node(d, this);
      Link(a, n, b);
      numElements := numElements + 1;
      forall k | 0 <= k < |ns| - 1 && k != j - 1
        ensures NodeAt(ns, k).next == ns[k + 1] && ns[k + 1].prev == NodeAt(ns, k)
      {
        assert NodeAt(ns, k + 1) == ns[k + 1];
      }
      Enter(j, n);
    }

    /**
     * insertBefore: a new node holding `d` goes just before the position
     * `p`; an unacceptable position changes nothing.
     */
    method InsertBefore(p: Node?<T>, d: T) returns (r: Result<Node<T>>)
      requires Valid() && Handle(p)
      modifies this, Repr
      ensures Valid() && Repr == old(Repr) + (if r.Ok? then {r.value} else {})
      ensures !old(Live(p)) ==> r == Err(Position) && unchanged(this) && unchanged(Repr)
      ensures old(Live(p)) ==>
        r.Ok? && fresh(r.value) && Live(r.value) && Live(p) &&
        (var i := old(Place(p));
        elements == old(elements[..i] + [d] + elements[i..]) && nodes == old(nodes[..i + 1]) + [r.value] + old(nodes[i + 1..]) &&
        Place(r.value) == i && Place(p) == i + 1)
    {
      var c := Convert(p);
      if c.Err? {
        return Err(c.error);
      }
      var target := c.value;
      ghost var j := IndexOf(nodes, target);
      ghost var i := Place(target);
      Neighbours(j);
      var newBefore := AddBetween(target.prev, target, d, j);
      assert nodes[j + 1] == target;
      PlaceOf(j);
      r := Ok(newBefore);
    }

    /**
     * insertAfter: a new node holding `d` goes just after the position
     * `p`; an unacceptable position changes nothing.
     */
    method InsertAfter(p: Node?<T>, d: T) returns (r: Result<Node<T>>)
      requires Valid() && Handle(p)
      modifies this, Repr
      ensures Valid() && Repr == old(Repr) + (if r.Ok? then {r.value} else {})
      ensures !old(Live(p)) ==> r == Err(Position) && unchanged(this) && unchanged(Repr)
      ensures old(Live(p)) ==>
        r.Ok? && fresh(r.value) && Live(r.value) && Live(p) &&
        (var i := old(Place(p));
        elements == old(elements[..i + 1] + [d] + elements[i + 1..]) && nodes == old(nodes[..i + 2]) + [r.value] + old(nodes[i + 2..]) &&
        Place(p) == i && Place(r.value) == i + 1)
    {
      var c := Convert(p);
      if c.Err? {
        return Err(c.error);
      }
      var target := c.value;
      ghost var j := IndexOf(nodes, target) + 1;
      ghost var i := Place(target);
      Neighbours(j - 1);
      var newAfter := AddBetween(target, target.next, d, j);
      assert nodes[j - 1] == target;
      PlaceOf(j - 2);
      r := Ok(newAfter);
    }

    /** The node before the element node at `j` is its `prev`, the one after it its `next`. */
    lemma Neighbours(j: int)
      requires Valid() && 1 <= j < |nodes| - 1
      ensures nodes[j].prev == nodes[j - 1] && nodes[j].next == nodes[j + 1]
      ensures nodes[j - 1] != nodes[j + 1]
    {
      assert NodeAt(nodes, j - 1).next == nodes[j] && NodeAt(nodes, j).next == nodes[j + 1];
      assert NodeAt(nodes, j - 1) != NodeAt(nodes, j + 1);
    }

    /** head links to the front node and tail back to the back node (each a sentinel when the list is empty). */
    lemma Ends()
      requires Valid()
      ensures head.next == nodes[1] && tail.prev == nodes[|nodes| - 2]
    {
      assert NodeAt(nodes, 0).next == nodes[1];
      assert NodeAt(nodes, |nodes| - 2).next == nodes[|nodes| - 1];
    }

    /**
     * The pointer work of every removal: the element node at `j` is
     * bypassed by its neighbours and no longer names this list as its owner.
     */
    method Unlink(target: Node<T>, ghost j: int)
      requires Valid() && 1 <= j < |nodes| - 1 && nodes[j] == target
      modifies this, Repr
      ensures Valid() && Repr == old(Repr) && head == old(head) && tail == old(tail)
      ensures target.owner == null && !Live(target)
      ensures nodes == old(nodes[..j] + nodes[j + 1..])
      ensures elements == old(elements[..j - 1] + elements[j..])
    {
      ghost var ns := nodes;
      Neighbours(j);
      var before := target.prev;
      var after := target.next;
      before.next := after;
      after.prev := before;
      numElements := numElements - 1;
      target.owner := null;
      forall k | 0 <= k < |ns| && k != j
        ensures NodeAt(ns, k).owner == this
      {
        assert NodeAt(ns, k) != NodeAt(ns, j);
      }
      forall k | 0 <= k < |ns| - 1 && k != j - 1 && k != j
        ensures NodeAt(ns, k).next == ns[k + 1] && ns[k + 1].prev == NodeAt(ns, k)
      {
        assert NodeAt(ns, k + 1) == ns[k + 1];
        assert NodeAt(ns, k) != NodeAt(ns, j - 1) && NodeAt(ns, k + 1) != NodeAt(ns, j + 1);
      }
      Leave(j);
      forall k | 0 <= k < |nodes|
        ensures nodes[k] != target
      {
        assert NodeAt(ns, if k < j then k else k + 1) != NodeAt(ns, j);
      }
    }

    /**
     * remove: the element at the position `p` leaves the list and `p` is
     * invalidated, so that a later use of it is refused; an unacceptable
     * position changes nothing.
     */
    method Remove(p: Node?<T>) returns (r: Result<()>)
      requires Valid() && Handle(p)
      modifies this, Repr
      ensures Valid() && Repr == old(Repr) && Handle(p)
      ensures !old(Live(p)) ==> r == Err(Position) && unchanged(this) && unchanged(Repr)
      ensures old(Live(p)) ==>
        r == Ok(()) && !Live(p) && p.owner == null &&
        (var i := old(Place(p));
        elements == old(elements[..i] + elements[i + 1..]) && nodes == old(nodes[..i + 1] + nodes[i + 2..]))
    {
      var c := Convert(p);
      if c.Err? {
        return Err(c.error);
      }
      Unlink(c.value, IndexOf(nodes, c.value));
      r := Ok(());
    }

    /** front: the position of the first element; an empty list throws. */
    method Front() returns (r: Result<Node<T>>)
      requires Valid()
      ensures r.Err? <==> elements == []
      ensures r.Err? ==> r.error == Empty
      ensures r.Ok? ==> Live(r.value) && Place(r.value) == 0
    {
      if numElements == 0 {
        return Err(Empty);
      }
      Ends();
      PlaceOf(0);
      r := Ok(head.next);
    }

    /** back: the position of the last element; an empty list throws. */
    method Back() returns (r: Result<Node<T>>)
      requires Valid()
      ensures r.Err? <==> elements == []
      ensures r.Err? ==> r.error == Empty
      ensures r.Ok? ==> Live(r.value) && Place(r.value) == |elements| - 1
    {
      if numElements == 0 {
        return Err(Empty);
      }
      Ends();
      PlaceOf(|elements| - 1);
      r := Ok(tail.prev);
    }

    /** removeFront: the first element leaves the list; an empty list throws and is unchanged. */
    method RemoveFront() returns (r: Result<()>)
      requires Valid()
      modifies this, Repr
      ensures Valid() && Repr == old(Repr)
      ensures old(elements) == [] ==> r == Err(Empty) && unchanged(this) && unchanged(Repr)
      ensures old(elements) != [] ==>
        r == Ok(()) && elements == old(elements[1..]) && old(nodes[1]).owner == null
    {
      var f := Front();
      if f.Err? {
        return Err(f.error);
      }
      var currFront := f.value;
      Unlink(currFront, 1);
      r := Ok(());
    }

    /** removeBack: the last element leaves the list; an empty list throws and is unchanged. */
    method RemoveBack() returns (r: Result<()>)
      requires Valid()
      modifies this, Repr
      ensures Valid() && Repr == old(Repr)
      ensures old(elements) == [] ==> r == Err(Empty) && unchanged(this) && unchanged(Repr)
      ensures old(elements) != [] ==>
        r == Ok(()) && elements == old(elements[..|elements| - 1]) && old(nodes[|nodes| - 2]).owner == null
    {
      var b := Back();
      if b.Err? {
        return Err(b.error);
      }
      var currBack := b.value;
      Unlink(currBack, |nodes| - 2);
      r := Ok(());
    }

    /** Two element nodes are the same node exactly when they have the same place. */
    lemma SamePlace(p: Node<T>, j: int)
      requires Valid() && Live(p) && 1 <= j < |nodes| - 1
      ensures p == nodes[j] <==> Place(p) == j - 1
    {
      var i := Place(p) + 1;
      assert NodeAt(nodes, i) == p;
      if i != j {
        assert NodeAt(nodes, i) != NodeAt(nodes, j);
      }
    }

    /** first: whether the position `p` holds the first element; an unacceptable position throws. */
    method First(p: Node?<T>) returns (r: Result<bool>)
      requires Valid() && Handle(p)
      ensures r.Ok? <==> Live(p)
      ensures r.Err? ==> r.error == Position
      ensures r.Ok? ==> r.value == (Place(p) == 0)
    {
      var c := Convert(p);
      if c.Err? {
        return Err(c.error);
      }
      Ends();
      SamePlace(c.value, 1);
      r := Ok(head.next == c.value);
    }

    /** last: whether the position `p` holds the last element; an unacceptable position throws. */
    method Last(p: Node?<T>) returns (r: Result<bool>)
      requires Valid() && Handle(p)
      ensures r.Ok? <==> Live(p)
      ensures r.Err? ==> r.error == Position
      ensures r.Ok? ==> r.value == (Place(p) == |elements| - 1)
    {
      var c := Convert(p);
      if c.Err? {
        return Err(c.error);
      }
      Ends();
      SamePlace(c.value, |nodes| - 2);
      r := Ok(tail.prev == c.value);
    }

    /**
     * next: the position after `p`; the last position and an unacceptable
     * position throw.
     */
    method Next(p: Node?<T>) returns (r: Result<Node<T>>)
      requires Valid() && Handle(p)
      ensures r.Ok? <==> Live(p) && Place(p) < |elements| - 1
      ensures r.Err? ==> r.error == Position
      ensures r.Ok? ==> Live(r.value) && Place(r.value) == Place(p) + 1
    {
      var l := Last(p);
      if l.Err? || l.value {
        return Err(Position);
      }
      var c := Convert(p);
      var i := Place(c.value);
      Neighbours(i + 1);
      PlaceOf(i + 1);
      r := Ok(c.value.next);
    }

    /**
     * previous: the position before `p`; the first position and an
     * unacceptable position throw.
     */
    method Previous(p: Node?<T>) returns (r: Result<Node<T>>)
      requires Valid() && Handle(p)
      ensures r.Ok? <==> Live(p) && Place(p) > 0
      ensures r.Err? ==> r.error == Position
      ensures r.Ok? ==> Live(r.value) && Place(r.value) == Place(p) - 1
    {
      var f := First(p);
      if f.Err? || f.value {
        return Err(Position);
      }
      var c := Convert(p);
      var i := Place(c.value);
      Neighbours(i + 1);
      PlaceOf(i - 1);
      r := Ok(c.value.prev);
    }

    /** forward: an iterator from the front element to the back one. */
    method Forward() returns (it: ListIterator<T>)
      requires Valid()
      ensures fresh(it) && it.Valid() && it.list == this && it.Remaining() == elements
    {
      it := new ListIterator(this, true);
    }

    /** backward: an iterator from the back element to the front one. */
    method Backward() returns (it: ListIterator<T>)
      requires Valid()
      ensures fresh(it) && it.Valid() && it.list == this && it.Remaining() == Reversed(elements)
    {
      it := new ListIterator(this, false);
    }

    /** iterator: the forward iterator. */
    method Iterator() returns (it: ListIterator<T>)
      requires Valid()
      ensures fresh(it) && it.Valid() && it.list == this && it.Remaining() == elements
    {
      it := Forward();
    }
  }

  /** `s` back to front. */
  function Reversed<T>(s: seq<T>): (r: seq<T>)
    ensures |r| == |s| && forall i :: 0 <= i < |s| ==> r[i] == s[|s| - 1 - i]
  {
    if s == [] then [] else [s[|s| - 1]] + Reversed(s[..|s| - 1])
  }

  /**
   * ListIterator: a node `curr` walked from the front node along `next`,
   * or from the back node along `prev`. `pos` counts the elements already
   * returned; the iterator is described over a list that is not changed
   * while it is in use.
   */
  class ListIterator<T(0)> {
    const list: LinkedList<T>
    const forward: bool
    var curr: Node?<T>
    ghost var pos: int

    ghost predicate Valid()
      reads this, list, list.Repr
    {
      list.Valid() && 0 <= pos <= |list.elements| &&
      curr == (if forward then list.nodes[pos + 1] else list.nodes[|list.elements| - pos])
    }

    /** The elements still to come, in the order the iterator returns them. */
    ghost function Remaining(): seq<T>
      reads this, list, list.Repr
      requires Valid()
    {
      if forward then list.elements[pos..] else Reversed(list.elements[..|list.elements| - pos])
    }

    /** The iterator stands on the front node (forward) or the back node (backward). */
    constructor (l: LinkedList<T>, forward: bool)
      requires l.Valid()
      ensures Valid() && list == l && this.forward == forward && pos == 0
      ensures Remaining() == (if forward then l.elements else Reversed(l.elements))
    {
      list := l;
      this.forward := forward;
      l.Ends();
      if forward {
        curr := l.head.next;
      } else {
        curr := l.tail.prev;
      }
      pos := 0;
      assert l.elements[..|l.elements|] == l.elements;
    }

    /** hasNext: the iterator stands on neither sentinel, which is whether an element remains. */
    function HasNext(): (b: bool)
      reads this, list, list.Repr
      requires Valid()
      ensures b <==> Remaining() != []
    {
      var n := |list.nodes|;
      assert NodeAt(list.nodes, 0) == list.head && NodeAt(list.nodes, n - 1) == list.tail;
      assert forward ==> NodeAt(list.nodes, pos + 1) == curr;
      assert !forward ==> NodeAt(list.nodes, n - 2 - pos) == curr;
      curr != null && curr != list.head && curr != list.tail
    }

    /**
     * next, as intended: the element of the current node, after which the
     * iterator moves one node on; with no element left it throws
     * NoSuchElementException. The code as written is NextAsWritten.
     */
    method Next() returns (r: Result<T>)
      requires Valid()
      modifies this
      ensures Valid()
      ensures old(Remaining()) == [] ==> r == Err(NoSuchElement) && pos == old(pos)
      ensures old(Remaining()) != [] ==> r == Ok(old(Remaining())[0]) && Remaining() == old(Remaining())[1..]
    {
      if !HasNext() {
        return Err(NoSuchElement);
      }
      ghost var rest := Remaining();
      ghost var es := list.elements;
      var value := curr.Get();
      if forward {
        assert NodeAt(list.nodes, pos + 1).data == es[pos];
        list.Neighbours(pos + 1);
        curr := curr.next;
        assert rest[0] == es[pos] && rest[1..] == es[pos + 1..];
      } else {
        assert NodeAt(list.nodes, |es| - pos).data == es[|es| - pos - 1];
        list.Neighbours(|es| - pos);
        curr := curr.prev;
        assert es[..|es| - pos][..|es| - pos - 1] == es[..|es| - pos - 1];
        assert rest[0] == es[|es| - pos - 1];
      }
      pos := pos + 1;
      r := Ok(value);
    }

    /**
     * next as written: its test is inverted, so it throws
     * NoSuchElementException exactly while an element remains; once none
     * does, it returns the data of the sentinel it stands on, which is
     * null, and steps off the list.
     */
    method NextAsWritten() returns (r: Result<Option<T>>)
      requires Valid()
      modifies this
      ensures old(Remaining()) != [] ==> r == Err(NoSuchElement) && Valid() && pos == old(pos)
      ensures old(Remaining()) == [] ==> r == Ok(None)
    {
      if HasNext() {
        return Err(NoSuchElement);
      }
      curr := if forward then curr.next else curr.prev;
      r := Ok(None);
    }
  }

  /**
   * The inverted test of next as written: on a list holding one element, a
   * fresh forward iterator reports a next element, yet next throws.
   */
  method NextAsWrittenRefusesElement<T(0)>(x: T) returns (h: bool, r: Result<Option<T>>)
    ensures h && r == Err(NoSuchElement)
  {
    var list := new LinkedList();
    var p := list.InsertBack(x);
    var it := list.Forward();
    h := it.HasNext();
    r := it.NextAsWritten();
  }

  /**
   * A removed position stays refused: after the list has changed again, a
   * second remove of it throws a position error and changes nothing.
   */
  method RemovedStaysRefused<T(0)>(list: LinkedList<T>, x: T, y: T) returns (r: Result<()>)
    requires list.Valid()
    modifies list, list.Repr
    ensures list.Valid() && list.elements == [y] + old(list.elements) && r == Err(Position)
  {
    var p := list.InsertBack(x);
    var _ := list.Remove(p);
    var _ := list.InsertFront(y);
    list.RemovedRefused(p);
    r := list.Remove(p);
  }

  /**
   * Calling next until hasNext is false yields the remaining elements, in
   * the iterator's order, and leaves none.
   */
  method Drain<T(0)>(it: ListIterator<T>) returns (s: seq<T>)
    requires it.Valid()
    modifies it
    ensures it.Valid() && s == old(it.Remaining()) && it.Remaining() == []
  {
    s := [];
    ghost var all := it.Remaining();
    while it.HasNext()
      invariant it.Valid() && |s| <= |all| && s == all[..|s|] && it.Remaining() == all[|s|..]
      decreases |all| - |s|
    {
      var r := it.Next();
      assert all[..|s| + 1] == s + [r.value];
      s := s + [r.value];
    }
    assert all[..|s|] == all;
  }

  /**
   * With next as intended, forward iteration yields every element front
   * first, and one more next throws NoSuchElementException.
   */
  method ForwardAll<T(0)>(list: LinkedList<T>) returns (s: seq<T>, r: Result<T>)
    requires list.Valid()
    ensures s == list.elements && r == Err(NoSuchElement)
  {
    var it := list.Forward();
    s := Drain(it);
    r := it.Next();
  }

  /** With next as intended, backward iteration yields every element back first. */
  method BackwardAll<T(0)>(list: LinkedList<T>) returns (s: seq<T>, r: Result<T>)
    requires list.Valid()
    ensures s == Reversed(list.elements) && r == Err(NoSuchElement)
  {
    var it := list.Backward();
    s := Drain(it);
    r := it.Next();
  }

  /** Putting the fresh node `n` at `j`, between the sentinels, keeps distinct nodes holding the elements. */
  lemma JoinNode<T(0)>(ns: seq<Node<T>>, es: seq<T>, r: set<Node<T>>, j: int, n: Node<T>)
    requires Holding(ns, es, r) && 1 <= j < |ns| && n !in r
    ensures Holding(ns[..j] + [n] + ns[j..], es[..j - 1] + [n.data] + es[j - 1..], r + {n})
  {
    var ms, fs := ns[..j] + [n] + ns[j..], es[..j - 1] + [n.data] + es[j - 1..];
    forall k | 0 <= k < |ms| && k != j
      ensures NodeAt(ms, k) == NodeAt(ns, if k < j then k else k - 1)
    {
    }
    forall k | 1 <= k < |ms| - 1
      ensures NodeAt(ms, k).data == fs[k - 1]
    {
      if k != j {
        assert NodeAt(ns, if k < j then k else k - 1) == ms[k];
      }
    }
    forall a, b | 0 <= a < b < |ms|
      ensures NodeAt(ms, a) != NodeAt(ms, b)
    {
      if a != j && b != j {
        assert NodeAt(ns, if a < j then a else a - 1) != NodeAt(ns, if b < j then b else b - 1);
      }
    }
  }

  /** Nodes owned by `o` stay owned by `o` once `n`, owned by `o` too, is put at `j`. */
  lemma JoinOwner<T(0)>(ns: seq<Node<T>>, j: int, n: Node<T>, o: LinkedList<T>)
    requires 1 <= j < |ns| && n.owner == o
    requires forall k {:trigger NodeAt(ns, k)} :: 0 <= k < |ns| ==> NodeAt(ns, k).owner == o
    ensures var ms := ns[..j] + [n] + ns[j..];
      forall k {:trigger NodeAt(ms, k)} :: 0 <= k < |ms| ==> NodeAt(ms, k).owner == o
  {
    var ms := ns[..j] + [n] + ns[j..];
    forall k | 0 <= k < |ms|
      ensures NodeAt(ms, k).owner == o
    {
      if k != j {
        assert NodeAt(ms, k) == NodeAt(ns, if k < j then k else k - 1);
      }
    }
  }

  /**
   * Nodes linked in order except between `j - 1` and `j`, where the node
   * `n` is linked in both ways, are linked in order once `n` is put at `j`.
   */
  lemma JoinLinks<T(0)>(ns: seq<Node<T>>, j: int, n: Node<T>)
    requires 1 <= j < |ns|
    requires forall k {:trigger NodeAt(ns, k)} :: 0 <= k < |ns| - 1 && k != j - 1 ==>
      NodeAt(ns, k).next == ns[k + 1] && ns[k + 1].prev == NodeAt(ns, k)
    requires ns[j - 1].next == n && n.prev == ns[j - 1] && n.next == ns[j] && ns[j].prev == n
    ensures var ms := ns[..j] + [n] + ns[j..];
      forall k {:trigger NodeAt(ms, k)} :: 0 <= k < |ms| - 1 ==>
        NodeAt(ms, k).next == ms[k + 1] && ms[k + 1].prev == NodeAt(ms, k)
  {
    var ms := ns[..j] + [n] + ns[j..];
    forall k | 0 <= k < |ms| - 1
      ensures NodeAt(ms, k).next == ms[k + 1] && ms[k + 1].prev == NodeAt(ms, k)
    {
      if k + 1 < j {
        assert NodeAt(ns, k) == ms[k] && ms[k + 1] == ns[k + 1];
      } else if k + 1 == j {
        assert ms[k] == ns[j - 1] && ms[k + 1] == n;
      } else if k == j {
        assert ms[k] == n && ms[k + 1] == ns[j];
      } else {
        assert NodeAt(ns, k - 1) == ms[k] && ms[k + 1] == ns[k];
      }
    }
  }

  /** Dropping the element node at `j` and its element keeps distinct nodes holding the elements. */
  lemma DropNode<T(0)>(ns: seq<Node<T>>, es: seq<T>, r: set<Node<T>>, j: int)
    requires Holding(ns, es, r) && 1 <= j < |ns| - 1
    ensures Holding(ns[..j] + ns[j + 1..], es[..j - 1] + es[j..], r)
  {
    var ms, fs := ns[..j] + ns[j + 1..], es[..j - 1] + es[j..];
    forall k | 0 <= k < |ms|
      ensures ms[k] in r && NodeAt(ms, k) == NodeAt(ns, if k < j then k else k + 1)
    {
    }
    forall k | 1 <= k < |ms| - 1
      ensures NodeAt(ms, k).data == fs[k - 1]
    {
      assert NodeAt(ns, if k < j then k else k + 1) == ms[k];
    }
    forall a, b | 0 <= a < b < |ms|
      ensures NodeAt(ms, a) != NodeAt(ms, b)
    {
      assert NodeAt(ns, if a < j then a else a + 1) != NodeAt(ns, if b < j then b else b + 1);
    }
  }

  /**
   * Nodes linked in order except around `j`, whose neighbours point at
   * each other, are linked in order once the node at `j` is dropped.
   */
  lemma DropLinks<T(0)>(ns: seq<Node<T>>, j: int)
    requires 1 <= j < |ns| - 1
    requires forall k {:trigger NodeAt(ns, k)} :: 0 <= k < |ns| - 1 && k != j - 1 && k != j ==>
      NodeAt(ns, k).next == ns[k + 1] && ns[k + 1].prev == NodeAt(ns, k)
    requires ns[j - 1].next == ns[j + 1] && ns[j + 1].prev == ns[j - 1]
    ensures var ms := ns[..j] + ns[j + 1..];
      forall k {:trigger NodeAt(ms, k)} :: 0 <= k < |ms| - 1 ==>
        NodeAt(ms, k).next == ms[k + 1] && ms[k + 1].prev == NodeAt(ms, k)
  {
    var ms := ns[..j] + ns[j + 1..];
    forall k | 0 <= k < |ms| - 1
      ensures NodeAt(ms, k).next == ms[k + 1] && ms[k + 1].prev == NodeAt(ms, k)
    {
      if k + 1 < j {
        assert NodeAt(ns, k) == ms[k] && ms[k + 1] == ns[k + 1];
      } else if k + 1 == j {
        assert ms[k] == ns[j - 1] && ms[k + 1] == ns[j + 1];
      } else {
        assert NodeAt(ns, k + 1) == ms[k] && ms[k + 1] == ns[k + 2];
      }
    }
  }
}
