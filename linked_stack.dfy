/**
 * LinkedStack: a stack whose top is the head of a singly linked list. Push
 * links a new node in front of the head and pop moves the head one node on;
 * a node is never changed once it is linked.
 */
module LinkedStacks {
  import opened Outcomes

  /** A list node; `content` is the list from this node to the end. */
  class Node<T> {
    const data: T
    const next: Node?<T>
    ghost const content: seq<T>

    ghost predicate Valid()
      decreases |content|
    {
      if next == null then content == [data]
      else |next.content| < |content| && next.Valid() && content == [data] + next.content
    }

    /** A node holding `d` linked in front of `n`. */
    constructor (d: T, n: Node?<T>)
      requires n != null ==> n.Valid()
      ensures Valid() && data == d && next == n
      ensures content == [d] + (if n == null then [] else n.content)
    {
      data := d;
      next := n;
      content := [d] + (if n == null then [] else n.content);
    }
  }

  class LinkedStack<T> {
    var head: Node?<T>
    /** The stack, top first. */
    ghost var contents: seq<T>

    ghost predicate Valid()
      reads this
    {
      if head == null then contents == [] else head.Valid() && contents == head.content
    }

    /** An empty stack. */
    constructor ()
      ensures Valid() && contents == []
    {
      head := null;
      contents := [];
    }

    /** empty: whether head is null, which is whether the stack has no elements. */
    function IsEmpty(): (b: bool)
      reads this
      requires Valid()
      ensures b <==> contents == []
    {
      head == null
    }

    /** top: the element of the head node; throws on an empty stack. */
    method Top() returns (r: Result<T>)
      requires Valid()
      ensures contents == [] ==> r == Err(Empty)
      ensures contents != [] ==> r == Ok(contents[0])
    {
      if IsEmpty() {
        return Err(Empty);
      }
      r := Ok(head.data);
    }

    /** pop: the head moves to the next node; throws on an empty stack. */
    method Pop() returns (r: Result<()>)
      requires Valid()
      modifies this
      ensures Valid()
      ensures old(contents) == [] ==> r == Err(Empty) && contents == []
      ensures old(contents) != [] ==> r == Ok(()) && contents == old(contents)[1..]
    {
      if IsEmpty() {
        return Err(Empty);
      }
      head := head.next;
      contents := contents[1..];
      r := Ok(());
    }

    /** push: a new node holding `t` becomes the head. */
    method Push(t: T)
      requires Valid()
      modifies this
      ensures Valid() && contents == [t] + old(contents)
    {
      head := new Node(t, head);
      contents := [t] + contents;
    }
  }

  /** Last in, first out: after a push, top reads the pushed element and pop restores the stack. */
  method PushTopPop<T>(s: LinkedStack<T>, v: T) returns (t: Result<T>, r: Result<()>)
    requires s.Valid()
    modifies s
    ensures t == Ok(v) && r == Ok(())
    ensures s.Valid() && s.contents == old(s.contents)
  {
    s.Push(v);
    t := s.Top();
    r := s.Pop();
  }
}
