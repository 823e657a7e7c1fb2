/**
 * ArrayStack: a stack over an array whose top is the last used slot. The
 * array doubles as soon as a push fills it, so a free slot always remains.
 */
module ArrayStacks {
  import opened Outcomes

  /** The capacity of a new stack. */
  const INITIAL_CAPACITY := 10

  class ArrayStack<T(0)> {
    var data: array<T>
    var capacity: int
    var numElements: int

    /** The stack, bottom first: the used prefix of the array. */
    ghost function Elements(): seq<T>
      reads this, data
      requires 0 <= numElements <= data.Length
    {
      data[..numElements]
    }

    /** At least one slot is free, and the capacity is the array's length. */
    ghost predicate Valid()
      reads this
    {
      0 <= numElements < capacity && capacity == data.Length
    }

    /** An empty stack of capacity 10. */
    constructor ()
      ensures Valid() && fresh(data) && capacity == INITIAL_CAPACITY && Elements() == []
    {
      capacity := INITIAL_CAPACITY;
      data := new T[INITIAL_CAPACITY];
      numElements := 0;
    }

    /** empty: whether there are no elements. */
    function IsEmpty(): (b: bool)
      reads this, data
      requires Valid()
      ensures b <==> Elements() == []
    {
      numElements == 0
    }

    /** top: the most recently pushed element; throws on an empty stack. */
    method Top() returns (r: Result<T>)
      requires Valid()
      ensures Elements() == [] ==> r == Err(Empty)
      ensures Elements() != [] ==> r == Ok(Elements()[|Elements()| - 1])
    {
      if IsEmpty() {
        return Err(Empty);
      }
      r := Ok(data[numElements - 1]);
    }

    /** pop: drops the most recently pushed element; throws on an empty stack. */
    method Pop() returns (r: Result<()>)
      requires Valid()
      modifies this
      ensures Valid() && data == old(data) && capacity == old(capacity)
      ensures old(Elements()) == [] ==> r == Err(Empty) && numElements == old(numElements)
      ensures old(Elements()) != [] ==> r == Ok(()) && Elements() == old(Elements())[..|old(Elements())| - 1]
    {
      if IsEmpty() {
        return Err(Empty);
      }
      numElements := numElements - 1;
      r := Ok(());
    }

    /** push: `v` becomes the top; when the array is then full it doubles. */
    method Push(v: T)
      requires Valid()
      modifies this, data
      ensures Valid() && Elements() == old(Elements()) + [v]
      ensures old(numElements) + 1 < old(capacity) ==> data == old(data) && capacity == old(capacity)
      ensures old(numElements) + 1 == old(capacity) ==> fresh(data) && capacity == 2 * old(capacity)
    {
      data[numElements] := v;
      numElements := numElements + 1;
      if numElements == capacity {
        Grow();
      }
    }

    /** grow: a new array of twice the capacity, holding the same elements at the same indices. */
    method Grow()
      requires 0 <= numElements <= capacity == data.Length && capacity > 0
      modifies this
      ensures fresh(data) && capacity == 2 * old(capacity) == data.Length && numElements == old(numElements)
      ensures Elements() == old(Elements())
    {
      capacity := 2 * capacity;
      var newData := new T[capacity];
      for i := 0 to numElements
        modifies newData
        invariant newData[..i] == data[..i]
      {
        newData[i] := data[i];
      }
      data := newData;
    }
  }

  /** Last in, first out: after a push, top reads the pushed element and pop restores the stack. */
  method PushTopPop<T(0)>(s: ArrayStack<T>, v: T) returns (t: Result<T>, r: Result<()>)
    requires s.Valid()
    modifies s, s.data
    ensures t == Ok(v) && r == Ok(())
    ensures s.Valid() && s.Elements() == old(s.Elements())
  {
    s.Push(v);
    t := s.Top();
    r := s.Pop();
  }
}
