/**
 * ArrayQueue: a queue in a fixed circular buffer of 10 slots. Enqueue writes
 * at `back` and dequeue advances `front`, both wrapping around modulo the
 * capacity.
 */
module ArrayQueues {
  import opened Outcomes

  /** The fixed capacity of every queue. */
  const CAPACITY := 10

  class ArrayQueue<T(0)> {
    var front: int
    var back: int
    var numElements: int
    var capacity: int
    var data: array<T>
    /** The queue, oldest first. */
    ghost var contents: seq<T>

    /** The slot of the element `i` places behind the front. */
    function Slot(i: int): (r: int)
      reads this
      requires 0 <= front < capacity
      ensures 0 <= r < capacity
    {
      (front + i) % capacity
    }

    /**
     * Both markers lie in [0, capacity), back is front + numElements modulo
     * the capacity, and the element `i` places behind the front sits at Slot(i).
     */
    ghost predicate Valid()
      reads this, data
    {
      capacity == CAPACITY == data.Length &&
      0 <= front < capacity && 0 <= back < capacity && 0 <= numElements <= capacity &&
      back == (front + numElements) % capacity &&
      |contents| == numElements &&
      forall i :: 0 <= i < numElements ==> data[Slot(i)] == contents[i]
    }

    /** An empty queue with both markers at 0. */
    constructor ()
      ensures Valid() && fresh(data) && contents == [] && front == 0 && back == 0
    {
      front := 0;
      back := 0;
      numElements := 0;
      capacity := CAPACITY;
      data := new T[CAPACITY];
      contents := [];
    }

    /** empty: whether there are no elements. */
    function IsEmpty(): (b: bool)
      reads this, data
      requires Valid()
      ensures b <==> contents == []
    {
      numElements == 0
    }

    /** enqueue: `v` goes into slot `back`, which then advances. */
    method Enqueue(v: T)
      requires Valid() && numElements < capacity
      modifies this, data
      ensures Valid() && data == old(data) && contents == old(contents) + [v]
      ensures front == old(front) && back == (old(back) + 1) % capacity
    {
      data[back] := v;
      back := back + 1;
      back := back % capacity;
      numElements := numElements + 1;
      contents := contents + [v];
      Wrap(front + numElements - 1, capacity);
      Wrap(front + numElements, capacity);
      forall i | 0 <= i < numElements ensures data[Slot(i)] == contents[i] {
        if i < numElements - 1 {
          Distinct(old(front), i, numElements - 1, capacity);
        }
      }
    }

    /**
     * enqueue as the code has it, with no check for a full buffer: `v` goes
     * into slot `back` whatever that slot holds, so on a full queue it
     * overwrites the oldest element.
     */
    method EnqueueAsWritten(v: T)
      requires 0 <= back < capacity == data.Length
      modifies this, data
      ensures data == old(data) && data[..] == old(data[..])[old(back) := v] && capacity == old(capacity)
      ensures front == old(front) && back == (old(back) + 1) % capacity && numElements == old(numElements) + 1
      ensures contents == old(contents) + [v]
    {
      data[back] := v;
      back := back + 1;
      back := back % capacity;
      numElements := numElements + 1;
      contents := contents + [v];
    }

    /** dequeue: `front` advances past the oldest element; throws on an empty queue. */
    method Dequeue() returns (r: Result<()>)
      requires Valid()
      modifies this
      ensures Valid() && data == old(data) && back == old(back)
      ensures old(contents) == [] ==> r == Err(Empty) && contents == [] && front == old(front)
      ensures old(contents) != [] ==> r == Ok(()) && contents == old(contents)[1..] && front == (old(front) + 1) % capacity
    {
      if IsEmpty() {
        return Err(Empty);
      }
      ghost var f := front;
      front := front + 1;
      front := front % capacity;
      numElements := numElements - 1;
      contents := contents[1..];
      Advance(f, numElements, capacity);
      forall i | 0 <= i < numElements ensures data[Slot(i)] == contents[i] {
        Advance(f, i, capacity);
        assert old(data[Slot(i + 1)]) == old(contents)[i + 1];
      }
      r := Ok(());
    }

    /**
     * front: the oldest element; throws on an empty queue. Whatever the
     * state, it reads slot `front` unless the count is zero.
     */
    method Front() returns (r: Result<T>)
      requires 0 <= front < data.Length
      ensures numElements == 0 ==> r == Err(Empty)
      ensures numElements != 0 ==> r == Ok(data[front])
      ensures Valid() && contents == [] ==> r == Err(Empty)
      ensures Valid() && contents != [] ==> r == Ok(contents[0])
    {
      if numElements == 0 {
        return Err(Empty);
      }
      assert Valid() ==> Slot(0) == front;
      r := Ok(data[front]);
    }
  }

  /** Below twice the modulus, the remainder subtracts the modulus at most once. */
  lemma Wrap(x: int, c: int)
    requires 0 <= x < 2 * c
    ensures x % c == if x < c then x else x - c
  {
    if x >= c {
      assert x == 1 * c + (x - c);
    }
  }

  /** Advancing the front by one slot and looking `i` places behind it is looking `i + 1` places behind the old front. */
  lemma Advance(front: int, i: int, c: int)
    requires 0 <= front < c && 0 <= i < c
    ensures ((front + 1) % c + i) % c == (front + i + 1) % c
  {
    Wrap(front + 1, c);
    Wrap(front + i + 1, c);
    Wrap((front + 1) % c + i, c);
  }

  /** Two different places behind the front, both within the capacity, are different slots. */
  lemma Distinct(front: int, i: int, j: int, c: int)
    requires 0 <= front < c && 0 <= i < j < c
    ensures (front + i) % c != (front + j) % c
  {
    Wrap(front + i, c);
    Wrap(front + j, c);
  }

  /**
   * The overflow as the code has it: after ten enqueues of `x` fill the
   * buffer, an eleventh of `y` lands in the front slot, so front returns
   * the newest element `y` while the oldest is still `x`.
   */
  method OverflowOverwritesFront<T(0)>(q: ArrayQueue<T>, x: T, y: T) returns (r: Result<T>)
    requires q.Valid() && q.contents == []
    modifies q, q.data
    ensures |q.contents| == CAPACITY + 1 && q.contents[0] == x && q.contents[CAPACITY] == y
    ensures r == Ok(y)
  {
    var i := 0;
    while i < CAPACITY
      invariant 0 <= i <= CAPACITY && q.Valid() && q.data == old(q.data) && q.front == old(q.front)
      invariant |q.contents| == i && forall k :: 0 <= k < i ==> q.contents[k] == x
    {
      q.Enqueue(x);
      i := i + 1;
    }
    Wrap(q.front + CAPACITY, CAPACITY);
    q.EnqueueAsWritten(y);
    r := q.Front();
  }
}
