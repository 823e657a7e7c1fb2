/**
 * Values shared by every container of the library: Java's `null`, the
 * exceptions the containers throw, and the few Java integer rules the
 * containers depend on.
 */
module Outcomes {

  /** A reference that may be `null`. */
  datatype Option<T> = None | Some(value: T)

  /** One constructor per exception class the containers throw. */
  datatype Error =
    | IllegalArgument        // java.lang.IllegalArgumentException
    | NoSuchElement          // java.util.NoSuchElementException
    | EmptyStack             // java.util.EmptyStackException (java.util.Stack.pop)
    | ConcurrentModification // java.util.ConcurrentModificationException
    | Empty                  // EmptyException of the stacks, queues and lists
    | Position               // PositionException of the list and the graph
    | Insertion              // InsertionException of the graph
    | Removal                // RemovalException of the graph

  /** A call that either returns a value or throws. */
  datatype Result<T> = Ok(value: T) | Err(error: Error)

  /** Integer.MAX_VALUE. */
  const INT_MAX: int := 0x7fff_ffff

  function Max(a: int, b: int): (m: int)
    ensures m >= a && m >= b && (m == a || m == b)
  {
    if a >= b then a else b
  }

  /** Math.abs. */
  function Abs(a: int): (m: int)
    ensures m >= 0 && (m == a || m == -a)
  {
    if a < 0 then -a else a
  }

  /**
   * Java's `a % b`: the remainder of division truncated toward zero, whose
   * sign is that of `a` (Dafny's own `%` never returns a negative value).
   */
  function JavaRem(a: int, b: int): (r: int)
    requires b > 0
    ensures a >= 0 ==> 0 <= r < b
    ensures a < 0 ==> -b < r <= 0
    ensures Abs(r) == Abs(a) % b
  {
    if a >= 0 then a % b else -((-a) % b)
  }

  /**
   * Java's `a / b`: division truncated toward zero, the quotient's size
   * that of |a| / b and its sign that of `a` (Dafny's own `/` rounds -1 / 2
   * down to -1, Java's gives 0).
   */
  function JavaDiv(a: int, b: int): (q: int)
    requires b > 0
    ensures Abs(q) == Abs(a) / b && (a >= 0 ==> q >= 0) && (a < 0 ==> q <= 0)
  {
    if a >= 0 then a / b else -((-a) / b)
  }
}
