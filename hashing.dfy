/**
 * What the two hash tables share: the table of prime capacities, the growth
 * rule of rehash, the home index of a key, and the 0.75 load test.
 */
module Hashing {
  import opened Outcomes

  /** The prime capacities a table moves through, in order. */
  const PRIMES: seq<int> := [2, 5, 11, 23, 47, 97, 197, 397, 797, 1597,
    3203, 6421, 12853, 25717, 51437, 102877, 205759, 411527, 823117, 1646237,
    3292489, 6584983, 13169977]

  /** The index into PRIMES of a new table's capacity. */
  const INITIAL_PRIME_INDEX := 1

  /**
   * The capacity chosen by rehash once the prime index has been advanced to
   * `idx`: the prime at that index, or twice the old capacity plus one when
   * the primes have run out.
   */
  function NextCapacity(idx: nat, c: int): (r: int)
    ensures idx < |PRIMES| ==> r == PRIMES[idx]
    ensures |PRIMES| <= idx ==> r == 2 * c + 1
  {
    if idx < |PRIMES| then PRIMES[idx] else 2 * c + 1
  }

  /** The capacity of a table whose prime index is `idx`. */
  function CapacityAt(idx: nat): int
  {
    if idx == 0 then PRIMES[0] else NextCapacity(idx, CapacityAt(idx - 1))
  }

  /** Each prime in the table is more than twice the one before it. */
  lemma PrimesMoreThanDouble(i: int)
    requires 1 <= i < |PRIMES|
    ensures PRIMES[i] >= 2 * PRIMES[i - 1] + 1
  {
  }

  /** The capacity is at least 2, and every rehash more than doubles it. */
  lemma {:induction false} CapacityGrows(idx: nat)
    ensures CapacityAt(idx) >= 2
    ensures CapacityAt(idx + 1) >= 2 * CapacityAt(idx) + 1
  {
    if idx + 1 < |PRIMES| {
      PrimesMoreThanDouble(idx + 1);
      if idx > 0 {
        CapacityGrows(idx - 1);
      }
    } else if idx > 0 {
      CapacityGrows(idx - 1);
    }
  }

  /** The capacity rehash picks is the capacity at the next prime index. */
  lemma CapacityNext(idx: nat, c: int)
    requires c == CapacityAt(idx)
    ensures NextCapacity(idx + 1, c) == CapacityAt(idx + 1)
  {
  }

  /** A fresh table has capacity 5. */
  lemma InitialCapacity()
    ensures CapacityAt(INITIAL_PRIME_INDEX) == 5
  {
  }

  /** getIndex: the absolute value of the truncated remainder of the hash code by the capacity. */
  function HomeIndex<K>(hash: K -> int, k: K, capacity: int): (r: int)
    requires capacity > 0
    ensures 0 <= r < capacity
    ensures r == Abs(hash(k)) % capacity
  {
    Abs(JavaRem(hash(k), capacity))
  }

  /** `0.75 * capacity < n`, the test that triggers rehash, in exact integer form. */
  predicate OverLoaded(capacity: int, n: int)
  {
    3 * capacity < 4 * n
  }

  /**
   * If the load was at most 0.75 before one more element was counted, then the
   * capacity rehash picks holds all of them under the load bound again.
   */
  lemma RehashRestoresLoad(idx: nat, n: int)
    requires 4 * (n - 1) <= 3 * CapacityAt(idx)
    ensures 4 * n <= 3 * CapacityAt(idx + 1)
  {
    CapacityGrows(idx);
  }

  /** The cell after `i` in a circular table of `c` cells: `(i + 1) % c`. */
  function NextIndex(i: int, c: int): (r: int)
    requires 0 <= i < c
    ensures r == if i + 1 < c then i + 1 else 0
  {
    (i + 1) % c
  }
}
