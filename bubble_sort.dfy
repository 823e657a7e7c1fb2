/** BubbleSort: bubble sort with an early exit, and a recursive form. */
module BubbleSorts {
  import opened SortSpec

  /**
   * One pass over arr[0..m): each adjacent out-of-order pair is swapped,
   * which carries the largest element of the range to m-1. A pass without
   * a swap changes nothing, and then the range was already sorted.
   */
  method Pass(a: array<int>, m: int) returns (swapped: bool)
    requires 1 <= m <= a.Length
    modifies a
    ensures Rearranged(old(a[..]), a[..], 0, m)
    ensures forall k :: 0 <= k < m ==> a[k] <= a[m - 1]
    ensures !swapped ==> a[..] == old(a[..]) && SortedRange(a[..], 0, m)
  {
    swapped := false;
    assert a[..][..0] == old(a[..])[..0];
    for j := 0 to m - 1
      invariant LargestAt(a[..], j)
      invariant !swapped ==> a[..] == old(a[..]) && SortedRange(a[..], 0, j + 1)
      invariant Rearranged(old(a[..]), a[..], 0, m)
    {
      ghost var s := a[..];
      if a[j] > a[j + 1] {
        Swap(a, j, j + 1);
        CarryUp(s, j);
        SwapRearranges(s, j, j + 1, 0, m);
        RearrangedTrans(old(a[..]), s, a[..], 0, m, 0, m);
        swapped := true;
      } else {
        LeaveInPlace(s, j);
      }
    }
    assert LargestAt(a[..], m - 1);
  }

  /** s[j] is the largest of s[0..j]. */
  ghost predicate LargestAt(s: seq<int>, j: int)
  {
    0 <= j < |s| && forall k :: 0 <= k <= j ==> s[k] <= s[j]
  }

  /** Swapping an out-of-order pair at j carries the largest of s[0..j] on to j + 1. */
  lemma CarryUp(s: seq<int>, j: int)
    requires LargestAt(s, j) && j + 1 < |s| && s[j] > s[j + 1]
    ensures LargestAt(s[j := s[j + 1]][j + 1 := s[j]], j + 1)
  {
  }

  /** A pair in order at j leaves the largest of s[0..j + 1] at j + 1, and extends an ascending prefix. */
  lemma LeaveInPlace(s: seq<int>, j: int)
    requires LargestAt(s, j) && j + 1 < |s| && s[j] <= s[j + 1]
    ensures LargestAt(s, j + 1)
    ensures SortedRange(s, 0, j + 1) ==> SortedRange(s, 0, j + 2)
  {
  }

  /**
   * bubbleSort: pass i runs over arr[0..n-i) and carries the largest of it
   * to n-i-1. A pass without a swap found the array sorted, and the loop stops.
   */
  method BubbleSort(a: array<int>)
    modifies a
    ensures SortedRange(a[..], 0, a.Length) && multiset(a[..]) == multiset(old(a[..]))
  {
    var n := a.Length;
    var i := 0;
    while i < n
      invariant 0 <= i <= n
      invariant SortedRange(a[..], n - i, n) && Below(a[..], 0, n - i, n - i, n)
      invariant multiset(a[..]) == multiset(old(a[..]))
    {
      ghost var s := a[..];
      var swapped := Pass(a, n - i);
      RearrangedWhole(s, a[..], 0, n - i);
      RearrangedPrefixBelow(s, a[..], 0, n - i, n);
      if !swapped {
        break;
      }
      i := i + 1;
    }
  }

  /**
   * The recursion of bubbleSortRecursive as the code has it, counted in
   * calls: each call with n != 1 calls again with n - 1, and only n == 1
   * stops. StopsWithin(n, fuel) holds when the base case is reached within
   * `fuel` calls.
   */
  predicate StopsWithin(n: int, fuel: nat)
    decreases fuel
  {
    fuel > 0 && (n == 1 || StopsWithin(n - 1, fuel - 1))
  }

  /** Started at n >= 1, the recursion stops after exactly n calls. */
  lemma {:induction false} PositiveStops(n: int, fuel: nat)
    requires 1 <= n
    decreases fuel
    ensures StopsWithin(n, fuel) <==> n <= fuel
  {
    if fuel > 0 && n > 1 {
      PositiveStops(n - 1, fuel - 1);
    }
  }

  /**
   * Started at n <= 0 (the call bubbleSortRecursive(arr, arr.length) on an
   * empty array), the base case is never reached, however many calls.
   */
  lemma {:induction false} EmptyArrayNeverStops(n: int, fuel: nat)
    requires n <= 0
    decreases fuel
    ensures !StopsWithin(n, fuel)
  {
    if fuel > 0 {
      EmptyArrayNeverStops(n - 1, fuel - 1);
    }
  }

  /**
   * bubbleSortRecursive(arr, n): one pass over arr[0..n) carries its largest
   * element to n-1, then arr[0..n-1) is sorted the same way. The base case
   * is n <= 1 here rather than n == 1, so an empty array is sorted too.
   */
  method BubbleSortRecursive(a: array<int>, n: int)
    requires 0 <= n <= a.Length
    modifies a
    decreases n
    ensures SortedRange(a[..], 0, n) && Rearranged(old(a[..]), a[..], 0, n)
  {
    if n <= 1 {
      assert a[..][..0] == old(a[..])[..0];
      return;
    }
    var _ := Pass(a, n);
    ghost var b := a[..];
    BubbleSortRecursive(a, n - 1);
    RearrangedBounds(b, a[..], 0, n - 1, b[n - 1]);
    assert a[n - 1] == b[n - 1] by {
      assert a[n - 1..] == b[n - 1..];
    }
    RearrangedTrans(old(a[..]), b, a[..], 0, n, 0, n - 1);
  }
}
