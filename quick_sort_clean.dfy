/**
 * QuickSort_Clean: quicksort over arr[l..r] (both ends included) with the
 * first element as pivot value and two markers that scan towards each
 * other, swapping the pairs they stop at, until they cross.
 */
module QuickSortCleans {
  import opened SortSpec

  /** The demonstration's call quickSort(arr, 0, arr.length - 1): sorts the whole array. */
  method QuickSortAll(a: array<int>)
    modifies a
    ensures SortedRange(a[..], 0, a.Length) && multiset(a[..]) == multiset(old(a[..]))
  {
    QuickSort(a, 0, a.Length - 1);
    RearrangedWhole(old(a[..]), a[..], 0, a.Length);
  }

  /**
   * quickSort(arr, l, r): ranges of at most one element are sorted;
   * otherwise the range is split at j and arr[l..j] and arr[j+1..r] are
   * sorted in turn.
   */
  method QuickSort(a: array<int>, l: int, r: int)
    requires 0 <= l <= r + 1 <= a.Length
    modifies a
    decreases r - l
    ensures SortedRange(a[..], l, r + 1) && Rearranged(old(a[..]), a[..], l, r + 1)
  {
    if l >= r {
      assert a[..][..l] == old(a[..])[..l];
      return;
    }
    var p := a[l];
    var j := SplitAt(a, l, r, p);
    ghost var s1 := a[..];
    QuickSort(a, l, j);
    ghost var s2 := a[..];
    QuickSort(a, j + 1, r);
    SidesJoin(old(a[..]), s1, s2, a[..], l, j, r, p);
  }

  /**
   * Sorting each side of the split in turn sorts the range and rearranges
   * it: the left side stays at most the pivot value and in place while the
   * right one is sorted, and the right side stays at least it.
   */
  lemma SidesJoin(s0: seq<int>, s1: seq<int>, s2: seq<int>, s3: seq<int>, l: int, j: int, r: int, p: int)
    requires |s0| == |s1| == |s2| == |s3| && Split(s1, l, r, p, j) && multiset(s1) == multiset(s0)
    requires forall k :: 0 <= k < |s0| && (k < l || r < k) ==> s1[k] == s0[k]
    requires SortedRange(s2, l, j + 1) && Rearranged(s1, s2, l, j + 1)
    requires SortedRange(s3, j + 1, r + 1) && Rearranged(s2, s3, j + 1, r + 1)
    ensures SortedRange(s3, l, r + 1) && Rearranged(s0, s3, l, r + 1)
  {
    SidesSorted(s1, s2, s3, l, j, r, p);
    SidesRearranged(s0, s1, s2, s3, l, j, r);
  }

  /** The rearrangement half of SidesJoin: partitioning, then sorting each side, rearranges l..r. */
  lemma SidesRearranged(s0: seq<int>, s1: seq<int>, s2: seq<int>, s3: seq<int>, l: int, j: int, r: int)
    requires 0 <= l <= j + 1 <= r + 1 <= |s0| == |s1| == |s2| == |s3| && multiset(s1) == multiset(s0)
    requires forall k :: 0 <= k < |s0| && (k < l || r < k) ==> s1[k] == s0[k]
    requires Rearranged(s1, s2, l, j + 1) && Rearranged(s2, s3, j + 1, r + 1)
    ensures Rearranged(s0, s3, l, r + 1)
  {
    FramedRearranged(s0, s1, l, r + 1);
    RearrangedTrans(s0, s1, s2, l, r + 1, l, j + 1);
    RearrangedTrans(s0, s2, s3, l, r + 1, j + 1, r + 1);
  }

  /** The sortedness half of SidesJoin. */
  lemma SidesSorted(s1: seq<int>, s2: seq<int>, s3: seq<int>, l: int, j: int, r: int, p: int)
    requires |s1| == |s2| == |s3| && Split(s1, l, r, p, j)
    requires SortedRange(s2, l, j + 1) && Rearranged(s1, s2, l, j + 1)
    requires SortedRange(s3, j + 1, r + 1) && Rearranged(s2, s3, j + 1, r + 1)
    ensures SortedRange(s3, l, r + 1)
  {
    RearrangedBounds(s1, s2, l, j + 1, p);
    forall k | j < k <= r ensures s2[k] == s1[k] {
      assert s2[k] == s2[j + 1..][k - j - 1] && s1[k] == s1[j + 1..][k - j - 1];
    }
    RearrangedBounds(s2, s3, j + 1, r + 1, p);
    forall k | 0 <= k <= j ensures s3[k] == s2[k] {
      assert s3[k] == s3[..j + 1][k] && s2[k] == s2[..j + 1][k];
    }
    assert SortedRange(s3, l, j + 1);
    SortedJoin(s3, l, j + 1, r + 1);
  }

  /**
   * The markers before the first round (i = l - 1, j = r + 1, the pivot
   * value still at l), or after a swap: arr[l..i] at most the pivot value,
   * arr[j..r] at least it.
   */
  ghost predicate Scanned(s: seq<int>, l: int, r: int, p: int, i: int, j: int)
  {
    0 <= l < r < |s| &&
    ((i == l - 1 && j == r + 1 && s[l] == p) ||
     (l <= i < j <= r && s[i] <= p && p <= s[j] &&
      (forall k :: l <= k < i ==> s[k] <= p) &&
      (forall k :: j < k <= r ==> p <= s[k])))
  }

  /** The range split at j: arr[l..j] at most the pivot value, arr[j+1..r] at least it, both sides non-empty. */
  ghost predicate Split(s: seq<int>, l: int, r: int, p: int, j: int)
  {
    0 <= l <= j < r < |s| &&
    (forall k :: l <= k <= j ==> s[k] <= p) &&
    (forall k :: j < k <= r ==> p <= s[k])
  }

  /** The partitioning loop of quickSort: rounds of scans and swaps until the markers cross. */
  method SplitAt(a: array<int>, l: int, r: int, p: int) returns (j: int)
    requires 0 <= l < r < a.Length && a[l] == p
    modifies a
    ensures Split(a[..], l, r, p, j) && multiset(a[..]) == multiset(old(a[..]))
    ensures forall k :: 0 <= k < a.Length && (k < l || r < k) ==> a[k] == old(a[k])
  {
    var i := l - 1;
    j := r + 1;
    while i < j
      invariant (i < j && Scanned(a[..], l, r, p, i, j)) || (i >= j && Split(a[..], l, r, p, j))
      invariant multiset(a[..]) == multiset(old(a[..]))
      invariant forall k :: 0 <= k < a.Length && (k < l || r < k) ==> a[k] == old(a[k])
      decreases j - i
    {
      i, j := Round(a, l, r, p, i, j);
    }
  }

  /**
   * One round: `do i++ while (arr[i] < p)` and `do j-- while (arr[j] > p)`,
   * then a swap if the markers have not crossed. The pivot value, or the
   * elements the last swap placed, stop both scans inside the range.
   */
  method Round(a: array<int>, l: int, r: int, p: int, i0: int, j0: int) returns (i: int, j: int)
    requires Scanned(a[..], l, r, p, i0, j0)
    modifies a
    ensures i0 < i && j < j0
    ensures (i < j && Scanned(a[..], l, r, p, i, j)) || (i >= j && Split(a[..], l, r, p, j))
    ensures multiset(a[..]) == multiset(old(a[..]))
    ensures forall k :: 0 <= k < a.Length && (k < l || r < k) ==> a[k] == old(a[k])
  {
    ghost var high := if i0 == l - 1 then l else j0;
    i := i0 + 1;
    while a[i] < p
      modifies {}
      invariant i0 < i <= high && forall k :: i0 < k < i ==> a[k] < p
      decreases high - i
    {
      i := i + 1;
    }
    ghost var low := if i0 == l - 1 then l else i0;
    j := j0 - 1;
    while a[j] > p
      modifies {}
      invariant low <= j < j0 && forall k :: j < k < j0 ==> a[k] > p
      decreases j - low
    {
      j := j - 1;
    }
    if i < j {
      Swap(a, i, j);
    }
  }
}
