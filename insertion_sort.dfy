/** InsertionSort: insertion sort by adjacent swaps, and a recursive form that shifts. */
module InsertionSorts {
  import opened SortSpec

  /**
   * insertionSort: for each i from 1, the element at i is swapped leftwards
   * while it is smaller than its left neighbour. Afterwards the array is
   * ascending and a permutation of the input.
   */
  method InsertionSort(a: array<int>)
    modifies a
    ensures SortedRange(a[..], 0, a.Length) && multiset(a[..]) == multiset(old(a[..]))
  {
    var i := 1;
    while i < a.Length
      invariant 1 <= i && (a.Length > 0 ==> i <= a.Length)
      invariant SortedRange(a[..], 0, if a.Length == 0 then 0 else i)
      invariant multiset(a[..]) == multiset(old(a[..]))
    {
      var j := i;
      while j > 0 && a[j] < a[j - 1]
        invariant 0 <= j <= i
        invariant forall k, l :: 0 <= k < l <= i && k != j && l != j ==> a[k] <= a[l]
        invariant forall l :: j < l <= i ==> a[j] < a[l]
        invariant multiset(a[..]) == multiset(old(a[..]))
      {
        Swap(a, j, j - 1);
        j := j - 1;
      }
      i := i + 1;
    }
  }

  /**
   * insertionSortRecursive(arr, n): sorts arr[0..n) and leaves arr[n..)
   * alone; n <= 1 is the base case. After the prefix arr[0..n-1) is sorted,
   * its elements greater than the last one shift one place right and the
   * last one drops into the gap.
   */
  method InsertionSortRecursive(a: array<int>, n: int)
    requires n <= a.Length
    modifies a
    decreases n
    ensures n >= 0 ==> SortedRange(a[..], 0, n) && Rearranged(old(a[..]), a[..], 0, n)
    ensures n < 0 ==> a[..] == old(a[..])
  {
    if n <= 1 {
      assert n >= 0 ==> a[..] == old(a[..]) && a[..][..0] == a[..0];
      return;
    }
    InsertionSortRecursive(a, n - 1);
    ghost var b := a[..];
    RearrangedWiden(old(a[..]), b, 0, n - 1, n);
    InsertLast(a, n);
    RearrangedTrans(old(a[..]), b, a[..], 0, n, 0, n);
  }

  /**
   * The step after the recursive call: the elements of the sorted prefix
   * arr[0..n-1) greater than key = arr[n-1] shift one place right, and key
   * goes just after the last element at most key.
   */
  method InsertLast(a: array<int>, n: int)
    requires 2 <= n <= a.Length && SortedRange(a[..], 0, n - 1)
    modifies a
    ensures SortedRange(a[..], 0, n) && Rearranged(old(a[..]), a[..], 0, n)
  {
    ghost var b := a[..];
    var key := a[n - 1];
    var j := n - 2;
    while j >= 0 && a[j] > key
      invariant -1 <= j <= n - 2
      invariant forall k :: 0 <= k <= j ==> a[k] == b[k]
      invariant forall k :: j + 2 <= k < n ==> a[k] == b[k - 1] && a[k] > key
      invariant forall k :: n <= k < a.Length ==> a[k] == b[k]
    {
      a[j + 1] := a[j];
      j := j - 1;
    }
    a[j + 1] := key;
    InsertPlaced(b, a[..], j + 1, n, key);
  }

  /**
   * Dropping the last element of a sorted prefix into its place: the
   * result is that prefix rearranged, and ascending when the elements
   * before the place are at most the key and those after are greater.
   */
  lemma InsertPlaced(b: seq<int>, t: seq<int>, p: int, n: int, key: int)
    requires 0 <= p < n <= |b| == |t| && b[n - 1] == key && SortedRange(b, 0, n - 1)
    requires forall k :: 0 <= k < p ==> t[k] == b[k]
    requires t[p] == key && (p > 0 ==> b[p - 1] <= key)
    requires forall k :: p < k < n ==> t[k] == b[k - 1] && t[k] > key
    requires forall k :: n <= k < |t| ==> t[k] == b[k]
    ensures SortedRange(t, 0, n) && Rearranged(b, t, 0, n)
  {
    InsertPlacedSorted(b, t, p, n, key);
    ShiftedPermutes(b, t, p, n, key);
    assert t[n..] == b[n..];
  }

  lemma ShiftedPermutes(b: seq<int>, t: seq<int>, p: int, n: int, key: int)
    requires 0 <= p < n <= |b| == |t| && b[n - 1] == key && t[p] == key
    requires forall k :: 0 <= k < p ==> t[k] == b[k]
    requires forall k :: p < k < n ==> t[k] == b[k - 1]
    ensures multiset(t[0..n]) == multiset(b[0..n])
  {
    var l, m := b[..p], b[p..n - 1];
    var shifted := l + [key] + m;
    assert t[0..n] == shifted by {
      forall k | 0 <= k < n ensures t[k] == shifted[k] {
        if k > p {
          assert shifted[k] == m[k - p - 1] == b[k - 1];
        }
      }
    }
    assert b[0..n] == l + m + [key];
    calc {
      multiset(t[0..n]);
      multiset(l) + multiset([key]) + multiset(m);
      multiset(b[0..n]);
    }
  }

  lemma InsertPlacedSorted(b: seq<int>, t: seq<int>, p: int, n: int, key: int)
    requires 0 <= p < n <= |b| == |t| && b[n - 1] == key && SortedRange(b, 0, n - 1)
    requires forall k :: 0 <= k < p ==> t[k] == b[k]
    requires t[p] == key && (p > 0 ==> b[p - 1] <= key)
    requires forall k :: p < k < n ==> t[k] == b[k - 1] && t[k] > key
    ensures SortedRange(t, 0, n)
  {
    forall i, j | 0 <= i < j < n ensures t[i] <= t[j] {
      if j < p {
      } else if i < p {
        assert t[i] == b[i] && b[i] <= b[p - 1];
      }
    }
  }
}
