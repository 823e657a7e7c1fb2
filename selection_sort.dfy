/** SelectionSort: selection sort, iterative and recursive. */
module SelectionSorts {
  import opened SortSpec

  /**
   * The scan both forms share: the index of the first minimum of a[lo..hi),
   * found by replacing the candidate only on a strictly smaller element.
   */
  method MinIndex(a: array<int>, lo: int, hi: int) returns (m: int)
    requires 0 <= lo < hi <= a.Length
    ensures lo <= m < hi
    ensures forall k :: lo <= k < hi ==> a[m] <= a[k]
    ensures forall k :: lo <= k < m ==> a[m] < a[k]
  {
    m := lo;
    for j := lo + 1 to hi
      invariant lo <= m < j
      invariant forall k :: lo <= k < j ==> a[m] <= a[k]
      invariant forall k :: lo <= k < m ==> a[m] < a[k]
    {
      if a[j] < a[m] {
        m := j;
      }
    }
  }

  /**
   * selectionSort: for each i up to length - 2, the minimum of arr[i..] is
   * swapped into place i. After iteration i, arr[0..i] holds the i+1
   * smallest elements in ascending order.
   */
  method SelectionSort(a: array<int>)
    modifies a
    ensures SortedRange(a[..], 0, a.Length) && multiset(a[..]) == multiset(old(a[..]))
  {
    var i := 0;
    while i < a.Length - 1
      invariant 0 <= i <= a.Length && (a.Length > 0 ==> i <= a.Length - 1)
      invariant SortedRange(a[..], 0, i) && Below(a[..], 0, i, i, a.Length)
      invariant multiset(a[..]) == multiset(old(a[..]))
    {
      var min := MinIndex(a, i, a.Length);
      ghost var s := a[..];
      SelectStep(s, i, min);
      if min != i {
        Swap(a, i, min);
      } else {
        assert s[i := s[min]][min := s[i]] == s;
      }
      i := i + 1;
    }
  }

  /**
   * One outer iteration: with arr[0..i) ascending and below the rest, swapping
   * a minimum of arr[i..] into place i extends both facts by one place.
   */
  lemma SelectStep(s: seq<int>, i: int, m: int)
    requires 0 <= i <= m < |s|
    requires SortedRange(s, 0, i) && Below(s, 0, i, i, |s|)
    requires forall k :: i <= k < |s| ==> s[m] <= s[k]
    ensures var t := s[i := s[m]][m := s[i]]; SortedRange(t, 0, i + 1) && Below(t, 0, i + 1, i + 1, |s|)
  {
    var t := s[i := s[m]][m := s[i]];
    forall k | i + 1 <= k < |s|
      ensures t[i] <= t[k]
    {
      if k == m {
        assert t[k] == s[i];
      } else {
        assert t[k] == s[k];
      }
    }
  }

  /**
   * selectionSortRecursive(arr, n, index): sorts arr[index..n) and leaves
   * the rest of the array alone, by swapping the minimum of arr[index..n)
   * into place index and recursing on index + 1.
   */
  method SelectionSortRecursive(a: array<int>, n: int, index: int)
    requires 0 <= index <= n <= a.Length
    modifies a
    decreases n - index
    ensures SortedRange(a[..], index, n) && Rearranged(old(a[..]), a[..], index, n)
  {
    if index == n {
      return;
    }
    var minIndex := MinIndex(a, index, n);
    ghost var s := a[..];
    Swap(a, index, minIndex);
    SwapRearranges(s, index, minIndex, index, n);
    ghost var b := a[..];
    assert forall k :: index < k < n ==> b[index] <= b[k];
    SelectionSortRecursive(a, n, index + 1);
    SortedBehindMin(b, a[..], index, n);
    RearrangedTrans(s, b, a[..], index, n, index + 1, n);
  }

  /** Sorting what lies behind the minimum, which stays in front, sorts the whole range. */
  lemma SortedBehindMin(b: seq<int>, t: seq<int>, index: int, n: int)
    requires 0 <= index < n <= |b| && Rearranged(b, t, index + 1, n)
    requires forall k :: index < k < n ==> b[index] <= b[k]
    requires SortedRange(t, index + 1, n)
    ensures SortedRange(t, index, n)
  {
    RearrangedBounds(b, t, index + 1, n, b[index]);
    assert t[index] == b[index] by {
      assert t[..index + 1] == b[..index + 1];
    }
  }
}
