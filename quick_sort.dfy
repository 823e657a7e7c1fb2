/**
 * QuickSort: quicksort over arr[left..right) that partitions around the
 * last element with two markers moving towards each other.
 */
module QuickSorts {
  import opened SortSpec

  /** quicksort(arr): sorts the whole array. */
  method QuickSort(a: array<int>)
    modifies a
    ensures SortedRange(a[..], 0, a.Length) && multiset(a[..]) == multiset(old(a[..]))
  {
    QuickSortRange(a, 0, a.Length);
    RearrangedWhole(old(a[..]), a[..], 0, a.Length);
  }

  /**
   * quicksort(arr, left, right): ranges of at most one element are sorted;
   * otherwise the range is partitioned and both sides of the pivot sorted.
   */
  method QuickSortRange(a: array<int>, left: int, right: int)
    requires 0 <= left <= right <= a.Length
    modifies a
    decreases right - left
    ensures SortedRange(a[..], left, right) && Rearranged(old(a[..]), a[..], left, right)
  {
    if right - left <= 1 {
      assert a[..][..left] == old(a[..])[..left];
      return;
    }
    var pi := Partition(a, left, right);
    ghost var s1 := a[..];
    QuickSortRange(a, left, pi);
    ghost var s2 := a[..];
    RearrangedBounds(s1, s2, left, pi, s1[pi]);
    RearrangedPrefixBelow(s1, s2, left, pi, right);
    QuickSortRange(a, pi + 1, right);
    ghost var s3 := a[..];
    AfterRight(s2, s3, left, pi, right);
    RearrangedTrans(old(a[..]), s1, s2, left, right, left, pi);
    RearrangedTrans(old(a[..]), s2, s3, left, right, pi + 1, right);
  }

  /**
   * The second recursive call: sorting above the pivot keeps the lower side
   * and the pivot in place, and every element above at least the pivot.
   */
  lemma AfterRight(s2: seq<int>, s3: seq<int>, left: int, pi: int, right: int)
    requires 0 <= left <= pi < right <= |s2| == |s3|
    requires SortedRange(s2, left, pi) && Below(s2, left, pi, pi, right)
    requires forall k :: pi < k < right ==> s2[pi] <= s2[k]
    requires SortedRange(s3, pi + 1, right) && Rearranged(s2, s3, pi + 1, right)
    ensures SortedRange(s3, left, right)
  {
    RearrangedBounds(s2, s3, pi + 1, right, s2[pi]);
    forall k | 0 <= k <= pi ensures s3[k] == s2[k] {
      assert s3[k] == s3[..pi + 1][k] && s2[k] == s2[..pi + 1][k];
    }
    assert SortedRange(s3, left, pi + 1);
    assert Below(s3, left, pi + 1, pi + 1, right);
    SortedJoin(s3, left, pi + 1, right);
  }

  /**
   * partition(arr, left, right): with pivot arr[right - 1], marker l moves
   * right past elements at most the pivot and marker r moves left past
   * elements at least the pivot; an out-of-order pair at l < r is swapped.
   * When the markers cross the pivot is swapped into l, the returned index.
   */
  method Partition(a: array<int>, left: int, right: int) returns (l: int)
    requires 0 <= left < right <= a.Length
    modifies a
    ensures left <= l < right && a[l] == old(a[right - 1])
    ensures Rearranged(old(a[..]), a[..], left, right)
    ensures forall k :: left <= k < l ==> a[k] <= a[l]
    ensures forall k :: l < k < right ==> a[l] <= a[k]
  {
    var p := right - 1;
    l := left;
    var r := p - 1;
    ghost var pivot := a[p];
    while l <= r
      invariant Marked(a[..], left, p, l, r, pivot) && multiset(a[..]) == multiset(old(a[..]))
      invariant forall k :: 0 <= k < a.Length && (k < left || p < k) ==> a[k] == old(a[k])
      decreases r - l + 1, if l <= r && a[l] > pivot then 1 else 0
    {
      l, r := PartitionRound(a, left, p, l, r, pivot);
    }
    PlacePivot(a, left, p, l, pivot);
    FramedRearranged(old(a[..]), a[..], left, right);
  }

  /**
   * Partition's markers: the pivot sits at p, everything left of l is at
   * most it and everything between r and p at least it.
   */
  ghost predicate Marked(s: seq<int>, left: int, p: int, l: int, r: int, pivot: int)
  {
    0 <= left <= l <= r + 1 <= p < |s| && s[p] == pivot &&
    (forall k :: left <= k < l ==> s[k] <= pivot) &&
    (forall k :: r < k < p ==> s[k] >= pivot)
  }

  /**
   * One round of partition's outer loop: both markers advance as far as
   * they may, and an out-of-order pair between them is swapped. Either the
   * markers gain ground, or a swap puts an element at most the pivot under l.
   */
  method PartitionRound(a: array<int>, left: int, p: int, l0: int, r0: int, ghost pivot: int)
      returns (l: int, r: int)
    requires Marked(a[..], left, p, l0, r0, pivot) && l0 <= r0
    modifies a
    ensures Marked(a[..], left, p, l, r, pivot) && multiset(a[..]) == multiset(old(a[..]))
    ensures forall k :: 0 <= k < a.Length && (k < left || p < k) ==> a[k] == old(a[k])
    ensures r - l < r0 - l0 || (r - l == r0 - l0 && old(a[l0]) > pivot && l <= r && a[l] <= pivot)
  {
    l, r := l0, r0;
    while l <= r && a[l] <= a[p]
      modifies {}
      invariant Marked(a[..], left, p, l, r, pivot) && l0 <= l
    {
      l := l + 1;
    }
    while l <= r && a[r] >= a[p]
      modifies {}
      invariant Marked(a[..], left, p, l, r, pivot) && l0 <= l && r <= r0
      invariant l <= r ==> a[l] > pivot
    {
      r := r - 1;
    }
    if l < r {
      Swap(a, l, r);
    }
  }

  /** The end of partition: once the markers cross, the pivot is swapped into l unless it is there already. */
  method PlacePivot(a: array<int>, left: int, p: int, l: int, ghost pivot: int)
    requires Marked(a[..], left, p, l, l - 1, pivot)
    modifies a
    ensures a[l] == pivot && multiset(a[..]) == multiset(old(a[..]))
    ensures forall k :: 0 <= k < a.Length && (k < left || p < k) ==> a[k] == old(a[k])
    ensures forall k :: left <= k < l ==> a[k] <= a[l]
    ensures forall k :: l < k <= p ==> a[l] <= a[k]
  {
    if l != p {
      Swap(a, l, p);
    }
  }
}
