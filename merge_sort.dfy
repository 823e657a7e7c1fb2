/** MergeSort: top-down merge sort through a temporary array. */
module MergeSorts {
  import opened SortSpec

  /** mergeSort(arr): sorts the whole array. */
  method MergeSort(a: array<int>)
    modifies a
    ensures SortedRange(a[..], 0, a.Length) && multiset(a[..]) == multiset(old(a[..]))
  {
    MergeSortRange(a, 0, a.Length);
    RearrangedWhole(old(a[..]), a[..], 0, a.Length);
  }

  /**
   * mergeSort(arr, left, right): ranges of fewer than two elements are
   * sorted; otherwise both halves around mid = (left + right) / 2 are sorted
   * and merged. Only arr[left..right) changes.
   */
  method MergeSortRange(a: array<int>, left: int, right: int)
    requires 0 <= left <= right <= a.Length
    modifies a
    decreases right - left
    ensures SortedRange(a[..], left, right) && Rearranged(old(a[..]), a[..], left, right)
  {
    if right - left < 2 {
      assert a[..][..left] == old(a[..])[..left];
      return;
    }
    var mid := (left + right) / 2;
    MergeSortRange(a, left, mid);
    ghost var s1 := a[..];
    MergeSortRange(a, mid, right);
    ghost var s2 := a[..];
    RearrangedTrans(old(a[..]), s1, s2, left, right, mid, right) by {
      RearrangedTrans(old(a[..]), old(a[..]), s1, left, right, left, mid) by {
        assert old(a[..])[left..right] == old(a[..])[left..right];
      }
    }
    assert SortedRange(s2, left, mid) by {
      assert s2[..mid] == s1[..mid];
      assert forall k :: left <= k < mid ==> s2[k] == s2[..mid][k] == s1[..mid][k] == s1[k];
    }
    Merge(a, left, mid, right);
    RearrangedTrans(old(a[..]), s2, a[..], left, right, left, right);
  }

  /**
   * merge: given ascending arr[left..mid) and arr[mid..right), repeatedly
   * copies the smaller head into tmp (the left one on ties), then the rest
   * of whichever half remains, then tmp back over arr[left..right).
   */
  method Merge(a: array<int>, left: int, mid: int, right: int)
    requires 0 <= left <= mid <= right <= a.Length
    requires SortedRange(a[..], left, mid) && SortedRange(a[..], mid, right)
    modifies a
    ensures SortedRange(a[..], left, right) && Rearranged(old(a[..]), a[..], left, right)
  {
    var tmp := Merged(a, left, mid, right);
    ghost var merged := tmp[..];
    for i := left to right
      modifies a
      invariant tmp[..] == merged
      invariant forall k :: 0 <= k < a.Length && (k < left || i <= k) ==> a[k] == old(a[k])
      invariant forall k :: left <= k < i ==> a[k] == tmp[k - left]
    {
      a[i] := tmp[i - left];
    }
    CopiedBack(old(a[..]), a[..], tmp[..], left, mid, right);
  }

  /** Copying the merged halves back over arr[left..right) sorts that range and rearranges it. */
  lemma CopiedBack(s: seq<int>, t: seq<int>, tmp: seq<int>, left: int, mid: int, right: int)
    requires 0 <= left <= mid <= right <= |s| == |t| && |tmp| == right - left
    requires forall k :: 0 <= k < |s| && (k < left || right <= k) ==> t[k] == s[k]
    requires forall k :: left <= k < right ==> t[k] == tmp[k - left]
    requires SortedRange(tmp, 0, |tmp|) && multiset(tmp) == multiset(s[left..mid]) + multiset(s[mid..right])
    ensures SortedRange(t, left, right) && Rearranged(s, t, left, right)
  {
    assert t[left..right] == tmp;
    assert s[left..right] == s[left..mid] + s[mid..right];
    assert t[..left] == s[..left];
    assert t[right..] == s[right..];
  }

  /**
   * Merging state after i - left elements of the left half and j - mid of the
   * right half have gone to t: the taken prefix of t is sorted, holds exactly
   * those elements, and does not exceed either half's next element.
   */
  ghost predicate Merging(t: seq<int>, s: seq<int>, left: int, mid: int, right: int, i: int, j: int)
  {
    0 <= left <= i <= mid <= j <= right <= |s| && |t| == right - left &&
    SortedRange(t, 0, (i - left) + (j - mid)) &&
    ((i - left) + (j - mid) > 0 && i < mid ==> t[(i - left) + (j - mid) - 1] <= s[i]) &&
    ((i - left) + (j - mid) > 0 && j < right ==> t[(i - left) + (j - mid) - 1] <= s[j]) &&
    multiset(t[..(i - left) + (j - mid)]) == multiset(s[left..i]) + multiset(s[mid..j])
  }

  /** Writing x just past an ascending prefix, no smaller than its last element, extends it. */
  lemma SortedSet(t: seq<int>, k: int, x: int)
    requires 0 <= k < |t| && SortedRange(t, 0, k) && (k > 0 ==> t[k - 1] <= x)
    ensures SortedRange(t[k := x], 0, k + 1)
  {
    var u := t[k := x];
    assert u[..k] == t[..k];
    assert forall p :: 0 <= p < k ==> u[p] == t[p];
  }

  /** MultisetSet with the growing range written first. */
  lemma MultisetSetFirst(t: seq<int>, k: int, s: seq<int>, lo: int, hi: int, m: multiset<int>)
    requires 0 <= k < |t| && 0 <= lo <= hi < |s|
    requires multiset(t[..k]) == multiset(s[lo..hi]) + m
    ensures multiset(t[k := s[hi]][..k + 1]) == multiset(s[lo..hi + 1]) + m
  {
    assert t[k := s[hi]][..k + 1] == t[..k] + [s[hi]];
    assert s[lo..hi + 1] == s[lo..hi] + [s[hi]];
  }

  /** Writing the next element of s[lo..hi) just past t's prefix adds it to the prefix's multiset. */
  lemma MultisetSet(t: seq<int>, k: int, s: seq<int>, lo: int, hi: int, m: multiset<int>)
    requires 0 <= k < |t| && 0 <= lo <= hi < |s|
    requires multiset(t[..k]) == m + multiset(s[lo..hi])
    ensures multiset(t[k := s[hi]][..k + 1]) == m + multiset(s[lo..hi + 1])
  {
    assert t[k := s[hi]][..k + 1] == t[..k] + [s[hi]];
    assert s[lo..hi + 1] == s[lo..hi] + [s[hi]];
  }

  /** Taking the left half's next element, when it is the smaller head, keeps the merge going. */
  lemma TakeLeft(t: seq<int>, s: seq<int>, left: int, mid: int, right: int, i: int, j: int)
    requires Merging(t, s, left, mid, right, i, j) && i < mid
    requires SortedRange(s, left, mid) && (j < right ==> s[i] <= s[j])
    ensures Merging(t[(i - left) + (j - mid) := s[i]], s, left, mid, right, i + 1, j)
  {
    var k := (i - left) + (j - mid);
    SortedSet(t, k, s[i]);
    MultisetSetFirst(t, k, s, left, i, multiset(s[mid..j]));
  }

  /** Taking the right half's next element, when it is the smaller head, keeps the merge going. */
  lemma TakeRight(t: seq<int>, s: seq<int>, left: int, mid: int, right: int, i: int, j: int)
    requires Merging(t, s, left, mid, right, i, j) && j < right
    requires SortedRange(s, mid, right) && (i < mid ==> s[j] <= s[i])
    ensures Merging(t[(i - left) + (j - mid) := s[j]], s, left, mid, right, i, j + 1)
  {
    var k := (i - left) + (j - mid);
    SortedSet(t, k, s[j]);
    MultisetSet(t, k, s, mid, j, multiset(s[left..i]));
  }

  /** The three merge loops of merge: a new array holding the two halves merged. */
  method Merged(a: array<int>, left: int, mid: int, right: int) returns (tmp: array<int>)
    requires 0 <= left <= mid <= right <= a.Length
    requires SortedRange(a[..], left, mid) && SortedRange(a[..], mid, right)
    ensures fresh(tmp) && tmp.Length == right - left && SortedRange(tmp[..], 0, tmp.Length)
    ensures multiset(tmp[..]) == multiset(a[left..mid]) + multiset(a[mid..right])
  {
    tmp := new int[right - left];
    var i, j := MergeHeads(a, tmp, left, mid, right);
    i := DrainLeft(a, tmp, left, mid, right, i, j);
    j := DrainRight(a, tmp, left, mid, right, i, j);
    MergingDone(tmp[..], a[..], left, mid, right);
  }

  /** Once both halves are taken, t is all of them, ascending. */
  lemma MergingDone(t: seq<int>, s: seq<int>, left: int, mid: int, right: int)
    requires Merging(t, s, left, mid, right, mid, right)
    ensures SortedRange(t, 0, |t|) && multiset(t) == multiset(s[left..mid]) + multiset(s[mid..right])
  {
    assert t[..|t|] == t;
  }

  /** The first loop of merge: the smaller head goes to tmp until one half runs out. */
  method MergeHeads(a: array<int>, tmp: array<int>, left: int, mid: int, right: int) returns (i: int, j: int)
    requires 0 <= left <= mid <= right <= a.Length && tmp.Length == right - left && tmp != a
    requires SortedRange(a[..], left, mid) && SortedRange(a[..], mid, right)
    modifies tmp
    ensures Merging(tmp[..], a[..], left, mid, right, i, j) && (i == mid || j == right)
  {
    i, j := left, mid;
    while i < mid && j < right
      invariant Merging(tmp[..], a[..], left, mid, right, i, j)
      decreases right - left - (i - left) - (j - mid)
    {
      if a[i] <= a[j] {
        i := TakeLeftStep(a, tmp, left, mid, right, i, j);
      } else {
        j := TakeRightStep(a, tmp, left, mid, right, i, j);
      }
    }
  }

  /** tmp[k++] = arr[i++]: the left half's next element goes to tmp, when it is the smaller head. */
  method TakeLeftStep(a: array<int>, tmp: array<int>, left: int, mid: int, right: int, i: int, j: int) returns (i': int)
    requires tmp != a && Merging(tmp[..], a[..], left, mid, right, i, j) && i < mid
    requires SortedRange(a[..], left, mid) && (j < right ==> a[i] <= a[j])
    modifies tmp
    ensures i' == i + 1 && Merging(tmp[..], a[..], left, mid, right, i', j)
  {
    ghost var u := tmp[..];
    TakeLeft(u, a[..], left, mid, right, i, j);
    tmp[(i - left) + (j - mid)] := a[i];
    assert tmp[..] == u[(i - left) + (j - mid) := a[i]];
    i' := i + 1;
  }

  /** tmp[k++] = arr[j++]: the right half's next element goes to tmp, when it is the smaller head. */
  method TakeRightStep(a: array<int>, tmp: array<int>, left: int, mid: int, right: int, i: int, j: int) returns (j': int)
    requires tmp != a && Merging(tmp[..], a[..], left, mid, right, i, j) && j < right
    requires SortedRange(a[..], mid, right) && (i < mid ==> a[j] <= a[i])
    modifies tmp
    ensures j' == j + 1 && Merging(tmp[..], a[..], left, mid, right, i, j')
  {
    ghost var u := tmp[..];
    TakeRight(u, a[..], left, mid, right, i, j);
    tmp[(i - left) + (j - mid)] := a[j];
    assert tmp[..] == u[(i - left) + (j - mid) := a[j]];
    j' := j + 1;
  }

  /** The second loop of merge: the rest of the left half goes to tmp. */
  method DrainLeft(a: array<int>, tmp: array<int>, left: int, mid: int, right: int, i0: int, j: int) returns (i: int)
    requires tmp != a && Merging(tmp[..], a[..], left, mid, right, i0, j) && (i0 == mid || j == right)
    requires SortedRange(a[..], left, mid)
    modifies tmp
    ensures i == mid && Merging(tmp[..], a[..], left, mid, right, i, j)
  {
    i := i0;
    while i < mid
      invariant Merging(tmp[..], a[..], left, mid, right, i, j) && (i < mid ==> j == right)
      decreases mid - i
    {
      i := TakeLeftStep(a, tmp, left, mid, right, i, j);
    }
  }

  /** The third loop of merge: the rest of the right half goes to tmp. */
  method DrainRight(a: array<int>, tmp: array<int>, left: int, mid: int, right: int, i: int, j0: int) returns (j: int)
    requires tmp != a && Merging(tmp[..], a[..], left, mid, right, i, j0) && i == mid
    requires SortedRange(a[..], mid, right)
    modifies tmp
    ensures j == right && Merging(tmp[..], a[..], left, mid, right, i, j)
  {
    j := j0;
    while j < right
      invariant Merging(tmp[..], a[..], left, mid, right, i, j)
      decreases right - j
    {
      j := TakeRightStep(a, tmp, left, mid, right, i, j);
    }
  }
}
