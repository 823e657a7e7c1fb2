/**
 * What every sort in the library promises: a range of the array comes out
 * ascending, holds the same elements as before, and nothing outside the
 * range changes. The in-place swap they share is here too.
 */
module SortSpec {

  /** s[lo..hi) is ascending. */
  ghost predicate SortedRange(s: seq<int>, lo: int, hi: int)
    requires 0 <= lo <= hi <= |s|
  {
    forall i, j :: lo <= i < j < hi ==> s[i] <= s[j]
  }

  /** Appending an element no smaller than the last keeps a sequence ascending. */
  lemma SortedAppend(t: seq<int>, x: int)
    requires SortedRange(t, 0, |t|) && (|t| > 0 ==> t[|t| - 1] <= x)
    ensures SortedRange(t + [x], 0, |t| + 1)
  {
  }

  /** A range equal element by element to an ascending one is ascending. */
  lemma SortedAgree(s: seq<int>, t: seq<int>, lo: int, hi: int)
    requires 0 <= lo <= hi <= |s| == |t| && SortedRange(s, lo, hi)
    requires forall j :: lo <= j < hi ==> t[j] == s[j]
    ensures SortedRange(t, lo, hi)
  {
  }

  /** Every element of s[lo..hi) is at most every element of s[lo'..hi'). */
  ghost predicate Below(s: seq<int>, lo: int, hi: int, lo': int, hi': int)
    requires 0 <= lo <= hi <= |s| && 0 <= lo' <= hi' <= |s|
  {
    forall i, j :: lo <= i < hi && lo' <= j < hi' ==> s[i] <= s[j]
  }

  /** Two ascending ranges side by side, the first below the second, make one ascending range. */
  lemma SortedJoin(s: seq<int>, lo: int, m: int, hi: int)
    requires 0 <= lo <= m <= hi <= |s|
    requires SortedRange(s, lo, m) && SortedRange(s, m, hi) && Below(s, lo, m, m, hi)
    ensures SortedRange(s, lo, hi)
  {
  }

  /** t is s with its range [lo..hi) rearranged and everything else in place. */
  ghost predicate Rearranged(s: seq<int>, t: seq<int>, lo: int, hi: int)
    requires 0 <= lo <= hi <= |s|
  {
    |t| == |s| && t[..lo] == s[..lo] && t[hi..] == s[hi..] &&
    multiset(t[lo..hi]) == multiset(s[lo..hi])
  }

  /** Rearranging a range keeps the multiset of the whole sequence. */
  lemma RearrangedWhole(s: seq<int>, t: seq<int>, lo: int, hi: int)
    requires 0 <= lo <= hi <= |s| && Rearranged(s, t, lo, hi)
    ensures multiset(t) == multiset(s)
  {
    assert s == s[..lo] + s[lo..hi] + s[hi..];
    assert t == t[..lo] + t[lo..hi] + t[hi..];
  }

  /** Rearranging a range is rearranging any wider range ending further right. */
  lemma RearrangedWiden(s: seq<int>, t: seq<int>, lo: int, hi: int, hi': int)
    requires 0 <= lo <= hi <= hi' <= |s| && Rearranged(s, t, lo, hi)
    ensures Rearranged(s, t, lo, hi')
  {
    assert t[hi'..] == t[hi..][hi' - hi..] && s[hi'..] == s[hi..][hi' - hi..];
    assert t[hi..hi'] == t[hi..][..hi' - hi] && s[hi..hi'] == s[hi..][..hi' - hi];
    assert t[lo..hi'] == t[lo..hi] + t[hi..hi'];
    assert s[lo..hi'] == s[lo..hi] + s[hi..hi'];
  }

  /** Rearranging twice, or a sub-range, is rearranging. */
  lemma RearrangedTrans(s: seq<int>, t: seq<int>, u: seq<int>, lo: int, hi: int, lo': int, hi': int)
    requires 0 <= lo <= lo' <= hi' <= hi <= |s|
    requires Rearranged(s, t, lo, hi) && Rearranged(t, u, lo', hi')
    ensures Rearranged(s, u, lo, hi)
  {
    assert u[..lo] == u[..lo'][..lo] && t[..lo] == t[..lo'][..lo];
    assert u[hi..] == u[hi'..][hi - hi'..] && t[hi..] == t[hi'..][hi - hi'..];
    assert t[lo..hi] == t[lo..lo'] + t[lo'..hi'] + t[hi'..hi];
    assert u[lo..hi] == u[lo..lo'] + u[lo'..hi'] + u[hi'..hi];
    assert u[lo..lo'] == t[lo..lo'] by {
      assert u[lo..lo'] == u[..lo'][lo..] && t[lo..lo'] == t[..lo'][lo..];
    }
    assert u[hi'..hi] == t[hi'..hi] by {
      assert u[hi'..hi] == u[hi'..][..hi - hi'] && t[hi'..hi] == t[hi'..][..hi - hi'];
    }
  }

  /**
   * A bound that holds for every element of a range still holds after the
   * range is rearranged.
   */
  lemma RearrangedBounds(s: seq<int>, t: seq<int>, lo: int, hi: int, x: int)
    requires 0 <= lo <= hi <= |s| && Rearranged(s, t, lo, hi)
    ensures (forall i :: lo <= i < hi ==> s[i] <= x) ==> forall i :: lo <= i < hi ==> t[i] <= x
    ensures (forall i :: lo <= i < hi ==> x <= s[i]) ==> forall i :: lo <= i < hi ==> x <= t[i]
  {
    forall i | lo <= i < hi ensures t[i] in multiset(s[lo..hi]) {
      assert t[i] == t[lo..hi][i - lo];
    }
    forall i | lo <= i < hi ensures exists k :: lo <= k < hi && s[k] == t[i] {
      assert t[i] in s[lo..hi];
      var k' :| 0 <= k' < hi - lo && s[lo..hi][k'] == t[i];
      assert s[lo + k'] == t[i];
    }
  }

  /**
   * Rearranging s[lo..m) keeps every element of it at most every element of
   * s[m..n), and leaves everything from m on as it was.
   */
  lemma RearrangedPrefixBelow(s: seq<int>, t: seq<int>, lo: int, m: int, n: int)
    requires 0 <= lo <= m <= n <= |s| && Rearranged(s, t, lo, m) && Below(s, lo, m, m, n)
    ensures Below(t, lo, m, m, n) && forall j :: m <= j < |s| ==> t[j] == s[j]
  {
    forall j | m <= j < |s| ensures t[j] == s[j] {
      assert t[j] == t[m..][j - m] && s[j] == s[m..][j - m];
    }
    forall j | m <= j < n ensures forall i :: lo <= i < m ==> t[i] <= t[j] {
      RearrangedBounds(s, t, lo, m, s[j]);
    }
  }

  /**
   * A change confined to s[lo..hi) that keeps the multiset of the whole
   * sequence rearranges that range.
   */
  lemma FramedRearranged(s: seq<int>, t: seq<int>, lo: int, hi: int)
    requires 0 <= lo <= hi <= |s| == |t| && multiset(t) == multiset(s)
    requires forall k :: 0 <= k < |s| && (k < lo || hi <= k) ==> t[k] == s[k]
    ensures Rearranged(s, t, lo, hi)
  {
    assert t[..lo] == s[..lo];
    assert t[hi..] == s[hi..];
    assert s == s[..lo] + s[lo..hi] + s[hi..];
    assert t == t[..lo] + t[lo..hi] + t[hi..];
    var rest := multiset(s[..lo]) + multiset(s[hi..]);
    assert multiset(t) == multiset(t[lo..hi]) + rest;
    assert multiset(s) == multiset(s[lo..hi]) + rest;
    assert multiset(t[lo..hi]) == multiset(t) - rest;
    assert multiset(s[lo..hi]) == multiset(s) - rest;
    assert multiset(t[lo..hi]) == multiset(s[lo..hi]);
  }

  /** swap: exchanges arr[i] and arr[j]; the multiset of the array is unchanged. */
  method Swap(a: array<int>, i: int, j: int)
    requires 0 <= i < a.Length && 0 <= j < a.Length
    modifies a
    ensures a[..] == old(a[..])[i := old(a[j])][j := old(a[i])]
    ensures multiset(a[..]) == multiset(old(a[..]))
  {
    var tmp := a[i];
    a[i] := a[j];
    a[j] := tmp;
  }

  /** A swap inside [lo..hi) rearranges that range. */
  lemma SwapRearranges(s: seq<int>, i: int, j: int, lo: int, hi: int)
    requires 0 <= lo <= i < hi <= |s| && lo <= j < hi
    ensures Rearranged(s, s[i := s[j]][j := s[i]], lo, hi)
  {
    var t := s[i := s[j]][j := s[i]];
    assert t[lo..hi] == s[lo..hi][i - lo := s[j]][j - lo := s[i]];
  }
}
