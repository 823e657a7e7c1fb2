/**
 * What the two unordered sets share: a list of elements without repeats,
 * the position of an element in it, and the swap-with-last removal the
 * array set uses.
 */
module SetSpec {

  /** No element occurs twice. */
  ghost predicate Distinct<T>(s: seq<T>)
  {
    forall i, j :: 0 <= i < j < |s| ==> s[i] != s[j]
  }

  /** The first position of `t` in `s`. */
  function IndexOf<T(==)>(s: seq<T>, t: T): (i: int)
    requires t in s
    ensures 0 <= i < |s| && s[i] == t && t !in s[..i]
  {
    if s[0] == t then 0
    else
      assert s == [s[0]] + s[1..];
      var j := IndexOf(s[1..], t);
      assert s[..j + 1] == [s[0]] + s[1..][..j];
      j + 1
  }

  /** `s` without its element at `i`: the last element moves into slot `i` and the list shrinks by one. */
  function SwapLastRemoved<T>(s: seq<T>, i: int): (r: seq<T>)
    requires 0 <= i < |s|
    ensures |r| == |s| - 1
  {
    s[i := s[|s| - 1]][..|s| - 1]
  }

  /**
   * Swap-with-last removal of a list without repeats keeps it without
   * repeats and removes exactly the element at `i`.
   */
  lemma SwapLastRemovedMembers<T>(s: seq<T>, i: int)
    requires Distinct(s) && 0 <= i < |s|
    ensures Distinct(SwapLastRemoved(s, i))
    ensures forall x :: x in SwapLastRemoved(s, i) <==> x in s && x != s[i]
  {
    var r := SwapLastRemoved(s, i);
    forall x | x in s && x != s[i]
      ensures x in r
    {
      var k :| 0 <= k < |s| && s[k] == x;
      if k == |s| - 1 {
        assert r[i] == x;
      } else {
        assert r[k] == x;
      }
    }
  }

  /** Adding an element that is not there keeps a list without repeats. */
  lemma DistinctAppend<T>(s: seq<T>, t: T)
    requires Distinct(s) && t !in s
    ensures Distinct(s + [t]) && Distinct([t] + s)
  {
  }

  /** The elements of a list, as a set. */
  ghost function Members<T>(s: seq<T>): set<T>
  {
    set x | x in s
  }

  /** Appending one element adds it to the members. */
  lemma MembersAppend<T>(s: seq<T>, t: T)
    ensures Members(s + [t]) == Members(s) + {t}
  {
  }

  /** Extending a slice by one element adds that element to its members. */
  lemma MembersNext<T>(s: seq<T>, lo: int, hi: int)
    requires 0 <= lo <= hi < |s|
    ensures Members(s[lo..hi + 1]) == Members(s[lo..hi]) + {s[hi]}
  {
    assert s[lo..hi + 1] == s[lo..hi] + [s[hi]];
    MembersAppend(s[lo..hi], s[hi]);
  }
}
