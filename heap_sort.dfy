/**
 * HeapSort: heap sort over an array numbered from 1, so that node i has
 * children 2i and 2i+1. Slot 0 is a placeholder that the sort never touches.
 */
module HeapSorts {
  import opened SortSpec
  import opened Outcomes

  /**
   * heapSort(data): builds a max-heap on nodes 1..numNodes by sinking every
   * parent from numNodes / 2 down to 1, then repeatedly swaps the root with
   * the last node, shrinks the heap by one and sinks the new root. Nodes
   * 1..numNodes come out ascending; slot 0 stays as it was.
   */
  method HeapSort(a: array<int>)
    modifies a
    ensures a.Length > 0 ==> SortedRange(a[..], 1, a.Length) && a[0] == old(a[0])
    ensures multiset(a[..]) == multiset(old(a[..]))
  {
    var numNodes := a.Length - 1;
    var i := JavaDiv(numNodes, 2);
    while i >= 1
      invariant 0 <= i && 2 * i <= numNodes + 1
      invariant Heap(a[..], i + 1, numNodes)
      invariant multiset(a[..]) == multiset(old(a[..])) && (a.Length > 0 ==> a[0] == old(a[0]))
    {
      BuildExcept(a[..], i, numNodes);
      Sink(a, i, numNodes, i);
      i := i - 1;
    }
    ghost var n := numNodes;
    i := numNodes;
    while i >= 1
      invariant i == numNodes && -1 <= numNodes <= n && (n >= 0 ==> numNodes >= 0)
      invariant Heap(a[..], 1, numNodes)
      invariant SortedRange(a[..], numNodes + 1, n + 1)
      invariant numNodes >= 0 ==> Below(a[..], 1, numNodes + 1, numNodes + 1, n + 1)
      invariant multiset(a[..]) == multiset(old(a[..])) && (a.Length > 0 ==> a[0] == old(a[0]))
    {
      numNodes := PopMax(a, numNodes, n);
      i := i - 1;
    }
  }

  /**
   * One round of the sorting loop: the root, the largest node, is swapped
   * behind the heap, and the heap shrinks by one and is repaired.
   */
  method PopMax(a: array<int>, numNodes: int, ghost n: int) returns (m: int)
    requires 1 <= numNodes <= n < a.Length
    requires Heap(a[..], 1, numNodes) && SortedRange(a[..], numNodes + 1, n + 1)
    requires Below(a[..], 1, numNodes + 1, numNodes + 1, n + 1)
    modifies a
    ensures m == numNodes - 1
    ensures Heap(a[..], 1, m) && SortedRange(a[..], m + 1, n + 1)
    ensures Below(a[..], 1, m + 1, m + 1, n + 1)
    ensures multiset(a[..]) == multiset(old(a[..])) && a[0] == old(a[0])
  {
    HeapAfterSwap(a[..], numNodes);
    SwappedBehind(a[..], numNodes, n);
    Swap(a, 1, numNodes);
    ghost var s := a[..];
    m := numNodes - 1;
    Sink(a, 1, m, 1);
    Repaired(s, a[..], m, n);
  }

  /** With the heap order kept from i + 1 on, only node i can be out of order. */
  lemma BuildExcept(s: seq<int>, i: int, n: int)
    requires 1 <= i && n < |s| && Heap(s, i + 1, n)
    ensures HeapExcept(s, i, n, i)
  {
    forall c | 2 * i <= c <= n && c / 2 != i ensures s[c / 2] >= Node(s, c) {
      assert s[c / 2] >= Node(s, c);
    }
  }

  /** Swapping the root with the last node leaves heap order, on one node fewer, broken only at the root. */
  lemma HeapAfterSwap(t: seq<int>, numNodes: int)
    requires 1 <= numNodes < |t| && Heap(t, 1, numNodes)
    ensures HeapExcept(t[1 := t[numNodes]][numNodes := t[1]], 1, numNodes - 1, 1)
  {
    var s := t[1 := t[numNodes]][numNodes := t[1]];
    forall c | 2 <= c <= numNodes - 1 && c / 2 != 1 ensures s[c / 2] >= Node(s, c) {
      assert t[c / 2] >= Node(t, c);
    }
  }

  /**
   * The root, the largest node, swapped behind the heap extends the sorted
   * tail and is at least everything left in the heap.
   */
  lemma SwappedBehind(t: seq<int>, numNodes: int, n: int)
    requires 1 <= numNodes <= n < |t|
    requires Heap(t, 1, numNodes)
    requires SortedRange(t, numNodes + 1, n + 1) && Below(t, 1, numNodes + 1, numNodes + 1, n + 1)
    ensures SortedRange(t[1 := t[numNodes]][numNodes := t[1]], numNodes, n + 1)
    ensures Below(t[1 := t[numNodes]][numNodes := t[1]], 1, numNodes, numNodes, n + 1)
  {
    forall k | 1 <= k <= numNodes ensures t[1] >= t[k] {
      HeapRoot(t, numNodes, k);
    }
  }

  /**
   * Sinking the new root rearranges only the heap 1..m, so the sorted tail
   * behind it, and its bound on the heap, survive.
   */
  lemma Repaired(s: seq<int>, t: seq<int>, m: int, n: int)
    requires 0 <= m <= n < |s| == |t| && multiset(t) == multiset(s)
    requires Unmoved(s, t, 1, m)
    requires SortedRange(s, m + 1, n + 1) && Below(s, 1, m + 1, m + 1, n + 1)
    ensures SortedRange(t, m + 1, n + 1) && Below(t, 1, m + 1, m + 1, n + 1)
  {
    FramedRearranged(s, t, 1, m + 1);
    RearrangedPrefixBelow(s, t, 1, m + 1, n + 1);
    SortedAgree(s, t, m + 1, n + 1);
  }

  /**
   * Node c of s. Heap order is stated through it so that its quantifiers
   * are instantiated only for the nodes a proof names.
   */
  ghost function Node(s: seq<int>, c: int): int
    requires 0 <= c < |s|
  {
    s[c]
  }

  /** Every parent at lo or beyond, among nodes 1..n, is at least its child. */
  ghost predicate Heap(s: seq<int>, lo: int, n: int)
    requires 1 <= lo && n < |s|
  {
    forall c :: 2 * lo <= c <= n ==> s[c / 2] >= Node(s, c)
  }

  /**
   * Heap order holds for every parent at lo or beyond except `index`, and
   * the parent of `index`, when it is in range, is at least index's children.
   */
  ghost predicate HeapExcept(s: seq<int>, lo: int, n: int, index: int)
    requires 1 <= lo <= index && n < |s|
  {
    (forall c :: 2 * lo <= c <= n && c / 2 != index ==> s[c / 2] >= Node(s, c)) &&
    (index / 2 >= lo ==> forall c :: 2 * index <= c <= n && c / 2 == index ==> s[index / 2] >= Node(s, c))
  }

  /** The root of a heap on 1..n is its largest node. */
  lemma {:induction false} HeapRoot(s: seq<int>, n: int, k: int)
    requires 1 <= k <= n < |s| && Heap(s, 1, n)
    ensures s[1] >= s[k]
    decreases k
  {
    if k > 1 {
      assert s[k / 2] >= Node(s, k);
      HeapRoot(s, n, k / 2);
    }
  }

  /**
   * sink(data, index, numNodes): the larger child above data[index] (the
   * right one is tried first, the left one replaces it only when strictly
   * larger) is swapped up, and the sinking goes on from that child. It
   * restores heap order from lo on, rearranging only nodes index..numNodes.
   */
  method Sink(a: array<int>, index: int, n: int, ghost lo: int)
    requires 1 <= lo <= index <= n + 1 <= a.Length
    requires HeapExcept(a[..], lo, n, index)
    modifies a
    decreases n - index
    ensures Heap(a[..], lo, n) && multiset(a[..]) == multiset(old(a[..]))
    ensures Unmoved(old(a[..]), a[..], index, n)
  {
    var largest := index;
    var right := index * 2 + 1;
    var left := index * 2;
    if right <= n && a[right] > a[largest] {
      largest := right;
    }
    if left <= n && a[left] > a[largest] {
      largest := left;
    }
    if largest != index {
      ghost var s := a[..];
      Swap(a, largest, index);
      SwappedExcept(s, lo, n, index, largest);
      ghost var t := a[..];
      Sink(a, largest, n, lo);
      UnmovedSwap(s, t, a[..], index, largest, n);
    } else {
      HeapStops(a[..], lo, n, index);
    }
  }

  /** t agrees with s outside lo..hi. */
  ghost predicate Unmoved(s: seq<int>, t: seq<int>, lo: int, hi: int)
  {
    |s| == |t| && forall k :: 0 <= k < |s| && (k < lo || hi < k) ==> t[k] == s[k]
  }

  /** Swapping index with largest, then moving only largest..hi, moves only index..hi. */
  lemma UnmovedSwap(s: seq<int>, t: seq<int>, u: seq<int>, index: int, largest: int, hi: int)
    requires 0 <= index < largest <= hi < |s| && t == s[largest := s[index]][index := s[largest]]
    requires Unmoved(t, u, largest, hi)
    ensures Unmoved(s, u, index, hi)
  {
  }

  /** A node at least as large as its children closes the one gap in heap order. */
  lemma HeapStops(s: seq<int>, lo: int, n: int, index: int)
    requires 1 <= lo <= index && n < |s| && HeapExcept(s, lo, n, index)
    requires 2 * index <= n ==> s[2 * index] <= s[index]
    requires 2 * index + 1 <= n ==> s[2 * index + 1] <= s[index]
    ensures Heap(s, lo, n)
  {
    forall c | 2 * lo <= c <= n ensures s[c / 2] >= Node(s, c) {
      if c / 2 == index {
        assert c == 2 * index || c == 2 * index + 1;
      }
    }
  }

  /** Swapping index with its larger child leaves heap order broken only at that child. */
  lemma SwappedExcept(s: seq<int>, lo: int, n: int, index: int, largest: int)
    requires 1 <= lo <= index && n < |s| && HeapExcept(s, lo, n, index)
    requires largest == 2 * index || largest == 2 * index + 1
    requires largest <= n && s[largest] > s[index]
    requires 2 * index <= n ==> s[2 * index] <= s[largest]
    requires 2 * index + 1 <= n ==> s[2 * index + 1] <= s[largest]
    ensures HeapExcept(s[largest := s[index]][index := s[largest]], lo, n, largest)
  {
    var t := s[largest := s[index]][index := s[largest]];
    forall c | 2 * lo <= c <= n && c / 2 != largest
      ensures t[c / 2] >= Node(t, c)
    {
      if c / 2 == index {
        assert c == 2 * index || c == 2 * index + 1;
      } else if c == index {
        assert s[index / 2] >= Node(s, largest);
      } else {
        assert s[c / 2] >= Node(s, c);
      }
    }
    forall c | 2 * largest <= c <= n && c / 2 == largest
      ensures t[largest / 2] >= Node(t, c)
    {
      assert s[c / 2] >= Node(s, c);
    }
  }

  /**
   * indexShift(data): a new array one longer whose slots 1.. hold data in
   * order; slot 0 is the placeholder (Java leaves null there, here 0).
   */
  method IndexShift(data: array<int>) returns (r: array<int>)
    ensures fresh(r) && r.Length == data.Length + 1
    ensures r[0] == 0 && r[1..] == data[..]
  {
    r := new int[data.Length + 1];
    r[0] := 0;
    forall k | 0 <= k < data.Length {
      r[k + 1] := data[k];
    }
  }

  /**
   * The demonstration's pipeline: data shifted to slots 1.. and heap sorted
   * comes out as data in ascending order.
   */
  method SortShifted(data: array<int>) returns (r: array<int>)
    ensures fresh(r) && r.Length == data.Length + 1
    ensures SortedRange(r[1..], 0, data.Length) && multiset(r[1..]) == multiset(data[..])
  {
    r := IndexShift(data);
    ghost var s := r[..];
    assert s == [0] + data[..];
    HeapSort(r);
    assert r[..] == [r[0]] + r[1..];
    assert multiset(r[..]) == multiset{0} + multiset(r[1..]);
    assert multiset(s) == multiset{0} + multiset(data[..]);
    assert multiset(r[1..]) == multiset(r[..]) - multiset{0};
    assert multiset(data[..]) == multiset(s) - multiset{0};
  }
}
