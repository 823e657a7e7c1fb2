/**
 * Adjacency lists over the vertices 0 .. n-1, as the graph searches and
 * Prim's algorithm hold them, and reachability along their edges: the
 * specification that the searches are proved against.
 */
module GraphPaths {

  /** Adjacency lists: `adj[u]` lists the targets of the edges leaving `u`, in insertion order. */
  type Adjacency = seq<seq<int>>

  /** Every listed target is a vertex, so that every array access of a search is in bounds. */
  predicate WellFormed(adj: Adjacency)
  {
    forall u, j :: 0 <= u < |adj| && 0 <= j < |adj[u]| ==> 0 <= adj[u][j] < |adj|
  }

  /**
   * addEdge: the directed edge `source -> destination` goes at the end of
   * the source's list; no other list changes.
   */
  method AddEdge(adjacencyList: array<seq<int>>, source: int, destination: int)
    requires 0 <= source < adjacencyList.Length
    modifies adjacencyList
    ensures adjacencyList[..] == old(adjacencyList[..])[source := old(adjacencyList[source]) + [destination]]
  {
    adjacencyList[source] := adjacencyList[source] + [destination];
  }

  /** `p` is a walk: a non-empty sequence of vertices, each an edge away from the one before it. */
  ghost predicate IsPath(adj: Adjacency, p: seq<int>)
  {
    |p| > 0 &&
    (forall i :: 0 <= i < |p| ==> 0 <= p[i] < |adj|) &&
    (forall i :: 0 <= i < |p| - 1 ==> p[i + 1] in adj[p[i]])
  }

  /** `v` can be reached from `s` by following edges (every vertex reaches itself). */
  ghost predicate Reachable(adj: Adjacency, s: int, v: int)
  {
    exists p :: IsPath(adj, p) && p[0] == s && p[|p| - 1] == v
  }

  /** Every vertex reaches itself by the walk of length zero. */
  lemma ReachableSelf(adj: Adjacency, s: int)
    requires 0 <= s < |adj|
    ensures Reachable(adj, s, s)
  {
    assert IsPath(adj, [s]);
  }

  /** A vertex reachable from `s` reaches `s`'s reach one edge further. */
  lemma ReachableStep(adj: Adjacency, s: int, u: int, w: int)
    requires WellFormed(adj) && Reachable(adj, s, u) && 0 <= u < |adj| && w in adj[u]
    ensures Reachable(adj, s, w)
  {
    var p :| IsPath(adj, p) && p[0] == s && p[|p| - 1] == u;
    var q := p + [w];
    assert IsPath(adj, q);
  }

  /** Reachability composes: `s` reaches `u` and `u` reaches `v`, so `s` reaches `v`. */
  lemma ReachableTrans(adj: Adjacency, s: int, u: int, v: int)
    requires Reachable(adj, s, u) && Reachable(adj, u, v)
    ensures Reachable(adj, s, v)
  {
    var p :| IsPath(adj, p) && p[0] == s && p[|p| - 1] == u;
    var q :| IsPath(adj, q) && q[0] == u && q[|q| - 1] == v;
    var r := p + q[1..];
    assert IsPath(adj, r) by {
      forall i | 0 <= i < |r| - 1
        ensures r[i + 1] in adj[r[i]]
      {
        if i < |p| - 1 {
        } else {
          assert r[i] == q[i - |p| + 1] && r[i + 1] == q[i - |p| + 2];
        }
      }
    }
  }

  /** A set of vertices that every edge leaving one of its vertices leads back into. */
  ghost predicate Closed(adj: Adjacency, marked: seq<bool>)
    requires WellFormed(adj) && |marked| == |adj|
  {
    forall u, j :: 0 <= u < |adj| && marked[u] && 0 <= j < |adj[u]| ==> marked[adj[u][j]]
  }

  /**
   * A closed set of vertices holding `s` holds every vertex reachable from
   * `s`: the completeness half of every search.
   */
  lemma ClosedHoldsReachable(adj: Adjacency, marked: seq<bool>, s: int, v: int)
    requires WellFormed(adj) && |marked| == |adj| && Closed(adj, marked)
    requires 0 <= s < |adj| && marked[s] && Reachable(adj, s, v)
    ensures 0 <= v < |adj| && marked[v]
  {
    var p :| IsPath(adj, p) && p[0] == s && p[|p| - 1] == v;
    PathStaysMarked(adj, marked, p, |p| - 1);
  }

  lemma {:induction false} PathStaysMarked(adj: Adjacency, marked: seq<bool>, p: seq<int>, k: int)
    requires WellFormed(adj) && |marked| == |adj| && Closed(adj, marked)
    requires IsPath(adj, p) && marked[p[0]] && 0 <= k < |p|
    ensures marked[p[k]]
  {
    if k > 0 {
      PathStaysMarked(adj, marked, p, k - 1);
      var u := p[k - 1];
      var j :| 0 <= j < |adj[u]| && adj[u][j] == p[k];
    }
  }

  /** No vertex occurs twice. */
  ghost predicate Distinct(s: seq<int>)
  {
    forall i, j :: 0 <= i < j < |s| ==> s[i] != s[j]
  }

  /** Two sequences of distinct vertices with none in common join into one. */
  lemma DistinctJoin(a: seq<int>, b: seq<int>)
    requires Distinct(a) && Distinct(b) && forall v :: v in a ==> v !in b
    ensures Distinct(a + b)
  {
    forall i, j | 0 <= i < j < |a + b|
      ensures (a + b)[i] != (a + b)[j]
    {
      if i < |a| && j >= |a| {
        assert (a + b)[i] in a && (a + b)[j] in b;
      }
    }
  }

  /** Distinct vertices of a graph with `n` vertices number at most `n`. */
  lemma DistinctBounded(s: seq<int>, n: int)
    requires n >= 0 && Distinct(s) && forall v :: v in s ==> 0 <= v < n
    ensures |s| <= n
  {
    var elems := set i | 0 <= i < |s| :: s[i];
    forall x | x in elems
      ensures x in Below(n)
    {
      var i :| 0 <= i < |s| && s[i] == x;
      assert s[i] in s;
    }
    DistinctCard(s);
    SubsetCard(elems, Below(n));
  }

  /** The vertices 0 .. n-1. */
  ghost function Below(n: int): (r: set<int>)
    ensures forall x :: x in r <==> 0 <= x < n
    ensures n >= 0 ==> |r| == n
    decreases n
  {
    if n <= 0 then {} else Below(n - 1) + {n - 1}
  }

  lemma {:induction false} DistinctCard(s: seq<int>)
    requires Distinct(s)
    ensures |set i | 0 <= i < |s| :: s[i]| == |s|
  {
    if s != [] {
      var t := s[..|s| - 1];
      DistinctCard(t);
      var a := set i | 0 <= i < |t| :: t[i];
      var b := set i | 0 <= i < |s| :: s[i];
      assert b == a + {s[|s| - 1]};
      assert s[|s| - 1] !in a;
    }
  }

  lemma {:induction false} SubsetCard<T>(a: set<T>, b: set<T>)
    requires a <= b
    ensures |a| <= |b|
  {
    if a != {} {
      var x :| x in a;
      SubsetCard(a - {x}, b - {x});
    }
  }

  /** The number of unmarked vertices. */
  function Unmarked(marked: seq<bool>): (c: nat)
    ensures c <= |marked|
  {
    if marked == [] then 0 else Unmarked(marked[..|marked| - 1]) + (if marked[|marked| - 1] then 0 else 1)
  }

  /** Marking an unmarked vertex leaves one fewer unmarked. */
  lemma {:induction false} MarkOne(marked: seq<bool>, v: int)
    requires 0 <= v < |marked| && !marked[v]
    ensures Unmarked(marked[v := true]) == Unmarked(marked) - 1
  {
    var m := marked[v := true];
    if v < |marked| - 1 {
      MarkOne(marked[..|marked| - 1], v);
      assert m[..|m| - 1] == marked[..|marked| - 1][v := true];
    } else {
      assert m[..|m| - 1] == marked[..|marked| - 1];
    }
  }

  /** Marking more vertices never leaves more unmarked. */
  lemma {:induction false} MarkMore(a: seq<bool>, b: seq<bool>)
    requires |a| == |b| && forall i :: 0 <= i < |a| && a[i] ==> b[i]
    ensures Unmarked(b) <= Unmarked(a)
  {
    if a != [] {
      MarkMore(a[..|a| - 1], b[..|b| - 1]);
    }
  }

  /**
   * The state of a search from `s`: the vertices printed so far and those
   * waiting on the stack or in the queue are distinct and apart, they are
   * exactly the marked vertices, and each is reachable from `s`.
   */
  ghost predicate Searching(adj: Adjacency, s: int, marked: seq<bool>, order: seq<int>, pending: seq<int>)
  {
    |marked| == |adj| && Distinct(order) && Distinct(pending) && (forall v :: v in order ==> v !in pending) &&
    (forall v :: 0 <= v < |adj| ==> (marked[v] <==> v in order || v in pending)) &&
    (forall v :: v in order || v in pending ==> 0 <= v < |adj| && Reachable(adj, s, v))
  }

  /** Every edge leaving a vertex of `order` ends at a marked vertex. */
  ghost predicate Covered(adj: Adjacency, marked: seq<bool>, order: seq<int>)
  {
    forall u, j :: u in order && 0 <= u < |adj| && 0 <= j < |adj[u]| ==> 0 <= adj[u][j] < |marked| && marked[adj[u][j]]
  }

  /** Every edge leaving `u` ends at a marked vertex. */
  ghost predicate MarksAll(adj: Adjacency, marked: seq<bool>, u: int)
    requires 0 <= u < |adj|
  {
    forall j :: 0 <= j < |adj[u]| ==> 0 <= adj[u][j] < |marked| && marked[adj[u][j]]
  }

  /** Every vertex marked in `m` is marked in `m'`. */
  ghost predicate Grows(m: seq<bool>, m': seq<bool>)
  {
    |m| == |m'| && forall v :: 0 <= v < |m| && m[v] ==> m'[v]
  }

  /** A search starts with only `s` marked, waiting, and nothing printed. */
  lemma SearchStart(adj: Adjacency, s: int, marked: seq<bool>)
    requires 0 <= s < |adj| && |marked| == |adj| && forall v :: 0 <= v < |adj| ==> (marked[v] <==> v == s)
    ensures Searching(adj, s, marked, [], [s]) && Covered(adj, marked, [])
  {
    ReachableSelf(adj, s);
  }

  /** The printed and waiting vertices are distinct vertices, so they number at most the vertices. */
  lemma SearchBound(adj: Adjacency, s: int, marked: seq<bool>, order: seq<int>, pending: seq<int>)
    requires Searching(adj, s, marked, order, pending)
    ensures |order| + |pending| <= |adj|
  {
    DistinctJoin(order, pending);
    DistinctBounded(order + pending, |adj|);
  }

  /** dfs pops the top of the stack and prints it: the search state is kept. */
  lemma VisitLast(adj: Adjacency, s: int, marked: seq<bool>, order: seq<int>, pending: seq<int>)
    requires Searching(adj, s, marked, order, pending) && pending != []
    ensures Searching(adj, s, marked, order + [pending[|pending| - 1]], pending[..|pending| - 1])
  {
    var x, rest := pending[|pending| - 1], pending[..|pending| - 1];
    assert pending == rest + [x];
    Moved(adj, s, marked, order, pending, x, rest);
  }

  /** bfs takes the front of the queue and prints it: the search state is kept. */
  lemma VisitFirst(adj: Adjacency, s: int, marked: seq<bool>, order: seq<int>, pending: seq<int>)
    requires Searching(adj, s, marked, order, pending) && pending != []
    ensures Searching(adj, s, marked, order + [pending[0]], pending[1..])
  {
    var x, rest := pending[0], pending[1..];
    assert pending == [x] + rest;
    Moved(adj, s, marked, order, pending, x, rest);
  }

  /** Moving a waiting vertex `x` to the end of the printed ones keeps the search state. */
  lemma Moved(adj: Adjacency, s: int, marked: seq<bool>, order: seq<int>, pending: seq<int>, x: int, rest: seq<int>)
    requires Searching(adj, s, marked, order, pending)
    requires pending == rest + [x] || pending == [x] + rest
    ensures Searching(adj, s, marked, order + [x], rest)
  {
    assert x in pending && x !in order;
    assert forall v :: v in pending <==> v == x || v in rest;
    assert Distinct(rest) && x !in rest by {
      if pending == rest + [x] {
        assert forall i :: 0 <= i < |rest| ==> rest[i] == pending[i];
        assert x == pending[|rest|];
      } else {
        assert forall i :: 0 <= i < |rest| ==> rest[i] == pending[i + 1];
        assert x == pending[0];
      }
    }
    DistinctJoin(order, [x]);
  }

  /** Marking an unmarked vertex reachable from `s` and putting it at the back of the waiting ones keeps the search state. */
  lemma Discover(adj: Adjacency, s: int, marked: seq<bool>, order: seq<int>, pending: seq<int>, v: int)
    requires Searching(adj, s, marked, order, pending) && 0 <= v < |adj| && !marked[v] && Reachable(adj, s, v)
    ensures Searching(adj, s, marked[v := true], order, pending + [v])
  {
  }

  /** Once every edge leaving `u` ends at a marked vertex, printing `u` keeps every printed vertex's edges covered. */
  lemma CoveredStep(adj: Adjacency, m: seq<bool>, m': seq<bool>, order: seq<int>, u: int)
    requires Covered(adj, m, order) && Grows(m, m') && 0 <= u < |adj| && MarksAll(adj, m', u)
    ensures Covered(adj, m', order + [u])
  {
  }

  /**
   * A search whose queue or stack has run dry has printed exactly the
   * vertices reachable from `s`.
   */
  lemma SearchDone(adj: Adjacency, s: int, marked: seq<bool>, order: seq<int>)
    requires WellFormed(adj) && Searching(adj, s, marked, order, []) && Covered(adj, marked, order)
    requires order != [] && order[0] == s
    ensures forall v :: v in order <==> 0 <= v < |adj| && Reachable(adj, s, v)
  {
    assert Closed(adj, marked);
    forall v | 0 <= v < |adj| && Reachable(adj, s, v)
      ensures v in order
    {
      ClosedHoldsReachable(adj, marked, s, v);
    }
  }

  /**
   * The inner loop of bfs and dfs: each neighbour of `u` that is not yet
   * explored is marked and appended to the waiting vertices, in list order.
   */
  method ExploreNeighbours(adjacencyList: array<seq<int>>, explored: array<bool>, u: int, pending: seq<int>, ghost s: int, ghost order: seq<int>)
    returns (pending': seq<int>)
    requires WellFormed(adjacencyList[..]) && 0 <= u < adjacencyList.Length && u in order
    requires Searching(adjacencyList[..], s, explored[..], order, pending)
    modifies explored
    ensures Searching(adjacencyList[..], s, explored[..], order, pending')
    ensures Grows(old(explored[..]), explored[..]) && MarksAll(adjacencyList[..], explored[..], u)
    ensures pending <= pending'
  {
    ghost var adj := adjacencyList[..];
    ghost var m0 := explored[..];
    var neighbours := adjacencyList[u];
    pending' := pending;
    var j := 0;
    while j < |neighbours|
      invariant 0 <= j <= |neighbours| && neighbours == adj[u]
      invariant Searching(adj, s, explored[..], order, pending')
      invariant Grows(m0, explored[..]) && pending <= pending'
      invariant forall k :: 0 <= k < j ==> explored[neighbours[k]]
    {
      var neighbour := neighbours[j];
      if !explored[neighbour] {
        ReachableStep(adj, s, u, neighbour);
        Discover(adj, s, explored[..], order, pending', neighbour);
        explored[neighbour] := true;
        pending' := pending' + [neighbour];
      }
      j := j + 1;
    }
  }
}
