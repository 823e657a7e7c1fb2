/**
 * DFSRecursive: depth-first search by recursion over adjacency lists,
 * with a shared visited array. A vertex is marked and printed on entry,
 * then each unvisited neighbour is searched in list order; the printed
 * sequence is the result here.
 */
module RecursiveDepthFirstSearch {
  import opened GraphPaths

  /**
   * What a call of recursiveDFS from `c` has printed, given the visited
   * flags `was` before it and `marked` after it: `c` first, no vertex
   * twice, every printed vertex reachable from `c` and, apart from `c`,
   * unvisited before; the visited flags grew by exactly the printed vertices.
   */
  ghost predicate Printed(adj: Adjacency, c: int, was: seq<bool>, marked: seq<bool>, order: seq<int>)
  {
    |was| == |adj| && |marked| == |adj| && |order| > 0 && order[0] == c && Distinct(order) &&
    (forall v :: v in order ==> 0 <= v < |adj| && Reachable(adj, c, v)) &&
    (forall v :: v in order && v != c ==> !was[v]) &&
    (forall v :: 0 <= v < |adj| ==> (marked[v] <==> was[v] || v in order))
  }

  /**
   * recursiveDFS: `currentVertex` is printed first; every other printed
   * vertex was unvisited before the call and is reachable from it; visited
   * grows by exactly the printed vertices, and every edge leaving a printed
   * vertex ends at a visited one.
   */
  method RecursiveDfs(adjacencyList: array<seq<int>>, currentVertex: int, visited: array<bool>) returns (order: seq<int>)
    requires WellFormed(adjacencyList[..]) && visited.Length == adjacencyList.Length
    requires 0 <= currentVertex < visited.Length
    modifies visited
    ensures Printed(adjacencyList[..], currentVertex, old(visited[..]), visited[..], order)
    ensures Covered(adjacencyList[..], visited[..], order)
    decreases Unmarked(visited[..]) + (if visited[currentVertex] then 1 else 0), 1
  {
    ghost var was := visited[..];
    visited[currentVertex] := true;
    assert visited[..] == was[currentVertex := true];
    MarkCount(was, currentVertex);
    Begin(adjacencyList[..], currentVertex, was, visited[..]);
    var below := SearchNeighbours(adjacencyList, currentVertex, visited, was);
    order := [currentVertex] + below;
  }

  /**
   * The loop of recursiveDFS over the neighbours of `currentVertex`, which
   * is already visited and printed: each neighbour still unvisited is
   * searched in list order; the result is what those searches print.
   */
  method SearchNeighbours(adjacencyList: array<seq<int>>, currentVertex: int, visited: array<bool>, ghost was: seq<bool>)
    returns (below: seq<int>)
    requires WellFormed(adjacencyList[..]) && visited.Length == adjacencyList.Length
    requires 0 <= currentVertex < visited.Length
    requires Printed(adjacencyList[..], currentVertex, was, visited[..], [currentVertex])
    modifies visited
    ensures Printed(adjacencyList[..], currentVertex, was, visited[..], [currentVertex] + below)
    ensures Covered(adjacencyList[..], visited[..], [currentVertex] + below)
    decreases Unmarked(visited[..]) + 1, 0
  {
    ghost var adj := adjacencyList[..];
    ghost var start := Unmarked(visited[..]);
    below := [];
    var neighbours := adjacencyList[currentVertex];
    var j := 0;
    while j < |neighbours|
      invariant 0 <= j <= |neighbours| && neighbours == adj[currentVertex]
      invariant Printed(adj, currentVertex, was, visited[..], [currentVertex] + below) && Covered(adj, visited[..], below)
      invariant MarkedAll(visited[..], neighbours[..j])
      invariant Unmarked(visited[..]) <= start
    {
      var neighbour := neighbours[j];
      ghost var before := visited[..];
      if !visited[neighbour] {
        var sub := RecursiveDfs(adjacencyList, neighbour, visited);
        MarkMore(before, visited[..]);
        Absorb(adj, currentVertex, was, before, visited[..], below, sub, neighbour);
        CoveredAbsorb(adj, before, visited[..], below, sub);
        below := below + sub;
      }
      MarkedNext(before, visited[..], neighbours, j);
      j := j + 1;
    }
    CoveredFinish(adj, visited[..], currentVertex, below);
  }

  /** Every vertex of `vs` is marked. */
  ghost predicate MarkedAll(marked: seq<bool>, vs: seq<int>)
  {
    forall k :: 0 <= k < |vs| ==> 0 <= vs[k] < |marked| && marked[vs[k]]
  }

  /** Marking `c` leaves one fewer unmarked vertex than the call's measure. */
  lemma MarkCount(was: seq<bool>, c: int)
    requires 0 <= c < |was|
    ensures Unmarked(was[c := true]) < Unmarked(was) + (if was[c] then 1 else 0)
  {
    if !was[c] {
      MarkOne(was, c);
    } else {
      assert was[c := true] == was;
    }
  }

  /** The first call's state: only `c` printed, and it is now visited. */
  lemma Begin(adj: Adjacency, c: int, was: seq<bool>, marked: seq<bool>)
    requires |was| == |adj| && 0 <= c < |adj| && marked == was[c := true]
    ensures Printed(adj, c, was, marked, [c]) && Covered(adj, marked, [])
  {
    ReachableSelf(adj, c);
  }

  /**
   * The vertices printed by the call for an unvisited neighbour `nb` join
   * those printed so far: they are reachable through the edge to `nb`, and
   * none was printed before.
   */
  lemma Absorb(adj: Adjacency, c: int, was: seq<bool>, m: seq<bool>, m': seq<bool>, below: seq<int>, sub: seq<int>, nb: int)
    requires WellFormed(adj) && Printed(adj, c, was, m, [c] + below) && Printed(adj, nb, m, m', sub)
    requires 0 <= c < |adj| && nb in adj[c] && !m[nb]
    ensures Printed(adj, c, was, m', [c] + (below + sub))
  {
    var order := [c] + below;
    ReachableSelf(adj, c);
    ReachableStep(adj, c, c, nb);
    forall v | v in sub
      ensures Reachable(adj, c, v) && v !in order && !was[v]
    {
      ReachableTrans(adj, c, nb, v);
    }
    DistinctJoin(order, sub);
    assert order + sub == [c] + (below + sub);
  }

  /** The edges of the vertices printed so far stay covered as marks grow, and those of the new ones are covered too. */
  lemma CoveredAbsorb(adj: Adjacency, m: seq<bool>, m': seq<bool>, below: seq<int>, sub: seq<int>)
    requires Covered(adj, m, below) && Grows(m, m') && Covered(adj, m', sub)
    ensures Covered(adj, m', below + sub)
  {
  }

  /** Once the neighbour at `j` is handled it is marked, and the marks of those before it stay. */
  lemma MarkedNext(m: seq<bool>, m': seq<bool>, vs: seq<int>, j: int)
    requires 0 <= j < |vs| && MarkedAll(m, vs[..j]) && Grows(m, m')
    requires 0 <= vs[j] < |m'| && m'[vs[j]]
    ensures MarkedAll(m', vs[..j + 1])
  {
    assert forall k :: 0 <= k < j ==> vs[..j + 1][k] == vs[..j][k];
  }

  /** With every neighbour of `c` marked, every printed vertex's edges are covered. */
  lemma CoveredFinish(adj: Adjacency, m: seq<bool>, c: int, below: seq<int>)
    requires Covered(adj, m, below) && 0 <= c < |adj| && MarkedAll(m, adj[c][..|adj[c]|])
    ensures Covered(adj, m, [c] + below)
  {
    assert adj[c][..|adj[c]|] == adj[c];
  }

  /**
   * The search as the program starts it: from an all-false visited array,
   * visited ends up true on exactly the vertices reachable from
   * `startVertex`, which are exactly the printed ones.
   */
  method SearchFrom(adjacencyList: array<seq<int>>, startVertex: int) returns (order: seq<int>, visited: array<bool>)
    requires WellFormed(adjacencyList[..]) && 0 <= startVertex < adjacencyList.Length
    ensures visited.Length == adjacencyList.Length
    ensures |order| > 0 && order[0] == startVertex && Distinct(order)
    ensures forall v :: 0 <= v < visited.Length ==> (visited[v] <==> Reachable(adjacencyList[..], startVertex, v))
    ensures forall v :: v in order <==> 0 <= v < visited.Length && visited[v]
  {
    visited := new bool[adjacencyList.Length](_ => false);
    order := RecursiveDfs(adjacencyList, startVertex, visited);
    assert Closed(adjacencyList[..], visited[..]);
    forall v | 0 <= v < visited.Length && Reachable(adjacencyList[..], startVertex, v)
      ensures visited[v]
    {
      ClosedHoldsReachable(adjacencyList[..], visited[..], startVertex, v);
    }
  }
}
