/**
 * DFS: depth-first search over adjacency lists with an explicit stack. A
 * vertex is marked explored when it is pushed, and the vertices are printed
 * in the order they are popped; the printed sequence is the result here.
 */
module DepthFirstSearch {
  import opened GraphPaths

  /**
   * dfs: the printed vertices start with `startVertex`, repeat none, and
   * are exactly the vertices reachable from it; the stack only ever holds
   * explored vertices, each at most once.
   */
  method Dfs(adjacencyList: array<seq<int>>, startVertex: int) returns (order: seq<int>)
    requires WellFormed(adjacencyList[..]) && 0 <= startVertex < adjacencyList.Length
    ensures |order| > 0 && order[0] == startVertex
    ensures Distinct(order)
    ensures forall v :: v in order <==> 0 <= v < adjacencyList.Length && Reachable(adjacencyList[..], startVertex, v)
  {
    ghost var adj := adjacencyList[..];
    var n := adjacencyList.Length;
    var explored := new bool[n](_ => false);
    explored[startVertex] := true;
    var stack := [startVertex];
    order := [];
    SearchStart(adj, startVertex, explored[..]);
    while stack != []
      invariant Searching(adj, startVertex, explored[..], order, stack) && Covered(adj, explored[..], order)
      invariant if order == [] then stack == [startVertex] else order[0] == startVertex
      decreases n - |order|
    {
      SearchBound(adj, startVertex, explored[..], order, stack);
      VisitLast(adj, startVertex, explored[..], order, stack);
      var currentVertex := stack[|stack| - 1];
      stack := stack[..|stack| - 1];
      ghost var printed := order;
      order := order + [currentVertex];
      assert currentVertex in order;
      ghost var before := explored[..];
      stack := ExploreNeighbours(adjacencyList, explored, currentVertex, stack, startVertex, order);
      CoveredStep(adj, before, explored[..], printed, currentVertex);
    }
    SearchDone(adj, startVertex, explored[..], order);
  }
}
