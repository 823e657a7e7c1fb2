/**
 * BFS: breadth-first search over adjacency lists. A vertex is marked
 * explored when it is enqueued, and the vertices are printed in the order
 * they leave the queue; the printed sequence is the result here.
 */
module BreadthFirstSearch {
  import opened GraphPaths

  /**
   * bfs: the printed vertices start with `startVertex`, repeat none, and
   * are exactly the vertices reachable from it.
   */
  method Bfs(adjacencyList: array<seq<int>>, startVertex: int) returns (order: seq<int>)
    requires WellFormed(adjacencyList[..]) && 0 <= startVertex < adjacencyList.Length
    ensures |order| > 0 && order[0] == startVertex
    ensures Distinct(order)
    ensures forall v :: v in order <==> 0 <= v < adjacencyList.Length && Reachable(adjacencyList[..], startVertex, v)
  {
    ghost var adj := adjacencyList[..];
    var n := adjacencyList.Length;
    var explored := new bool[n](_ => false);
    explored[startVertex] := true;
    var queue := [startVertex];
    order := [];
    SearchStart(adj, startVertex, explored[..]);
    while queue != []
      invariant Searching(adj, startVertex, explored[..], order, queue) && Covered(adj, explored[..], order)
      invariant if order == [] then queue == [startVertex] else order[0] == startVertex
      decreases n - |order|
    {
      SearchBound(adj, startVertex, explored[..], order, queue);
      VisitFirst(adj, startVertex, explored[..], order, queue);
      var currentVertex := queue[0];
      queue := queue[1..];
      ghost var printed := order;
      order := order + [currentVertex];
      assert currentVertex in order;
      ghost var before := explored[..];
      queue := ExploreNeighbours(adjacencyList, explored, currentVertex, queue, startVertex, order);
      CoveredStep(adj, before, explored[..], printed, currentVertex);
    }
    SearchDone(adj, startVertex, explored[..], order);
  }
}
