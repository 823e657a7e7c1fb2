/**
 * Prim: an undirected weighted graph over the vertices 0 .. vertices-1,
 * held as one list of `Edge`s per vertex, and Prim's algorithm grown from
 * vertex 0 over a priority queue of edges ordered by weight. The edges the
 * algorithm prints are its result here.
 */
module Prims {
  import opened GraphPaths

  /** An edge as a vertex's list holds it: the vertex at the other end, and the weight. */
  datatype Edge = Edge(destination: int, weight: int)

  /** Edge.compareTo: Integer.compare on the weights alone. */
  function Compare(a: Edge, b: Edge): (r: int)
    ensures -1 <= r <= 1
    ensures r < 0 <==> a.weight < b.weight
    ensures r == 0 <==> a.weight == b.weight
  {
    if a.weight < b.weight then -1 else if a.weight == b.weight then 0 else 1
  }

  /** The vertices a list of edges leads to, in list order. */
  function Dests(edges: seq<Edge>): (r: seq<int>)
    ensures |r| == |edges| && forall i :: 0 <= i < |edges| ==> r[i] == edges[i].destination
  {
    seq(|edges|, i requires 0 <= i < |edges| => edges[i].destination)
  }

  /** The graph with the weights dropped: the adjacency lists reachability is stated over. */
  function Targets(graph: seq<seq<Edge>>): (adj: Adjacency)
    ensures |adj| == |graph| && forall u :: 0 <= u < |graph| ==> adj[u] == Dests(graph[u])
  {
    seq(|graph|, u requires 0 <= u < |graph| => Dests(graph[u]))
  }

  /** Every edge leads to a vertex of the graph. */
  ghost predicate InRange(graph: seq<seq<Edge>>)
  {
    forall u, e :: 0 <= u < |graph| && e in graph[u] ==> 0 <= e.destination < |graph|
  }

  /** The graph is undirected: each edge is listed at both of its ends, with the same weight. */
  ghost predicate Symmetric(graph: seq<seq<Edge>>)
    requires InRange(graph)
  {
    forall u, e :: 0 <= u < |graph| && e in graph[u] ==> Edge(u, e.weight) in graph[e.destination]
  }

  /** Some vertex of `tree` lists the edge `e`: `e` leaves the part of the tree printed so far. */
  ghost predicate Leaves(graph: seq<seq<Edge>>, tree: seq<Edge>, e: Edge)
  {
    exists j :: 0 <= j < |tree| && 0 <= tree[j].destination < |graph| && e in graph[tree[j].destination]
  }

  /**
   * `e` is a lightest edge from the vertices of `tree` to a vertex outside
   * it: the choice Prim's algorithm makes at every step.
   */
  ghost predicate Lightest(graph: seq<seq<Edge>>, tree: seq<Edge>, e: Edge)
  {
    forall j, f ::
      (0 <= j < |tree| && 0 <= tree[j].destination < |graph| && f in graph[tree[j].destination] && f.destination !in Dests(tree))
      ==> e.weight <= f.weight
  }

  /**
   * PriorityQueue.poll: a lightest queued edge by `Compare`, and the queue
   * without it. Which of several equally light edges leaves first is the
   * heap's business; this takes the first in queue order.
   */
  method Poll(queue: seq<Edge>) returns (e: Edge, rest: seq<Edge>)
    requires queue != []
    ensures e in queue && multiset(rest) == multiset(queue) - multiset{e} && |rest| == |queue| - 1
    ensures forall f :: f in queue ==> Compare(e, f) <= 0
  {
    var m := LightestIndex(queue);
    e := queue[m];
    rest := queue[..m] + queue[m + 1..];
    assert queue == queue[..m] + [e] + queue[m + 1..];
  }

  /** The scan behind poll: the first index of a lightest edge of the queue. */
  method LightestIndex(queue: seq<Edge>) returns (m: int)
    requires queue != []
    ensures 0 <= m < |queue|
    ensures forall f :: f in queue ==> queue[m].weight <= f.weight
    ensures forall k :: 0 <= k < m ==> queue[m].weight < queue[k].weight
  {
    m := 0;
    var i := 1;
    while i < |queue|
      invariant 0 <= m < i <= |queue|
      invariant forall k :: 0 <= k < i ==> queue[m].weight <= queue[k].weight
      invariant forall k :: 0 <= k < m ==> queue[m].weight < queue[k].weight
    {
      if Compare(queue[i], queue[m]) < 0 {
        m := i;
      }
      i := i + 1;
    }
  }

  /** The edges of `edges` that lead to a vertex not yet marked, in list order. */
  function Fresh(edges: seq<Edge>, marked: seq<bool>): (r: seq<Edge>)
    requires forall e :: e in edges ==> 0 <= e.destination < |marked|
    ensures forall e :: e in r <==> e in edges && !marked[e.destination]
  {
    if edges == [] then []
    else if marked[edges[0].destination] then Fresh(edges[1..], marked)
    else [edges[0]] + Fresh(edges[1..], marked)
  }

  /**
   * The loop invariant of primMST: `marked` is the set of printed vertices,
   * which are distinct and connected to vertex 0; queued edges lead to
   * vertices connected to vertex 0 and leave the printed ones; every edge
   * from a printed vertex to an unprinted one is still queued; and every
   * printed edge after the seed was a lightest edge out of the tree so far.
   */
  ghost predicate Progress(graph: seq<seq<Edge>>, tree: seq<Edge>, queue: seq<Edge>, marked: seq<bool>)
  {
    |marked| == |graph| && InRange(graph) && Marks(graph, tree, marked) && Queued(graph, tree, queue) &&
    Seeded(tree, queue) && Covered(graph, queue, marked) && Chosen(graph, tree)
  }

  /** The marked vertices are the printed ones, distinct and connected to vertex 0. */
  ghost predicate Marks(graph: seq<seq<Edge>>, tree: seq<Edge>, marked: seq<bool>)
    requires |marked| == |graph|
  {
    (forall v :: 0 <= v < |graph| ==> (marked[v] <==> v in Dests(tree))) &&
    Distinct(Dests(tree)) &&
    (forall v :: v in Dests(tree) ==> 0 <= v < |graph| && Reachable(Targets(graph), 0, v))
  }

  /** Queued edges lead to vertices connected to vertex 0, and leave printed vertices once there are any. */
  ghost predicate Queued(graph: seq<seq<Edge>>, tree: seq<Edge>, queue: seq<Edge>)
  {
    forall e :: e in queue ==>
      0 <= e.destination < |graph| && Reachable(Targets(graph), 0, e.destination) && (tree != [] ==> Leaves(graph, tree, e))
  }

  /** Until the first edge is printed only the seed edge is queued; after, the seed edge comes first. */
  ghost predicate Seeded(tree: seq<Edge>, queue: seq<Edge>)
  {
    if tree == [] then queue == [Edge(0, 0)] else tree[0] == Edge(0, 0)
  }

  /** Every edge from a marked vertex to an unmarked one is queued. */
  ghost predicate Covered(graph: seq<seq<Edge>>, queue: seq<Edge>, marked: seq<bool>)
    requires |marked| == |graph| && InRange(graph)
  {
    forall u, e :: 0 <= u < |graph| && marked[u] && e in graph[u] ==> marked[e.destination] || e in queue
  }

  /** Every printed edge after the seed left the tree printed before it, and was a lightest such edge. */
  ghost predicate Chosen(graph: seq<seq<Edge>>, tree: seq<Edge>)
  {
    forall i :: 0 < i < |tree| ==> Leaves(graph, tree[..i], tree[i]) && Lightest(graph, tree[..i], tree[i])
  }

  /** Before the loop: nothing printed, only the seed edge queued. */
  lemma Start(graph: seq<seq<Edge>>, marked: seq<bool>)
    requires InRange(graph) && |graph| >= 1 && |marked| == |graph| && forall v :: 0 <= v < |marked| ==> !marked[v]
    ensures Progress(graph, [], [Edge(0, 0)], marked)
  {
    ReachableSelf(Targets(graph), 0);
  }

  /** A polled edge whose vertex is already printed is dropped. */
  lemma Skip(graph: seq<seq<Edge>>, tree: seq<Edge>, queue: seq<Edge>, edge: Edge, rest: seq<Edge>, marked: seq<bool>)
    requires Progress(graph, tree, queue, marked)
    requires edge in queue && multiset(rest) == multiset(queue) - multiset{edge}
    requires marked[edge.destination]
    ensures Progress(graph, tree, rest, marked)
  {
    forall e | e in rest
      ensures e in queue
    {
      assert e in multiset(rest);
    }
    assert tree != [];
    assert Queued(graph, tree, rest);
    assert Covered(graph, rest, marked) by {
      forall u, e | 0 <= u < |graph| && marked[u] && e in graph[u] && !marked[e.destination]
        ensures e in rest
      {
        assert e in queue && e != edge;
        assert e in multiset(queue) - multiset{edge};
      }
    }
  }

  /**
   * A polled edge to an unprinted vertex is printed, its vertex marked, and
   * the edges from that vertex to unmarked vertices queued.
   */
  lemma Visit(graph: seq<seq<Edge>>, tree: seq<Edge>, queue: seq<Edge>, edge: Edge, rest: seq<Edge>, marked: seq<bool>)
    requires Progress(graph, tree, queue, marked)
    requires edge in queue && multiset(rest) == multiset(queue) - multiset{edge}
    requires forall f :: f in queue ==> edge.weight <= f.weight
    requires !marked[edge.destination]
    ensures Progress(graph, tree + [edge], rest + Fresh(graph[edge.destination], marked[edge.destination := true]),
                     marked[edge.destination := true])
  {
    forall e | e in rest
      ensures e in queue
    {
      assert e in multiset(rest);
    }
    VisitMarks(graph, tree, queue, edge, marked);
    VisitQueued(graph, tree, queue, edge, rest, marked);
    VisitCovered(graph, queue, edge, rest, marked);
    VisitChosen(graph, tree, queue, edge, marked);
  }

  /** Appending an edge to the tree keeps every earlier prefix and entry. */
  lemma Appended(tree: seq<Edge>, edge: Edge)
    ensures Dests(tree + [edge]) == Dests(tree) + [edge.destination]
    ensures (tree + [edge])[..|tree|] == tree
    ensures forall i :: 0 <= i < |tree| ==> (tree + [edge])[..i] == tree[..i] && (tree + [edge])[i] == tree[i]
  {
    assert forall i :: 0 <= i < |tree| ==> (tree + [edge])[..i] == tree[..i];
  }

  lemma VisitMarks(graph: seq<seq<Edge>>, tree: seq<Edge>, queue: seq<Edge>, edge: Edge, marked: seq<bool>)
    requires |marked| == |graph| && InRange(graph) && Marks(graph, tree, marked) && Queued(graph, tree, queue)
    requires edge in queue && !marked[edge.destination]
    ensures Marks(graph, tree + [edge], marked[edge.destination := true])
  {
    Appended(tree, edge);
    DistinctJoin(Dests(tree), [edge.destination]);
  }

  lemma VisitQueued(graph: seq<seq<Edge>>, tree: seq<Edge>, queue: seq<Edge>, edge: Edge, rest: seq<Edge>, marked: seq<bool>)
    requires |marked| == |graph| && InRange(graph) && Queued(graph, tree, queue)
    requires Seeded(tree, queue) && edge in queue && !marked[edge.destination]
    requires multiset(rest) == multiset(queue) - multiset{edge} && forall e :: e in rest ==> e in queue
    ensures Queued(graph, tree + [edge], rest + Fresh(graph[edge.destination], marked[edge.destination := true]))
  {
    var adj := Targets(graph);
    var v := edge.destination;
    var tree' := tree + [edge];
    if tree == [] {
      assert multiset(rest) == multiset{};
    }
    forall e | e in rest + Fresh(graph[v], marked[v := true])
      ensures 0 <= e.destination < |graph| && Reachable(adj, 0, e.destination) && Leaves(graph, tree', e)
    {
      if e in rest {
        assert tree != [];
        var j :| 0 <= j < |tree| && 0 <= tree[j].destination < |graph| && e in graph[tree[j].destination];
        assert tree'[j] == tree[j];
      } else {
        assert e in graph[v];
        assert e.destination in adj[v];
        ReachableStep(adj, 0, v, e.destination);
        assert tree'[|tree|].destination == v;
      }
    }
  }

  lemma VisitCovered(graph: seq<seq<Edge>>, queue: seq<Edge>, edge: Edge, rest: seq<Edge>, marked: seq<bool>)
    requires |marked| == |graph| && InRange(graph) && Covered(graph, queue, marked)
    requires edge in queue && 0 <= edge.destination < |graph| && !marked[edge.destination] && multiset(rest) == multiset(queue) - multiset{edge}
    ensures Covered(graph, rest + Fresh(graph[edge.destination], marked[edge.destination := true]), marked[edge.destination := true])
  {
    var v := edge.destination;
    var marked' := marked[v := true];
    forall u, e | 0 <= u < |graph| && marked'[u] && e in graph[u] && !marked'[e.destination]
      ensures e in rest + Fresh(graph[v], marked')
    {
      if u != v {
        assert e in queue && e != edge;
        assert e in multiset(queue) - multiset{edge};
        assert e in rest;
      }
    }
  }

  lemma VisitChosen(graph: seq<seq<Edge>>, tree: seq<Edge>, queue: seq<Edge>, edge: Edge, marked: seq<bool>)
    requires |marked| == |graph| && InRange(graph) && Marks(graph, tree, marked) && Queued(graph, tree, queue)
    requires Covered(graph, queue, marked) && Chosen(graph, tree)
    requires edge in queue && forall f :: f in queue ==> edge.weight <= f.weight
    ensures Chosen(graph, tree + [edge])
  {
    Appended(tree, edge);
    assert Lightest(graph, tree, edge) by {
      forall j, f | 0 <= j < |tree| && 0 <= tree[j].destination < |graph| && f in graph[tree[j].destination] &&
        f.destination !in Dests(tree)
        ensures edge.weight <= f.weight
      {
        assert tree[j].destination in Dests(tree);
        assert marked[tree[j].destination];
        assert f in queue;
      }
    }
  }

  /** When the queue runs dry the printed vertices are closed under edges, so they hold every vertex connected to 0. */
  lemma Finish(graph: seq<seq<Edge>>, tree: seq<Edge>, marked: seq<bool>)
    requires Progress(graph, tree, [], marked)
    ensures |tree| > 0 && tree[0] == Edge(0, 0)
    ensures forall v :: v in Dests(tree) <==> 0 <= v < |graph| && Reachable(Targets(graph), 0, v)
  {
    var adj := Targets(graph);
    assert WellFormed(adj) by {
      forall u, j | 0 <= u < |adj| && 0 <= j < |adj[u]|
        ensures 0 <= adj[u][j] < |adj|
      {
        assert graph[u][j] in graph[u];
      }
    }
    assert Closed(adj, marked) by {
      forall u, j | 0 <= u < |adj| && marked[u] && 0 <= j < |adj[u]|
        ensures marked[adj[u][j]]
      {
        assert graph[u][j] in graph[u];
      }
    }
    forall v | 0 <= v < |graph| && Reachable(adj, 0, v)
      ensures v in Dests(tree)
    {
      assert 0 in Dests(tree);
      ClosedHoldsReachable(adj, marked, 0, v);
    }
  }

  class Prim {
    var vertices: int
    var graph: seq<seq<Edge>>

    /** `graph` holds one list per vertex, every edge leads to a vertex, and every edge is listed at both ends. */
    ghost predicate Valid()
      reads this
    {
      |graph| == vertices && InRange(graph) && Symmetric(graph)
    }

    /** Prim(vertices): every vertex with an empty list. */
    constructor (vertices: int)
      requires vertices >= 0
      ensures Valid() && this.vertices == vertices
      ensures forall u :: 0 <= u < vertices ==> graph[u] == []
    {
      this.vertices := vertices;
      var g: seq<seq<Edge>> := [];
      var i := 0;
      while i < vertices
        invariant 0 <= i <= vertices && |g| == i && forall u :: 0 <= u < i ==> g[u] == []
      {
        g := g + [[]];
        i := i + 1;
      }
      graph := g;
    }

    /**
     * addEdge: `source`'s list gains an edge to `destination` and then
     * `destination`'s list gains an edge back to `source`, both with
     * `weight`; the graph stays undirected.
     */
    method AddEdge(source: int, destination: int, weight: int)
      requires Valid() && 0 <= source < vertices && 0 <= destination < vertices
      modifies this
      ensures Valid() && vertices == old(vertices)
      ensures var g := old(graph)[source := old(graph)[source] + [Edge(destination, weight)]];
        graph == g[destination := g[destination] + [Edge(source, weight)]]
      ensures Edge(destination, weight) in graph[source] && Edge(source, weight) in graph[destination]
    {
      ghost var g0 := graph;
      graph := graph[source := graph[source] + [Edge(destination, weight)]];
      graph := graph[destination := graph[destination] + [Edge(source, weight)]];
      assert forall u, e :: 0 <= u < |g0| && e in g0[u] ==> e in graph[u];
    }

    /**
     * primMST from vertex 0: the printed edges start with the seed edge to
     * vertex 0; each later one is a lightest edge from the vertices printed
     * before it to a vertex not yet printed; no vertex is printed twice;
     * and the printed vertices are exactly those connected to vertex 0.
     */
    method PrimMst() returns (tree: seq<Edge>)
      requires Valid() && vertices >= 1
      ensures |tree| > 0 && tree[0] == Edge(0, 0)
      ensures Distinct(Dests(tree))
      ensures forall i :: 0 < i < |tree| ==> Leaves(graph, tree[..i], tree[i]) && Lightest(graph, tree[..i], tree[i])
      ensures forall v :: v in Dests(tree) <==> 0 <= v < vertices && Reachable(Targets(graph), 0, v)
    {
      var visited := new bool[vertices](_ => false);
      var queue := [Edge(0, 0)];
      tree := [];
      Start(graph, visited[..]);
      while queue != []
        invariant visited.Length == vertices
        invariant Progress(graph, tree, queue, visited[..])
        decreases Unmarked(visited[..]), |queue|
      {
        ghost var before := queue;
        ghost var was := visited[..];
        var edge;
        edge, queue := Poll(queue);
        var currentVertex := edge.destination;
        if visited[currentVertex] {
          Skip(graph, tree, before, edge, queue, was);
          continue;
        }
        visited[currentVertex] := true;
        assert visited[..] == was[currentVertex := true];
        MarkOne(was, currentVertex);
        var rest := queue;
        queue := EnqueueUnvisited(queue, graph[currentVertex], visited);
        Visit(graph, tree, before, edge, rest, was);
        tree := tree + [edge];
      }
      Finish(graph, tree, visited[..]);
    }

    /**
     * The inner loop of primMST: the edges of `edges` that lead to an
     * unvisited vertex join the queue, in list order.
     */
    method EnqueueUnvisited(queue: seq<Edge>, edges: seq<Edge>, visited: array<bool>) returns (q: seq<Edge>)
      requires forall e :: e in edges ==> 0 <= e.destination < visited.Length
      ensures q == queue + Fresh(edges, visited[..])
    {
      q := queue;
      var j := 0;
      while j < |edges|
        invariant 0 <= j <= |edges|
        invariant q + Fresh(edges[j..], visited[..]) == queue + Fresh(edges, visited[..])
      {
        var adjacentEdge := edges[j];
        assert edges[j..] == [adjacentEdge] + edges[j + 1..];
        if !visited[adjacentEdge.destination] {
          q := q + [adjacentEdge];
        }
        j := j + 1;
      }
      assert edges[j..] == [];
    }
  }
}
