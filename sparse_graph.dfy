/**
 * SparseGraph: a directed graph held as incidence lists. The graph keeps a
 * set of vertex nodes and a set of edge nodes; each vertex node keeps the
 * sets of its outgoing and incoming edges, and each edge node its two
 * ends. Vertices are told apart by their data (the vertex node's equals and
 * hashCode compare data), edges by identity. Every node names the graph
 * that owns it, and a removed node forgets it, so that a stale or foreign
 * position is refused with a position error. Labels are arbitrary objects,
 * `None` standing for null.
 */
module SparseGraphs {
  import opened Outcomes

  class VertexNode<V(==), E, L> {
    const data: V
    var owner: SparseGraph?<V, E, L>
    var tag: Option<L>  // the label, None for null
    var outEdges: set<EdgeNode<V, E, L>>
    var inEdges: set<EdgeNode<V, E, L>>

    /** VertexNode(v): no label and no incident edges yet. */
    constructor (v: V)
      ensures data == v && owner == null && tag == None && outEdges == {} && inEdges == {}
    {
      data := v;
      owner := null;
      tag := None;
      outEdges := {};
      inEdges := {};
    }
  }

  class EdgeNode<V(==), E, L> {
    const data: E
    const from: VertexNode<V, E, L>
    const to: VertexNode<V, E, L>
    var owner: SparseGraph?<V, E, L>
    var tag: Option<L>  // the label, None for null

    /** EdgeNode(f, t, e): no label yet. */
    constructor (f: VertexNode<V, E, L>, t: VertexNode<V, E, L>, e: E)
      ensures from == f && to == t && data == e && owner == null && tag == None
    {
      from := f;
      to := t;
      data := e;
      owner := null;
      tag := None;
    }
  }

  class SparseGraph<V(==), E, L> {
    var vertices: set<VertexNode<V, E, L>>
    var edges: set<EdgeNode<V, E, L>>

    /**
     * The incidence invariant: the graph owns its vertices and edges; an
     * edge joins two of its vertices and sits in the first one's outgoing
     * set and the second one's incoming set, and those sets hold nothing
     * else; no two vertices hold equal data; no edge is a self-loop; and no
     * two edges join the same vertices in the same direction.
     */
    ghost predicate Valid()
      reads this, vertices, edges
    {
      (forall v :: v in vertices ==> v.owner == this && v.outEdges <= edges && v.inEdges <= edges) &&
      (forall v, e :: v in vertices && e in v.outEdges ==> e.from == v) &&
      (forall v, e :: v in vertices && e in v.inEdges ==> e.to == v) &&
      (forall e :: e in edges ==>
        e.owner == this && e.from in vertices && e.to in vertices && e in e.from.outEdges && e in e.to.inEdges) &&
      (forall v, w :: v in vertices && w in vertices && v.data == w.data ==> v == w) &&
      (forall e :: e in edges ==> e.from != e.to) &&
      (forall e, f :: e in edges && f in edges && e.from == f.from && e.to == f.to ==> e == f)
    }

    /**
     * A vertex position a client of this graph can hold: null, a vertex of
     * another graph, a removed vertex, or one of the graph's vertices. (The
     * node made for a rejected duplicate names this graph as its owner too,
     * but it is never handed out.)
     */
    ghost predicate VertexHandle(v: VertexNode?<V, E, L>)
      reads this, v
    {
      v != null && v.owner == this ==> v in vertices
    }

    /** An edge position a client can hold: one the graph owns is one of its edges. */
    ghost predicate EdgeHandle(e: EdgeNode?<V, E, L>)
      reads this, e
    {
      e != null && e.owner == this ==> e in edges
    }

    /** HashSet.contains on the vertex set, which compares vertices by data. */
    predicate Contains(d: V)
      reads this
    {
      exists w :: w in vertices && w.data == d
    }

    /** SparseGraph(): no vertices and no edges. */
    constructor ()
      ensures Valid() && vertices == {} && edges == {}
    {
      vertices := {};
      edges := {};
    }

    /** convert(Vertex): a vertex position is accepted exactly when this graph owns it. */
    function ConvertVertex(v: VertexNode?<V, E, L>): (r: Result<VertexNode<V, E, L>>)
      reads this, vertices, edges, v
      requires Valid() && VertexHandle(v)
      ensures r.Ok? <==> v != null && v in vertices
      ensures r.Ok? ==> r.value == v
      ensures r.Err? ==> r.error == Position
    {
      if v == null || v.owner != this then Err(Position) else Ok(v as VertexNode<V, E, L>)
    }

    /** convert(Edge): an edge position is accepted exactly when this graph owns it. */
    function ConvertEdge(e: EdgeNode?<V, E, L>): (r: Result<EdgeNode<V, E, L>>)
      reads this, vertices, edges, e
      requires Valid() && EdgeHandle(e)
      ensures r.Ok? <==> e != null && e in edges
      ensures r.Ok? ==> r.value == e
      ensures r.Err? ==> r.error == Position
    {
      if e == null || e.owner != this then Err(Position) else Ok(e as EdgeNode<V, E, L>)
    }

    /**
     * insert(V): null data, or data some vertex already holds, is refused
     * with an insertion error and the graph is unchanged; otherwise a fresh
     * vertex with no label and no edges joins the graph.
     */
    method InsertVertex(v: Option<V>) returns (r: Result<VertexNode<V, E, L>>)
      requires Valid()
      modifies this
      ensures Valid() && edges == old(edges)
      ensures r.Err? <==> v.None? || exists w :: w in old(vertices) && w.data == v.value
      ensures r.Err? ==> r.error == Insertion && vertices == old(vertices)
      ensures r.Ok? ==>
        fresh(r.value) && vertices == old(vertices) + {r.value} && r.value.data == v.value &&
        r.value.owner == this && r.value.tag == None && r.value.outEdges == {} && r.value.inEdges == {}
    {
      if v.None? {
        return Err(Insertion);
      }
      var vertex := new VertexNode(v.value);
      vertex.owner := this;
      if Contains(vertex.data) {
        return Err(Insertion);
      }
      vertices := vertices + {vertex};
      return Ok(vertex);
    }

    /**
     * insert(from, to, e): an invalid end is refused with a position error;
     * a self-loop, or an edge from `from` to `to` that already exists, with
     * an insertion error; either way nothing changes. Otherwise a fresh edge
     * joins the graph, `from`'s outgoing set and `to`'s incoming set.
     */
    method InsertEdge(from: VertexNode?<V, E, L>, to: VertexNode?<V, E, L>, e: E) returns (r: Result<EdgeNode<V, E, L>>)
      requires Valid() && VertexHandle(from) && VertexHandle(to)
      modifies this, from, to
      ensures Valid() && vertices == old(vertices)
      ensures r.Err? ==> edges == old(edges) && (from != null ==> unchanged(from)) && (to != null ==> unchanged(to))
      ensures from == null || from !in vertices || to == null || to !in vertices ==> r == Err(Position)
      ensures from != null && from in vertices && to != null && to in vertices ==>
        (r.Err? <==> from == to || exists f :: f in old(from.outEdges) && f.to == to) &&
        (r.Err? ==> r.error == Insertion)
      ensures r.Ok? ==>
        fresh(r.value) && r.value.from == from && r.value.to == to && r.value.data == e &&
        r.value.owner == this && r.value.tag == None &&
        edges == old(edges) + {r.value} &&
        from.outEdges == old(from.outEdges) + {r.value} && from.inEdges == old(from.inEdges) &&
        to.inEdges == old(to.inEdges) + {r.value} && to.outEdges == old(to.outEdges) &&
        from.tag == old(from.tag) && to.tag == old(to.tag)
    {
      var f := ConvertVertex(from);
      if f.Err? {
        return Err(Position);
      }
      var t := ConvertVertex(to);
      if t.Err? {
        return Err(Position);
      }
      var fromVertex, toVertex := f.value, t.value;
      if fromVertex.data == toVertex.data {
        return Err(Insertion);
      }
      var rest := fromVertex.outEdges;
      while rest != {}
        invariant rest <= fromVertex.outEdges
        invariant forall o :: o in fromVertex.outEdges && o !in rest ==> o.to != toVertex
        decreases |rest|
      {
        var outgoingEdge :| outgoingEdge in rest;
        if outgoingEdge.to.data == toVertex.data {
          return Err(Insertion);
        }
        rest := rest - {outgoingEdge};
      }
      var edge := Link(fromVertex, toVertex, e);
      return Ok(edge);
    }

    /**
     * The update half of insert(from, to, e): a fresh edge from `from` to
     * `to` joins the graph, `from`'s outgoing set and `to`'s incoming set.
     */
    method Link(from: VertexNode<V, E, L>, to: VertexNode<V, E, L>, e: E) returns (edge: EdgeNode<V, E, L>)
      requires Valid() && from in vertices && to in vertices && from != to
      requires forall f :: f in from.outEdges ==> f.to != to
      modifies this, from, to
      ensures Valid() && vertices == old(vertices)
      ensures fresh(edge) && edge.from == from && edge.to == to && edge.data == e && edge.owner == this && edge.tag == None
      ensures edges == old(edges) + {edge}
      ensures from.outEdges == old(from.outEdges) + {edge} && from.inEdges == old(from.inEdges) && from.tag == old(from.tag)
      ensures to.inEdges == old(to.inEdges) + {edge} && to.outEdges == old(to.outEdges) && to.tag == old(to.tag)
    {
      edge := new EdgeNode(from, to, e);
      from.outEdges := from.outEdges + {edge};
      to.inEdges := to.inEdges + {edge};
      edges := edges + {edge};
      edge.owner := this;
    }

    /**
     * remove(Vertex): an invalid position is refused with a position error,
     * a vertex with an incident edge with a removal error, and nothing
     * changes; otherwise the vertex leaves the graph, forgets its owner,
     * and its data is returned.
     */
    method RemoveVertex(v: VertexNode?<V, E, L>) returns (r: Result<V>)
      requires Valid() && VertexHandle(v)
      modifies this, v
      ensures Valid() && edges == old(edges)
      ensures v == null || v !in old(vertices) ==> r == Err(Position) && vertices == old(vertices)
      ensures v != null && v in old(vertices) ==>
        if old(v.inEdges) != {} || old(v.outEdges) != {} then
          r == Err(Removal) && vertices == old(vertices) && unchanged(v)
        else
          r == Ok(v.data) && vertices == old(vertices) - {v} && v.owner == null && VertexHandle(v)
    {
      var c := ConvertVertex(v);
      if c.Err? || !Contains(c.value.data) {
        return Err(Position);
      }
      var vertexToRemove := c.value;
      if vertexToRemove.inEdges != {} || vertexToRemove.outEdges != {} {
        return Err(Removal);
      }
      vertices := set w | w in vertices && w.data != vertexToRemove.data;
      vertexToRemove.owner := null;
      return Ok(vertexToRemove.data);
    }

    /**
     * remove(Edge): an invalid position is refused with a position error
     * and nothing changes; otherwise the edge leaves the graph and its
     * ends' incidence sets, forgets its owner, and its data is returned.
     */
    method RemoveEdge(e: EdgeNode?<V, E, L>) returns (r: Result<E>)
      requires Valid() && EdgeHandle(e)
      modifies this, e, if e != null then {e.from, e.to} else {}
      ensures Valid() && vertices == old(vertices)
      ensures e == null || e !in old(edges) ==> r == Err(Position) && edges == old(edges)
      ensures e != null && e in old(edges) ==>
        r == Ok(e.data) && edges == old(edges) - {e} && e.owner == null && EdgeHandle(e) &&
        e.from.outEdges == old(e.from.outEdges) - {e} && e.to.inEdges == old(e.to.inEdges) - {e} &&
        e.from.inEdges == old(e.from.inEdges) && e.to.outEdges == old(e.to.outEdges)
    {
      var c := ConvertEdge(e);
      if c.Err? {
        return Err(Position);
      }
      var edgeToRemove := c.value;
      edgeToRemove.from.outEdges := edgeToRemove.from.outEdges - {edgeToRemove};
      edgeToRemove.to.inEdges := edgeToRemove.to.inEdges - {edgeToRemove};
      edges := edges - {edgeToRemove};
      edgeToRemove.owner := null;
      return Ok(edgeToRemove.data);
    }

    /** outgoing: the edges leaving a valid vertex, each of which starts there; a position error otherwise. */
    method Outgoing(v: VertexNode?<V, E, L>) returns (r: Result<set<EdgeNode<V, E, L>>>)
      requires Valid() && VertexHandle(v)
      ensures r.Ok? <==> v != null && v in vertices
      ensures r.Ok? ==> r.value == v.outEdges && forall e :: e in edges && e.from == v <==> e in r.value
      ensures r.Err? ==> r.error == Position
    {
      var c := ConvertVertex(v);
      if c.Err? || !Contains(c.value.data) {
        return Err(Position);
      }
      return Ok(c.value.outEdges);
    }

    /** incoming: the edges entering a valid vertex, each of which ends there; a position error otherwise. */
    method Incoming(v: VertexNode?<V, E, L>) returns (r: Result<set<EdgeNode<V, E, L>>>)
      requires Valid() && VertexHandle(v)
      ensures r.Ok? <==> v != null && v in vertices
      ensures r.Ok? ==> r.value == v.inEdges && forall e :: e in edges && e.to == v <==> e in r.value
      ensures r.Err? ==> r.error == Position
    {
      var c := ConvertVertex(v);
      if c.Err? || !Contains(c.value.data) {
        return Err(Position);
      }
      return Ok(c.value.inEdges);
    }

    /** from: the vertex a valid edge starts at, one of the graph's vertices, with the edge among its outgoing ones. */
    method From(e: EdgeNode?<V, E, L>) returns (r: Result<VertexNode<V, E, L>>)
      requires Valid() && EdgeHandle(e)
      ensures r.Ok? <==> e != null && e in edges
      ensures r.Ok? ==> r.value == e.from && r.value in vertices && e in r.value.outEdges
      ensures r.Err? ==> r.error == Position
    {
      var c := ConvertEdge(e);
      if c.Err? || c.value !in edges {
        return Err(Position);
      }
      return Ok(c.value.from);
    }

    /** to: the vertex a valid edge ends at, one of the graph's vertices, with the edge among its incoming ones. */
    method To(e: EdgeNode?<V, E, L>) returns (r: Result<VertexNode<V, E, L>>)
      requires Valid() && EdgeHandle(e)
      ensures r.Ok? <==> e != null && e in edges
      ensures r.Ok? ==> r.value == e.to && r.value in vertices && e in r.value.inEdges
      ensures r.Err? ==> r.error == Position
    {
      var c := ConvertEdge(e);
      if c.Err? || c.value !in edges {
        return Err(Position);
      }
      return Ok(c.value.to);
    }

    /** label(Vertex, l): a valid vertex gets label `l` and nothing else changes; a position error otherwise. */
    method SetVertexLabel(v: VertexNode?<V, E, L>, l: Option<L>) returns (r: Result<()>)
      requires Valid() && VertexHandle(v)
      modifies v
      ensures Valid()
      ensures r.Ok? <==> v != null && v in vertices
      ensures r.Ok? ==> v.tag == l && v.owner == old(v.owner) && v.outEdges == old(v.outEdges) && v.inEdges == old(v.inEdges)
      ensures r.Err? ==> r.error == Position && (v != null ==> unchanged(v))
    {
      var c := ConvertVertex(v);
      if c.Err? || !Contains(c.value.data) {
        return Err(Position);
      }
      c.value.tag := l;
      return Ok(());
    }

    /** label(Edge, l): a valid edge gets label `l` and nothing else changes; a position error otherwise. */
    method SetEdgeLabel(e: EdgeNode?<V, E, L>, l: Option<L>) returns (r: Result<()>)
      requires Valid() && EdgeHandle(e)
      modifies e
      ensures Valid()
      ensures r.Ok? <==> e != null && e in edges
      ensures r.Ok? ==> e.tag == l && e.owner == old(e.owner)
      ensures r.Err? ==> r.error == Position && (e != null ==> unchanged(e))
    {
      var c := ConvertEdge(e);
      if c.Err? || c.value !in edges {
        return Err(Position);
      }
      c.value.tag := l;
      return Ok(());
    }

    /** label(Vertex): the label a valid vertex was last given (null if none); a position error otherwise. */
    method VertexLabel(v: VertexNode?<V, E, L>) returns (r: Result<Option<L>>)
      requires Valid() && VertexHandle(v)
      ensures r.Ok? <==> v != null && v in vertices
      ensures r.Ok? ==> r.value == v.tag
      ensures r.Err? ==> r.error == Position
    {
      var c := ConvertVertex(v);
      if c.Err? || !Contains(c.value.data) {
        return Err(Position);
      }
      return Ok(c.value.tag);
    }

    /** label(Edge): the label a valid edge was last given (null if none); a position error otherwise. */
    method EdgeLabel(e: EdgeNode?<V, E, L>) returns (r: Result<Option<L>>)
      requires Valid() && EdgeHandle(e)
      ensures r.Ok? <==> e != null && e in edges
      ensures r.Ok? ==> r.value == e.tag
      ensures r.Err? ==> r.error == Position
    {
      var c := ConvertEdge(e);
      if c.Err? || c.value !in edges {
        return Err(Position);
      }
      return Ok(c.value.tag);
    }

    /** clearLabels: every vertex and every edge of the graph loses its label; nothing else changes. */
    method ClearLabels()
      requires Valid()
      modifies vertices, edges
      ensures Valid()
      ensures forall v :: v in vertices ==> v.tag == None
      ensures forall e :: e in edges ==> e.tag == None
      ensures forall v :: v in vertices ==> v.owner == old(v.owner) && v.outEdges == old(v.outEdges) && v.inEdges == old(v.inEdges)
      ensures forall e :: e in edges ==> e.owner == old(e.owner)
    {
      ClearVertexLabels();
      ClearEdgeLabels();
    }

    /** The first loop of clearLabels: every vertex loses its label. */
    method ClearVertexLabels()
      requires Valid()
      modifies vertices
      ensures Valid()
      ensures forall v :: v in vertices ==> v.tag == None
      ensures forall v :: v in vertices ==> v.owner == old(v.owner) && v.outEdges == old(v.outEdges) && v.inEdges == old(v.inEdges)
    {
      var rest := vertices;
      while rest != {}
        invariant rest <= vertices
        invariant forall v :: v in vertices && v !in rest ==> v.tag == None
        invariant forall v :: v in vertices ==> v.owner == old(v.owner) && v.outEdges == old(v.outEdges) && v.inEdges == old(v.inEdges)
        decreases |rest|
      {
        var v :| v in rest;
        v.tag := None;
        rest := rest - {v};
      }
    }

    /** The second loop of clearLabels: every edge loses its label. */
    method ClearEdgeLabels()
      requires Valid()
      modifies edges
      ensures Valid()
      ensures forall e :: e in edges ==> e.tag == None
      ensures forall e :: e in edges ==> e.owner == old(e.owner)
    {
      var remaining := edges;
      while remaining != {}
        invariant remaining <= edges
        invariant forall e :: e in edges && e !in remaining ==> e.tag == None
        invariant forall e :: e in edges ==> e.owner == old(e.owner)
        decreases |remaining|
      {
        var e :| e in remaining;
        e.tag := None;
        remaining := remaining - {e};
      }
    }
  }
}
