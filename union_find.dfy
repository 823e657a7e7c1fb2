/**
 * UnionFind: disjoint sets over the vertices 0 .. n-1, as parent links
 * with path compression in findRoot and union by size. Each vertex's root
 * and a rank that grows along parent links are kept as ghost state: the
 * root is what the operations promise about, and the rank is what makes
 * findRoot's recursion end.
 */
module UnionFinds {

  /** The vertices whose root is `r`. */
  ghost function Class(root: seq<int>, r: int): set<int>
  {
    set v | 0 <= v < |root| && root[v] == r
  }

  /**
   * The root of `v`. The forest's "roots are their own parents" clause is
   * stated over this name so that it comes into play only where a proof
   * names a vertex's root.
   */
  ghost function RootOf(root: seq<int>, v: int): int
    requires 0 <= v < |root|
  {
    root[v]
  }

  /**
   * Parent links `p` stay among the vertices; a vertex is its own parent
   * exactly when it is its own root; every other vertex shares its
   * parent's root and has a smaller rank than its parent and than its
   * root; and every root is its own parent. Each clause is matched on a
   * vertex's parent or on its root alone, so that no clause produces a
   * parent of a parent for another to match.
   */
  ghost predicate Forest(p: seq<int>, root: seq<int>, rank: seq<nat>)
  {
    |p| == |root| == |rank| &&
    (forall v {:trigger p[v]} :: 0 <= v < |p| ==> 0 <= p[v] < |p|) &&
    (forall v {:trigger root[v]} :: 0 <= v < |p| ==> 0 <= root[v] < |p|) &&
    (forall v {:trigger p[v]} :: 0 <= v < |p| ==> (p[v] == v <==> root[v] == v)) &&
    (forall v {:trigger p[v]} :: 0 <= v < |p| && p[v] != v ==> rank[v] < rank[p[v]] && root[p[v]] == root[v]) &&
    (forall v {:trigger root[v]} :: 0 <= v < |p| && root[v] != v ==> rank[v] < rank[root[v]]) &&
    (forall v {:trigger RootOf(root, v)} :: 0 <= v < |p| ==> p[RootOf(root, v)] == RootOf(root, v))
  }

  /** Every root's size counts the vertices of its class. */
  ghost predicate Sized(p: seq<int>, size: seq<int>, root: seq<int>)
    requires |p| == |size| == |root|
  {
    forall r :: 0 <= r < |p| && p[r] == r ==> size[r] == |Class(root, r)|
  }

  /**
   * Path compression: pointing a vertex that is not a root straight at its
   * root keeps the forest and its roots, and so every class and size.
   */
  lemma Compressed(p: seq<int>, size: seq<int>, root: seq<int>, rank: seq<nat>, v: int)
    requires Forest(p, root, rank) && |size| == |p| && Sized(p, size, root)
    requires 0 <= v < |p| && p[v] != v
    ensures Forest(p[v := root[v]], root, rank) && Sized(p[v := root[v]], size, root)
  {
    var q := p[v := root[v]];
    forall u | 0 <= u < |q| && q[u] != u
      ensures rank[u] < rank[q[u]] && root[q[u]] == root[u] && rank[u] < rank[root[u]]
    {
      if u == v {
        assert p[RootOf(root, v)] == RootOf(root, v);
      }
    }
    forall u | 0 <= u < |q|
      ensures q[RootOf(root, u)] == RootOf(root, u)
    {
      assert p[RootOf(root, u)] == RootOf(root, u);
    }
  }

  /** The roots after the tree of `loser` is hung under `winner`. */
  ghost function Merged(root: seq<int>, loser: int, winner: int): (r: seq<int>)
    ensures |r| == |root|
  {
    seq(|root|, v requires 0 <= v < |root| => if root[v] == loser then winner else root[v])
  }

  /**
   * Hanging the root `loser` under the root `winner` connects two vertices
   * exactly when they were connected before or one was in each of the two
   * merged classes.
   */
  lemma MergedConnects(root: seq<int>, loser: int, winner: int, a: int, b: int)
    requires 0 <= a < |root| && 0 <= b < |root| && loser != winner
    ensures Merged(root, loser, winner)[a] == Merged(root, loser, winner)[b] <==>
      root[a] == root[b] || (root[a] in {loser, winner} && root[b] in {loser, winner})
  {
  }

  /** The rank after `loser` is hung under `winner`: the winner's rank rises above the loser's if need be. */
  ghost function Raised(rank: seq<nat>, loser: int, winner: int): (r: seq<nat>)
    requires 0 <= loser < |rank| && 0 <= winner < |rank|
    ensures |r| == |rank|
  {
    rank[winner := if rank[winner] > rank[loser] then rank[winner] else rank[loser] + 1]
  }

  /**
   * union's effect on the forest: hanging the root `loser` under the root
   * `winner`, whose rank is raised above the loser's, keeps the forest.
   */
  lemma HungForest(p: seq<int>, root: seq<int>, rank: seq<nat>, loser: int, winner: int)
    requires Forest(p, root, rank)
    requires 0 <= loser < |p| && 0 <= winner < |p| && loser != winner && p[loser] == loser && p[winner] == winner
    ensures Forest(p[loser := winner], Merged(root, loser, winner), Raised(rank, loser, winner))
  {
    var q, root', rank' := p[loser := winner], Merged(root, loser, winner), Raised(rank, loser, winner);
    assert RootOf(root, loser) == loser && RootOf(root, winner) == winner;
    forall u | 0 <= u < |q| && q[u] != u
      ensures rank'[u] < rank'[q[u]] && root'[q[u]] == root'[u] && rank'[u] < rank'[root'[u]]
    {
      if u != loser {
        assert p[u] != u && u != winner;
        if root[u] == loser {
          assert rank[u] < rank[loser];
        }
      }
    }
    forall u | 0 <= u < |q|
      ensures q[RootOf(root', u)] == RootOf(root', u)
    {
      assert p[RootOf(root, u)] == RootOf(root, u);
    }
  }

  /**
   * union's effect on the sizes: the winner's size grows by the loser's,
   * and every root still counts its class.
   */
  lemma HungSized(p: seq<int>, size: seq<int>, root: seq<int>, rank: seq<nat>, loser: int, winner: int)
    requires Forest(p, root, rank) && |size| == |p| && Sized(p, size, root)
    requires 0 <= loser < |p| && 0 <= winner < |p| && loser != winner && p[loser] == loser && p[winner] == winner
    ensures Sized(p[loser := winner], size[winner := size[winner] + size[loser]], Merged(root, loser, winner))
  {
    var q, root', size' := p[loser := winner], Merged(root, loser, winner), size[winner := size[winner] + size[loser]];
    forall r | 0 <= r < |q| && q[r] == r
      ensures size'[r] == |Class(root', r)|
    {
      if r == winner {
        assert Class(root', r) == Class(root, winner) + Class(root, loser);
        assert Class(root, winner) * Class(root, loser) == {};
      } else {
        assert Class(root', r) == Class(root, r);
      }
    }
  }

  class UnionFind {
    var parent: array<int>
    var size: array<int>
    /** The root of each vertex's tree. */
    ghost var root: seq<int>
    /** Strictly increases along every parent link, up to the root. */
    ghost var rank: seq<nat>

    ghost predicate Valid()
      reads this, parent, size
    {
      parent != size && parent.Length == size.Length &&
      Forest(parent[..], root, rank) && Sized(parent[..], size[..], root)
    }

    /** A fresh structure of `n` singletons: every vertex is its own root with size 1. */
    constructor (n: int)
      requires n >= 0
      ensures Valid() && fresh(parent) && fresh(size) && parent.Length == n
      ensures forall v :: 0 <= v < n ==> parent[v] == v && size[v] == 1 && root[v] == v
    {
      var p := new int[n];
      var s := new int[n];
      var i := 0;
      while i < n
        invariant 0 <= i <= n
        invariant forall v :: 0 <= v < i ==> p[v] == v && s[v] == 1
      {
        p[i] := i;
        s[i] := 1;
        i := i + 1;
      }
      ghost var singletons := seq(n, v => v);
      forall r | 0 <= r < n
        ensures s[r] == |Class(singletons, r)|
      {
        assert Class(singletons, r) == {r};
      }
      parent, size := p, s;
      root := singletons;
      rank := seq(n, v => 0);
    }

    /**
     * findRoot: the root of `vertex`. Path compression repoints vertices
     * straight at their roots and so changes no vertex's root.
     */
    method FindRoot(vertex: int) returns (r: int)
      requires Valid() && 0 <= vertex < parent.Length
      modifies parent
      ensures Valid() && r == root[vertex] && parent[r] == r
      ensures forall v :: 0 <= v < parent.Length ==> parent[v] == old(parent[v]) || parent[v] == root[v]
      decreases rank[root[vertex]] - rank[vertex]
    {
      if parent[vertex] != vertex {
        var top := FindRoot(parent[vertex]);
        assert parent[vertex] != vertex;
        Compressed(parent[..], size[..], root, rank, vertex);
        parent[vertex] := top;
      }
      r := parent[vertex];
    }

    /**
     * union: of two distinct roots, the one with the smaller size (root2
     * on a tie) is hung under the other, whose size grows by the loser's.
     */
    method Union(root1: int, root2: int)
      requires Valid() && 0 <= root1 < parent.Length && 0 <= root2 < parent.Length
      requires parent[root1] == root1 && parent[root2] == root2 && root1 != root2
      modifies this, parent, size
      ensures Valid() && parent == old(parent) && size == old(size)
      ensures var winner := if old(size[root1] < size[root2]) then root2 else root1;
        var loser := if winner == root1 then root2 else root1;
        parent[..] == old(parent[..])[loser := winner] &&
        size[..] == old(size[..])[winner := old(size[winner] + size[loser])] &&
        root == Merged(old(root), loser, winner)
    {
      if size[root1] < size[root2] {
        Hang(root1, root2);
      } else {
        Hang(root2, root1);
      }
    }

    /** One branch of union: the root `loser` is hung under the root `winner`, whose size grows by the loser's. */
    method Hang(loser: int, winner: int)
      requires Valid() && 0 <= loser < parent.Length && 0 <= winner < parent.Length
      requires parent[loser] == loser && parent[winner] == winner && loser != winner
      modifies this, parent, size
      ensures Valid() && parent == old(parent) && size == old(size)
      ensures parent[..] == old(parent[..])[loser := winner]
      ensures size[..] == old(size[..])[winner := old(size[winner] + size[loser])]
      ensures root == Merged(old(root), loser, winner)
    {
      ghost var p0, s0 := parent[..], size[..];
      HungForest(p0, root, rank, loser, winner);
      HungSized(p0, s0, root, rank, loser, winner);
      parent[loser] := winner;
      size[winner] := size[winner] + size[loser];
      assert parent[..] == p0[loser := winner];
      assert size[..] == s0[winner := s0[winner] + s0[loser]];
      root := Merged(root, loser, winner);
      rank := Raised(rank, loser, winner);
    }

    /** isConnected: whether the two vertices have the same root. */
    method IsConnected(vertex1: int, vertex2: int) returns (b: bool)
      requires Valid() && 0 <= vertex1 < parent.Length && 0 <= vertex2 < parent.Length
      modifies parent
      ensures Valid() && root == old(root)
      ensures b <==> root[vertex1] == root[vertex2]
    {
      var r1 := FindRoot(vertex1);
      var r2 := FindRoot(vertex2);
      b := r1 == r2;
    }
  }
}
