/**
 * LinkedSet: an unordered set in a doubly linked list without sentinels.
 * Insert prepends an element that is not there yet; remove unlinks the
 * element's node. A version number moves on with every change of the
 * list, and the fail-fast iterator compares it with the one it was
 * created for.
 */
module LinkedSets {
  import opened Outcomes
  import opened SetSpec

  class Node<T> {
    const data: T
    var next: Node?<T>
    var prev: Node?<T>

    /** A node holding `d`, linked to nothing. */
    constructor (d: T)
      ensures data == d && next == null && prev == null
    {
      data := d;
      next := null;
      prev := null;
    }
  }

  /**
   * The node at `i`. The list invariants are stated over this name so that
   * they come into play only where a proof names a position.
   */
  ghost function NodeAt<T>(ns: seq<Node<T>>, i: int): Node<T>
    requires 0 <= i < |ns|
  {
    ns[i]
  }

  /** `ns` are distinct nodes of `r`, one per element of `es`, each holding its element. */
  ghost predicate Holding<T>(ns: seq<Node<T>>, es: seq<T>, r: set<Node<T>>)
  {
    |ns| == |es| &&
    (forall i :: 0 <= i < |ns| ==> ns[i] in r) &&
    (forall i {:trigger NodeAt(ns, i)} :: 0 <= i < |ns| ==> NodeAt(ns, i).data == es[i]) &&
    (forall i, j {:trigger NodeAt(ns, i), NodeAt(ns, j)} :: 0 <= i < j < |ns| ==> NodeAt(ns, i) != NodeAt(ns, j))
  }

  class LinkedSet<T(==)> {
    var head: Node?<T>
    var numElements: int
    var version: int
    /** The set, head first. */
    ghost var elements: seq<T>
    /** The nodes from head to last, in list order. */
    ghost var nodes: seq<Node<T>>
    /** The elements at every version so far: history[v] was `elements` at version v. */
    ghost var history: seq<seq<T>>
    /** Every node ever linked into this set. */
    ghost var Repr: set<Node<T>>

    /**
     * The nodes are doubly linked in list order, the first has no
     * predecessor and the last no successor, and head is the first.
     */
    ghost predicate Chained()
      requires Holding(nodes, elements, Repr)
      reads this, Repr
    {
      (forall i {:trigger NodeAt(nodes, i)} :: 0 <= i < |nodes| - 1 ==>
        NodeAt(nodes, i).next == nodes[i + 1] && nodes[i + 1].prev == NodeAt(nodes, i)) &&
      (nodes == [] ==> head == null) &&
      (nodes != [] ==> head == nodes[0] && nodes[0].prev == null && nodes[|nodes| - 1].next == null)
    }

    /** The list: distinct nodes holding the elements, chained from head. */
    ghost predicate Linked()
      reads this, Repr
    {
      Holding(nodes, elements, Repr) && Chained()
    }

    /**
     * The links once the node at `i` is bypassed, while `nodes` still
     * lists it: its neighbours point at each other, head skips it when it
     * was the head, and every other link is a link of the list.
     */
    ghost predicate Bypassed(i: int)
      requires Holding(nodes, elements, Repr) && 0 <= i < |nodes|
      reads this, Repr
    {
      (forall k {:trigger NodeAt(nodes, k)} :: 0 <= k < |nodes| - 1 && k != i - 1 && k != i ==>
        NodeAt(nodes, k).next == nodes[k + 1] && nodes[k + 1].prev == NodeAt(nodes, k)) &&
      (0 < i ==> nodes[i - 1].next == if i + 1 < |nodes| then nodes[i + 1] else null) &&
      (i + 1 < |nodes| ==> nodes[i + 1].prev == if 0 < i then nodes[i - 1] else null) &&
      (0 < i ==> nodes[0].prev == null) &&
      (i + 1 < |nodes| ==> nodes[|nodes| - 1].next == null) &&
      head == if 0 < i then nodes[0] else if 1 < |nodes| then nodes[1] else null
    }

    /**
     * The list is linked, holds no element twice, numElements counts it,
     * and the current version's entry of the history is the current set.
     */
    ghost predicate Valid()
      reads this, Repr
    {
      Linked() && numElements == |elements| && Distinct(elements) &&
      0 <= version && |history| == version + 1 && history[version] == elements
    }

    /** An empty set at version 0. */
    constructor ()
      ensures Valid() && elements == [] && version == 0 && Repr == {}
    {
      head := null;
      numElements := 0;
      version := 0;
      elements := [];
      nodes := [];
      history := [[]];
      Repr := {};
    }

    /** find: the node holding `t`, walking from the head; null when no node does. */
    method Find(t: T) returns (n: Node?<T>)
      requires Valid()
      ensures n == null <==> t !in elements
      ensures n != null ==> n == nodes[IndexOf(elements, t)]
    {
      var curr := head;
      ghost var i := 0;
      while curr != null
        invariant 0 <= i <= |nodes|
        invariant curr == if i < |nodes| then nodes[i] else null
        invariant t !in elements[..i]
        decreases |nodes| - i
      {
        assert NodeAt(nodes, i) == curr;
        if t == curr.data {
          assert IndexOf(elements, t) == i;
          return curr;
        }
        assert elements[..i + 1] == elements[..i] + [elements[i]];
        curr := curr.next;
        i := i + 1;
      }
      assert elements[..i] == elements;
      return null;
    }

    /** has: whether `t` is in the set. */
    method Has(t: T) returns (b: bool)
      requires Valid()
      ensures b <==> t in elements
    {
      var n := Find(t);
      b := n != null;
    }

    /** size: the number of elements. */
    function Size(): (n: int)
      reads this, Repr
      requires Valid()
      ensures n == |elements|
    {
      numElements
    }

    /** prepend: a new node holding `t` becomes the head; the counters are left to the caller. */
    method Prepend(t: T)
      requires Linked()
      modifies this, Repr
      ensures Linked() && elements == [t] + old(elements) && fresh(Repr - old(Repr)) && old(Repr) <= Repr
      ensures numElements == old(numElements) && version == old(version) && history == old(history)
    {
      ghost var ns0 := nodes;
      var newNode := new Node(t);
      if head == null {
        head := newNode;
      } else {
        assert NodeAt(ns0, 0) == head;
        newNode.next := head;
        head.prev := newNode;
        head := newNode;
      }
      nodes := [newNode] + nodes;
      elements := [t] + elements;
      Repr := Repr + {newNode};
      forall k | 1 <= k < |nodes|
        ensures NodeAt(nodes, k) == NodeAt(ns0, k - 1) && NodeAt(ns0, k - 1) != newNode
      {
      }
      assert Holding(nodes, elements, Repr);
    }

    /**
     * insert: an absent `t` is prepended, and the count and the version move
     * on; a present `t` changes nothing, not even the version.
     */
    method Insert(t: T)
      requires Valid()
      modifies this, Repr
      ensures Valid() && fresh(Repr - old(Repr)) && old(Repr) <= Repr
      ensures t in old(elements) ==> unchanged(this) && unchanged(old(Repr))
      ensures t !in old(elements) ==> elements == [t] + old(elements) && version == old(version) + 1 && history == old(history) + [elements]
      ensures Members(elements) == Members(old(elements)) + {t}
    {
      var h := Has(t);
      if h {
        return;
      }
      DistinctAppend(elements, t);
      MembersAppend(elements, t);
      Prepend(t);
      numElements := numElements + 1;
      version := version + 1;
      history := history + [elements];
    }

    /** The nodes next to the one at `i`: the ones whose links unlinking it rewrites. */
    ghost function Neighbours(i: int): (ns: set<Node<T>>)
      reads this
      requires 0 <= i < |nodes|
      ensures forall n :: n in ns ==> n in nodes
    {
      (if i > 0 then {nodes[i - 1]} else {}) + (if i + 1 < |nodes| then {nodes[i + 1]} else {})
    }

    /** In a linked list, the node at `i` is the head exactly when `i` is 0, and its links point at its neighbours in list order. */
    lemma Around(i: int)
      requires Linked() && 0 <= i < |nodes|
      ensures (nodes[i] == head) == (i == 0)
      ensures nodes[i].prev == if i > 0 then nodes[i - 1] else null
      ensures nodes[i].next == if i + 1 < |nodes| then nodes[i + 1] else null
    {
      assert NodeAt(nodes, i) == nodes[i] && NodeAt(nodes, 0) == head;
      if i > 0 {
        assert NodeAt(nodes, i - 1).next == nodes[i];
      }
      if i + 1 < |nodes| {
        assert NodeAt(nodes, i + 1).prev == nodes[i];
      }
    }

    /**
     * remove (the node helper): the node at `i` is unlinked, by pointing its
     * neighbours at each other and moving the head on when it was the head.
     * The node itself keeps its links. The ghost list and the counters are
     * left to the caller.
     */
    method Unlink(target: Node<T>, ghost i: int)
      requires Linked() && 0 <= i < |nodes| && nodes[i] == target
      modifies this, Neighbours(i)
      ensures nodes == old(nodes) && elements == old(elements) && Repr == old(Repr)
      ensures numElements == old(numElements) && version == old(version) && history == old(history)
      ensures Bypassed(i)
    {
      Around(i);
      if target == head {
        head := target.next;
      }
      var beforeTarget := target.prev;
      var afterTarget := target.next;
      if beforeTarget != null {
        beforeTarget.next := afterTarget;
      }
      if afterTarget != null {
        afterTarget.prev := beforeTarget;
      }
      forall k | 0 <= k < |nodes| - 1 && k != i - 1 && k != i
        ensures NodeAt(nodes, k).next == nodes[k + 1] && nodes[k + 1].prev == NodeAt(nodes, k)
      {
        assert old(NodeAt(nodes, k).next) == nodes[k + 1] && old(nodes[k + 1].prev) == NodeAt(nodes, k);
        assert NodeAt(nodes, k + 1) == nodes[k + 1];
        if i > 0 {
          assert NodeAt(nodes, i - 1) == beforeTarget;
        }
        if i + 1 < |nodes| {
          assert NodeAt(nodes, i + 1) == afterTarget;
        }
      }
      if i > 0 && i + 1 < |nodes| {
        assert NodeAt(nodes, 0) != NodeAt(nodes, i + 1) && NodeAt(nodes, |nodes| - 1) != NodeAt(nodes, i - 1);
      }
    }

    /** The ghost side of remove: the bypassed node at `i` leaves the list of nodes and its element the set. */
    ghost method Drop(i: int)
      requires Holding(nodes, elements, Repr) && 0 <= i < |nodes| && Bypassed(i)
      modifies this
      ensures Linked() && Repr == old(Repr) && head == old(head)
      ensures nodes == old(nodes[..i] + nodes[i + 1..]) && elements == old(elements[..i] + elements[i + 1..])
      ensures numElements == old(numElements) && version == old(version) && history == old(history)
    {
      DropNode(nodes, elements, Repr, i);
      BypassLinks(nodes, i);
      nodes := nodes[..i] + nodes[i + 1..];
      elements := elements[..i] + elements[i + 1..];
    }

    /**
     * remove: a present `t` loses its node, and the count and the version
     * move on; an absent `t` changes nothing, not even the version.
     */
    method Remove(t: T)
      requires Valid()
      modifies this, Repr
      ensures Valid() && Repr == old(Repr)
      ensures t !in old(elements) ==> unchanged(this) && unchanged(Repr)
      ensures t in old(elements) ==>
        var i := IndexOf(old(elements), t);
        elements == old(elements[..i] + elements[i + 1..]) && version == old(version) + 1 && history == old(history) + [elements]
      ensures Members(elements) == Members(old(elements)) - {t}
    {
      var target := Find(t);
      if target == null {
        return;
      }
      ghost var i := IndexOf(elements, t);
      ghost var s := elements;
      Unlink(target, i);
      Drop(i);
      version := version + 1;
      numElements := numElements - 1;
      history := history + [elements];
      RemovedMembers(s, i);
    }

    /** union: a new set holding the elements of this set, then those of `other` unless it is this set. */
    method Union(other: LinkedSet<T>) returns (r: LinkedSet<T>)
      requires Valid() && other.Valid()
      ensures fresh(r) && fresh(r.Repr) && r.Valid()
      ensures Members(r.elements) == Members(elements) + Members(other.elements)
    {
      r := new LinkedSet();
      InsertAll(this, r);
      if this != other {
        InsertAll(other, r);
      }
    }

    /** intersect: a new set holding the elements of this set that `other` has (all of them when it is this set). */
    method Intersect(other: LinkedSet<T>) returns (r: LinkedSet<T>)
      requires Valid() && other.Valid()
      ensures fresh(r) && fresh(r.Repr) && r.Valid()
      ensures Members(r.elements) == Members(elements) * Members(other.elements)
    {
      r := new LinkedSet();
      InsertCommon(this, other, r);
    }

    /** subtract: a new set holding the elements of this set that `other` lacks (none when it is this set). */
    method Subtract(other: LinkedSet<T>) returns (r: LinkedSet<T>)
      requires Valid() && other.Valid()
      ensures fresh(r) && fresh(r.Repr) && r.Valid()
      ensures Members(r.elements) == Members(elements) - Members(other.elements)
      ensures other == this ==> r.elements == []
    {
      r := new LinkedSet();
      InsertMissing(this, other, r);
    }
  }

  /**
   * Dropping the node at `i` and its element keeps distinct nodes holding
   * the elements.
   */
  lemma DropNode<T>(ns: seq<Node<T>>, es: seq<T>, r: set<Node<T>>, i: int)
    requires Holding(ns, es, r) && 0 <= i < |ns|
    ensures Holding(ns[..i] + ns[i + 1..], es[..i] + es[i + 1..], r)
  {
    var ms, fs := ns[..i] + ns[i + 1..], es[..i] + es[i + 1..];
    forall k | 0 <= k < |ms|
      ensures ms[k] in r && NodeAt(ms, k).data == fs[k]
    {
      var k0 := if k < i then k else k + 1;
      assert NodeAt(ms, k) == NodeAt(ns, k0);
    }
    forall a, b | 0 <= a < b < |ms|
      ensures NodeAt(ms, a) != NodeAt(ms, b)
    {
      var a0, b0 := if a < i then a else a + 1, if b < i then b else b + 1;
      assert NodeAt(ns, a0) != NodeAt(ns, b0);
    }
  }

  /**
   * Nodes linked in list order except around `i`, whose neighbours point at
   * each other, are linked in list order once the node at `i` is dropped,
   * and the ends of the shorter list have no outer links.
   */
  lemma BypassLinks<T>(ns: seq<Node<T>>, i: int)
    requires 0 <= i < |ns|
    requires forall k {:trigger NodeAt(ns, k)} :: 0 <= k < |ns| - 1 && k != i - 1 && k != i ==>
      NodeAt(ns, k).next == ns[k + 1] && ns[k + 1].prev == NodeAt(ns, k)
    requires 0 < i ==> ns[i - 1].next == if i + 1 < |ns| then ns[i + 1] else null
    requires i + 1 < |ns| ==> ns[i + 1].prev == if 0 < i then ns[i - 1] else null
    requires 0 < i ==> ns[0].prev == null
    requires i + 1 < |ns| ==> ns[|ns| - 1].next == null
    ensures var ms := ns[..i] + ns[i + 1..];
      forall k {:trigger NodeAt(ms, k)} :: 0 <= k < |ms| - 1 ==>
        NodeAt(ms, k).next == ms[k + 1] && ms[k + 1].prev == NodeAt(ms, k)
    ensures var ms := ns[..i] + ns[i + 1..];
      ms != [] ==> ms[0].prev == null && ms[|ms| - 1].next == null
  {
    var ms := ns[..i] + ns[i + 1..];
    forall k | 0 <= k < |ms| - 1
      ensures NodeAt(ms, k).next == ms[k + 1] && ms[k + 1].prev == NodeAt(ms, k)
    {
      if k + 1 < i {
        assert NodeAt(ns, k) == ms[k] && ms[k + 1] == ns[k + 1];
      } else if k + 1 == i {
        assert ms[k] == ns[i - 1] && ms[k + 1] == ns[i + 1];
      } else {
        assert NodeAt(ns, k + 1) == ms[k] && ms[k + 1] == ns[k + 2];
      }
    }
  }

  /** Dropping the element at `i` of a list without repeats removes exactly that element. */
  lemma RemovedMembers<T>(s: seq<T>, i: int)
    requires Distinct(s) && 0 <= i < |s|
    ensures Distinct(s[..i] + s[i + 1..])
    ensures Members(s[..i] + s[i + 1..]) == Members(s) - {s[i]}
  {
    var r := s[..i] + s[i + 1..];
    forall x | x in s && x != s[i]
      ensures x in r
    {
      var k :| 0 <= k < |s| && s[k] == x;
      if k < i {
        assert r[k] == x;
      } else {
        assert r[k - 1] == x;
      }
    }
  }

  /**
   * The fail-fast iterator: it walks the nodes from the head and throws
   * ConcurrentModificationException once the set's version differs from
   * the one it was created for.
   */
  class SetIterator<T(==)> {
    const owner: LinkedSet<T>
    var curr: Node?<T>
    const version: int
    /** The set's elements at the iterator's version. */
    ghost const snapshot: seq<T>
    /** How many elements the iterator has returned. */
    ghost var pos: int

    /**
     * The iterator's version is one the set has had, with `snapshot` its
     * elements then; while the set is still at that version, `curr` is the
     * node at `pos`.
     */
    ghost predicate Valid()
      reads this, owner
    {
      0 <= version <= owner.version && version < |owner.history| && owner.history[version] == snapshot &&
      0 <= pos <= |snapshot| &&
      (version == owner.version ==> curr == if pos < |owner.nodes| then owner.nodes[pos] else null)
    }

    /** An iterator at the head, for the set's current version. */
    constructor (s: LinkedSet<T>)
      requires s.Valid()
      ensures Valid() && owner == s && pos == 0 && version == s.version && snapshot == s.elements
    {
      owner := s;
      curr := s.head;
      version := s.version;
      snapshot := s.elements;
      pos := 0;
    }

    /** hasNext: whether a node remains; throws once the set has changed. */
    method HasNext() returns (r: Result<bool>)
      requires Valid() && owner.Valid()
      ensures owner.version != version ==> r == Err(ConcurrentModification)
      ensures owner.version == version ==> r == Ok(pos < |snapshot|)
    {
      if version != owner.version {
        return Err(ConcurrentModification);
      }
      r := Ok(curr != null);
    }

    /**
     * next: the element of the current node, after which the iterator moves
     * to the next node; throws once the set has changed, and past the last
     * node.
     */
    method Next() returns (r: Result<T>)
      requires Valid() && owner.Valid()
      modifies this
      ensures Valid()
      ensures owner.version != version ==> r == Err(ConcurrentModification) && pos == old(pos)
      ensures owner.version == version && old(pos) == |snapshot| ==> r == Err(NoSuchElement) && pos == old(pos)
      ensures owner.version == version && old(pos) < |snapshot| ==> r == Ok(snapshot[old(pos)]) && pos == old(pos) + 1
    {
      if version != owner.version {
        return Err(ConcurrentModification);
      }
      var h := HasNext();
      if h != Ok(true) {
        return Err(NoSuchElement);
      }
      assert NodeAt(owner.nodes, pos) == curr;
      r := Ok(curr.data);
      curr := curr.next;
      pos := pos + 1;
    }
  }

  /**
   * The for-each loop of union over `src`: every element of `src` is
   * inserted into `r`, head first, walking the nodes as the iterator does.
   */
  method InsertAll<T(==)>(src: LinkedSet<T>, r: LinkedSet<T>)
    requires src.Valid() && r.Valid() && r != src && r.Repr !! src.Repr
    modifies r, r.Repr
    ensures r.Valid() && fresh(r.Repr - old(r.Repr)) && old(r.Repr) <= r.Repr
    ensures Members(r.elements) == Members(old(r.elements)) + Members(src.elements)
  {
    ghost var mine := r.elements;
    var curr := src.head;
    ghost var i := 0;
    while curr != null
      invariant 0 <= i <= |src.nodes|
      invariant curr == if i < |src.nodes| then src.nodes[i] else null
      invariant r.Valid() && fresh(r.Repr - old(r.Repr)) && old(r.Repr) <= r.Repr && r.Repr !! src.Repr
      invariant Members(r.elements) == Members(mine) + Members(src.elements[..i])
      decreases |src.nodes| - i
    {
      assert NodeAt(src.nodes, i) == curr;
      MembersNext(src.elements, 0, i);
      r.Insert(curr.data);
      curr := curr.next;
      i := i + 1;
    }
    assert src.elements[..i] == src.elements;
  }

  /**
   * The for-each loop of intersect over `src`: an element of `src` is
   * inserted into `r` when `other` is `src` itself or has the element.
   */
  method InsertCommon<T(==)>(src: LinkedSet<T>, other: LinkedSet<T>, r: LinkedSet<T>)
    requires src.Valid() && other.Valid() && r.Valid()
    requires r != src && r.Repr !! src.Repr && r != other && r.Repr !! other.Repr
    modifies r, r.Repr
    ensures r.Valid() && fresh(r.Repr - old(r.Repr)) && old(r.Repr) <= r.Repr
    ensures Members(r.elements) == Members(old(r.elements)) + Members(src.elements) * Members(other.elements)
  {
    ghost var mine := r.elements;
    var curr := src.head;
    ghost var i := 0;
    while curr != null
      invariant 0 <= i <= |src.nodes|
      invariant curr == if i < |src.nodes| then src.nodes[i] else null
      invariant r.Valid() && fresh(r.Repr - old(r.Repr)) && old(r.Repr) <= r.Repr
      invariant r.Repr !! src.Repr && r.Repr !! other.Repr
      invariant Members(r.elements) == Members(mine) + Members(src.elements[..i]) * Members(other.elements)
      decreases |src.nodes| - i
    {
      assert NodeAt(src.nodes, i) == curr;
      MembersNext(src.elements, 0, i);
      InsertIfCommon(curr.data, src == other, other, r);
      curr := curr.next;
      i := i + 1;
    }
    assert src.elements[..i] == src.elements;
  }

  /**
   * The for-each loop of subtract over `src`: an element of `src` is
   * inserted into `r` when `other` is another set that lacks it.
   */
  method InsertMissing<T(==)>(src: LinkedSet<T>, other: LinkedSet<T>, r: LinkedSet<T>)
    requires src.Valid() && other.Valid() && r.Valid()
    requires r != src && r.Repr !! src.Repr && r != other && r.Repr !! other.Repr
    modifies r, r.Repr
    ensures r.Valid() && fresh(r.Repr - old(r.Repr)) && old(r.Repr) <= r.Repr
    ensures Members(r.elements) == Members(old(r.elements)) + (Members(src.elements) - Members(other.elements))
    ensures other == src ==> r.elements == old(r.elements)
  {
    ghost var mine := r.elements;
    var curr := src.head;
    ghost var i := 0;
    while curr != null
      invariant 0 <= i <= |src.nodes|
      invariant curr == if i < |src.nodes| then src.nodes[i] else null
      invariant r.Valid() && fresh(r.Repr - old(r.Repr)) && old(r.Repr) <= r.Repr
      invariant r.Repr !! src.Repr && r.Repr !! other.Repr
      invariant Members(r.elements) == Members(mine) + (Members(src.elements[..i]) - Members(other.elements))
      invariant other == src ==> r.elements == mine
      decreases |src.nodes| - i
    {
      assert NodeAt(src.nodes, i) == curr;
      MembersNext(src.elements, 0, i);
      InsertIfMissing(curr.data, src == other, other, r);
      curr := curr.next;
      i := i + 1;
    }
    assert src.elements[..i] == src.elements;
  }

  /**
   * The body of intersect's loop: `t` goes into `r` when the iteration is
   * over `other` itself or `other` has `t`.
   */
  method InsertIfCommon<T(==)>(t: T, self: bool, other: LinkedSet<T>, r: LinkedSet<T>)
    requires other.Valid() && r.Valid() && r != other && r.Repr !! other.Repr
    modifies r, r.Repr
    ensures r.Valid() && fresh(r.Repr - old(r.Repr)) && old(r.Repr) <= r.Repr
    ensures self ==> Members(r.elements) == Members(old(r.elements)) + {t}
    ensures !self ==> Members(r.elements) == Members(old(r.elements)) + ({t} * Members(other.elements))
  {
    var keep := true;
    if !self {
      keep := other.Has(t);
    }
    if keep {
      r.Insert(t);
    }
  }

  /**
   * The body of subtract's loop: `t` goes into `r` when the iteration is
   * over another set than `other` and `other` lacks `t`.
   */
  method InsertIfMissing<T(==)>(t: T, self: bool, other: LinkedSet<T>, r: LinkedSet<T>)
    requires other.Valid() && r.Valid() && r != other && r.Repr !! other.Repr
    modifies r, r.Repr
    ensures r.Valid() && fresh(r.Repr - old(r.Repr)) && old(r.Repr) <= r.Repr
    ensures self ==> r.elements == old(r.elements)
    ensures !self ==> Members(r.elements) == Members(old(r.elements)) + ({t} - Members(other.elements))
  {
    var keep := false;
    if !self {
      var has := other.Has(t);
      keep := !has;
    }
    if keep {
      r.Insert(t);
    }
  }

  /**
   * Fail-fast: an iterator created before the insert of a new element
   * throws ConcurrentModificationException afterwards.
   */
  method InsertInvalidatesIterator<T(==)>(s: LinkedSet<T>, t: T) returns (h: Result<bool>)
    requires s.Valid() && t !in s.elements
    modifies s, s.Repr
    ensures h == Err(ConcurrentModification)
  {
    var it := new SetIterator(s);
    s.Insert(t);
    h := it.HasNext();
  }

  /** Inserting an element that is already there leaves an iterator working. */
  method InsertPresentKeepsIterator<T(==)>(s: LinkedSet<T>, t: T) returns (h: Result<bool>)
    requires s.Valid() && t in s.elements
    modifies s, s.Repr
    ensures h == Ok(true)
  {
    var it := new SetIterator(s);
    s.Insert(t);
    h := it.HasNext();
  }
}
