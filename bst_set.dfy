/**
 * BstOrderedSet: an ordered set of integers kept as an unbalanced binary
 * search tree, with in-order, post-order and pre-order iterators.
 *
 * Its remove as written (RemoveAsWritten) compares against the data of
 * the set's root rather than of the current node, and a node with two
 * children decrements the count twice. Two lemmas below exhibit what this
 * does; RemoveIntended is the repaired removal with its correctness
 * proved, and the set's Remove uses it.
 */
module BstSets {
  import opened Outcomes
  import opened BinaryTrees

  type SetTree = Tree<(), ()>

  /** The node reached by following left children from `t`. */
  ghost function Leftmost(t: SetTree): (n: SetTree)
    requires t.Node?
    ensures n.Node? && n.left.Nil? && n.key in Keys(t)
    ensures IsBst(t) ==> forall x :: x in Keys(t) ==> n.key <= x
  {
    if t.left.Nil? then t else Leftmost(t.left)
  }

  /** findSmallest: follow left children as far as they go. */
  method FindSmallest(t: SetTree) returns (n: SetTree)
    requires t.Node?
    ensures n == Leftmost(t)
  {
    n := t;
    while n.left.Node?
      invariant n.Node? && Leftmost(n) == Leftmost(t)
      decreases n
    {
      n := n.left;
    }
  }

  /**
   * The recursive insert, with how many times it incremented the count: a
   * new leaf where the search falls off the tree, or nothing when the search
   * meets the element.
   */
  function InsertAt(t: SetTree, x: int): (r: (SetTree, nat))
    ensures Keys(r.0) == Keys(t) + {x} && r.1 <= 1 && Size(r.0) == Size(t) + r.1
    ensures r.1 == 0 ==> r.0 == t
    ensures IsBst(t) ==> IsBst(r.0) && Contents(r.0) == Contents(t)[x := ()]
    ensures IsBst(t) ==> (r.1 == 1 <==> x !in Keys(t))
    ensures IsBst(t) && r.1 == 1 ==> LeafAt(r.0, x)
  {
    match t
    case Nil => (Node(Nil, x, (), (), Nil), 1)
    case Node(l, key, _, _, rt) =>
      if key > x then
        var (l', c) := InsertAt(l, x);
        InsertedLeftWhenOrdered(t, l', x);
        (t.(left := l'), c)
      else if key < x then
        var (rt', c) := InsertAt(rt, x);
        InsertedRightWhenOrdered(t, rt', x);
        (t.(right := rt'), c)
      else
        assert x in Keys(t);
        ReaddingChangesNothing(Contents(t), x);
        (t, 0)
  }

  lemma ReaddingChangesNothing(m: map<int, ()>, x: int)
    requires x in m
    ensures m[x := ()] == m
  {
    var u: () := m[x];
    assert u == ();
  }

  lemma InsertedLeftWhenOrdered(t: SetTree, l': SetTree, x: int)
    requires t.Node? && x < t.key
    requires IsBst(t) ==> IsBst(l') && Keys(l') == Keys(t.left) + {x} && Contents(l') == Contents(t.left)[x := ()]
    ensures IsBst(t) ==> IsBst(t.(left := l')) && Contents(t.(left := l')) == Contents(t)[x := ()]
  {
    if IsBst(t) {
      assert x !in Keys(t.right);
      InsertedLeft(t, l', x, ());
    }
  }

  lemma InsertedRightWhenOrdered(t: SetTree, rt': SetTree, x: int)
    requires t.Node? && t.key < x
    requires IsBst(t) ==> IsBst(rt') && Keys(rt') == Keys(t.right) + {x} && Contents(rt') == Contents(t.right)[x := ()]
    ensures IsBst(t) ==> IsBst(t.(right := rt')) && Contents(t.(right := rt')) == Contents(t)[x := ()]
  {
    if IsBst(t) {
      assert x !in Keys(t.left);
      InsertedRight(t, rt', x, ());
    }
  }

  /** The recursive find. */
  function Find(t: SetTree, x: int): (n: SetTree)
    ensures n.Node? ==> n.key == x && x in Keys(t)
    ensures IsBst(t) ==> (n.Node? <==> x in Keys(t))
  {
    match t
    case Nil => Nil
    case Node(l, key, _, _, rt) =>
      if key > x then Find(l, x)
      else if key < x then Find(rt, x)
      else t
  }

  /**
   * The recursive remove as written, with how many times it decremented
   * the count. Every step compares `x` with `pivot`, the data the set's
   * root holds at that moment; `atRoot` says whether `t` is the root node
   * itself, whose data the two-child case overwrites.
   */
  ghost function RemoveAsWritten(t: SetTree, x: int, pivot: int, atRoot: bool): (SetTree, nat)
  {
    match t
    case Nil => (Nil, 0)
    case Node(l, key, _, _, rt) =>
      if pivot > x then
        var (l', c) := RemoveAsWritten(l, x, pivot, false);
        (t.(left := l'), c)
      else if pivot < x then
        var (rt', c) := RemoveAsWritten(rt, x, pivot, false);
        (t.(right := rt'), c)
      else if rt.Nil? then (l, 1)
      else if l.Nil? then (rt, 1)
      else
        var next := Leftmost(rt).key;
        var (rt', c) := RemoveAsWritten(rt, next, if atRoot then next else pivot, false);
        (Node(l, next, (), (), rt'), c + 1)
  }

  /** The remove helper: it computes RemoveAsWritten, using the findSmallest loop. */
  method RemoveFrom(t: SetTree, x: int, pivot: int, atRoot: bool) returns (r: SetTree, dropped: nat)
    ensures (r, dropped) == RemoveAsWritten(t, x, pivot, atRoot)
    decreases t
  {
    if t.Nil? {
      return Nil, 0;
    }
    if pivot > x {
      var l', c := RemoveFrom(t.left, x, pivot, false);
      return t.(left := l'), c;
    } else if pivot < x {
      var rt', c := RemoveFrom(t.right, x, pivot, false);
      return t.(right := rt'), c;
    }
    if t.right.Nil? {
      return t.left, 1;
    } else if t.left.Nil? {
      return t.right, 1;
    }
    var next := FindSmallest(t.right);
    var rt', c := RemoveFrom(t.right, next.key, if atRoot then next.key else pivot, false);
    r := Node(t.left, next.key, (), (), rt');
    dropped := c + 1;
  }

  /** When `x` differs from the pivot, the search never reaches a match: nothing changes. */
  lemma {:induction false} RemoveOffPivotChangesNothing(t: SetTree, x: int, pivot: int, atRoot: bool)
    requires x != pivot
    ensures RemoveAsWritten(t, x, pivot, atRoot) == (t, 0)
  {
    match t
    case Nil =>
    case Node(l, _, _, _, rt) =>
      if pivot > x {
        RemoveOffPivotChangesNothing(l, x, pivot, false);
      } else {
        RemoveOffPivotChangesNothing(rt, x, pivot, false);
      }
  }

  /** Removing the root's element when the root has at most one child leaves that child. */
  lemma RemoveRootWithOneChild(t: SetTree)
    requires t.Node? && (t.left.Nil? || t.right.Nil?) && IsBst(t)
    ensures var (r, c) := RemoveAsWritten(t, t.key, t.key, true);
      c == 1 && (r == t.left || r == t.right) && IsBst(r) && Keys(r) == Keys(t) - {t.key} &&
      Size(r) == Size(t) - 1
  {
    SplicedOut(t);
  }

  /** An element below the root is never removed: {1, 2} with root 2 still holds 1 afterwards. */
  lemma RemoveMissesNonRootElement()
    ensures var t := Node(Node(Nil, 1, (), (), Nil), 2, (), (), Nil);
      IsBst(t) && 1 in Keys(t) && RemoveAsWritten(t, 1, t.key, true) == (t, 0)
  {
    var t := Node(Node(Nil, 1, (), (), Nil), 2, (), (), Nil);
    assert Keys(t) == {1, 2};
  }

  /**
   * Removing a root with two children can break the order: from {1, 2, 3, 4}
   * with root 2 and right child 4 above 3, removing 2 loses 4, keeps 3
   * twice, and counts two removals.
   */
  lemma RemoveTwoChildRootBreaksOrder()
    ensures var t := Node(Node(Nil, 1, (), (), Nil), 2, (), (), Node(Node(Nil, 3, (), (), Nil), 4, (), (), Nil));
      var (r, c) := RemoveAsWritten(t, 2, 2, true);
      IsBst(t) && !IsBst(r) && 4 !in Keys(r) && c == 2 && Size(r) == 3
  {
    var three := Node(Nil, 3, (), (), Nil);
    var t := Node(Node(Nil, 1, (), (), Nil), 2, (), (), Node(three, 4, (), (), Nil));
    assert Leftmost(t.right) == three;
    var r := Node(Node(Nil, 1, (), (), Nil), 3, (), (), three);
    assert RemoveAsWritten(t.right, 3, 3, false) == (three, 1);
    assert RemoveAsWritten(t, 2, 2, true) == (r, 2);
    assert Keys(r) == {1, 3};
    assert 3 in Keys(r.right);
  }

  /**
   * The evidently intended removal: compare with the current node's data,
   * and count one removal per element. The element is gone and nothing else
   * changes.
   */
  ghost function RemoveIntended(t: SetTree, x: int): (r: (SetTree, nat))
    requires IsBst(t)
    ensures IsBst(r.0) && Keys(r.0) == Keys(t) - {x}
    ensures r.1 == (if x in Keys(t) then 1 else 0) && Size(r.0) == Size(t) - r.1
    decreases t
  {
    match t
    case Nil => (Nil, 0)
    case Node(l, key, _, _, rt) =>
      if key > x then
        var (l', c) := RemoveIntended(l, x);
        ShrunkLeft(t, l', x);
        (t.(left := l'), c)
      else if key < x then
        var (rt', c) := RemoveIntended(rt, x);
        ShrunkRight(t, rt', x);
        (t.(right := rt'), c)
      else if rt.Nil? || l.Nil? then
        assert key !in Keys(l) && key !in Keys(rt);
        (if rt.Nil? then l else rt, 1)
      else
        var next := Leftmost(rt).key;
        var (rt', _) := RemoveIntended(rt, next);
        TookSuccessor(t, rt', next);
        (Node(l, next, (), (), rt'), 1)
  }

  /** The corrected remove helper: it computes RemoveIntended, using the findSmallest loop. */
  method RemoveIntendedFrom(t: SetTree, x: int) returns (r: SetTree, dropped: nat)
    requires IsBst(t)
    ensures (r, dropped) == RemoveIntended(t, x)
    decreases t
  {
    if t.Nil? {
      return Nil, 0;
    }
    if t.key > x {
      var l', c := RemoveIntendedFrom(t.left, x);
      return t.(left := l'), c;
    } else if t.key < x {
      var rt', c := RemoveIntendedFrom(t.right, x);
      return t.(right := rt'), c;
    }
    if t.right.Nil? {
      return t.left, 1;
    } else if t.left.Nil? {
      return t.right, 1;
    }
    var next := FindSmallest(t.right);
    r, dropped := RemoveIntendedFrom(t.right, next.key);
    r, dropped := Node(t.left, next.key, (), (), r), 1;
  }

  lemma ShrunkLeft(t: SetTree, l': SetTree, x: int)
    requires t.Node? && IsBst(t) && x < t.key && IsBst(l') && Keys(l') == Keys(t.left) - {x}
    ensures IsBst(t.(left := l')) && Keys(t.(left := l')) == Keys(t) - {x}
  {
    assert x !in Keys(t.right);
  }

  lemma ShrunkRight(t: SetTree, rt': SetTree, x: int)
    requires t.Node? && IsBst(t) && t.key < x && IsBst(rt') && Keys(rt') == Keys(t.right) - {x}
    ensures IsBst(t.(right := rt')) && Keys(t.(right := rt')) == Keys(t) - {x}
  {
    assert x !in Keys(t.left);
  }

  /** A node taking over the smallest element `m` of its right subtree, which then loses `m`. */
  lemma TookSuccessor(t: SetTree, rt': SetTree, m: int)
    requires t.Node? && IsBst(t) && m in Keys(t.right) && forall x :: x in Keys(t.right) ==> m <= x
    requires IsBst(rt') && Keys(rt') == Keys(t.right) - {m}
    ensures IsBst(Node(t.left, m, (), (), rt')) && Keys(Node(t.left, m, (), (), rt')) == Keys(t) - {t.key}
  {
    forall x | x in Keys(t.left) ensures x < m { }
    assert t.key !in Keys(t.left) && t.key !in Keys(t.right);
  }

  /** The elements in post-order: left subtree, right subtree, then the node. */
  ghost function PostOrder(t: SetTree): seq<int>
  {
    match t
    case Nil => []
    case Node(l, key, _, _, r) => PostOrder(l) + PostOrder(r) + [key]
  }

  /** The elements in pre-order: the node, left subtree, then right subtree. */
  ghost function PreOrder(t: SetTree): seq<int>
  {
    match t
    case Nil => []
    case Node(l, key, _, _, r) => [key] + PreOrder(l) + PreOrder(r)
  }

  /** All three traversals list the same elements, each as often. */
  lemma {:induction false} TraversalsAgree(t: SetTree)
    ensures multiset(PostOrder(t)) == multiset(InorderKeys(t)) == multiset(PreOrder(t))
    ensures |PostOrder(t)| == |PreOrder(t)| == Size(t)
  {
    match t
    case Nil =>
    case Node(l, key, _, _, r) =>
      TraversalsAgree(l);
      TraversalsAgree(r);
      assert PostOrder(t) == PostOrder(l) + PostOrder(r) + [key];
      assert PreOrder(t) == [key] + PreOrder(l) + PreOrder(r);
      assert InorderKeys(t) == InorderKeys(l) + [key] + InorderKeys(r);
  }

  /** A queue filled by a traversal when the iterator is created, as the post- and pre-order iterators are. */
  class TraversalIterator {
    var queue: seq<int>

    constructor ()
      ensures queue == []
    {
      queue := [];
    }

    /** fillQueuePostOrder */
    method FillPostOrder(t: SetTree)
      modifies this
      ensures queue == old(queue) + PostOrder(t)
    {
      if t.Node? {
        FillPostOrder(t.left);
        FillPostOrder(t.right);
        queue := queue + [t.key];
      }
    }

    /** fillQueuePreOrder */
    method FillPreOrder(t: SetTree)
      modifies this
      ensures queue == old(queue) + PreOrder(t)
    {
      if t.Node? {
        queue := queue + [t.key];
        FillPreOrder(t.left);
        FillPreOrder(t.right);
      }
    }

    function HasNext(): (b: bool)
      reads this
      ensures b <==> queue != []
    {
      |queue| > 0
    }

    /** next: the head of the queue; an exhausted iterator throws NoSuchElementException. */
    method Next() returns (r: Result<int>)
      modifies this
      ensures old(queue) == [] ==> r == Err(NoSuchElement) && queue == []
      ensures old(queue) != [] ==> r == Ok(old(queue)[0]) && queue == old(queue)[1..]
    {
      if queue == [] {
        return Err(NoSuchElement);
      }
      r := Ok(queue[0]);
      queue := queue[1..];
    }
  }

  class BstOrderedSet {
    var root: SetTree
    var numElements: int

    /** The elements the tree holds. */
    ghost function Elements(): set<int>
      reads this
    {
      Keys(root)
    }

    /** The invariant insertions keep: search-tree order and the count of nodes. */
    ghost predicate Valid()
      reads this
    {
      IsBst(root) && numElements == BinaryTrees.Size(root)
    }

    constructor ()
      ensures Valid() && Elements() == {}
    {
      root := Nil;
      numElements := 0;
    }

    /** insert: an absent element becomes a leaf and is counted; a present one changes nothing. */
    method Insert(x: int)
      modifies this
      ensures Elements() == old(Elements()) + {x}
      ensures old(Valid()) ==> Valid()
      ensures old(Valid()) && x in old(Elements()) ==> root == old(root) && numElements == old(numElements)
      ensures old(Valid()) && x !in old(Elements()) ==> numElements == old(numElements) + 1 && LeafAt(root, x)
    {
      var (r, added) := InsertAt(root, x);
      root := r;
      numElements := numElements + added;
    }

    /**
     * remove, as intended: a present element leaves the set and is uncounted
     * once; an absent element changes nothing. The code as written is
     * RemoveAsWritten.
     */
    method Remove(x: int)
      requires Valid()
      modifies this
      ensures Valid() && Elements() == old(Elements()) - {x}
      ensures numElements == old(numElements) - (if x in old(Elements()) then 1 else 0)
    {
      var r, dropped := RemoveIntendedFrom(root, x);
      root := r;
      numElements := numElements - dropped;
    }

    /** has: whether the recursive find meets the element. */
    function Has(x: int): (b: bool)
      reads this
      ensures b ==> x in Elements()
      ensures IsBst(root) ==> (b <==> x in Elements())
    {
      Find(root, x).Node?
    }

    function Size(): (n: int)
      reads this
      ensures Valid() ==> n == |Elements()|
    {
      SizeIsKeyCount(root);
      numElements
    }

    /** iterator: the elements in ascending order, each once. */
    method Iterator() returns (it: InorderIterator<(), ()>)
      ensures fresh(it) && it.Valid() && it.Remaining() == InorderKeys(root)
      ensures IsBst(root) ==> StrictlyIncreasing(it.Remaining())
    {
      it := new InorderIterator(root);
      if IsBst(root) {
        InorderAscending(root);
      }
    }

    /** postOrderIterator: left subtree, right subtree, then the node. */
    method PostOrderIterator() returns (it: TraversalIterator)
      ensures fresh(it) && it.queue == PostOrder(root)
    {
      it := new TraversalIterator();
      it.FillPostOrder(root);
    }

    /** preOrderIterator: the node, left subtree, then right subtree. */
    method PreOrderIterator() returns (it: TraversalIterator)
      ensures fresh(it) && it.queue == PreOrder(root)
    {
      it := new TraversalIterator();
      it.FillPreOrder(root);
    }
  }

  /** In a search tree every node holds a different element. */
  lemma {:induction false} SizeIsKeyCount(t: SetTree)
    ensures IsBst(t) ==> Size(t) == |Keys(t)|
  {
    match t
    case Nil =>
    case Node(l, key, _, _, r) =>
      SizeIsKeyCount(l);
      SizeIsKeyCount(r);
      if IsBst(t) {
        forall x | x in Keys(l) ensures x !in Keys(r) { }
        assert Keys(t) == Keys(l) + Keys(r) + {key};
      }
  }
}
