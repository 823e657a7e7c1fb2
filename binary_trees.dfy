/**
 * The binary search trees behind AvlTreeMap, TreapMap, BinarySearchTreeMap
 * and BstOrderedSet. Each of those classes keeps private nodes that only the
 * tree itself links to, so a tree is modelled as a value: a node holds a key,
 * a value and one extra field `aux` (the cached height of an AVL node, the
 * priority of a treap node, nothing for the plain trees). Keys are integers
 * ordered by `<`, which stands for `compareTo`.
 */
module BinaryTrees {
  import opened Outcomes

  datatype Tree<V, A> = Nil | Node(left: Tree<V, A>, key: int, value: V, aux: A, right: Tree<V, A>)

  /** The keys stored in `t`. */
  ghost function Keys<V, A>(t: Tree<V, A>): set<int>
  {
    match t
    case Nil => {}
    case Node(l, k, _, _, r) => Keys(l) + {k} + Keys(r)
  }

  /** Search-tree order: smaller keys to the left, larger keys to the right. */
  ghost predicate IsBst<V, A>(t: Tree<V, A>)
  {
    match t
    case Nil => true
    case Node(l, k, _, _, r) =>
      IsBst(l) && IsBst(r) &&
      (forall x :: x in Keys(l) ==> x < k) &&
      (forall x :: x in Keys(r) ==> k < x)
  }

  /** The map from keys to values that `t` represents. */
  ghost function Contents<V, A>(t: Tree<V, A>): (m: map<int, V>)
    ensures m.Keys == Keys(t)
  {
    match t
    case Nil => map[]
    case Node(l, k, v, _, r) => (Contents(l) + Contents(r))[k := v]
  }

  /** Height of a tree, -1 for the empty tree. */
  ghost function Height<V, A>(t: Tree<V, A>): int
  {
    match t
    case Nil => -1
    case Node(l, _, _, _, r) => 1 + Max(Height(l), Height(r))
  }

  /** The number of nodes. */
  ghost function Size<V, A>(t: Tree<V, A>): nat
  {
    match t
    case Nil => 0
    case Node(l, _, _, _, r) => Size(l) + 1 + Size(r)
  }

  /** The node holding `k`, if any, lacks a left or a right child. */
  ghost predicate OneChildAt<V, A>(t: Tree<V, A>, k: int)
  {
    match t
    case Nil => true
    case Node(l, key, _, _, r) =>
      if k == key then l.Nil? || r.Nil?
      else if k < key then OneChildAt(l, k)
      else OneChildAt(r, k)
  }

  /** The node holding `k`, if any, has no children. */
  ghost predicate LeafAt<V, A>(t: Tree<V, A>, k: int)
  {
    match t
    case Nil => true
    case Node(l, key, _, _, r) =>
      if k == key then l.Nil? && r.Nil?
      else if k < key then LeafAt(l, k)
      else LeafAt(r, k)
  }

  /** The keys of `t` in in-order, the order of the containers' iterators. */
  ghost function InorderKeys<V, A>(t: Tree<V, A>): (s: seq<int>)
    ensures forall x :: x in s <==> x in Keys(t)
  {
    match t
    case Nil => []
    case Node(l, k, _, _, r) => InorderKeys(l) + [k] + InorderKeys(r)
  }

  ghost predicate StrictlyIncreasing(s: seq<int>)
  {
    forall i, j :: 0 <= i < j < |s| ==> s[i] < s[j]
  }

  /** The in-order key sequence of a search tree is strictly increasing. */
  lemma {:induction false} InorderAscending<V, A>(t: Tree<V, A>)
    requires IsBst(t)
    ensures StrictlyIncreasing(InorderKeys(t))
  {
    match t
    case Nil =>
    case Node(l, k, _, _, r) =>
      InorderAscending(l);
      InorderAscending(r);
      var a, b := InorderKeys(l), InorderKeys(r);
      var s := a + [k] + b;
      forall i, j | 0 <= i < j < |s| ensures s[i] < s[j] {
        if j < |a| {
        } else if i < |a| {
          assert s[i] in Keys(l);
          if j > |a| { assert s[j] == b[j - |a| - 1]; assert s[j] in Keys(r); }
        } else if i == |a| {
          assert s[j] == b[j - |a| - 1];
          assert s[j] in Keys(r);
        } else {
          assert s[i] == b[i - |a| - 1] && s[j] == b[j - |a| - 1];
        }
      }
  }

  /** Updating a key of the left part of a node's map. */
  lemma UpdateBelowLeft<V>(ml: map<int, V>, mr: map<int, V>, k: int, v: V, key: int, value: V)
    requires k !in mr && k != key
    ensures (ml[k := v] + mr)[key := value] == (ml + mr)[key := value][k := v]
  {
  }

  /** Updating a key of the right part of a node's map. */
  lemma UpdateBelowRight<V>(ml: map<int, V>, mr: map<int, V>, k: int, v: V, key: int, value: V)
    requires k != key
    ensures (ml + mr[k := v])[key := value] == (ml + mr)[key := value][k := v]
  {
  }

  /** Removing a key of the left part of a node's map. */
  lemma RemoveBelowLeft<V>(ml: map<int, V>, mr: map<int, V>, k: int, key: int, value: V)
    requires k !in mr && k != key
    ensures ((ml - {k}) + mr)[key := value] == (ml + mr)[key := value] - {k}
  {
  }

  /** Removing a key of the right part of a node's map. */
  lemma RemoveBelowRight<V>(ml: map<int, V>, mr: map<int, V>, k: int, key: int, value: V)
    requires k !in ml && k != key
    ensures (ml + (mr - {k}))[key := value] == (ml + mr)[key := value] - {k}
  {
  }

  /** A node with one empty subtree is replaced by the other subtree. */
  lemma RemoveRoot<V>(ml: map<int, V>, mr: map<int, V>, key: int, value: V)
    requires key !in ml && key !in mr
    ensures (ml + mr)[key := value] - {key} == ml + mr
  {
  }

  /**
   * A node with two subtrees takes over the entry `m` of its left subtree
   * (its largest key), and `m` is removed from that subtree.
   */
  lemma ReplaceRootFromLeft<V>(ml: map<int, V>, mr: map<int, V>, m: int, key: int, value: V)
    requires m in ml && m !in mr && key !in ml && key !in mr
    ensures ((ml - {m}) + mr)[m := ml[m]] == (ml + mr)[key := value] - {key}
  {
  }

  /** The mirror image: the node takes over the entry `m` of its right subtree. */
  lemma ReplaceRootFromRight<V>(ml: map<int, V>, mr: map<int, V>, m: int, key: int, value: V)
    requires m in mr && m !in ml && key !in ml && key !in mr
    ensures (ml + (mr - {m}))[m := mr[m]] == (ml + mr)[key := value] - {key}
  {
  }

  /** A node whose left subtree gained the entry `k := v` gains it too. */
  lemma InsertedLeft<V, A>(t: Tree<V, A>, l': Tree<V, A>, k: int, v: V)
    requires t.Node? && IsBst(t) && k < t.key
    requires IsBst(l') && Keys(l') == Keys(t.left) + {k} && Contents(l') == Contents(t.left)[k := v]
    ensures IsBst(t.(left := l')) && Keys(t.(left := l')) == Keys(t) + {k}
    ensures Contents(t.(left := l')) == Contents(t)[k := v]
  {
    assert k !in Keys(t.right);
    UpdateBelowLeft(Contents(t.left), Contents(t.right), k, v, t.key, t.value);
  }

  /** A node whose right subtree gained the entry `k := v` gains it too. */
  lemma InsertedRight<V, A>(t: Tree<V, A>, rt': Tree<V, A>, k: int, v: V)
    requires t.Node? && IsBst(t) && t.key < k
    requires IsBst(rt') && Keys(rt') == Keys(t.right) + {k} && Contents(rt') == Contents(t.right)[k := v]
    ensures IsBst(t.(right := rt')) && Keys(t.(right := rt')) == Keys(t) + {k}
    ensures Contents(t.(right := rt')) == Contents(t)[k := v]
  {
    UpdateBelowRight(Contents(t.left), Contents(t.right), k, v, t.key, t.value);
  }

  /** A node whose left subtree lost the key `k` loses it too. */
  lemma RemovedLeft<V, A>(t: Tree<V, A>, l': Tree<V, A>, k: int)
    requires t.Node? && IsBst(t) && k < t.key
    requires IsBst(l') && Keys(l') == Keys(t.left) - {k} && Contents(l') == Contents(t.left) - {k}
    ensures IsBst(t.(left := l')) && Keys(t.(left := l')) == Keys(t) - {k}
    ensures Contents(t.(left := l')) == Contents(t) - {k}
  {
    assert k !in Keys(t.right);
    RemoveBelowLeft(Contents(t.left), Contents(t.right), k, t.key, t.value);
  }

  /** A node whose right subtree lost the key `k` loses it too. */
  lemma RemovedRight<V, A>(t: Tree<V, A>, rt': Tree<V, A>, k: int)
    requires t.Node? && IsBst(t) && t.key < k
    requires IsBst(rt') && Keys(rt') == Keys(t.right) - {k} && Contents(rt') == Contents(t.right) - {k}
    ensures IsBst(t.(right := rt')) && Keys(t.(right := rt')) == Keys(t) - {k}
    ensures Contents(t.(right := rt')) == Contents(t) - {k}
  {
    assert k !in Keys(t.left);
    RemoveBelowRight(Contents(t.left), Contents(t.right), k, t.key, t.value);
  }

  /** A node with an empty subtree is removed by putting its other subtree in its place. */
  lemma SplicedOut<V, A>(t: Tree<V, A>)
    requires t.Node? && IsBst(t)
    ensures t.right.Nil? ==> Keys(t.left) == Keys(t) - {t.key} && Contents(t.left) == Contents(t) - {t.key}
    ensures t.left.Nil? ==> Keys(t.right) == Keys(t) - {t.key} && Contents(t.right) == Contents(t) - {t.key}
  {
    assert t.key !in Keys(t.left) && t.key !in Keys(t.right);
    RemoveRoot(Contents(t.left), Contents(t.right), t.key, t.value);
  }

  /**
   * A node with two subtrees is removed by copying into it the entry of the
   * largest key `m` of its left subtree, which then loses `m`.
   */
  lemma ReplacedByPredecessor<V, A>(t: Tree<V, A>, l': Tree<V, A>, m: int)
    requires t.Node? && IsBst(t) && m in Keys(t.left) && forall x :: x in Keys(t.left) ==> x <= m
    requires IsBst(l') && Keys(l') == Keys(t.left) - {m} && Contents(l') == Contents(t.left) - {m}
    ensures IsBst(t.(left := l', key := m, value := Contents(t.left)[m]))
    ensures Keys(t.(left := l', key := m, value := Contents(t.left)[m])) == Keys(t) - {t.key}
    ensures Contents(t.(left := l', key := m, value := Contents(t.left)[m])) == Contents(t) - {t.key}
  {
    assert m < t.key;
    var n := t.(left := l', key := m, value := Contents(t.left)[m]);
    forall x | x in Keys(t.right) ensures m < x { }
    forall x | x in Keys(l') ensures x < m { }
    assert IsBst(n);
    PredecessorContents(t, l', m);
  }

  lemma PredecessorContents<V, A>(t: Tree<V, A>, l': Tree<V, A>, m: int)
    requires t.Node? && IsBst(t) && m in Keys(t.left)
    requires Contents(l') == Contents(t.left) - {m}
    ensures Contents(t.(left := l', key := m, value := Contents(t.left)[m])) == Contents(t) - {t.key}
  {
    assert m < t.key;
    assert m !in Keys(t.right) && t.key !in Keys(t.left) && t.key !in Keys(t.right);
    ReplaceRootFromLeft(Contents(t.left), Contents(t.right), m, t.key, t.value);
  }

  lemma ReplacedBySuccessor<V, A>(t: Tree<V, A>, rt': Tree<V, A>, m: int)
    requires t.Node? && IsBst(t) && m in Keys(t.right) && forall x :: x in Keys(t.right) ==> m <= x
    requires IsBst(rt') && Keys(rt') == Keys(t.right) - {m} && Contents(rt') == Contents(t.right) - {m}
    ensures IsBst(t.(right := rt', key := m, value := Contents(t.right)[m]))
    ensures Keys(t.(right := rt', key := m, value := Contents(t.right)[m])) == Keys(t) - {t.key}
    ensures Contents(t.(right := rt', key := m, value := Contents(t.right)[m])) == Contents(t) - {t.key}
  {
    assert t.key < m;
    var n := t.(right := rt', key := m, value := Contents(t.right)[m]);
    forall x | x in Keys(t.left) ensures x < m { }
    forall x | x in Keys(rt') ensures m < x { }
    assert IsBst(n);
    SuccessorContents(t, rt', m);
  }

  lemma SuccessorContents<V, A>(t: Tree<V, A>, rt': Tree<V, A>, m: int)
    requires t.Node? && IsBst(t) && m in Keys(t.right)
    requires Contents(rt') == Contents(t.right) - {m}
    ensures Contents(t.(right := rt', key := m, value := Contents(t.right)[m])) == Contents(t) - {t.key}
  {
    assert t.key < m;
    assert m !in Keys(t.left) && t.key !in Keys(t.left) && t.key !in Keys(t.right);
    ReplaceRootFromRight(Contents(t.left), Contents(t.right), m, t.key, t.value);
  }

  /** In a search tree, the value of a key is found by descending toward it. */
  lemma ContentsAt<V, A>(t: Tree<V, A>, x: int)
    requires IsBst(t) && t.Node?
    ensures x < t.key ==> (x in Contents(t) <==> x in Contents(t.left))
    ensures x < t.key && x in Contents(t.left) ==> Contents(t)[x] == Contents(t.left)[x]
    ensures t.key < x ==> (x in Contents(t) <==> x in Contents(t.right))
    ensures t.key < x && x in Contents(t.right) ==> Contents(t)[x] == Contents(t.right)[x]
  {
  }

  /**
   * A rotation regroups three subtrees and two keys without changing their
   * in-order sequence: `t` is `((A x B) y C)` and `r` is `(A x (B y C))`,
   * whatever the `aux` fields. Read right to left it is the other rotation.
   */
  lemma RotationKeepsOrder<V, A>(t: Tree<V, A>, r: Tree<V, A>)
    requires t.Node? && t.left.Node? && r.Node? && r.right.Node?
    requires r.left == t.left.left && r.key == t.left.key && r.value == t.left.value
    requires r.right.left == t.left.right && r.right.key == t.key && r.right.value == t.value
    requires r.right.right == t.right
    ensures InorderKeys(r) == InorderKeys(t) && Keys(r) == Keys(t)
    ensures IsBst(t) <==> IsBst(r)
    ensures IsBst(t) ==> Contents(r) == Contents(t)
  {
    if IsBst(t) {
      RotationKeepsBst(t, r);
      RotationKeepsContents(t, r);
    }
    if IsBst(r) {
      RotationBackKeepsBst(t, r);
    }
  }

  lemma RotationKeepsBst<V, A>(t: Tree<V, A>, r: Tree<V, A>)
    requires t.Node? && t.left.Node? && r.Node? && r.right.Node?
    requires r.left == t.left.left && r.key == t.left.key
    requires r.right.left == t.left.right && r.right.key == t.key && r.right.right == t.right
    requires IsBst(t)
    ensures IsBst(r)
  {
    var b, c := t.left.right, t.right;
    var x, y := t.left.key, t.key;
    assert x in Keys(t.left) && IsBst(t.left);
    forall z | z in Keys(b) ensures x < z < y { assert z in Keys(t.left); }
    forall z | z in Keys(c) ensures x < z { }
    assert IsBst(r.right);
  }

  lemma RotationBackKeepsBst<V, A>(t: Tree<V, A>, r: Tree<V, A>)
    requires t.Node? && t.left.Node? && r.Node? && r.right.Node?
    requires r.left == t.left.left && r.key == t.left.key
    requires r.right.left == t.left.right && r.right.key == t.key && r.right.right == t.right
    requires IsBst(r)
    ensures IsBst(t)
  {
    var a, b, c := t.left.left, t.left.right, t.right;
    var x, y := t.left.key, t.key;
    assert y in Keys(r.right) && IsBst(r.right) && IsBst(c);
    forall z | z in Keys(b) ensures x < z < y { assert z in Keys(r.right); }
    forall z | z in Keys(a) ensures z < y { }
    assert IsBst(t.left);
  }

  lemma RotationKeepsContents<V, A>(t: Tree<V, A>, r: Tree<V, A>)
    requires t.Node? && t.left.Node? && r.Node? && r.right.Node?
    requires r.left == t.left.left && r.key == t.left.key && r.value == t.left.value
    requires r.right.left == t.left.right && r.right.key == t.key && r.right.value == t.value
    requires r.right.right == t.right
    requires IsBst(t)
    ensures Contents(r) == Contents(t)
  {
    var a, b, c := t.left.left, t.left.right, t.right;
    var x, y := t.left.key, t.key;
    assert x in Keys(t.left);
    forall z | z in Keys(c) ensures x < z { }
    assert x !in Keys(c) && y !in Keys(a) && x != y;
    RotatedMaps(Contents(a), Contents(b), Contents(c), x, t.left.value, y, t.value);
  }

  lemma RotatedMaps<V>(ma: map<int, V>, mb: map<int, V>, mc: map<int, V>, x: int, vx: V, y: int, vy: V)
    requires x !in mc && y !in ma && x != y
    ensures ((ma + mb)[x := vx] + mc)[y := vy] == (ma + (mb + mc)[y := vy])[x := vx]
  {
  }

  /**
   * The search loop shared by the maps' private `find` methods: descend from
   * the root, left for a smaller key, right for a larger one; the empty tree
   * stands for the `null` the loop returns when the key is absent.
   */
  method FindNode<V, A>(root: Tree<V, A>, k: int) returns (n: Tree<V, A>)
    requires IsBst(root)
    ensures n.Nil? <==> k !in Keys(root)
    ensures n.Node? ==> n.key == k && Contents(root)[k] == n.value
  {
    n := root;
    while n.Node?
      invariant IsBst(n)
      invariant k in Keys(root) <==> k in Keys(n)
      invariant forall x :: x in Keys(n) ==> x in Contents(root) && Contents(root)[x] == Contents(n)[x]
      decreases n
    {
      ContentsAt(n, k);
      if k < n.key {
        n := n.left;
      } else if k > n.key {
        n := n.right;
      } else {
        return;
      }
    }
  }

  /** The node with the largest key: follow right children from `t`. */
  method RightmostNode<V, A>(t: Tree<V, A>) returns (n: Tree<V, A>)
    requires IsBst(t) && t.Node?
    ensures n.Node? && n.right.Nil? && n.key in Keys(t) && Contents(t)[n.key] == n.value
    ensures forall x :: x in Keys(t) ==> x <= n.key
  {
    n := t;
    while n.right.Node?
      invariant n.Node? && IsBst(n) && n.key in Keys(t)
      invariant forall x :: x in Keys(n) ==> x in Contents(t) && Contents(t)[x] == Contents(n)[x]
      invariant forall x :: x in Keys(t) && x !in Keys(n) ==> x < n.key
      decreases n
    {
      n := n.right;
    }
  }

  /** The node with the smallest key: follow left children from `t`. */
  method LeftmostNode<V, A>(t: Tree<V, A>) returns (n: Tree<V, A>)
    requires IsBst(t) && t.Node?
    ensures n.Node? && n.left.Nil? && n.key in Keys(t) && Contents(t)[n.key] == n.value
    ensures forall x :: x in Keys(t) ==> n.key <= x
  {
    n := t;
    while n.left.Node?
      invariant n.Node? && IsBst(n) && n.key in Keys(t)
      invariant forall x :: x in Keys(n) ==> x in Contents(t) && Contents(t)[x] == Contents(n)[x]
      invariant forall x :: x in Keys(t) && x !in Keys(n) ==> n.key < x
      decreases n
    {
      n := n.left;
    }
  }

  /** `put`: the node holding `k` gets value `v`; nothing else changes. */
  function SetValue<V, A>(t: Tree<V, A>, k: int, v: V): (r: Tree<V, A>)
    requires IsBst(t) && k in Keys(t)
    ensures IsBst(r) && Keys(r) == Keys(t) && Contents(r) == Contents(t)[k := v]
    ensures InorderKeys(r) == InorderKeys(t)
  {
    match t
    case Node(l, key, value, a, rt) =>
      if k < key then
        assert k !in Keys(rt);
        var l' := SetValue(l, k, v);
        UpdateBelowLeft(Contents(l), Contents(rt), k, v, key, value);
        Node(l', key, value, a, rt)
      else if key < k then
        assert k !in Keys(l);
        var rt' := SetValue(rt, k, v);
        UpdateBelowRight(Contents(l), Contents(rt), k, v, key, value);
        Node(l, key, value, a, rt')
      else Node(l, key, v, a, rt)
  }

  /**
   * put walks one path: below the root it descends into the side that holds
   * `k` and leaves the other side, the key and the annotation alone.
   */
  lemma SetValueStep<V, A>(t: Tree<V, A>, k: int, v: V)
    requires IsBst(t) && k in Keys(t)
    ensures SetValue(t, k, v).Node? && SetValue(t, k, v).key == t.key && SetValue(t, k, v).aux == t.aux
    ensures k < t.key ==> k in Keys(t.left) && SetValue(t, k, v).left == SetValue(t.left, k, v) && SetValue(t, k, v).right == t.right
    ensures t.key < k ==> k in Keys(t.right) && SetValue(t, k, v).right == SetValue(t.right, k, v) && SetValue(t, k, v).left == t.left
    ensures k == t.key ==> SetValue(t, k, v) == t.(value := v)
  {
    if k < t.key {
      assert k !in Keys(t.right);
    } else if t.key < k {
      assert k !in Keys(t.left);
    }
  }

  /**
   * The in-order iterator of the tree maps: a stack of nodes whose left
   * spines have been pushed. `next` pops a node and pushes the left spine of
   * its right child. The iterator walks a snapshot of the tree taken when it
   * is created.
   */
  class InorderIterator<V, A> {
    var stack: seq<Tree<V, A>>   // the top of the stack is the last element

    /** The keys still to be returned, in order. */
    ghost function Remaining(): seq<int>
      reads this
      requires Valid()
    {
      Pending(stack)
    }

    ghost predicate Valid()
      reads this
    {
      forall i :: 0 <= i < |stack| ==> stack[i].Node?
    }

    constructor (root: Tree<V, A>)
      ensures Valid() && Remaining() == InorderKeys(root)
    {
      stack := [];
      new;
      PushLeft(root);
    }

    method PushLeft(curr: Tree<V, A>)
      requires Valid()
      modifies this
      ensures Valid() && Remaining() == InorderKeys(curr) + old(Remaining())
    {
      var c := curr;
      while c.Node?
        invariant Valid()
        invariant InorderKeys(c) + Pending(stack) == InorderKeys(curr) + old(Remaining())
        decreases c
      {
        PushOne(c, stack);
        stack := stack + [c];
        c := c.left;
      }
    }

    function HasNext(): (b: bool)
      reads this
      requires Valid()
      ensures b <==> Remaining() != []
    {
      stack != []
    }

    /** Returns the next key in order; an empty stack throws EmptyStackException. */
    method Next() returns (r: Result<int>)
      requires Valid()
      modifies this
      ensures Valid()
      ensures old(Remaining()) == [] ==> r == Err(EmptyStack) && Remaining() == []
      ensures old(Remaining()) != [] ==> r == Ok(old(Remaining())[0]) && Remaining() == old(Remaining())[1..]
    {
      if stack == [] {
        return Err(EmptyStack);
      }
      var top := stack[|stack| - 1];
      stack := stack[..|stack| - 1];
      PushLeft(top.right);
      r := Ok(top.key);
    }
  }

  /** Pushing a node leaves the keys of its left subtree to come before everything the push added. */
  lemma PushOne<V, A>(c: Tree<V, A>, stack: seq<Tree<V, A>>)
    requires c.Node? && forall i :: 0 <= i < |stack| ==> stack[i].Node?
    ensures forall i :: 0 <= i < |stack + [c]| ==> (stack + [c])[i].Node?
    ensures InorderKeys(c.left) + Pending(stack + [c]) == InorderKeys(c) + Pending(stack)
  {
    assert (stack + [c])[..|stack|] == stack;
  }

  /** Keys still to come from a stack of nodes: each node, then its right subtree. */
  ghost function Pending<V, A>(stack: seq<Tree<V, A>>): seq<int>
    requires forall i :: 0 <= i < |stack| ==> stack[i].Node?
  {
    if stack == [] then []
    else
      var top := stack[|stack| - 1];
      [top.key] + InorderKeys(top.right) + Pending(stack[..|stack| - 1])
  }
}
