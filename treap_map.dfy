/**
 * TreapMap: an ordered map kept as a search tree on the keys and a
 * min-heap on an `int` priority stored in every node. The priority of a new
 * node is drawn from a random generator; here it is a parameter of Insert.
 */
module Treaps {
  import opened Outcomes
  import opened BinaryTrees

  /** A treap node's `aux` field is its priority. */
  type Treap<V> = Tree<V, int>

  ghost function Priorities<V>(t: Treap<V>): set<int>
  {
    match t
    case Nil => {}
    case Node(l, _, _, p, r) => Priorities(l) + {p} + Priorities(r)
  }

  ghost predicate AllAtLeast<V>(t: Treap<V>, p: int)
  {
    forall q :: q in Priorities(t) ==> p <= q
  }

  /** Min-heap order: no node has a smaller priority than its parent. */
  ghost predicate IsHeap<V>(t: Treap<V>)
  {
    match t
    case Nil => true
    case Node(l, _, _, p, r) => IsHeap(l) && IsHeap(r) && AllAtLeast(l, p) && AllAtLeast(r, p)
  }

  lemma HeapRootIsLeast<V>(t: Treap<V>)
    requires IsHeap(t) && t.Node?
    ensures AllAtLeast(t, t.aux)
  {
  }

  /** rightRotation: the left child becomes the root; priorities travel with their nodes. */
  function RightRotation<V>(t: Treap<V>): (r: Treap<V>)
    requires t.Node? && t.left.Node?
    ensures r.Node? && r.right.Node?
    ensures r.left == t.left.left && r.right.left == t.left.right && r.right.right == t.right
    ensures r.key == t.left.key && r.aux == t.left.aux && r.right.key == t.key && r.right.aux == t.aux
    ensures InorderKeys(r) == InorderKeys(t) && Keys(r) == Keys(t) && Priorities(r) == Priorities(t)
    ensures IsBst(t) ==> IsBst(r) && Contents(r) == Contents(t)
    ensures Size(r.right) < Size(t)
  {
    var leftChild := t.left;
    var r := leftChild.(right := t.(left := leftChild.right));
    RotationKeepsOrder(t, r);
    r
  }

  /** leftRotation: the mirror image of RightRotation. */
  function LeftRotation<V>(t: Treap<V>): (r: Treap<V>)
    requires t.Node? && t.right.Node?
    ensures r.Node? && r.left.Node?
    ensures r.right == t.right.right && r.left.right == t.right.left && r.left.left == t.left
    ensures r.key == t.right.key && r.aux == t.right.aux && r.left.key == t.key && r.left.aux == t.aux
    ensures InorderKeys(r) == InorderKeys(t) && Keys(r) == Keys(t) && Priorities(r) == Priorities(t)
    ensures IsBst(t) ==> IsBst(r) && Contents(r) == Contents(t)
    ensures Size(r.left) < Size(t)
  {
    var rightChild := t.right;
    var r := rightChild.(left := t.(right := rightChild.left));
    RotationKeepsOrder(r, t);
    r
  }

  /** A right child with a strictly smaller priority is rotated above its parent. */
  function LiftRight<V>(n: Treap<V>): (r: Treap<V>)
    requires n.Node? && n.right.Node?
    ensures r.Node? && Keys(r) == Keys(n) && Priorities(r) == Priorities(n)
    ensures IsBst(n) ==> IsBst(r) && Contents(r) == Contents(n)
    ensures n.right.aux < n.aux ==> r == LeftRotation(n)
    ensures n.aux <= n.right.aux ==> r == n
  {
    if n.right.aux < n.aux then LeftRotation(n) else n
  }

  /** A left child with a strictly smaller priority is rotated above its parent. */
  function LiftLeft<V>(n: Treap<V>): (r: Treap<V>)
    requires n.Node? && n.left.Node?
    ensures r.Node? && Keys(r) == Keys(n) && Priorities(r) == Priorities(n)
    ensures IsBst(n) ==> IsBst(r) && Contents(r) == Contents(n)
    ensures n.left.aux < n.aux ==> r == RightRotation(n)
    ensures n.aux <= n.left.aux ==> r == n
  {
    if n.left.aux < n.aux then RightRotation(n) else n
  }

  /**
   * The recursive insert: the new node with priority `p` goes where a
   * search for `k` falls off the tree, and on the way back up every parent
   * whose child now has a strictly smaller priority is rotated down. A key
   * already present throws (None) before anything changes.
   */
  function InsertAt<V>(t: Treap<V>, k: int, v: V, p: int): (r: Option<Treap<V>>)
    requires IsBst(t)
    ensures r.None? <==> k in Keys(t)
    ensures r.Some? ==> r.value.Node? && IsBst(r.value)
    ensures r.Some? ==> Keys(r.value) == Keys(t) + {k} && Contents(r.value) == Contents(t)[k := v]
    ensures r.Some? ==> Priorities(r.value) == Priorities(t) + {p}
  {
    match t
    case Nil => Some(Node(Nil, k, v, p, Nil))
    case Node(l, key, value, q, rt) =>
      if key < k then
        assert k !in Keys(l);
        match InsertAt(rt, k, v, p)
        case None => None
        case Some(rt') =>
          InsertedRightWith(t, rt', k, v, p);
          Some(LiftRight(t.(right := rt')))
      else if key > k then
        assert k !in Keys(rt);
        match InsertAt(l, k, v, p)
        case None => None
        case Some(l') =>
          InsertedLeftWith(t, l', k, v, p);
          Some(LiftLeft(t.(left := l')))
      else
        None
  }

  /** InsertedRight, with the new priority `p` joining the priorities. */
  lemma InsertedRightWith<V>(t: Treap<V>, rt': Treap<V>, k: int, v: V, p: int)
    requires t.Node? && IsBst(t) && t.key < k
    requires IsBst(rt') && Keys(rt') == Keys(t.right) + {k} && Contents(rt') == Contents(t.right)[k := v]
    requires Priorities(rt') == Priorities(t.right) + {p}
    ensures IsBst(t.(right := rt')) && Keys(t.(right := rt')) == Keys(t) + {k}
    ensures Contents(t.(right := rt')) == Contents(t)[k := v]
    ensures Priorities(t.(right := rt')) == Priorities(t) + {p}
  {
    InsertedRight(t, rt', k, v);
  }

  /** InsertedLeft, with the new priority `p` joining the priorities. */
  lemma InsertedLeftWith<V>(t: Treap<V>, l': Treap<V>, k: int, v: V, p: int)
    requires t.Node? && IsBst(t) && k < t.key
    requires IsBst(l') && Keys(l') == Keys(t.left) + {k} && Contents(l') == Contents(t.left)[k := v]
    requires Priorities(l') == Priorities(t.left) + {p}
    ensures IsBst(t.(left := l')) && Keys(t.(left := l')) == Keys(t) + {k}
    ensures Contents(t.(left := l')) == Contents(t)[k := v]
    ensures Priorities(t.(left := l')) == Priorities(t) + {p}
  {
    InsertedLeft(t, l', k, v);
  }

  /**
   * What insertion promises about the root of the subtree it returns: it is
   * either the old root, or the new node with priority `p` sitting above
   * exactly the old nodes.
   */
  ghost predicate RootAfterInsert<V>(t: Treap<V>, r: Treap<V>, k: int, p: int)
  {
    r.Node? &&
    ((t.Node? && r.aux == t.aux) ||
     (r.key == k && r.aux == p && Priorities(r.left) + Priorities(r.right) == Priorities(t)))
  }

  /** One level of insertion into the right subtree keeps the heap order. */
  lemma LiftRightKeepsHeap<V>(t: Treap<V>, rt': Treap<V>, k: int, p: int)
    requires t.Node? && IsHeap(t) && IsHeap(rt') && RootAfterInsert(t.right, rt', k, p)
    requires Priorities(rt') == Priorities(t.right) + {p}
    ensures IsHeap(LiftRight(t.(right := rt'))) && RootAfterInsert(t, LiftRight(t.(right := rt')), k, p)
  {
    HeapRootIsLeast(rt');
    if rt'.aux < t.aux {
      var lower := Node(t.left, t.key, t.value, t.aux, rt'.left);
      assert IsHeap(lower);
      assert AllAtLeast(lower, p);
    }
  }

  /** One level of insertion into the left subtree keeps the heap order. */
  lemma LiftLeftKeepsHeap<V>(t: Treap<V>, l': Treap<V>, k: int, p: int)
    requires t.Node? && IsHeap(t) && IsHeap(l') && RootAfterInsert(t.left, l', k, p)
    requires Priorities(l') == Priorities(t.left) + {p}
    ensures IsHeap(LiftLeft(t.(left := l'))) && RootAfterInsert(t, LiftLeft(t.(left := l')), k, p)
  {
    HeapRootIsLeast(l');
    if l'.aux < t.aux {
      var lower := Node(l'.right, t.key, t.value, t.aux, t.right);
      assert IsHeap(lower);
      assert AllAtLeast(lower, p);
    }
  }

  /** Insertion into a heap-ordered treap, with any priority, keeps it heap-ordered. */
  lemma {:induction false} InsertKeepsHeap<V>(t: Treap<V>, k: int, v: V, p: int)
    requires IsBst(t) && k !in Keys(t) && IsHeap(t)
    ensures IsHeap(InsertAt(t, k, v, p).value) && RootAfterInsert(t, InsertAt(t, k, v, p).value, k, p)
  {
    match t
    case Nil =>
    case Node(l, key, _, _, rt) =>
      if key < k {
        assert k !in Keys(l);
        InsertKeepsHeap(rt, k, v, p);
        LiftRightKeepsHeap(t, InsertAt(rt, k, v, p).value, k, p);
      } else {
        assert k !in Keys(rt);
        InsertKeepsHeap(l, k, v, p);
        LiftLeftKeepsHeap(t, InsertAt(l, k, v, p).value, k, p);
      }
  }

  /**
   * remove(node): a node with at most one child is replaced by that child;
   * otherwise the child with the strictly smaller priority (the right one
   * on a tie) is rotated above it and the removal continues one level down.
   */
  function RemoveNode<V>(t: Treap<V>): (r: Treap<V>)
    requires t.Node? && IsBst(t)
    ensures IsBst(r) && Keys(r) == Keys(t) - {t.key} && Contents(r) == Contents(t) - {t.key}
    ensures Priorities(r) <= Priorities(t.left) + Priorities(t.right)
    decreases Size(t)
  {
    if t.left.Nil? then
      SplicedOut(t);
      t.right
    else if t.right.Nil? then
      SplicedOut(t);
      t.left
    else if t.left.aux < t.right.aux then
      var n := RightRotation(t);
      var below := RemoveNode(n.right);
      RemovedRight(n, below, t.key);
      n.(right := below)
    else
      var n := LeftRotation(t);
      var below := RemoveNode(n.left);
      RemovedLeft(n, below, t.key);
      n.(left := below)
  }

  /** The sink step that lifts the left child: the node left above the rest is a heap. */
  lemma SinkRightStepKeepsHeap<V>(t: Treap<V>, n: Treap<V>, below: Treap<V>)
    requires t.Node? && t.left.Node? && t.right.Node? && t.left.aux < t.right.aux
    requires n == RightRotation(t) && n.Node?
    requires IsHeap(t.left) && IsHeap(t.right)
    requires IsHeap(below) && Priorities(below) <= Priorities(t.left.right) + Priorities(t.right)
    ensures IsHeap(n.(right := below))
  {
    HeapRootIsLeast(t.right);
    assert AllAtLeast(below, t.left.aux);
  }

  /** The sink step that lifts the right child: the node left above the rest is a heap. */
  lemma SinkLeftStepKeepsHeap<V>(t: Treap<V>, n: Treap<V>, below: Treap<V>)
    requires t.Node? && t.left.Node? && t.right.Node? && t.right.aux <= t.left.aux
    requires n == LeftRotation(t) && n.Node?
    requires IsHeap(t.left) && IsHeap(t.right)
    requires IsHeap(below) && Priorities(below) <= Priorities(t.left) + Priorities(t.right.left)
    ensures IsHeap(n.(left := below))
  {
    HeapRootIsLeast(t.left);
    assert AllAtLeast(below, t.right.aux);
  }

  /** Sinking out a node whose two subtrees are heaps leaves a heap. */
  lemma {:induction false} RemoveNodeKeepsHeap<V>(t: Treap<V>)
    requires t.Node? && IsBst(t) && IsHeap(t.left) && IsHeap(t.right)
    ensures IsHeap(RemoveNode(t))
    decreases Size(t)
  {
    if t.left.Node? && t.right.Node? {
      if t.left.aux < t.right.aux {
        var n := RightRotation(t);
        RemoveNodeKeepsHeap(n.right);
        SinkRightStepKeepsHeap(t, n, RemoveNode(n.right));
      } else {
        var n := LeftRotation(t);
        RemoveNodeKeepsHeap(n.left);
        SinkLeftStepKeepsHeap(t, n, RemoveNode(n.left));
      }
    }
  }

  /** The sink compares only the priorities of the target's children, never its own. */
  lemma {:induction false} RemoveNodeIgnoresOwnPriority<V>(t: Treap<V>, x: int)
    requires t.Node? && IsBst(t)
    ensures IsBst(t.(aux := x)) && RemoveNode(t.(aux := x)) == RemoveNode(t)
    decreases Size(t)
  {
    var u := t.(aux := x);
    assert Keys(u) == Keys(t);
    if t.left.Node? && t.right.Node? {
      if t.left.aux < t.right.aux {
        var n := RightRotation(t);
        RemoveNodeIgnoresOwnPriority(n.right, x);
        assert RightRotation(u) == n.(right := n.right.(aux := x));
      } else {
        var n := LeftRotation(t);
        RemoveNodeIgnoresOwnPriority(n.left, x);
        assert LeftRotation(u) == n.(left := n.left.(aux := x));
      }
    }
  }

  /** remove(subtreeRoot, toRemove): descend by key to the target, then sink it out. */
  function RemoveAt<V>(t: Treap<V>, k: int): (r: Treap<V>)
    requires IsBst(t) && k in Keys(t)
    ensures IsBst(r) && Keys(r) == Keys(t) - {k} && Contents(r) == Contents(t) - {k}
    ensures Priorities(r) <= Priorities(t)
  {
    match t
    case Node(l, key, _, _, rt) =>
      if key > k then
        assert k !in Keys(rt);
        var l' := RemoveAt(l, k);
        RemovedLeft(t, l', k);
        t.(left := l')
      else if key < k then
        assert k !in Keys(l);
        var rt' := RemoveAt(rt, k);
        RemovedRight(t, rt', k);
        t.(right := rt')
      else
        RemoveNode(t)
  }

  lemma {:induction false} RemoveAtKeepsHeap<V>(t: Treap<V>, k: int)
    requires IsBst(t) && k in Keys(t) && IsHeap(t)
    ensures IsHeap(RemoveAt(t, k))
  {
    match t
    case Node(l, key, _, _, rt) =>
      if key > k {
        assert k !in Keys(rt);
        RemoveAtKeepsHeap(l, k);
      } else if key < k {
        assert k !in Keys(l);
        RemoveAtKeepsHeap(rt, k);
      } else {
        RemoveNodeKeepsHeap(t);
      }
  }

  /** The `node.priority = Integer.MAX_VALUE` write of remove, on the node holding `k`. */
  function SetPriority<V>(t: Treap<V>, k: int, p: int): (r: Treap<V>)
    requires IsBst(t) && k in Keys(t)
    ensures IsBst(r) && Keys(r) == Keys(t) && Contents(r) == Contents(t)
    ensures InorderKeys(r) == InorderKeys(t)
  {
    match t
    case Node(l, key, value, q, rt) =>
      if k < key then
        assert k !in Keys(rt);
        Node(SetPriority(l, k, p), key, value, q, rt)
      else if key < k then
        assert k !in Keys(l);
        Node(l, key, value, q, SetPriority(rt, k, p))
      else
        Node(l, key, value, p, rt)
  }

  /** Overwriting the target's priority before removing it changes nothing in the result. */
  lemma {:induction false} RemoveAtIgnoresTargetPriority<V>(t: Treap<V>, k: int, p: int)
    requires IsBst(t) && k in Keys(t)
    ensures RemoveAt(SetPriority(t, k, p), k) == RemoveAt(t, k)
  {
    match t
    case Node(l, key, value, q, rt) =>
      var s := SetPriority(t, k, p);
      if k < key {
        assert k !in Keys(rt);
        RemoveAtIgnoresTargetPriority(l, k, p);
        assert s == Node(SetPriority(l, k, p), key, value, q, rt);
        assert RemoveAt(s, k) == Node(RemoveAt(SetPriority(l, k, p), k), key, value, q, rt);
      } else if key < k {
        assert k !in Keys(l);
        RemoveAtIgnoresTargetPriority(rt, k, p);
        assert s == Node(l, key, value, q, SetPriority(rt, k, p));
        assert RemoveAt(s, k) == Node(l, key, value, q, RemoveAt(SetPriority(rt, k, p), k));
      } else {
        RemoveNodeIgnoresOwnPriority(t, p);
        assert s == t.(aux := p);
      }
  }

  /** put changes no priority. */
  lemma {:induction false} SetValueKeepsPriorities<V>(t: Treap<V>, k: int, v: V)
    requires IsBst(t) && k in Keys(t)
    ensures Priorities(SetValue(t, k, v)) == Priorities(t)
  {
    SetValueStep(t, k, v);
    if k < t.key {
      SetValueKeepsPriorities(t.left, k, v);
      SamePriorities(SetValue(t, k, v), t);
    } else if t.key < k {
      SetValueKeepsPriorities(t.right, k, v);
      SamePriorities(SetValue(t, k, v), t);
    }
  }

  /** Two nodes with the same priority whose children carry the same priorities carry the same priorities. */
  lemma SamePriorities<V>(s: Treap<V>, t: Treap<V>)
    requires s.Node? && t.Node? && s.aux == t.aux
    requires Priorities(s.left) == Priorities(t.left) && Priorities(s.right) == Priorities(t.right)
    ensures Priorities(s) == Priorities(t)
  {
  }

  /** ... so the heap order survives it. */
  lemma {:induction false} SetValueKeepsHeap<V>(t: Treap<V>, k: int, v: V)
    requires IsBst(t) && k in Keys(t) && IsHeap(t)
    ensures IsHeap(SetValue(t, k, v))
  {
    match t
    case Node(l, key, _, q, rt) =>
      var r := SetValue(t, k, v);
      if k < key {
        assert k !in Keys(rt);
        SetValueKeepsHeap(l, k, v);
        SetValueKeepsPriorities(l, k, v);
        assert r.left == SetValue(l, k, v) && r.right == rt && r.aux == q;
      } else if key < k {
        assert k !in Keys(l);
        SetValueKeepsHeap(rt, k, v);
        SetValueKeepsPriorities(rt, k, v);
        assert r.right == SetValue(rt, k, v) && r.left == l && r.aux == q;
      }
  }

  /** put on the tree: the value of `k` is replaced, and the tree stays a search tree and a heap. */
  function PutAt<V>(t: Treap<V>, k: int, v: V): (r: Treap<V>)
    requires IsBst(t) && IsHeap(t) && k in Keys(t)
    ensures IsBst(r) && IsHeap(r) && Keys(r) == Keys(t) && Contents(r) == Contents(t)[k := v]
  {
    SetValueKeepsHeap(t, k, v);
    SetValue(t, k, v)
  }

  class TreapMap<V> {
    var root: Treap<V>
    var size: int

    /** Search-tree order on keys, heap order on priorities, and `size` counting the keys. */
    ghost predicate Valid()
      reads this
    {
      IsBst(root) && IsHeap(root) && size == |Keys(root)|
    }

    /** The map the treap represents. */
    ghost function Contents(): map<int, V>
      reads this
    {
      BinaryTrees.Contents(root)
    }

    constructor ()
      ensures Valid() && Contents() == map[]
    {
      root := Nil;
      size := 0;
    }

    /**
     * insert with the priority `p` the generator would draw: a null key or a
     * key already present throws IllegalArgumentException and leaves the
     * map unchanged; otherwise the entry is added and the size grows by one.
     */
    method Insert(k: Option<int>, v: V, p: int) returns (r: Result<()>)
      requires Valid()
      modifies this
      ensures Valid()
      ensures (k.None? || k.value in old(Contents())) ==>
        r == Err(IllegalArgument) && root == old(root) && size == old(size)
      ensures k.Some? && k.value !in old(Contents()) ==>
        r == Ok(()) && Contents() == old(Contents())[k.value := v] && size == old(size) + 1
    {
      if k.None? {
        return Err(IllegalArgument);
      }
      var inserted := InsertAt(root, k.value, v, p);
      if inserted.None? {
        return Err(IllegalArgument);
      }
      InsertKeepsHeap(root, k.value, v, p);
      root := inserted.value;
      size := size + 1;
      r := Ok(());
    }

    /**
     * remove: a null or absent key throws before the priority is touched;
     * otherwise the node's priority is set to Integer.MAX_VALUE, its value is
     * returned, the node sinks out, and the size shrinks by one.
     */
    method Remove(k: Option<int>) returns (r: Result<V>)
      requires Valid()
      modifies this
      ensures Valid()
      ensures (k.None? || k.value !in old(Contents())) ==>
        r == Err(IllegalArgument) && root == old(root) && size == old(size)
      ensures k.Some? && k.value in old(Contents()) ==>
        r == Ok(old(Contents())[k.value]) && Contents() == old(Contents()) - {k.value} && size == old(size) - 1
    {
      var n := FindForSure(k);
      if n.Err? {
        return Err(n.error);
      }
      RemoveAtIgnoresTargetPriority(root, k.value, INT_MAX);
      RemoveAtKeepsHeap(root, k.value);
      root := SetPriority(root, k.value, INT_MAX);
      var value := n.value.value;
      root := RemoveAt(root, k.value);
      size := size - 1;
      r := Ok(value);
    }

    /** put: the value of a present key is replaced; a null or absent key throws. */
    method Put(k: Option<int>, v: V) returns (r: Result<()>)
      requires Valid()
      modifies this
      ensures Valid()
      ensures (k.None? || k.value !in old(Contents())) ==> r == Err(IllegalArgument) && root == old(root)
      ensures k.Some? && k.value in old(Contents()) ==>
        r == Ok(()) && Contents() == old(Contents())[k.value := v] && size == old(size)
    {
      var n := FindForSure(k);
      if n.Err? {
        return Err(n.error);
      }
      Replace(k.value, v);
      r := Ok(());
    }

    /** The successful put: the value of the present key `k` becomes `v`. */
    method Replace(k: int, v: V)
      requires Valid() && k in Contents()
      modifies this
      ensures Valid() && Contents() == old(Contents())[k := v] && size == old(size)
    {
      root := PutAt(root, k, v);
    }

    /** get: the value of a present key; a null or absent key throws. */
    method Get(k: Option<int>) returns (r: Result<V>)
      requires Valid()
      ensures (k.None? || k.value !in Contents()) ==> r == Err(IllegalArgument)
      ensures k.Some? && k.value in Contents() ==> r == Ok(Contents()[k.value])
    {
      var n := FindForSure(k);
      if n.Err? {
        return Err(n.error);
      }
      r := Ok(n.value.value);
    }

    /** has: false for null, else whether the key is present. */
    method Has(k: Option<int>) returns (b: bool)
      requires Valid()
      ensures b <==> k.Some? && k.value in Contents()
    {
      if k.None? {
        return false;
      }
      var n := Find(k);
      b := n.Ok? && n.value.Node?;
    }

    function Size(): (n: int)
      reads this
      requires Valid()
      ensures n == |Contents()|
    {
      size
    }

    /** find: null throws; otherwise the node holding the key, or the empty tree when it is absent. */
    method Find(k: Option<int>) returns (r: Result<Treap<V>>)
      requires Valid()
      ensures k.None? ==> r == Err(IllegalArgument)
      ensures k.Some? ==> r.Ok? && (r.value.Nil? <==> k.value !in Contents())
      ensures k.Some? && r.value.Node? ==> r.value.key == k.value && r.value.value == Contents()[k.value]
    {
      if k.None? {
        return Err(IllegalArgument);
      }
      var n := FindNode(root, k.value);
      r := Ok(n);
    }

    /** findForSure: as find, and an absent key throws too. */
    method FindForSure(k: Option<int>) returns (r: Result<Treap<V>>)
      requires Valid()
      ensures (k.None? || k.value !in Contents()) ==> r == Err(IllegalArgument)
      ensures k.Some? && k.value in Contents() ==>
        r.Ok? && r.value.Node? && r.value.key == k.value && r.value.value == Contents()[k.value]
    {
      r := Find(k);
      if r.Ok? && r.value.Nil? {
        r := Err(IllegalArgument);
      }
    }

    /** iterator: the keys in ascending order, each once, whatever the priorities. */
    method Iterator() returns (it: InorderIterator<V, int>)
      requires Valid()
      ensures fresh(it) && it.Valid() && it.Remaining() == InorderKeys(root)
      ensures StrictlyIncreasing(it.Remaining())
      ensures forall x :: x in it.Remaining() <==> x in Contents()
    {
      it := new InorderIterator(root);
      InorderAscending(root);
    }
  }
}
