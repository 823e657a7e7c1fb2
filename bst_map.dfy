/**
 * BinarySearchTreeMap: an ordered map kept as an unbalanced binary search
 * tree. The tree's structure is always right. As written, the removal of a
 * key whose node has two children returns the successor's value and
 * shrinks `size` by two (RemoveFrom, RemoveAsWritten); the corrected
 * removal (RemoveEntry, Remove) returns the key's own value and shrinks
 * `size` by one.
 */
module BstMaps {
  import opened Outcomes
  import opened BinaryTrees

  type BstTree<V> = Tree<V, ()>

  /** The smallest key of `t` above `k`, if there is one. */
  ghost function NextKey<V>(t: BstTree<V>, k: int): (m: Option<int>)
    requires IsBst(t)
    ensures m.Some? ==> m.value in Keys(t) && k < m.value
    ensures m.Some? ==> forall x :: x in Keys(t) && k < x ==> m.value <= x
    ensures m.None? ==> forall x :: x in Keys(t) ==> x <= k
  {
    match t
    case Nil => None
    case Node(l, key, _, _, r) =>
      if k < key then
        match NextKey(l, k)
        case None => Some(key)
        case Some(m) => Some(m)
      else
        NextKey(r, k)
  }

  /**
   * The recursive insert: the new pair becomes a leaf where a search for
   * `k` falls off the tree; a key already present throws (None) and changes
   * nothing.
   */
  function InsertAt<V>(t: BstTree<V>, k: int, v: V): (r: Option<BstTree<V>>)
    requires IsBst(t)
    ensures r.None? <==> k in Keys(t)
    ensures r.Some? ==> IsBst(r.value) && Keys(r.value) == Keys(t) + {k} && Contents(r.value) == Contents(t)[k := v]
    ensures r.Some? ==> Size(r.value) == Size(t) + 1 && LeafAt(r.value, k)
  {
    match t
    case Nil => Some(Node(Nil, k, v, (), Nil))
    case Node(l, key, value, _, rt) =>
      if k > key then
        assert k !in Keys(l);
        match InsertAt(rt, k, v)
        case None => None
        case Some(rt') =>
          InsertedRight(t, rt', k, v);
          Some(t.(right := rt'))
      else if k < key then
        assert k !in Keys(rt);
        match InsertAt(l, k, v)
        case None => None
        case Some(l') =>
          InsertedLeft(t, l', k, v);
          Some(t.(left := l'))
      else
        None
  }

  /**
   * The recursive remove, returning the new subtree, how many times it
   * decremented `size`, and the value the node first holding `k` holds
   * when it returns. A node with at most one child is spliced out; a node
   * with two children takes over its successor's key and value, and the
   * successor is then removed from the right subtree (a second decrement).
   */
  method RemoveFrom<V>(t: BstTree<V>, k: int) returns (r: BstTree<V>, dropped: nat, held: Option<V>)
    requires IsBst(t)
    ensures IsBst(r) && Keys(r) == Keys(t) - {k} && Contents(r) == Contents(t) - {k}
    ensures k !in Keys(t) ==> r == t && dropped == 0 && held.None?
    ensures k in Keys(t) && OneChildAt(t, k) ==> dropped == 1 && held == Some(Contents(t)[k])
    ensures k in Keys(t) && !OneChildAt(t, k) ==>
      dropped == 2 && NextKey(t, k).Some? && held == Some(Contents(t)[NextKey(t, k).value])
    decreases t
  {
    if t.Nil? {
      return t, 0, None;
    }
    if t.key == k {
      if t.left.Nil? {
        SplicedOut(t);
        return t.right, 1, Some(t.value);
      } else if t.right.Nil? {
        SplicedOut(t);
        return t.left, 1, Some(t.value);
      }
      var small := LeftmostNode(t.right);
      MinimumHasOneChild(t.right, small.key);
      var rt', d, _ := RemoveFrom(t.right, small.key);
      ReplacedBySuccessor(t, rt', small.key);
      r := t.(right := rt', key := small.key, value := small.value);
      dropped := d + 1;
      held := Some(small.value);
      NextKeyAtNode(t);
      assert small.key == NextKey(t, k).value;
      ContentsAt(t, small.key);
    } else if t.key > k {
      assert k !in Keys(t.right);
      var l', d, h := RemoveFrom(t.left, k);
      RemovedLeft(t, l', k);
      r, dropped, held := t.(left := l'), d, h;
      NextKeyLeft(t, k);
      ContentsAt(t, k);
      if NextKey(t.left, k).Some? {
        ContentsAt(t, NextKey(t.left, k).value);
      }
    } else {
      assert k !in Keys(t.left);
      var rt', d, h := RemoveFrom(t.right, k);
      RemovedRight(t, rt', k);
      r, dropped, held := t.(right := rt'), d, h;
      ContentsAt(t, k);
      if NextKey(t.right, k).Some? {
        ContentsAt(t, NextKey(t.right, k).value);
      }
    }
  }

  /**
   * The recursive remove as intended: as RemoveFrom, but a two-child node
   * leaves the one decrement to the removal of its successor below, so
   * `size` drops by exactly one for a present key.
   */
  method RemoveEntry<V>(t: BstTree<V>, k: int) returns (r: BstTree<V>, dropped: nat)
    requires IsBst(t)
    ensures IsBst(r) && Keys(r) == Keys(t) - {k} && Contents(r) == Contents(t) - {k}
    ensures dropped == if k in Keys(t) then 1 else 0
    decreases t
  {
    if t.Nil? {
      return t, 0;
    }
    if t.key == k {
      if t.left.Nil? || t.right.Nil? {
        SplicedOut(t);
        return if t.left.Nil? then t.right else t.left, 1;
      }
      var small := LeftmostNode(t.right);
      var rt', d := RemoveEntry(t.right, small.key);
      ReplacedBySuccessor(t, rt', small.key);
      r, dropped := t.(right := rt', key := small.key, value := small.value), d;
    } else if t.key > k {
      assert k !in Keys(t.right);
      var l', d := RemoveEntry(t.left, k);
      RemovedLeft(t, l', k);
      r, dropped := t.(left := l'), d;
    } else {
      assert k !in Keys(t.left);
      var rt', d := RemoveEntry(t.right, k);
      RemovedRight(t, rt', k);
      r, dropped := t.(right := rt'), d;
    }
  }

  /** The node holding the smallest key has no left child. */
  lemma {:induction false} MinimumHasOneChild<V>(t: BstTree<V>, m: int)
    requires IsBst(t) && m in Keys(t) && forall x :: x in Keys(t) ==> m <= x
    ensures OneChildAt(t, m)
  {
    match t
    case Node(l, key, _, _, _) =>
      if m != key {
        assert key in Keys(t);
        MinimumHasOneChild(l, m);
      }
  }

  /** The successor of a node's own key is the smallest key of its right subtree. */
  lemma NextKeyAtNode<V>(t: BstTree<V>)
    requires t.Node? && IsBst(t) && t.right.Node?
    ensures NextKey(t, t.key) == NextKey(t.right, t.key)
    ensures NextKey(t.right, t.key).Some?
    ensures forall x :: x in Keys(t.right) ==> NextKey(t.right, t.key).value <= x
  {
    assert t.right.key in Keys(t.right);
  }

  /** Below a larger key, the successor found in the left subtree is the successor in the whole tree. */
  lemma NextKeyLeft<V>(t: BstTree<V>, k: int)
    requires t.Node? && IsBst(t) && k < t.key
    ensures NextKey(t.left, k).Some? ==> NextKey(t, k) == NextKey(t.left, k)
  {
  }

  class BinarySearchTreeMap<V> {
    var root: BstTree<V>
    var size: int

    ghost predicate Valid()
      reads this
    {
      IsBst(root)
    }

    /**
     * `size` counts the keys. Insertion and removals of nodes with at most
     * one child keep this; a two-child removal breaks it.
     */
    ghost predicate SizeExact()
      reads this
    {
      size == |Keys(root)|
    }

    /** The map the tree represents. */
    ghost function Contents(): map<int, V>
      reads this
    {
      BinaryTrees.Contents(root)
    }

    constructor ()
      ensures Valid() && SizeExact() && Contents() == map[]
    {
      root := Nil;
      size := 0;
    }

    /**
     * insert: a null key or a key already present throws
     * IllegalArgumentException and leaves the map unchanged; otherwise the
     * entry is added as a leaf and the size grows by one.
     */
    method Insert(k: Option<int>, v: V) returns (r: Result<()>)
      requires Valid()
      modifies this
      ensures Valid()
      ensures (k.None? || k.value in old(Contents())) ==>
        r == Err(IllegalArgument) && root == old(root) && size == old(size)
      ensures k.Some? && k.value !in old(Contents()) ==>
        r == Ok(()) && Contents() == old(Contents())[k.value := v] && size == old(size) + 1
      ensures old(SizeExact()) ==> SizeExact()
    {
      if k.None? {
        return Err(IllegalArgument);
      }
      var inserted := InsertAt(root, k.value, v);
      if inserted.None? {
        return Err(IllegalArgument);
      }
      root := inserted.value;
      size := size + 1;
      r := Ok(());
    }

    /**
     * remove as written: a null or absent key throws
     * IllegalArgumentException before anything changes. Otherwise the key
     * is gone from the map and the value now held by the node that held the
     * key is returned: the key's own value, with size down by one, when
     * that node had at most one child; the successor's value, with size
     * down by two, when it had two.
     */
    method RemoveAsWritten(k: Option<int>) returns (r: Result<V>)
      requires Valid()
      modifies this
      ensures Valid()
      ensures (k.None? || k.value !in old(Contents())) ==>
        r == Err(IllegalArgument) && root == old(root) && size == old(size)
      ensures k.Some? && k.value in old(Contents()) ==> r.Ok? && Contents() == old(Contents()) - {k.value}
      ensures k.Some? && k.value in old(Contents()) && old(OneChildAt(root, k.value)) ==>
        r.value == old(Contents())[k.value] && size == old(size) - 1 && (old(SizeExact()) ==> SizeExact())
      ensures k.Some? && k.value in old(Contents()) && !old(OneChildAt(root, k.value)) ==>
        NextKey(old(root), k.value).Some? &&
        r.value == old(Contents())[NextKey(old(root), k.value).value] && size == old(size) - 2
    {
      var n := FindForSure(k);
      if n.Err? {
        return Err(n.error);
      }
      var t, dropped, held := RemoveFrom(root, k.value);
      root := t;
      size := size - dropped;
      r := Ok(held.value);
    }

    /**
     * remove as intended: a null or absent key throws
     * IllegalArgumentException before anything changes; otherwise the key's
     * own value, read before the tree changes, is returned, the key is gone
     * and size drops by one, so an exact size stays exact.
     */
    method Remove(k: Option<int>) returns (r: Result<V>)
      requires Valid()
      modifies this
      ensures Valid()
      ensures (k.None? || k.value !in old(Contents())) ==>
        r == Err(IllegalArgument) && root == old(root) && size == old(size)
      ensures k.Some? && k.value in old(Contents()) ==>
        r == Ok(old(Contents())[k.value]) && Contents() == old(Contents()) - {k.value} && size == old(size) - 1
      ensures old(SizeExact()) ==> SizeExact()
    {
      var n := FindForSure(k);
      if n.Err? {
        return Err(n.error);
      }
      var value := n.value.value;
      var t, dropped := RemoveEntry(root, k.value);
      root := t;
      size := size - dropped;
      r := Ok(value);
    }

    /** put: the value of a present key is replaced; a null or absent key throws. */
    method Put(k: Option<int>, v: V) returns (r: Result<()>)
      requires Valid()
      modifies this
      ensures Valid()
      ensures (k.None? || k.value !in old(Contents())) ==> r == Err(IllegalArgument) && root == old(root)
      ensures k.Some? && k.value in old(Contents()) ==>
        r == Ok(()) && Contents() == old(Contents())[k.value := v] && InorderKeys(root) == old(InorderKeys(root))
      ensures size == old(size) && (old(SizeExact()) ==> SizeExact())
    {
      var n := FindForSure(k);
      if n.Err? {
        return Err(n.error);
      }
      var t := SetValue(root, k.value, v);
      assert Keys(t) == Keys(root);
      root := t;
      r := Ok(());
    }

    /** get: the value of a present key; a null or absent key throws. */
    method Get(k: Option<int>) returns (r: Result<V>)
      requires Valid()
      ensures (k.None? || k.value !in Contents()) ==> r == Err(IllegalArgument)
      ensures k.Some? && k.value in Contents() ==> r == Ok(Contents()[k.value])
    {
      var n := FindForSure(k);
      if n.Err? {
        return Err(n.error);
      }
      r := Ok(n.value.value);
    }

    /** has: false for null, else whether the key is present. */
    method Has(k: Option<int>) returns (b: bool)
      requires Valid()
      ensures b <==> k.Some? && k.value in Contents()
    {
      if k.None? {
        return false;
      }
      var n := Find(k);
      b := n.Ok? && n.value.Node?;
    }

    function Size(): (n: int)
      reads this
      ensures SizeExact() ==> n == |Contents()|
    {
      size
    }

    /** find: null throws; otherwise the node holding the key, or the empty tree when it is absent. */
    method Find(k: Option<int>) returns (r: Result<BstTree<V>>)
      requires Valid()
      ensures k.None? ==> r == Err(IllegalArgument)
      ensures k.Some? ==> r.Ok? && (r.value.Nil? <==> k.value !in Contents())
      ensures k.Some? && r.value.Node? ==> r.value.key == k.value && r.value.value == Contents()[k.value]
    {
      if k.None? {
        return Err(IllegalArgument);
      }
      var n := FindNode(root, k.value);
      r := Ok(n);
    }

    /** findForSure: as find, and an absent key throws too. */
    method FindForSure(k: Option<int>) returns (r: Result<BstTree<V>>)
      requires Valid()
      ensures (k.None? || k.value !in Contents()) ==> r == Err(IllegalArgument)
      ensures k.Some? && k.value in Contents() ==>
        r.Ok? && r.value.Node? && r.value.key == k.value && r.value.value == Contents()[k.value]
    {
      r := Find(k);
      if r.Ok? && r.value.Nil? {
        r := Err(IllegalArgument);
      }
    }

    /** iterator: the keys in ascending order, each once. */
    method Iterator() returns (it: InorderIterator<V, ()>)
      requires Valid()
      ensures fresh(it) && it.Valid() && it.Remaining() == InorderKeys(root)
      ensures StrictlyIncreasing(it.Remaining())
      ensures forall x :: x in it.Remaining() <==> x in Contents()
    {
      it := new InorderIterator(root);
      InorderAscending(root);
    }
  }

  /**
   * The two-child removal as written, on the tree that inserting 2, 1 and 3
   * builds: removing 2 returns 3's value, and size says 1 while two keys
   * remain.
   */
  method TwoChildRemovalAsWritten() returns (r: Result<int>, size: int, has1: bool, has2: bool, has3: bool)
    ensures r == Ok(30) && size == 1 && has1 && !has2 && has3
  {
    var m := new BinarySearchTreeMap<int>();
    m.root := Node(Node(Nil, 1, 10, (), Nil), 2, 20, (), Node(Nil, 3, 30, (), Nil));
    m.size := 3;
    assert Contents(m.root.right) == map[3 := 30] && 1 in Contents(m.root.left);
    assert NextKey(m.root, 2) == Some(3) && !OneChildAt(m.root, 2);
    r := m.RemoveAsWritten(Some(2));
    size := m.size;
    has1 := m.Has(Some(1));
    has2 := m.Has(Some(2));
    has3 := m.Has(Some(3));
  }
}
