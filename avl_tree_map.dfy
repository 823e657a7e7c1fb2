/**
 * AvlTreeMap: an ordered map kept as an AVL tree. Every node caches its
 * height (a leaf has height 0, the empty tree -1); insertion and removal
 * recompute the heights on the way back up and rotate where a node's two
 * subtrees differ in height by more than one.
 */
module AvlTrees {
  import opened Outcomes
  import opened BinaryTrees

  /** The `aux` field of a node is its cached height. */
  type AvlTree<V> = Tree<V, int>

  function GetHeight<V>(t: AvlTree<V>): int
  {
    if t.Nil? then -1 else t.aux
  }

  function GetBalanceFactor<V>(t: AvlTree<V>): int
    requires t.Node?
  {
    GetHeight(t.left) - GetHeight(t.right)
  }

  function UpdateHeight<V>(t: AvlTree<V>): AvlTree<V>
    requires t.Node?
  {
    t.(aux := Max(GetHeight(t.left), GetHeight(t.right)) + 1)
  }

  /** Every cached height is at least 0 (a new node starts at 0). */
  ghost predicate HeightsNonNegative<V>(t: AvlTree<V>)
  {
    match t
    case Nil => true
    case Node(l, _, _, h, r) => h >= 0 && HeightsNonNegative(l) && HeightsNonNegative(r)
  }

  /** Every cached height is the node's true height. */
  ghost predicate ExactHeights<V>(t: AvlTree<V>)
  {
    match t
    case Nil => true
    case Node(l, _, _, h, r) => h == Height(t) && ExactHeights(l) && ExactHeights(r)
  }

  /** Every node's subtrees differ in height by at most one. */
  ghost predicate Balanced<V>(t: AvlTree<V>)
  {
    match t
    case Nil => true
    case Node(l, _, _, _, r) => -1 <= Height(l) - Height(r) <= 1 && Balanced(l) && Balanced(r)
  }

  ghost predicate IsAvl<V>(t: AvlTree<V>)
  {
    ExactHeights(t) && Balanced(t)
  }

  lemma {:induction false} ExactHeightsNonNegative<V>(t: AvlTree<V>)
    requires ExactHeights(t)
    ensures HeightsNonNegative(t) && Height(t) >= -1
  {
    match t
    case Nil =>
    case Node(l, _, _, _, r) =>
      ExactHeightsNonNegative(l);
      ExactHeightsNonNegative(r);
  }

  /**
   * rightRotation: the left child becomes the root. The old root, now the
   * lower node, gets its height recomputed first, then the new root.
   */
  function RightRotation<V>(t: AvlTree<V>): (r: AvlTree<V>)
    requires t.Node? && t.left.Node?
    ensures r.Node? && r.right.Node?
    ensures r.left == t.left.left && r.right.left == t.left.right && r.right.right == t.right
    ensures InorderKeys(r) == InorderKeys(t) && Keys(r) == Keys(t)
    ensures IsBst(t) ==> IsBst(r) && Contents(r) == Contents(t)
    ensures r.right.aux == 1 + Max(GetHeight(r.right.left), GetHeight(r.right.right))
    ensures r.aux == 1 + Max(GetHeight(r.left), GetHeight(r.right))
  {
    var leftChild := t.left;
    var node := UpdateHeight(t.(left := leftChild.right));
    var r := UpdateHeight(leftChild.(right := node));
    RotationKeepsOrder(t, r);
    r
  }

  /** leftRotation: the mirror image of RightRotation. */
  function LeftRotation<V>(t: AvlTree<V>): (r: AvlTree<V>)
    requires t.Node? && t.right.Node?
    ensures r.Node? && r.left.Node?
    ensures r.right == t.right.right && r.left.right == t.right.left && r.left.left == t.left
    ensures InorderKeys(r) == InorderKeys(t) && Keys(r) == Keys(t)
    ensures IsBst(t) ==> IsBst(r) && Contents(r) == Contents(t)
    ensures r.left.aux == 1 + Max(GetHeight(r.left.left), GetHeight(r.left.right))
    ensures r.aux == 1 + Max(GetHeight(r.left), GetHeight(r.right))
  {
    var rightChild := t.right;
    var node := UpdateHeight(t.(right := rightChild.left));
    var r := UpdateHeight(rightChild.(left := node));
    RotationKeepsOrder(r, t);
    r
  }

  /** A right child replaced by one with the same keys in the same order, and the same entries when ordered, keeps the node's. */
  lemma RightReplaced<V>(t: AvlTree<V>, c: AvlTree<V>)
    requires t.Node? && InorderKeys(c) == InorderKeys(t.right) && Keys(c) == Keys(t.right)
    requires IsBst(t.right) ==> IsBst(c) && Contents(c) == Contents(t.right)
    ensures InorderKeys(t.(right := c)) == InorderKeys(t) && Keys(t.(right := c)) == Keys(t)
    ensures IsBst(t) ==> IsBst(t.(right := c)) && Contents(t.(right := c)) == Contents(t)
  {
    var n := t.(right := c);
    assert n.left == t.left && n.right == c;
    if IsBst(t) {
      assert IsBst(t.right) && Contents(c) == Contents(t.right);
    }
  }

  /** A left child replaced by one with the same keys in the same order, and the same entries when ordered, keeps the node's. */
  lemma LeftReplaced<V>(t: AvlTree<V>, c: AvlTree<V>)
    requires t.Node? && InorderKeys(c) == InorderKeys(t.left) && Keys(c) == Keys(t.left)
    requires IsBst(t.left) ==> IsBst(c) && Contents(c) == Contents(t.left)
    ensures InorderKeys(t.(left := c)) == InorderKeys(t) && Keys(t.(left := c)) == Keys(t)
    ensures IsBst(t) ==> IsBst(t.(left := c)) && Contents(t.(left := c)) == Contents(t)
  {
    var n := t.(left := c);
    assert n.left == c && n.right == t.right;
    if IsBst(t) {
      assert IsBst(t.left) && Contents(c) == Contents(t.left);
    }
  }

  lemma RotationsKeepHeightsNonNegative<V>(t: AvlTree<V>)
    requires t.Node? && HeightsNonNegative(t)
    ensures t.left.Node? ==> HeightsNonNegative(RightRotation(t))
    ensures t.right.Node? ==> HeightsNonNegative(LeftRotation(t))
  {
  }

  lemma CachedHeightsAtLeastMinusOne<V>(t: AvlTree<V>)
    requires t.Node? && HeightsNonNegative(t)
    ensures GetHeight(t.left) >= -1 && GetHeight(t.right) >= -1
    ensures t.left.Node? ==> GetHeight(t.left.left) >= -1 && GetHeight(t.left.right) >= -1
    ensures t.right.Node? ==> GetHeight(t.right.left) >= -1 && GetHeight(t.right.right) >= -1
  {
  }

  /** The right rotation of the right child followed by a left rotation of the node. */
  function RightLeftRotation<V>(t: AvlTree<V>): (r: AvlTree<V>)
    requires t.Node? && t.right.Node? && t.right.left.Node? && HeightsNonNegative(t)
    ensures r.Node? && HeightsNonNegative(r)
    ensures InorderKeys(r) == InorderKeys(t) && Keys(r) == Keys(t)
    ensures IsBst(t) ==> IsBst(r) && Contents(r) == Contents(t)
  {
    RotationsKeepHeightsNonNegative(t.right);
    var n := t.(right := RightRotation(t.right));
    RightReplaced(t, RightRotation(t.right));
    RotationsKeepHeightsNonNegative(n);
    LeftRotation(n)
  }

  /** The left rotation of the left child followed by a right rotation of the node. */
  function LeftRightRotation<V>(t: AvlTree<V>): (r: AvlTree<V>)
    requires t.Node? && t.left.Node? && t.left.right.Node? && HeightsNonNegative(t)
    ensures r.Node? && HeightsNonNegative(r)
    ensures InorderKeys(r) == InorderKeys(t) && Keys(r) == Keys(t)
    ensures IsBst(t) ==> IsBst(r) && Contents(r) == Contents(t)
  {
    RotationsKeepHeightsNonNegative(t.left);
    var n := t.(left := LeftRotation(t.left));
    LeftReplaced(t, LeftRotation(t.left));
    RotationsKeepHeightsNonNegative(n);
    RightRotation(n)
  }

  /**
   * balanceTree: rotate when the balance factor, read from the children's
   * cached heights, is below -1 (a left rotation, preceded by a right
   * rotation of the right child when that child leans left) or above 1 (the
   * mirror image). Otherwise the node is returned as it is.
   */
  function BalanceTree<V>(t: AvlTree<V>): (r: AvlTree<V>)
    requires t.Node? && HeightsNonNegative(t)
    ensures r.Node? && HeightsNonNegative(r)
    ensures InorderKeys(r) == InorderKeys(t) && Keys(r) == Keys(t)
    ensures IsBst(t) ==> IsBst(r) && Contents(r) == Contents(t)
    ensures -1 <= GetBalanceFactor(t) <= 1 ==> r == t
  {
    CachedHeightsAtLeastMinusOne(t);
    RotationsKeepHeightsNonNegative(t);
    var bf := GetBalanceFactor(t);
    if bf < -1 then
      if GetBalanceFactor(t.right) <= 0 then LeftRotation(t) else RightLeftRotation(t)
    else if bf > 1 then
      if GetBalanceFactor(t.left) >= 0 then RightRotation(t) else LeftRightRotation(t)
    else
      t
  }

  lemma ExactGetHeight<V>(t: AvlTree<V>)
    requires ExactHeights(t)
    ensures GetHeight(t) == Height(t)
  {
  }

  /** A single right rotation repairs a node whose left subtree is two taller and does not lean right. */
  lemma RightRotationRepairs<V>(t: AvlTree<V>)
    requires t.Node? && t.left.Node? && IsAvl(t.left) && IsAvl(t.right)
    requires Height(t.left) == Height(t.right) + 2
    requires Height(t.left.left) >= Height(t.left.right)
    ensures IsAvl(RightRotation(t))
    ensures Height(t) - 1 <= Height(RightRotation(t)) <= Height(t)
  {
    var l := t.left;
    ExactGetHeight(l.left);
    ExactGetHeight(l.right);
    ExactGetHeight(t.right);
    var n := RightRotation(t);
    assert Height(n.right) == 1 + Max(Height(l.right), Height(t.right));
    assert IsAvl(n.right);
  }

  /** A single left rotation repairs a node whose right subtree is two taller and does not lean left. */
  lemma LeftRotationRepairs<V>(t: AvlTree<V>)
    requires t.Node? && t.right.Node? && IsAvl(t.left) && IsAvl(t.right)
    requires Height(t.right) == Height(t.left) + 2
    requires Height(t.right.right) >= Height(t.right.left)
    ensures IsAvl(LeftRotation(t))
    ensures Height(t) - 1 <= Height(LeftRotation(t)) <= Height(t)
  {
    var r := t.right;
    ExactGetHeight(r.left);
    ExactGetHeight(r.right);
    ExactGetHeight(t.left);
    var n := LeftRotation(t);
    assert Height(n.left) == 1 + Max(Height(t.left), Height(r.left));
    assert IsAvl(n.left);
  }

  /** First half of the left-right rotation: rotating a right-leaning subtree left. */
  lemma InnerLeftRotation<V>(l: AvlTree<V>, h: int)
    requires l.Node? && l.right.Node? && IsAvl(l)
    requires Height(l) == h + 2 && Height(l.left) == h && Height(l.right) == h + 1
    ensures IsAvl(LeftRotation(l).left) && Height(LeftRotation(l).left) == h + 1
    ensures IsAvl(LeftRotation(l).right) && h - 1 <= Height(LeftRotation(l).right) <= h
  {
    var lr := l.right;
    assert ExactHeights(l) && Balanced(l);
    assert ExactHeights(lr) && Balanced(lr) && ExactHeights(l.left) && Balanced(l.left);
    assert h - 1 <= Height(lr.left) <= h && h - 1 <= Height(lr.right) <= h;
    ExactGetHeight(l.left);
    ExactGetHeight(lr.left);
    var m := LeftRotation(l);
    assert Height(m.left) == h + 1;
  }

  /** The left-right double rotation repairs a node whose left subtree is two taller and leans right. */
  lemma LeftRightRotationRepairs<V>(t: AvlTree<V>)
    requires t.Node? && t.left.Node? && t.left.right.Node? && IsAvl(t.left) && IsAvl(t.right)
    requires HeightsNonNegative(t)
    requires Height(t.left) == Height(t.right) + 2
    requires Height(t.left.left) < Height(t.left.right)
    ensures IsAvl(LeftRightRotation(t))
    ensures Height(LeftRightRotation(t)) == Height(t) - 1
  {
    var h := Height(t.right);
    assert ExactHeights(t.left) && Balanced(t.left);
    InnerLeftRotation(t.left, h);
    var m := LeftRotation(t.left);
    ExactGetHeight(m.left);
    ExactGetHeight(m.right);
    ExactGetHeight(t.right);
    var n := RightRotation(t.(left := m));
    assert Height(n.right) == h + 1;
    assert IsAvl(n.right);
  }

  /** First half of the right-left rotation: rotating a left-leaning subtree right. */
  lemma InnerRightRotation<V>(r: AvlTree<V>, h: int)
    requires r.Node? && r.left.Node? && IsAvl(r)
    requires Height(r) == h + 2 && Height(r.right) == h && Height(r.left) == h + 1
    ensures IsAvl(RightRotation(r).right) && Height(RightRotation(r).right) == h + 1
    ensures IsAvl(RightRotation(r).left) && h - 1 <= Height(RightRotation(r).left) <= h
  {
    var rl := r.left;
    assert ExactHeights(r) && Balanced(r);
    assert ExactHeights(rl) && Balanced(rl) && ExactHeights(r.right) && Balanced(r.right);
    assert h - 1 <= Height(rl.left) <= h && h - 1 <= Height(rl.right) <= h;
    ExactGetHeight(r.right);
    ExactGetHeight(rl.right);
    var m := RightRotation(r);
    assert Height(m.right) == h + 1;
  }

  /** The right-left double rotation repairs a node whose right subtree is two taller and leans left. */
  lemma RightLeftRotationRepairs<V>(t: AvlTree<V>)
    requires t.Node? && t.right.Node? && t.right.left.Node? && IsAvl(t.left) && IsAvl(t.right)
    requires HeightsNonNegative(t)
    requires Height(t.right) == Height(t.left) + 2
    requires Height(t.right.right) < Height(t.right.left)
    ensures IsAvl(RightLeftRotation(t))
    ensures Height(RightLeftRotation(t)) == Height(t) - 1
  {
    var h := Height(t.left);
    assert ExactHeights(t.right) && Balanced(t.right);
    InnerRightRotation(t.right, h);
    var m := RightRotation(t.right);
    ExactGetHeight(m.left);
    ExactGetHeight(m.right);
    ExactGetHeight(t.left);
    var n := LeftRotation(t.(right := m));
    assert Height(n.left) == h + 1;
    assert IsAvl(n.left);
  }

  /**
   * The AVL step: when both subtrees are AVL trees whose heights differ by at
   * most two and the node's cached height is exact, balanceTree returns an
   * AVL tree whose height is the node's height or one less.
   */
  lemma BalanceRestoresAvl<V>(t: AvlTree<V>)
    requires t.Node? && HeightsNonNegative(t) && IsAvl(t.left) && IsAvl(t.right)
    requires t.aux == Height(t) && -2 <= Height(t.left) - Height(t.right) <= 2
    ensures IsAvl(BalanceTree(t))
    ensures Height(t) - 1 <= Height(BalanceTree(t)) <= Height(t)
  {
    var l, r := t.left, t.right;
    ExactGetHeight(l);
    ExactGetHeight(r);
    var bf := GetBalanceFactor(t);
    if bf > 1 {
      ExactGetHeight(l.left);
      ExactGetHeight(l.right);
      if GetBalanceFactor(l) >= 0 {
        RightRotationRepairs(t);
      } else {
        LeftRightRotationRepairs(t);
      }
    } else if bf < -1 {
      ExactGetHeight(r.left);
      ExactGetHeight(r.right);
      if GetBalanceFactor(r) <= 0 {
        LeftRotationRepairs(t);
      } else {
        RightLeftRotationRepairs(t);
      }
    }
  }

  /**
   * After a child of `t` changed: recompute the height, then rebalance when
   * the node is taller than 1, as the recursive insert helper does.
   */
  function Rebalanced<V>(n: AvlTree<V>): (r: AvlTree<V>)
    requires n.Node? && HeightsNonNegative(n.left) && HeightsNonNegative(n.right)
    ensures r.Node? && HeightsNonNegative(r)
    ensures Keys(r) == Keys(n) && (IsBst(n) ==> IsBst(r) && Contents(r) == Contents(n))
    ensures r == BalanceTree(UpdateHeight(n))
  {
    CachedHeightsAtLeastMinusOne(n.(aux := 0));
    var u := UpdateHeight(n);
    if u.aux > 1 then BalanceTree(u) else u
  }

  /**
   * The recursive insert helper: a new leaf of height 0 where the search for
   * `k` ends, and on the way back up every node on the path is rebalanced.
   * A key already present throws (None).
   */
  function InsertAt<V>(t: AvlTree<V>, k: int, v: V): (r: Option<AvlTree<V>>)
    requires IsBst(t) && HeightsNonNegative(t)
    ensures r.None? <==> k in Keys(t)
    ensures r.Some? ==> r.value.Node? && IsBst(r.value) && HeightsNonNegative(r.value)
    ensures r.Some? ==> Keys(r.value) == Keys(t) + {k} && Contents(r.value) == Contents(t)[k := v]
  {
    match t
    case Nil => Some(Node(Nil, k, v, 0, Nil))
    case Node(l, key, value, _, rt) =>
      if key > k then
        assert k !in Keys(rt);
        match InsertAt(l, k, v)
        case None => None
        case Some(l') =>
          InsertedLeft(t, l', k, v);
          Some(Rebalanced(t.(left := l')))
      else if key < k then
        assert k !in Keys(l);
        match InsertAt(rt, k, v)
        case None => None
        case Some(rt') =>
          InsertedRight(t, rt', k, v);
          Some(Rebalanced(t.(right := rt')))
      else
        None
  }

  /**
   * Recomputing a node's height and balancing it yields an AVL tree when its
   * subtrees are AVL trees differing in height by at most two; the result is
   * as tall as the recomputed height, or one less after a rotation.
   */
  lemma UpdateAndBalanceIsAvl<V>(n: AvlTree<V>)
    requires n.Node? && IsAvl(n.left) && IsAvl(n.right)
    requires HeightsNonNegative(n.left) && HeightsNonNegative(n.right)
    requires -2 <= Height(n.left) - Height(n.right) <= 2
    ensures IsAvl(BalanceTree(UpdateHeight(n)))
    ensures Height(UpdateHeight(n)) - 1 <= Height(BalanceTree(UpdateHeight(n))) <= Height(UpdateHeight(n))
    ensures -1 <= Height(n.left) - Height(n.right) <= 1 ==>
      BalanceTree(UpdateHeight(n)) == UpdateHeight(n) && IsAvl(UpdateHeight(n))
  {
    ExactGetHeight(n.left);
    ExactGetHeight(n.right);
    var u := UpdateHeight(n);
    assert u.aux == Height(u);
    BalanceRestoresAvl(u);
  }

  /** Insertion keeps an AVL tree an AVL tree and raises its height by at most one. */
  lemma {:induction false} InsertKeepsAvl<V>(t: AvlTree<V>, k: int, v: V)
    requires IsBst(t) && HeightsNonNegative(t) && IsAvl(t) && k !in Keys(t)
    ensures IsAvl(InsertAt(t, k, v).value)
    ensures Height(t) <= Height(InsertAt(t, k, v).value) <= Height(t) + 1
  {
    match t
    case Nil =>
    case Node(l, key, _, _, rt) =>
      if key > k {
        InsertKeepsAvl(l, k, v);
        var l' := InsertAt(l, k, v).value;
        ExactHeightsNonNegative(l');
        UpdateAndBalanceIsAvl(t.(left := l'));
      } else {
        InsertKeepsAvl(rt, k, v);
        var rt' := InsertAt(rt, k, v).value;
        ExactHeightsNonNegative(rt');
        UpdateAndBalanceIsAvl(t.(right := rt'));
      }
  }

  /**
   * One step back up a removal path: one subtree of an AVL node lost at most
   * one level of height and is still AVL; recomputing the height and
   * balancing leaves an AVL tree at most one level lower than before.
   */
  lemma RemovalStepIsAvl<V>(t: AvlTree<V>, m: AvlTree<V>)
    requires t.Node? && IsAvl(t) && m.Node? && IsAvl(m.left) && IsAvl(m.right)
    requires (m.right == t.right && Height(t.left) - 1 <= Height(m.left) <= Height(t.left)) ||
             (m.left == t.left && Height(t.right) - 1 <= Height(m.right) <= Height(t.right))
    ensures HeightsNonNegative(m.left) && HeightsNonNegative(m.right)
    ensures IsAvl(BalanceTree(UpdateHeight(m)))
    ensures Height(t) - 1 <= Height(BalanceTree(UpdateHeight(m))) <= Height(t)
  {
    ExactHeightsNonNegative(m.left);
    ExactHeightsNonNegative(m.right);
    UpdateAndBalanceIsAvl(m);
  }

  /** RemovalStepIsAvl for a removal in the left subtree, in the form the recursion uses. */
  lemma RemovalStepLeft<V>(t: AvlTree<V>, l': AvlTree<V>, k: int)
    requires t.Node? && k < t.key && HeightsNonNegative(l') && HeightsNonNegative(t.right)
    requires IsAvl(t.left) && OneChildAt(t.left, k) ==>
      IsAvl(l') && Height(t.left) - 1 <= Height(l') <= Height(t.left)
    ensures IsAvl(t) && OneChildAt(t, k) ==>
      IsAvl(Rebalanced(t.(left := l'))) && Height(t) - 1 <= Height(Rebalanced(t.(left := l'))) <= Height(t)
  {
    if IsAvl(t) && OneChildAt(t, k) {
      RemovalStepIsAvl(t, t.(left := l'));
    }
  }

  /** RemovalStepIsAvl for a removal in the right subtree, in the form the recursion uses. */
  lemma RemovalStepRight<V>(t: AvlTree<V>, rt': AvlTree<V>, k: int)
    requires t.Node? && t.key < k && HeightsNonNegative(rt') && HeightsNonNegative(t.left)
    requires IsAvl(t.right) && OneChildAt(t.right, k) ==>
      IsAvl(rt') && Height(t.right) - 1 <= Height(rt') <= Height(t.right)
    ensures IsAvl(t) && OneChildAt(t, k) ==>
      IsAvl(Rebalanced(t.(right := rt'))) && Height(t) - 1 <= Height(Rebalanced(t.(right := rt'))) <= Height(t)
  {
    if IsAvl(t) && OneChildAt(t, k) {
      RemovalStepIsAvl(t, t.(right := rt'));
    }
  }

  /**
   * remove(subtreeRoot, toRemove): descend to the node holding `k`, remove
   * it, then recompute the height of and rebalance every node on the way
   * back up.
   */
  method RemoveAt<V>(t: AvlTree<V>, k: int) returns (r: AvlTree<V>)
    requires IsBst(t) && HeightsNonNegative(t) && k in Keys(t)
    ensures IsBst(r) && HeightsNonNegative(r)
    ensures Keys(r) == Keys(t) - {k} && Contents(r) == Contents(t) - {k}
    ensures IsAvl(t) && OneChildAt(t, k) ==> IsAvl(r) && Height(t) - 1 <= Height(r) <= Height(t)
    decreases t, 1
  {
    if t.key == k {
      r := RemoveNode(t);
      return;
    }
    if t.key > k {
      assert k in Keys(t.left);
      var l' := RemoveAt(t.left, k);
      RemovedLeft(t, l', k);
      r := Rebalanced(t.(left := l'));
      RemovalStepLeft(t, l', k);
    } else {
      assert k in Keys(t.right);
      var rt' := RemoveAt(t.right, k);
      RemovedRight(t, rt', k);
      r := Rebalanced(t.(right := rt'));
      RemovalStepRight(t, rt', k);
    }
  }

  /**
   * remove(node): a node without a right child is replaced by its left
   * subtree, one without a left child by its right subtree. A node with two
   * children takes the key and value of the largest node of its left subtree,
   * that node is removed from the left subtree, and the node is rebalanced;
   * its own cached height is not recomputed.
   */
  method RemoveNode<V>(t: AvlTree<V>) returns (r: AvlTree<V>)
    requires t.Node? && IsBst(t) && HeightsNonNegative(t)
    ensures IsBst(r) && HeightsNonNegative(r)
    ensures Keys(r) == Keys(t) - {t.key} && Contents(r) == Contents(t) - {t.key}
    ensures IsAvl(t) && (t.left.Nil? || t.right.Nil?) ==> IsAvl(r) && Height(r) == Height(t) - 1
    decreases t, 0
  {
    SplicedOut(t);
    if t.right.Nil? {
      return t.left;
    } else if t.left.Nil? {
      return t.right;
    }
    var toReplaceWith := RightmostNode(t.left);
    var m := toReplaceWith.key;
    var l' := RemoveAt(t.left, m);
    ReplacedByPredecessor(t, l', m);
    r := BalanceTree(t.(left := l', key := m, value := toReplaceWith.value));
  }

  /** An AVL tree whose root's children are exact and balanced needs no further work at the root. */
  lemma AvlRootIsSettled<V>(t: AvlTree<V>)
    requires t.Node? && IsAvl(t)
    ensures HeightsNonNegative(t) && UpdateHeight(t) == t && BalanceTree(t) == t
  {
    ExactHeightsNonNegative(t);
    ExactGetHeight(t.left);
    ExactGetHeight(t.right);
  }

  class AvlTreeMap<V> {
    var root: AvlTree<V>
    var size: int

    /**
     * The invariant every operation keeps: search-tree order, cached
     * heights at least 0, and `size` counting the keys. The AVL shape itself
     * (IsAvl) is kept by insertion and by removals of nodes with at most one
     * child; see Remove.
     */
    ghost predicate Valid()
      reads this
    {
      IsBst(root) && HeightsNonNegative(root) && size == |Keys(root)|
    }

    /** The map the tree represents. */
    ghost function Contents(): map<int, V>
      reads this
    {
      BinaryTrees.Contents(root)
    }

    constructor ()
      ensures Valid() && Contents() == map[] && IsAvl(root)
    {
      root := Nil;
      size := 0;
    }

    /**
     * insert: a null key or a key already present throws
     * IllegalArgumentException and leaves the map unchanged; otherwise the
     * entry is added, the size grows by one, and an AVL tree stays one.
     */
    method Insert(k: Option<int>, v: V) returns (r: Result<()>)
      requires Valid()
      modifies this
      ensures Valid()
      ensures (k.None? || k.value in old(Contents())) ==>
        r == Err(IllegalArgument) && root == old(root) && size == old(size)
      ensures k.Some? && k.value !in old(Contents()) ==>
        r == Ok(()) && Contents() == old(Contents())[k.value := v] && size == old(size) + 1
      ensures old(IsAvl(root)) ==> IsAvl(root)
    {
      if k.None? {
        return Err(IllegalArgument);
      }
      var inserted := InsertAt(root, k.value, v);
      if inserted.None? {
        return Err(IllegalArgument);
      }
      InsertAtRootKeepsAvl(root, k.value, v);
      var t := inserted.value;
      UpdateHeightKeeps(t);
      root := t;
      size := size + 1;
      root := BalanceTree(UpdateHeight(root));
      r := Ok(());
    }

    /**
     * remove: a null or absent key throws IllegalArgumentException;
     * otherwise the value is captured before the tree is restructured and
     * returned, the key is gone and the size shrinks by one. The AVL shape
     * is kept when the removed key's node had at most one child; removing a
     * node with two children leaves that node's cached height as it was.
     */
    method Remove(k: Option<int>) returns (r: Result<V>)
      requires Valid()
      modifies this
      ensures Valid()
      ensures (k.None? || k.value !in old(Contents())) ==>
        r == Err(IllegalArgument) && root == old(root) && size == old(size)
      ensures k.Some? && k.value in old(Contents()) ==>
        r == Ok(old(Contents())[k.value]) && Contents() == old(Contents()) - {k.value} && size == old(size) - 1
      ensures k.Some? && old(IsAvl(root)) && old(OneChildAt(root, k.value)) ==> IsAvl(root)
    {
      var n := FindForSure(k);
      if n.Err? {
        return Err(n.error);
      }
      var value := n.value.value;
      root := RemoveAt(root, k.value);
      size := size - 1;
      r := Ok(value);
    }

    /** put: the value of a present key is replaced; a null or absent key throws. */
    method Put(k: Option<int>, v: V) returns (r: Result<()>)
      requires Valid()
      modifies this
      ensures Valid()
      ensures (k.None? || k.value !in old(Contents())) ==> r == Err(IllegalArgument) && root == old(root)
      ensures k.Some? && k.value in old(Contents()) ==>
        r == Ok(()) && Contents() == old(Contents())[k.value := v] && size == old(size)
      ensures old(IsAvl(root)) ==> IsAvl(root)
    {
      var n := FindForSure(k);
      if n.Err? {
        return Err(n.error);
      }
      if IsAvl(root) {
        SetValueKeepsAvl(root, k.value, v);
      }
      SetValueKeepsHeightsNonNegative(root, k.value, v);
      var t := SetValue(root, k.value, v);
      assert Keys(t) == Keys(root);
      root := t;
      r := Ok(());
    }

    /** get: the value of a present key; a null or absent key throws. */
    method Get(k: Option<int>) returns (r: Result<V>)
      requires Valid()
      ensures (k.None? || k.value !in Contents()) ==> r == Err(IllegalArgument)
      ensures k.Some? && k.value in Contents() ==> r == Ok(Contents()[k.value])
    {
      var n := FindForSure(k);
      if n.Err? {
        return Err(n.error);
      }
      r := Ok(n.value.value);
    }

    /** has: false for null, else whether the key is present. */
    method Has(k: Option<int>) returns (b: bool)
      requires Valid()
      ensures b <==> k.Some? && k.value in Contents()
    {
      if k.None? {
        return false;
      }
      var n := Find(k);
      b := n.Ok? && n.value.Node?;
    }

    function Size(): (n: int)
      reads this
      requires Valid()
      ensures n == |Contents()|
    {
      size
    }

    /** find: null throws; otherwise the node holding the key, or the empty tree when it is absent. */
    method Find(k: Option<int>) returns (r: Result<AvlTree<V>>)
      requires Valid()
      ensures k.None? ==> r == Err(IllegalArgument)
      ensures k.Some? ==> r.Ok? && (r.value.Nil? <==> k.value !in Contents())
      ensures k.Some? && r.value.Node? ==> r.value.key == k.value && r.value.value == Contents()[k.value]
    {
      if k.None? {
        return Err(IllegalArgument);
      }
      var n := FindNode(root, k.value);
      r := Ok(n);
    }

    /** findForSure: as find, and an absent key throws too. */
    method FindForSure(k: Option<int>) returns (r: Result<AvlTree<V>>)
      requires Valid()
      ensures (k.None? || k.value !in Contents()) ==> r == Err(IllegalArgument)
      ensures k.Some? && k.value in Contents() ==>
        r.Ok? && r.value.Node? && r.value.key == k.value && r.value.value == Contents()[k.value]
    {
      r := Find(k);
      if r.Ok? && r.value.Nil? {
        r := Err(IllegalArgument);
      }
    }

    /** iterator: the keys in ascending order, each once. */
    method Iterator() returns (it: InorderIterator<V, int>)
      requires Valid()
      ensures fresh(it) && it.Valid() && it.Remaining() == InorderKeys(root)
      ensures StrictlyIncreasing(it.Remaining())
      ensures forall x :: x in it.Remaining() <==> x in Contents()
    {
      it := new InorderIterator(root);
      InorderAscending(root);
    }
  }

  /** Recomputing a node's cached height keeps the search tree and its map. */
  lemma UpdateHeightKeeps<V>(t: AvlTree<V>)
    requires t.Node? && IsBst(t) && HeightsNonNegative(t)
    ensures var u := UpdateHeight(t);
      IsBst(u) && HeightsNonNegative(u) && Keys(u) == Keys(t) && BinaryTrees.Contents(u) == BinaryTrees.Contents(t)
  {
    CachedHeightsAtLeastMinusOne(t);
  }

  /** After an insertion into an AVL tree, the root needs no further height update or rotation. */
  lemma InsertAtRootKeepsAvl<V>(t: AvlTree<V>, k: int, v: V)
    requires IsBst(t) && HeightsNonNegative(t) && k !in Keys(t)
    ensures IsAvl(t) ==>
      var r := InsertAt(t, k, v).value;
      IsAvl(r) && UpdateHeight(r) == r && BalanceTree(r) == r
  {
    if IsAvl(t) {
      InsertKeepsAvl(t, k, v);
      AvlRootIsSettled(InsertAt(t, k, v).value);
    }
  }

  /** put changes no key and no height, so the AVL shape survives it. */
  lemma {:induction false} SetValueKeepsAvl<V>(t: AvlTree<V>, k: int, v: V)
    requires IsBst(t) && k in Keys(t) && IsAvl(t)
    ensures IsAvl(SetValue(t, k, v)) && Height(SetValue(t, k, v)) == Height(t)
  {
    match t
    case Node(l, key, _, _, rt) =>
      var r := SetValue(t, k, v);
      if k < key {
        assert k !in Keys(rt);
        SetValueKeepsAvl(l, k, v);
        assert r.left == SetValue(l, k, v) && r.right == rt && r.aux == t.aux;
      } else if key < k {
        assert k !in Keys(l);
        SetValueKeepsAvl(rt, k, v);
        assert r.right == SetValue(rt, k, v) && r.left == l && r.aux == t.aux;
      }
      assert Height(r) == Height(t);
  }

  /** Overwriting a value leaves every cached height as it was. */
  lemma {:induction false} SetValueKeepsHeightsNonNegative<V>(t: AvlTree<V>, k: int, v: V)
    requires IsBst(t) && k in Keys(t) && HeightsNonNegative(t)
    ensures HeightsNonNegative(SetValue(t, k, v))
  {
    match t
    case Node(l, key, _, _, rt) =>
      var r := SetValue(t, k, v);
      if k < key {
        assert k !in Keys(rt);
        SetValueKeepsHeightsNonNegative(l, k, v);
        assert r.left == SetValue(l, k, v) && r.right == rt && r.aux == t.aux;
      } else if key < k {
        assert k !in Keys(l);
        SetValueKeepsHeightsNonNegative(rt, k, v);
        assert r.right == SetValue(rt, k, v) && r.left == l && r.aux == t.aux;
      }
  }
}
