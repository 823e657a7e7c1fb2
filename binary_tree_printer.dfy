/**
 * BinaryTreePrinter: a binary tree written out level by level. Line i
 * lists the 2^i positions of level i from left to right, separated by
 * single spaces, with a node's own text for a node and "null" for an empty
 * position; lines end in "\n", and printing stops after the deepest level
 * that holds a node. An empty tree prints as the empty string.
 */
module TreePrinters {

  /** A tree as the printer sees it: a node's text (its toString) and its two children; Nil is null. */
  datatype PTree = Nil | Node(left: PTree, text: string, right: PTree)

  /** The depth of the deepest node; -1 for the empty tree. */
  function Height(t: PTree): (h: int)
    ensures h >= -1 && (h == -1 <==> t == Nil)
  {
    match t
    case Nil => -1
    case Node(l, _, r) => 1 + (if Height(l) >= Height(r) then Height(l) else Height(r))
  }

  function Pow2(i: nat): (p: nat)
    ensures p >= 1
  {
    if i == 0 then 1 else 2 * Pow2(i - 1)
  }

  /** What handleNextNodeToString queues for one position: its two children, or two nulls for an empty position. */
  function Kids(n: PTree): seq<PTree>
  {
    if n.Node? then [n.left, n.right] else [Nil, Nil]
  }

  /** The positions one level down from `ns`, left to right. */
  function Children(ns: seq<PTree>): (r: seq<PTree>)
    ensures |r| == 2 * |ns|
  {
    if ns == [] then [] else Kids(ns[0]) + Children(ns[1..])
  }

  /** The left child of a node; below an empty position the positions are empty. */
  function LeftOf(t: PTree): PTree
  {
    if t.Node? then t.left else Nil
  }

  /** The right child of a node; below an empty position the positions are empty. */
  function RightOf(t: PTree): PTree
  {
    if t.Node? then t.right else Nil
  }

  /**
   * The 2^i positions of level `i`, left to right: level 0 is the root
   * alone, and level i+1 is level i of the left side followed by level i of
   * the right side.
   */
  function Level(t: PTree, i: nat): seq<PTree>
    decreases i
  {
    if i == 0 then [t] else Level(LeftOf(t), i - 1) + Level(RightOf(t), i - 1)
  }

  /** Some position of `ns` holds a node. */
  predicate HasNode(ns: seq<PTree>)
  {
    ns != [] && (ns[0].Node? || HasNode(ns[1..]))
  }

  /** How a position prints: a node's text, or "null". */
  function Token(n: PTree): string
  {
    if n.Node? then n.text else "null"
  }

  /** The tokens of `ns` separated by single spaces. */
  function Joined(ns: seq<PTree>): string
  {
    if |ns| == 0 then ""
    else if |ns| == 1 then Token(ns[0])
    else Joined(ns[..|ns| - 1]) + " " + Token(ns[|ns| - 1])
  }

  /** The tokens of `ns`, each followed by a space, as the inner loop appends them. */
  function Spaced(ns: seq<PTree>): string
  {
    if ns == [] then "" else Spaced(ns[..|ns| - 1]) + Token(ns[|ns| - 1]) + " "
  }

  /** The lines of levels 0 .. k-1. */
  function Lines(t: PTree, k: nat): string
  {
    if k == 0 then "" else Lines(t, k - 1) + Joined(Level(t, k - 1)) + "\n"
  }

  /** The documented output: one line per level from the root down to the deepest node. */
  function Rendered(t: PTree): string
  {
    if t == Nil then "" else Lines(t, Height(t) + 1)
  }

  /** Level i has exactly 2^i positions. */
  lemma {:induction false} LevelSize(t: PTree, i: nat)
    ensures |Level(t, i)| == Pow2(i)
    decreases i
  {
    if i > 0 {
      LevelSize(LeftOf(t), i - 1);
      LevelSize(RightOf(t), i - 1);
    }
  }

  lemma {:induction false} ChildrenAppend(a: seq<PTree>, b: seq<PTree>)
    ensures Children(a + b) == Children(a) + Children(b)
    decreases |a|
  {
    if a == [] {
      assert a + b == b;
    } else {
      assert (a + b)[1..] == a[1..] + b;
      ChildrenAppend(a[1..], b);
    }
  }

  /**
   * The positions queued while a level is handled, left to right, are the
   * next level: the queue of printBinaryTree holds one level at a time.
   */
  lemma {:induction false} ChildrenLevel(t: PTree, i: nat)
    ensures Children(Level(t, i)) == Level(t, i + 1)
    decreases i
  {
    if i == 0 {
      ChildrenOfRoot(t);
    } else {
      ChildrenLevel(LeftOf(t), i - 1);
      ChildrenLevel(RightOf(t), i - 1);
      ChildrenOfSides(t, i);
    }
  }

  lemma ChildrenOfRoot(t: PTree)
    ensures Children(Level(t, 0)) == Level(t, 1)
  {
    assert [t][..0] == [];
    assert Kids(t) == [LeftOf(t)] + [RightOf(t)];
  }

  lemma ChildrenOfSides(t: PTree, i: nat)
    requires i > 0
    requires Children(Level(LeftOf(t), i - 1)) == Level(LeftOf(t), i)
    requires Children(Level(RightOf(t), i - 1)) == Level(RightOf(t), i)
    ensures Children(Level(t, i)) == Level(t, i + 1)
    decreases i
  {
    ChildrenAppend(Level(LeftOf(t), i - 1), Level(RightOf(t), i - 1));
  }

  lemma {:induction false} HasNodeAppend(a: seq<PTree>, b: seq<PTree>)
    ensures HasNode(a + b) <==> HasNode(a) || HasNode(b)
    decreases |a|
  {
    if a == [] {
      assert a + b == b;
    } else {
      assert (a + b)[1..] == a[1..] + b;
      HasNodeAppend(a[1..], b);
    }
  }

  /** Below an empty position every position is empty. */
  lemma {:induction false} NilLevel(i: nat)
    ensures !HasNode(Level(Nil, i))
  {
    if i > 0 {
      NilLevel(i - 1);
      HasNodeAppend(Level(Nil, i - 1), Level(Nil, i - 1));
    }
  }

  /**
   * Level i holds a node exactly when i is at most the height: the printer
   * stops after line Height(t), so a tree of height h prints h + 1 lines.
   */
  lemma {:induction false} LevelHasNode(t: PTree, i: nat)
    ensures HasNode(Level(t, i)) <==> i <= Height(t)
  {
    match t
    case Nil =>
      NilLevel(i);
    case Node(l, x, r) =>
      if i == 0 {
      } else {
        HasNodeAppend(Level(l, i - 1), Level(r, i - 1));
        LevelHasNode(l, i - 1);
        LevelHasNode(r, i - 1);
      }
  }

  /** Every token followed by a space is the joined line followed by one trailing space. */
  lemma {:induction false} SpacedJoined(ns: seq<PTree>)
    requires ns != []
    ensures Spaced(ns) == Joined(ns) + " "
  {
    if |ns| > 1 {
      SpacedJoined(ns[..|ns| - 1]);
    } else {
      assert ns[..0] == [];
    }
  }

  /**
   * handleNextNodeToString: the front position leaves the queue, its token
   * is appended, and its two children (or two nulls) join the back; the
   * answer is whether a node was queued.
   */
  method HandleNextNodeToString(q: seq<PTree>, s: string) returns (q': seq<PTree>, s': string, nonNullChildAdded: bool)
    requires q != []
    ensures q' == q[1..] + Kids(q[0]) && s' == s + Token(q[0])
    ensures nonNullChildAdded <==> HasNode(Kids(q[0]))
  {
    var n := q[0];
    q' := q[1..];
    if n != Nil {
      s' := s + n.text;
      var left, right := n.left, n.right;
      q' := q' + [left];
      q' := q' + [right];
      nonNullChildAdded := left != Nil || right != Nil;
      KidsHaveNode(n);
    } else {
      s' := s + "null";
      q' := q' + [Nil];
      q' := q' + [Nil];
      nonNullChildAdded := false;
      KidsHaveNode(n);
    }
  }

  /** The children queued for a position hold a node exactly when it is a node with a child. */
  lemma KidsHaveNode(n: PTree)
    ensures HasNode(Kids(n)) <==> n.Node? && (n.left.Node? || n.right.Node?)
  {
    var ks := Kids(n);
    assert ks[1..][1..] == [];
    assert HasNode(ks) <==> ks[0].Node? || HasNode(ks[1..]);
    assert HasNode(ks[1..]) <==> ks[1].Node?;
  }

  /** printBinaryTree: the output is the documented rendering of `root`. */
  method PrintBinaryTree(root: PTree) returns (s: string)
    ensures s == Rendered(root)
    ensures root == Nil ==> s == ""
  {
    s := "";
    var q := [root];
    var onlyNullChildrenAdded := root == Nil;
    if onlyNullChildrenAdded {
      return;
    }
    ghost var k: nat := 0;
    while q != [] && !onlyNullChildrenAdded
      invariant k <= Height(root) + 1 && q == Level(root, k) && s == Lines(root, k)
      invariant onlyNullChildrenAdded <==> k == Height(root) + 1
      invariant q != []
      decreases Height(root) + 1 - k
    {
      NextLevel(root, k);
      q, s, onlyNullChildrenAdded := PrintLevel(q, s);
      k := k + 1;
    }
  }

  /** What one pass of the outer loop finds below level `k`. */
  lemma NextLevel(root: PTree, k: nat)
    requires root != Nil && k <= Height(root)
    ensures Level(root, k + 1) != [] && Children(Level(root, k)) == Level(root, k + 1)
    ensures HasNode(Level(root, k + 1)) <==> k + 1 <= Height(root)
    ensures Lines(root, k + 1) == Lines(root, k) + Joined(Level(root, k)) + "\n"
  {
    ChildrenLevel(root, k);
    LevelSize(root, k + 1);
    LevelHasNode(root, k + 1);
  }

  /** The children of one more position are those of the positions before it followed by its own. */
  lemma ChildrenSnoc(done: seq<PTree>, x: PTree)
    ensures Children(done + [x]) == Children(done) + Kids(x)
  {
    ChildrenAppend(done, [x]);
    assert [x][1..] == [];
  }

  /** The tokens of one more position are those before it followed by its own token and a space. */
  lemma SpacedSnoc(done: seq<PTree>, x: PTree)
    ensures Spaced(done + [x]) == Spaced(done) + Token(x) + " "
  {
    assert (done + [x])[..|done|] == done;
  }

  /** The queue after taking the front position off and its children onto the back. */
  lemma QueueStep(rest: seq<PTree>, c: seq<PTree>)
    requires rest != []
    ensures (rest + c)[0] == rest[0]
    ensures (rest + c)[1..] + Kids(rest[0]) == rest[1..] + (c + Kids(rest[0]))
  {
    assert (rest + c)[1..] == rest[1..] + c;
  }

  /** Deleting the trailing space of the spaced tokens leaves the joined line. */
  lemma LineEnd(level: seq<PTree>, start: string)
    requires level != []
    ensures var s := start + Spaced(level); |s| > 0 && s[..|s| - 1] == start + Joined(level)
  {
    SpacedJoined(level);
    var s := start + Spaced(level);
    assert s == (start + Joined(level)) + " ";
  }

  /**
   * One pass of printBinaryTree's outer loop: every position of the level
   * is printed and its children queued; the trailing space becomes the line
   * end; the answer is whether no node was queued for the next level.
   */
  method PrintLevel(level: seq<PTree>, start: string) returns (q: seq<PTree>, s: string, onlyNullChildrenAdded: bool)
    requires level != []
    ensures q == Children(level) && s == start + Joined(level) + "\n"
    ensures onlyNullChildrenAdded <==> !HasNode(Children(level))
  {
    q, s, onlyNullChildrenAdded := HandleLevel(level, start);
    LineEnd(level, start);
    s := s[..|s| - 1];
    s := s + "\n";
  }

  /** The queue once the first `j` positions of the level are handled: the rest of the level, then the children queued so far. */
  ghost function Pending(level: seq<PTree>, j: int): seq<PTree>
    requires 0 <= j <= |level|
  {
    level[j..] + Children(level[..j])
  }

  /** The output once the first `j` positions of the level are handled. */
  ghost function Output(start: string, level: seq<PTree>, j: int): string
    requires 0 <= j <= |level|
  {
    start + Spaced(level[..j])
  }

  /** Handling the position at `j` takes it off the front of the queue, queues its children and prints its token and a space. */
  lemma Advance(start: string, level: seq<PTree>, j: int)
    requires 0 <= j < |level|
    ensures Pending(level, j) != [] && Pending(level, j)[0] == level[j]
    ensures Pending(level, j)[1..] + Kids(level[j]) == Pending(level, j + 1)
    ensures Output(start, level, j) + Token(level[j]) + " " == Output(start, level, j + 1)
    ensures HasNode(Children(level[..j + 1])) <==> HasNode(Children(level[..j])) || HasNode(Kids(level[j]))
  {
    QueueStep(level[j..], Children(level[..j]));
    assert level[j..][1..] == level[j + 1..];
    assert level[..j + 1] == level[..j] + [level[j]];
    ChildrenSnoc(level[..j], level[j]);
    SpacedSnoc(level[..j], level[j]);
    HasNodeAppend(Children(level[..j]), Kids(level[j]));
  }

  /** With every position handled, the queue is the next level and the output every token followed by a space. */
  lemma Finish(start: string, level: seq<PTree>)
    ensures Pending(level, |level|) == Children(level)
    ensures Output(start, level, |level|) == start + Spaced(level)
    ensures level[..|level|] == level
  {
    assert level[..|level|] == level;
  }

  /** The inner loop of printBinaryTree: every position of the level handled in turn, each token followed by a space. */
  method HandleLevel(level: seq<PTree>, start: string) returns (q: seq<PTree>, s: string, onlyNullChildrenAdded: bool)
    ensures q == Children(level) && s == start + Spaced(level)
    ensures onlyNullChildrenAdded <==> !HasNode(Children(level))
  {
    q, s := level, start;
    onlyNullChildrenAdded := true;
    var levelSize := |q|;
    ghost var j := 0;
    assert level[..0] == [] && level[0..] == level;
    while levelSize > 0
      invariant 0 <= j <= |level| && j + levelSize == |level|
      invariant q == Pending(level, j) && s == Output(start, level, j)
      invariant onlyNullChildrenAdded <==> !HasNode(Children(level[..j]))
    {
      Advance(start, level, j);
      levelSize := levelSize - 1;
      var nonNullChildAdded;
      q, s, nonNullChildAdded := HandleNextNodeToString(q, s);
      if nonNullChildAdded {
        onlyNullChildrenAdded := false;
      }
      s := s + " ";
      j := j + 1;
    }
    Finish(start, level);
  }
}
