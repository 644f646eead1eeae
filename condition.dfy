/**
 * What `AVLcondition()` does after one `insert(n)` of a new key into a consistent AVL tree:
 * at every node it visits it computes the rotation code the abstract rebalancing computes, it
 * performs the same rotations, and the walk up from the new leaf leaves the arena realizing the
 * AVL-balanced tree `AvlInsert` describes, with every height and count right.
 */
module AvlCondition {
  import opened AvlNodes
  import opened AvlShape
  import opened AvlPaths
  import opened AvlSteps
  import opened AvlRotShape
  import opened AvlRotations
  import opened AvlGrow
  import opened AvlBalance
  import opened AvlInsertion

  /** A consistent tree is sound, and the walk up from any of its nodes follows it. */
  lemma ConsistentSound(h: seq<Node>, t: Shape)
    requires Consistent(h, t)
    ensures Sound(h, t)
    ensures forall u :: u in Ids(t) ==> UpLinked(h, t, u)
  {
    forall u | u in Ids(t) ensures UpLinked(h, t, u) {
      TreeUpLinked(h, t, u);
    }
  }

  /**
   * With right stored heights, the `rotation` code `AVLcondition()` computes at `z`
   * (avlTree.h:80-95) is the code of the subtree at `z`, and `isAVLComplete()` at `z`
   * (avlTree.h:113-117) holds exactly when that subtree's root is balanced.
   */
  lemma RotationCodeAt(h: seq<Node>, t: Shape, z: int)
    requires Sound(h, t) && z in Ids(t)
    ensures IsNode(h, z) && Realizes(h, z, Subtree(t, z))
    ensures Rotation(h, z) == RotationCode(Subtree(t, z))
    ensures IsAVLComplete(h, z) <==> RootBalanced(Subtree(t, z))
  {
    SubtreeRealized(h, h[SENTINEL].left, t, z);
    var s := Subtree(t, z);
    RealizesIds(h, z, s);
    var l, r := h[z].left, h[z].right;
    RealizesIds(h, l, s.left);
    RealizesIds(h, r, s.right);
    HeightOfRealized(h, l, s.left);
    HeightOfRealized(h, r, s.right);
    if l != NIL {
      HeightOfRealized(h, h[l].left, s.left.left);
      HeightOfRealized(h, h[l].right, s.left.right);
    }
    if r != NIL {
      HeightOfRealized(h, h[r].left, s.right.left);
      HeightOfRealized(h, h[r].right, s.right.right);
    }
  }

  /**
   * The facts about a child `y` of `z` a rotation at `y` followed by one at `z` needs: its
   * subtree is the child subtree, and its path is `z`'s with `y` in front.
   */
  lemma ChildSetting(h: seq<Node>, t: Shape, z: int, y: int)
    requires Consistent(h, t) && z in Ids(t) && IsNode(h, z) && y != NIL && IsChildOf(h, y, z)
    ensures y in Ids(t) && Path(t, y) == [y] + Path(t, z) && UpLinked(h, t, y) && IsNode(h, y)
    ensures y in Ids(Subtree(t, z)) && y != z && Subtree(t, y) == Subtree(Subtree(t, z), y)
  {
    ConsistentSound(h, t);
    ChildPath(h, t, z, y);
    SubtreeRealized(h, h[SENTINEL].left, t, z);
    var s := Subtree(t, z);
    SubtreeIds(t, z);
    RealizesIds(h, h[z].left, s.left);
    RealizesIds(h, h[z].right, s.right);
    assert y in Ids(s);
    SubtreeNested(t, z, y);
  }

  /** A walk that follows the tree from `u` follows it from any node further up. */
  lemma UpLinkedDrop(h: seq<Node>, t: Shape, u: int, v: int, k: int)
    requires UpLinked(h, t, u) && 0 <= k < |Path(t, u)| && Path(t, v) == Path(t, u)[k..]
    ensures UpLinked(h, t, v)
  {
    SuffixLinked(h, Path(t, u), Path(t, v), k);
  }

  /** The links of a chain of nodes ending at the sentinel hold along every suffix of it. */
  lemma SuffixLinked(h: seq<Node>, P: seq<int>, Q: seq<int>, k: int)
    requires |P| > 0 && 0 <= k < |P| && Q == P[k..]
    requires forall i :: 0 <= i < |P| ==> IsNode(h, P[i])
    requires forall i :: 0 <= i < |P| - 1 ==> IsNode(h, P[i]) && h[P[i]].parent == P[i + 1]
    requires IsNode(h, P[|P| - 1]) && h[P[|P| - 1]].parent == SENTINEL
    ensures |Q| > 0 && forall i :: 0 <= i < |Q| ==> IsNode(h, Q[i])
    ensures forall i :: 0 <= i < |Q| - 1 ==> IsNode(h, Q[i]) && h[Q[i]].parent == Q[i + 1]
    ensures IsNode(h, Q[|Q| - 1]) && h[Q[|Q| - 1]].parent == SENTINEL
  {
    forall i | 0 <= i < |Q| ensures IsNode(h, Q[i]) {
      assert Q[i] == P[i + k];
    }
    forall i | 0 <= i < |Q| - 1 ensures IsNode(h, Q[i]) && h[Q[i]].parent == Q[i + 1] {
      assert Q[i] == P[i + k] && Q[i + 1] == P[i + k + 1];
    }
    assert Q[|Q| - 1] == P[|P| - 1];
  }

  /**
   * The first rotation of case 2 of `AVLcondition()` at `z` (avlTree.h:99-101): a left
   * rotation at the left child `y`.  Afterwards the subtree at `z` has the rotated subtree on
   * its left, the walk from `z` still follows the tree, and a later replacement at `z`
   * overrides the first one.
   */
  lemma LeftRightFirst(h: seq<Node>, t: Shape, z: int, fuel: nat)
    requires Consistent(h, t) && z in Ids(t) && fuel >= Size(t)
    requires Subtree(t, z).Branch? && Subtree(t, z).left.Branch? && Subtree(t, z).left.right.Branch?
    ensures IsNode(h, z) && h[z].left != NIL && RotateLeft(h, h[z].left, fuel).Some?
    ensures var h1, s := RotateLeft(h, h[z].left, fuel).value, Subtree(t, z);
            var t1 := Replace(t, h[z].left, RotL(s.left));
            var m := Branch(RotL(s.left), z, s.key, s.right);
            Sound(h1, t1) && z in Ids(t1) && UpLinked(h1, t1, z) && Subtree(t1, z) == m &&
            Ids(t1) == Ids(t) && Keys(t1) == Keys(t) && Size(t1) == Size(t) &&
            Replace(t1, z, RotR(m)) == Replace(t, z, RotR(m))
  {
    ConsistentSound(h, t);
    RotationCodeAt(h, t, z);
    var s := Subtree(t, z);
    var y := h[z].left;
    RealizesIds(h, y, s.left);
    ChildSetting(h, t, z, y);
    assert Subtree(t, y) == s.left;
    RealizesIds(h, h[y].right, s.left.right);
    RotateLeftSound(h, t, y, fuel);
    var h1 := RotateLeft(h, y, fuel).value;
    var sy := RotL(s.left);
    var t1 := Replace(t, y, sy);
    RotLSame(s.left);
    var m := Branch(sy, z, s.key, s.right);
    ReplaceInside(t, z, y, sy, RotR(m));
    SubtreeIds(t, z);
    assert z !in Ids(Subtree(t, y));
    PathReplaceOut(t, y, sy, z);
    assert Path(t1, z) == Path(t1, y)[2..];
    UpLinkedDrop(h1, t1, y, z, 2);
  }

  /**
   * Case 2 of `AVLcondition()` at `z` (avlTree.h:99-102): a left rotation at the left child
   * `y`, then, falling through, a right rotation at `z`.  The arena realizes the tree with the
   * subtree at `z` replaced by the double rotation of the abstract rebalancing.
   */
  lemma VisitLeftRight(h: seq<Node>, t: Shape, z: int, fuel: nat)
    requires Consistent(h, t) && z in Ids(t) && fuel >= Size(t)
    requires Subtree(t, z).Branch? && Subtree(t, z).left.Branch? && Subtree(t, z).left.right.Branch?
    ensures IsNode(h, z) && h[z].left != NIL && RotateLeft(h, h[z].left, fuel).Some?
    ensures var h1 := RotateLeft(h, h[z].left, fuel).value;
            IsNode(h1, z) && ArenaOK(h1) && RotateRight(h1, z, fuel).Some? &&
            var s := Subtree(t, z);
            var t2 := Replace(t, z, RotR(Branch(RotL(s.left), z, s.key, s.right)));
            var r := RotateRight(h1, z, fuel).value;
            Sound(r, t2) && UpLinked(r, t2, z) &&
            Ids(t2) == Ids(t) && Keys(t2) == Keys(t) && Size(t2) == Size(t)
  {
    LeftRightFirst(h, t, z, fuel);
    var s := Subtree(t, z);
    var h1 := RotateLeft(h, h[z].left, fuel).value;
    var t1 := Replace(t, h[z].left, RotL(s.left));
    var m := Branch(RotL(s.left), z, s.key, s.right);
    SubtreeRealized(h1, h1[SENTINEL].left, t1, z);
    RealizesIds(h1, h1[z].left, m.left);
    RotateRightSound(h1, t1, z, fuel);
  }

  /**
   * The first rotation of case 3 of `AVLcondition()` at `z` (avlTree.h:103-105): a right
   * rotation at the right child `y`; the mirror image of `LeftRightFirst`.
   */
  lemma RightLeftFirst(h: seq<Node>, t: Shape, z: int, fuel: nat)
    requires Consistent(h, t) && z in Ids(t) && fuel >= Size(t)
    requires Subtree(t, z).Branch? && Subtree(t, z).right.Branch? && Subtree(t, z).right.left.Branch?
    ensures IsNode(h, z) && h[z].right != NIL && RotateRight(h, h[z].right, fuel).Some?
    ensures var h1, s := RotateRight(h, h[z].right, fuel).value, Subtree(t, z);
            var t1 := Replace(t, h[z].right, RotR(s.right));
            var m := Branch(s.left, z, s.key, RotR(s.right));
            Sound(h1, t1) && z in Ids(t1) && UpLinked(h1, t1, z) && Subtree(t1, z) == m &&
            Ids(t1) == Ids(t) && Keys(t1) == Keys(t) && Size(t1) == Size(t) &&
            Replace(t1, z, RotL(m)) == Replace(t, z, RotL(m))
  {
    ConsistentSound(h, t);
    RotationCodeAt(h, t, z);
    var s := Subtree(t, z);
    var y := h[z].right;
    RealizesIds(h, y, s.right);
    ChildSetting(h, t, z, y);
    SubtreeIds(t, z);
    assert y !in Ids(s.left);
    assert Subtree(t, y) == s.right;
    RealizesIds(h, h[y].left, s.right.left);
    RotateRightSound(h, t, y, fuel);
    var h1 := RotateRight(h, y, fuel).value;
    var sy := RotR(s.right);
    var t1 := Replace(t, y, sy);
    RotRSame(s.right);
    var m := Branch(s.left, z, s.key, sy);
    ReplaceInside(t, z, y, sy, RotL(m));
    SubtreeIds(t, z);
    assert z !in Ids(Subtree(t, y));
    PathReplaceOut(t, y, sy, z);
    assert Path(t1, z) == Path(t1, y)[2..];
    UpLinkedDrop(h1, t1, y, z, 2);
  }

  /** Case 3 of `AVLcondition()` at `z` (avlTree.h:103-106), the mirror image of case 2. */
  lemma VisitRightLeft(h: seq<Node>, t: Shape, z: int, fuel: nat)
    requires Consistent(h, t) && z in Ids(t) && fuel >= Size(t)
    requires Subtree(t, z).Branch? && Subtree(t, z).right.Branch? && Subtree(t, z).right.left.Branch?
    ensures IsNode(h, z) && h[z].right != NIL && RotateRight(h, h[z].right, fuel).Some?
    ensures var h1 := RotateRight(h, h[z].right, fuel).value;
            IsNode(h1, z) && ArenaOK(h1) && RotateLeft(h1, z, fuel).Some? &&
            var s := Subtree(t, z);
            var t2 := Replace(t, z, RotL(Branch(s.left, z, s.key, RotR(s.right))));
            var r := RotateLeft(h1, z, fuel).value;
            Sound(r, t2) && UpLinked(r, t2, z) &&
            Ids(t2) == Ids(t) && Keys(t2) == Keys(t) && Size(t2) == Size(t)
  {
    RightLeftFirst(h, t, z, fuel);
    var s := Subtree(t, z);
    var h1 := RotateRight(h, h[z].right, fuel).value;
    var t1 := Replace(t, h[z].right, RotR(s.right));
    var m := Branch(s.left, z, s.key, RotR(s.right));
    SubtreeRealized(h1, h1[SENTINEL].left, t1, z);
    RealizesIds(h1, h1[z].right, m.right);
    RotateLeftSound(h1, t1, z, fuel);
  }

  /**
   * One pass of the loop of `AVLcondition()` at a node `z` of a consistent tree
   * (avlTree.h:79-108): nothing when `z` is AVL-complete or the code is 0, otherwise the
   * rotations of its code.  The arena then realizes the tree with the subtree at `z` replaced
   * by its abstract rebalancing, soundly, and the walk up from `z` follows that tree.
   */
  lemma VisitSound(h: seq<Node>, t: Shape, z: int, fuel: nat)
    requires Consistent(h, t) && z in Ids(t) && fuel >= Size(t)
    ensures IsNode(h, z) && Visit(h, z, fuel).Some?
    ensures RootBalanced(Subtree(t, z)) ==> Visit(h, z, fuel) == Some(h)
    ensures var r, t2 := Visit(h, z, fuel).value, Replace(t, z, Rebalanced(Subtree(t, z)));
            Sound(r, t2) && UpLinked(r, t2, z) &&
            Ids(t2) == Ids(t) && Keys(t2) == Keys(t) && Size(t2) == Size(t)
  {
    ConsistentSound(h, t);
    RotationCodeAt(h, t, z);
    var s := Subtree(t, z);
    ReplaceSelf(t, z);
    RealizesIds(h, h[z].left, s.left);
    RealizesIds(h, h[z].right, s.right);
    SubtreeIds(t, z);
    if !RootBalanced(s) {
      var code := RotationCode(s);
      if code == 1 {
        RotateRightSound(h, t, z, fuel);
      } else if code == 2 {
        VisitLeftRight(h, t, z, fuel);
      } else if code == 3 {
        VisitRightLeft(h, t, z, fuel);
      } else if code == 4 {
        RotateLeftSound(h, t, z, fuel);
      }
    }
  }

  /**
   * On a sound AVL-balanced tree, the walk of `AVLcondition()` from a node whose path up is
   * linked finds every node it visits AVL-complete and changes nothing.
   */
  lemma WalkIdentity(h: seq<Node>, t: Shape, u: int, fuel: nat)
    requires Sound(h, t) && u in Ids(t) && UpLinked(h, t, u) && Balanced(t)
    requires |Path(t, u)| <= fuel + 1
    ensures IsNode(h, u) && AVLWalk(h, u, fuel) == Some(h)
  {
    BalancedIffComplete(h, h[SENTINEL].left, t);
    var P := Path(t, u);
    PathShape(t, u);
    forall i | 0 < i < |P| ensures P[i] != SENTINEL && IsAVLComplete(h, P[i]) {
      assert P[i] in Ids(t);
    }
    WalkChain(h, P, fuel, fuel - (|P| - 1));
    assert !HasParent(h, P[|P| - 1]);
  }

  /**
   * The parent links from `P[0]` run through the nodes of `P`, and every node after the first
   * is AVL-complete.
   */
  ghost predicate CompleteChain(h: seq<Node>, P: seq<int>)
  {
    ArenaOK(h) && |P| > 0 &&
    (forall i :: 0 <= i < |P| ==> IsNode(h, P[i])) &&
    (forall i, k :: 0 <= i && k == i + 1 && k < |P| ==> h[P[i]].parent == P[k]) &&
    (forall i :: 0 < i < |P| ==> P[i] != SENTINEL && IsAVLComplete(h, P[i]))
  }

  /** The walk along a chain of AVL-complete nodes changes nothing until its last node. */
  lemma {:induction false} WalkChain(h: seq<Node>, P: seq<int>, fuel: nat, rest: nat)
    requires CompleteChain(h, P) && rest + |P| - 1 == fuel
    ensures AVLWalk(h, P[0], fuel) == AVLWalk(h, P[|P| - 1], rest)
    decreases |P|
  {
    if |P| > 1 {
      var u, z, f1 := P[0], P[1], fuel - 1;
      var Q := ChainTail(h, P);
      WalkChain(h, Q, f1, rest);
      WalkPass(h, u, z, fuel, f1);
    }
  }

  /** A chain without its first node is a chain from the second node to the same last node. */
  lemma ChainTail(h: seq<Node>, P: seq<int>) returns (Q: seq<int>)
    requires CompleteChain(h, P) && |P| > 1
    ensures Q == P[1..] && CompleteChain(h, Q) && Q[0] == P[1] && Q[|Q| - 1] == P[|P| - 1]
    ensures |Q| == |P| - 1
    ensures ArenaOK(h) && IsNode(h, P[0]) && h[P[0]].parent == P[1] && P[1] != SENTINEL
    ensures IsNode(h, P[1]) && IsAVLComplete(h, P[1])
  {
    Q := P[1..];
    forall i, k | 0 <= i && k == i + 1 && k < |Q| ensures h[Q[i]].parent == Q[k] {
      assert Q[i] == P[i + 1] && Q[k] == P[k + 1];
    }
  }

  /** The walk passes an AVL-complete parent `z` of `u` without changing anything. */
  lemma WalkPass(h: seq<Node>, u: int, z: int, fuel: nat, f1: nat)
    requires ArenaOK(h) && IsNode(h, u) && fuel > 0 && f1 == fuel - 1
    requires h[u].parent == z && z != SENTINEL && IsNode(h, z) && IsAVLComplete(h, z)
    ensures AVLWalk(h, u, fuel) == AVLWalk(h, z, f1)
  {
    assert HasParent(h, u);
    var f := AVLWalkUnfold(h, u, fuel);
    assert f == f1;
    VisitSkip(h, z, fuel);
  }

  /**
   * The walk from `u` visits its parent `z` first; when that visit leaves a sound AVL-balanced
   * tree whose path up from `z` is linked, that visit is all the walk changes.
   */
  lemma SettleArena(h: seq<Node>, u: int, z: int, r: seq<Node>, a: Shape, rest: nat)
    requires ArenaOK(h) && IsNode(h, u) && h[u].parent == z && z != SENTINEL && IsNode(h, z)
    requires rest > 0 && Visit(h, z, rest) == Some(r)
    requires Sound(r, a) && z in Ids(a) && UpLinked(r, a, z) && Balanced(a) && |Path(a, z)| <= rest
    ensures AVLWalk(h, u, rest) == Some(r)
  {
    WalkIdentity(r, a, z, rest - 1);
    assert HasParent(h, u);
  }

  /**
   * The first `j + 1` nodes of the path of `c` up a sound tree form a chain when the subtrees
   * of all but the first are balanced at their roots.
   */
  lemma ChainOfPath(h: seq<Node>, g: Shape, c: int, j: nat)
    requires Sound(h, g) && c in Ids(g) && UpLinked(h, g, c) && j < |Path(g, c)|
    requires forall i :: 0 < i <= j ==> RootBalanced(Subtree(g, Path(g, c)[i]))
    ensures CompleteChain(h, Path(g, c)[..j + 1])
  {
    var P := Path(g, c);
    PathShape(g, c);
    var Q := P[..j + 1];
    forall i | 0 < i < |Q| ensures Q[i] != SENTINEL && IsAVLComplete(h, Q[i]) {
      assert Q[i] == P[i] && P[i] in Ids(g);
      RotationCodeAt(h, g, P[i]);
    }
    forall i, k | 0 <= i && k == i + 1 && k < |Q| ensures h[Q[i]].parent == Q[k] {
      assert Q[i] == P[i] && Q[k] == P[i + 1];
    }
  }

  /**
   * The walk of `AVLcondition()` from the new leaf `c` of a consistent tree `g`: it passes
   * unchanged the first `j` nodes above `c`, whose subtrees are balanced at their roots; then
   * either it has reached the root and `g` is the result, or the next node up is rebalanced
   * into `a`, which is AVL-balanced.
   */
  lemma WalkFrom(h: seq<Node>, g: Shape, a: Shape, c: int, j: nat, fuel: nat)
    requires Consistent(h, g) && c in Ids(g) && j < |Path(g, c)|
    requires fuel >= Size(g) + |Path(g, c)|
    requires forall i :: 0 < i <= j ==> RootBalanced(Subtree(g, Path(g, c)[i]))
    requires j == |Path(g, c)| - 1 ==> a == g
    requires j < |Path(g, c)| - 1 ==>
               a == Replace(g, Path(g, c)[j + 1], Rebalanced(Subtree(g, Path(g, c)[j + 1]))) &&
               Balanced(a)
    ensures IsNode(h, c) && AVLWalk(h, c, fuel).Some? && Sound(AVLWalk(h, c, fuel).value, a)
    ensures j == |Path(g, c)| - 1 ==> AVLWalk(h, c, fuel) == Some(h)
  {
    ConsistentSound(h, g);
    var P := Path(g, c);
    PathShape(g, c);
    ChainOfPath(h, g, c, j);
    var Q := P[..j + 1];
    var rest := fuel - j;
    WalkChain(h, Q, fuel, rest);
    var u := P[j];
    assert Q[0] == c && Q[|Q| - 1] == u;
    if j == |P| - 1 {
      assert !HasParent(h, u);
    } else {
      var z := P[j + 1];
      assert h[u].parent == z && z in Ids(g);
      VisitSound(h, g, z, rest);
      var r1 := Visit(h, z, rest).value;
      PathShape(a, z);
      SettleArena(h, u, z, r1, a, rest);
    }
  }

  /**
   * `insert(n)` of a new key into a consistent AVL-balanced tree (avlTree.h:44-64): the
   * arena afterwards realizes `AvlInsert(t, |h|, n)` with every stored height and count right;
   * that tree is AVL-balanced, one level taller at most, a search tree whose in-order keys are
   * the old ones with `n` in sorted position, and holds the new node `|h|` besides the old ones.
   */
  lemma InsertBalanced(h: seq<Node>, t: Shape, n: int, fuel: nat)
    requires Consistent(h, t) && Balanced(t) && n !in Keys(t) && fuel >= 2 * Size(t) + 2
    ensures Inserted(h, SENTINEL, n, FromSentinel(h, t), fuel).Some?
    ensures var r, a := Inserted(h, SENTINEL, n, FromSentinel(h, t), fuel).value, AvlInsert(t, |h|, n);
            |r| == |h| + 1 && Sound(r, a) && Balanced(a) &&
            Height(t) <= Height(a) <= Height(t) + 1 &&
            Ids(a) == Ids(t) + {|h|} && Keys(a) == Keys(Grow(t, |h|, n)) &&
            multiset(Keys(a)) == multiset(Keys(t)) + multiset{n}
    ensures var r, g, c := Inserted(h, SENTINEL, n, FromSentinel(h, t), fuel).value, Grow(t, |h|, n), |h|;
            (forall i :: 0 < i < |Path(g, c)| ==> RootBalanced(Subtree(g, Path(g, c)[i]))) ==>
              Consistent(r, g) && AvlInsert(t, c, n) == g
  {
    NewKeyState(h, t, n, fuel);
    var c := |h|;
    var w := BeforeWalk(h, t, n, fuel).value;
    RealizesIds(h, h[SENTINEL].left, t);
    assert c !in Ids(t);
    GrowLeaf(t, c, n);
    GrowIds(t, c, n);
    PathShape(Grow(t, c, n), c);
    var g := Grow(t, c, n);
    assert Growing(t, c, n, c);
    var j := ClimbShape(t, c, n, c, g, AvlInsert(t, c, n));
    PathShape(g, c);
    WalkFrom(w, g, AvlInsert(t, c, n), c, j, fuel);
    if forall i :: 0 < i < |Path(g, c)| ==> RootBalanced(Subtree(g, Path(g, c)[i])) {
      WalkFrom(w, g, g, c, |Path(g, c)| - 1, fuel);
      RealizesUnique(w, w[SENTINEL].left, g, AvlInsert(t, c, n));
    }
    AvlInsertBalanced(t, c, n);
    AvlInsertSame(t, c, n);
    GrowMultiset(t, c, n);
  }
}
