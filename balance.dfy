/**
 * The rebalancing of the header on the abstract tree: the rotation code `AVLcondition()`
 * computes at a node, the rotations it then performs, and the insertion they make of
 * `insert(n)`: grow the tree by a leaf, then rebalance every node from the leaf's parent up.
 * On an AVL-balanced tree the result is AVL-balanced again, its height grows by at most one,
 * and at most one node is rotated.
 */
module AvlBalance {
  import opened AvlNodes
  import opened AvlShape
  import opened AvlPaths
  import opened AvlRotShape
  import opened AvlGrow

  /** `isAVLComplete()` at the root of `z`: the two subtree heights differ by at most one. */
  predicate RootBalanced(z: Shape)
  {
    z.Empty? || -1 <= Height(z.left) - Height(z.right) <= 1
  }

  /**
   * The `rotation` code of `AVLcondition()` at the root of `z` (avlTree.h:80-95): 1 left-left,
   * 2 left-right, 3 right-left, 4 right-right, 0 on equal heights of the heavy child's two
   * subtrees.
   */
  function RotationCode(z: Shape): (code: int)
    ensures 0 <= code <= 4
    ensures code == 1 || code == 2 ==> z.Branch? && z.left.Branch? && Height(z.left) > Height(z.right)
    ensures code == 3 || code == 4 ==> z.Branch? && z.right.Branch? && Height(z.right) > Height(z.left)
    ensures z.Branch? && z.left.Branch? && Height(z.left) > Height(z.right) ==>
              (code == 1 <==> Height(z.left.left) > Height(z.left.right)) &&
              (code == 2 <==> Height(z.left.right) > Height(z.left.left))
    ensures z.Branch? && z.right.Branch? && Height(z.right) > Height(z.left) ==>
              (code == 3 <==> Height(z.right.left) > Height(z.right.right)) &&
              (code == 4 <==> Height(z.right.right) > Height(z.right.left))
  {
    match z
    case Empty => 0
    case Branch(l, _, _, r) =>
      if Height(l) > Height(r) then
        (match l
         case Empty => 0
         case Branch(ll, _, _, lr) =>
           if Height(ll) > Height(lr) then 1 else if Height(lr) > Height(ll) then 2 else 0)
      else if Height(r) > Height(l) then
        (match r
         case Empty => 0
         case Branch(rl, _, _, rr) =>
           if Height(rl) > Height(rr) then 3 else if Height(rr) > Height(rl) then 4 else 0)
      else 0
  }

  /**
   * One pass of the loop of `AVLcondition()` at the root of `z` (avlTree.h:79-108): nothing when
   * the root is AVL-complete; otherwise the rotations the code selects, with the fall-through
   * of case 2 into case 1 and of case 3 into case 4.
   */
  function Rebalanced(z: Shape): Shape
  {
    if RootBalanced(z) then z
    else
      match RotationCode(z)
      case 1 => RotR(z)
      case 2 => RotR(Branch(RotL(z.left), z.id, z.key, z.right))
      case 3 => RotL(Branch(z.left, z.id, z.key, RotR(z.right)))
      case 4 => RotL(z)
      case _ => z
  }

  /**
   * No rotation on ties (avlTree.h:87-88, 93-94): at a root that is not AVL-complete whose
   * heavier child has two subtrees of equal height, the code stays 0 and the pass leaves the
   * tree as it is.
   */
  lemma TieKeeps(z: Shape)
    requires z.Branch? && !RootBalanced(z)
    requires (Height(z.left) > Height(z.right) && z.left.Branch? &&
              Height(z.left.left) == Height(z.left.right)) ||
             (Height(z.right) > Height(z.left) && z.right.Branch? &&
              Height(z.right.left) == Height(z.right.right))
    ensures RotationCode(z) == 0 && Rebalanced(z) == z
  {
  }

  /**
   * The tree `insert(n)` leaves, as a recursion on the tree: the new leaf `c` where the descent
   * falls off, and the rebalancing of every node on the way back up, lowest first, as
   * `AVLcondition()` visits them.
   */
  function AvlInsert(t: Shape, c: int, n: int): Shape
  {
    match t
    case Empty => Branch(Empty, c, n, Empty)
    case Branch(l, id, k, r) =>
      if n < k then Rebalanced(Branch(AvlInsert(l, c, n), id, k, r))
      else if n == k then t
      else Rebalanced(Branch(l, id, k, AvlInsert(r, c, n)))
  }

  /** Rebalancing keeps the nodes, the in-order keys, the size and distinctness. */
  lemma RebalancedSame(z: Shape)
    requires Distinct(z)
    ensures var b := Rebalanced(z);
            Ids(b) == Ids(z) && Keys(b) == Keys(z) && Size(b) == Size(z) && Distinct(b)
  {
    if !RootBalanced(z) {
      var code := RotationCode(z);
      if code == 1 {
        RotRSame(z);
        RotRDistinct(z);
      } else if code == 2 {
        var m := Branch(RotL(z.left), z.id, z.key, z.right);
        RotLSame(z.left);
        RotLDistinct(z.left);
        assert Keys(m) == Keys(z);
        RotRSame(m);
        RotRDistinct(m);
      } else if code == 3 {
        var m := Branch(z.left, z.id, z.key, RotR(z.right));
        RotRSame(z.right);
        RotRDistinct(z.right);
        assert Keys(m) == Keys(z);
        RotLSame(m);
        RotLDistinct(m);
      } else if code == 4 {
        RotLSame(z);
        RotLDistinct(z);
      }
    }
  }

  /**
   * Inserting an absent key `n` as the fresh node `c` gives a tree of distinct nodes with `c`
   * besides the old ones, whose in-order keys are those of the grown tree: the old keys with
   * `n` in sorted position.
   */
  lemma {:induction false} AvlInsertSame(t: Shape, c: int, n: int)
    requires Distinct(t) && c !in Ids(t) && n !in Keys(t)
    ensures var a := AvlInsert(t, c, n);
            Ids(a) == Ids(t) + {c} && Keys(a) == Keys(Grow(t, c, n)) &&
            Size(a) == Size(t) + 1 && Distinct(a)
  {
    match t
    case Empty =>
    case Branch(l, id, k, r) =>
      assert Keys(t) == Keys(l) + [k] + Keys(r);
      if n < k {
        AvlInsertSame(l, c, n);
        SameLeft(l, id, k, r, c, n);
      } else {
        AvlInsertSame(r, c, n);
        SameRight(l, id, k, r, c, n);
      }
  }

  /** The step of `AvlInsertSame` at a node whose left subtree takes the new key. */
  lemma SameLeft(l: Shape, id: int, k: int, r: Shape, c: int, n: int)
    requires Distinct(Branch(l, id, k, r)) && c !in Ids(Branch(l, id, k, r)) && n < k
    requires var a := AvlInsert(l, c, n);
             Ids(a) == Ids(l) + {c} && Keys(a) == Keys(Grow(l, c, n)) &&
             Size(a) == Size(l) + 1 && Distinct(a)
    ensures var t := Branch(l, id, k, r);
            var a := AvlInsert(t, c, n);
            Ids(a) == Ids(t) + {c} && Keys(a) == Keys(Grow(t, c, n)) &&
            Size(a) == Size(t) + 1 && Distinct(a)
  {
    var z := Branch(AvlInsert(l, c, n), id, k, r);
    RebalancedSame(z);
    assert AvlInsert(Branch(l, id, k, r), c, n) == Rebalanced(z);
    assert Grow(Branch(l, id, k, r), c, n) == Branch(Grow(l, c, n), id, k, r);
  }

  /** The step of `AvlInsertSame` at a node whose right subtree takes the new key. */
  lemma SameRight(l: Shape, id: int, k: int, r: Shape, c: int, n: int)
    requires Distinct(Branch(l, id, k, r)) && c !in Ids(Branch(l, id, k, r)) && n > k
    requires var a := AvlInsert(r, c, n);
             Ids(a) == Ids(r) + {c} && Keys(a) == Keys(Grow(r, c, n)) &&
             Size(a) == Size(r) + 1 && Distinct(a)
    ensures var t := Branch(l, id, k, r);
            var a := AvlInsert(t, c, n);
            Ids(a) == Ids(t) + {c} && Keys(a) == Keys(Grow(t, c, n)) &&
            Size(a) == Size(t) + 1 && Distinct(a)
  {
    var z := Branch(l, id, k, AvlInsert(r, c, n));
    RebalancedSame(z);
    assert AvlInsert(Branch(l, id, k, r), c, n) == Rebalanced(z);
    assert Grow(Branch(l, id, k, r), c, n) == Branch(l, id, k, Grow(r, c, n));
  }

  /** Growing a tree by a leaf raises its height by at most one. */
  lemma {:induction false} GrowHeight(t: Shape, c: int, n: int)
    ensures Height(t) <= Height(Grow(t, c, n)) <= Height(t) + 1
  {
    match t
    case Empty =>
    case Branch(l, id, k, r) =>
      if n < k { GrowHeight(l, c, n); } else if n > k { GrowHeight(r, c, n); }
  }

  /**
   * Case 1 of `AVLcondition()`: a node two levels heavier on the left whose left child leans
   * left by one is AVL-balanced after a right rotation, one level lower than before.
   */
  lemma RotateLeftLeft(z: Shape)
    requires z.Branch? && z.left.Branch?
    requires Balanced(z.left.left) && Balanced(z.left.right) && Balanced(z.right)
    requires Height(z.left) == Height(z.right) + 2
    requires Height(z.left.left) == Height(z.left.right) + 1
    ensures Balanced(RotR(z)) && Height(RotR(z)) == Height(z.left)
  {
  }

  /**
   * Case 2 of `AVLcondition()`: a node two levels heavier on the left whose left child leans
   * right by one is AVL-balanced after a left rotation of the child and a right rotation of the
   * node, one level lower than before.
   */
  lemma RotateLeftRight(z: Shape)
    requires z.Branch? && z.left.Branch? && z.left.right.Branch?
    requires Balanced(z.left.left) && Balanced(z.left.right) && Balanced(z.right)
    requires Height(z.left) == Height(z.right) + 2
    requires Height(z.left.right) == Height(z.left.left) + 1
    ensures var m := RotR(Branch(RotL(z.left), z.id, z.key, z.right));
            Balanced(m) && Height(m) == Height(z.left)
  {
    var b := z.left.right;
    assert Balanced(b.left) && Balanced(b.right);
  }

  /** Case 3 of `AVLcondition()`, the mirror image of case 2. */
  lemma RotateRightLeft(z: Shape)
    requires z.Branch? && z.right.Branch? && z.right.left.Branch?
    requires Balanced(z.right.right) && Balanced(z.right.left) && Balanced(z.left)
    requires Height(z.right) == Height(z.left) + 2
    requires Height(z.right.left) == Height(z.right.right) + 1
    ensures var m := RotL(Branch(z.left, z.id, z.key, RotR(z.right)));
            Balanced(m) && Height(m) == Height(z.right)
  {
    var b := z.right.left;
    assert Balanced(b.left) && Balanced(b.right);
  }

  /** Case 4 of `AVLcondition()`, the mirror image of case 1. */
  lemma RotateRightRight(z: Shape)
    requires z.Branch? && z.right.Branch?
    requires Balanced(z.right.right) && Balanced(z.right.left) && Balanced(z.left)
    requires Height(z.right) == Height(z.left) + 2
    requires Height(z.right.right) == Height(z.right.left) + 1
    ensures Balanced(RotL(z)) && Height(RotL(z)) == Height(z.right)
  {
  }

  /**
   * A node whose subtrees are AVL-balanced, one of them heavier by two and leaning strictly
   * to one side, is rebalanced into an AVL-balanced tree one level lower.
   */
  lemma RebalanceTwo(z: Shape)
    requires z.Branch? && Balanced(z.left) && Balanced(z.right)
    requires Height(z.left) == Height(z.right) + 2 || Height(z.right) == Height(z.left) + 2
    requires Height(z.left) > Height(z.right) ==>
               z.left.Branch? && (Height(z.left.left) - Height(z.left.right) == 1 ||
                                  Height(z.left.right) - Height(z.left.left) == 1)
    requires Height(z.right) > Height(z.left) ==>
               z.right.Branch? && (Height(z.right.left) - Height(z.right.right) == 1 ||
                                   Height(z.right.right) - Height(z.right.left) == 1)
    ensures Balanced(Rebalanced(z)) && Height(Rebalanced(z)) == Height(z) - 1
    ensures RotationCode(z) != 0
  {
    var code := RotationCode(z);
    if Height(z.left) > Height(z.right) {
      if Height(z.left.left) > Height(z.left.right) {
        assert code == 1;
        RotateLeftLeft(z);
      } else {
        assert code == 2;
        RotateLeftRight(z);
      }
    } else {
      if Height(z.right.left) > Height(z.right.right) {
        assert code == 3;
        RotateRightLeft(z);
      } else {
        assert code == 4;
        RotateRightRight(z);
      }
    }
  }

  /**
   * On an AVL-balanced tree, inserting an absent key gives an AVL-balanced tree whose height
   * grows by at most one; when it grows, the root leans by exactly one level to one side
   * (unless the tree was empty).
   */
  lemma {:induction false} AvlInsertBalanced(t: Shape, c: int, n: int)
    requires Balanced(t) && n !in Keys(t)
    ensures var a := AvlInsert(t, c, n);
            Balanced(a) && Height(t) <= Height(a) <= Height(t) + 1 &&
            (Height(a) == Height(t) + 1 && t.Branch? ==>
               a.Branch? && (Height(a.left) - Height(a.right) == 1 ||
                             Height(a.right) - Height(a.left) == 1))
  {
    match t
    case Empty =>
    case Branch(l, id, k, r) =>
      assert Keys(t) == Keys(l) + [k] + Keys(r);
      if n < k {
        AvlInsertBalanced(l, c, n);
        BalancedLeft(l, id, k, r, c, n);
      } else {
        AvlInsertBalanced(r, c, n);
        BalancedRight(l, id, k, r, c, n);
      }
  }

  /** The step of `AvlInsertBalanced` at a node whose left subtree takes the new key. */
  lemma BalancedLeft(l: Shape, id: int, k: int, r: Shape, c: int, n: int)
    requires Balanced(Branch(l, id, k, r)) && n < k
    requires var a := AvlInsert(l, c, n);
             Balanced(a) && Height(l) <= Height(a) <= Height(l) + 1 &&
             (Height(a) == Height(l) + 1 && l.Branch? ==>
                a.Branch? && (Height(a.left) - Height(a.right) == 1 ||
                              Height(a.right) - Height(a.left) == 1))
    ensures var t := Branch(l, id, k, r);
            var a := AvlInsert(t, c, n);
            Balanced(a) && Height(t) <= Height(a) <= Height(t) + 1 &&
            (Height(a) == Height(t) + 1 ==>
               a.Branch? && (Height(a.left) - Height(a.right) == 1 ||
                             Height(a.right) - Height(a.left) == 1))
  {
    var z := Branch(AvlInsert(l, c, n), id, k, r);
    assert AvlInsert(Branch(l, id, k, r), c, n) == Rebalanced(z);
    if !RootBalanced(z) {
      RebalanceTwo(z);
    }
  }

  /** The step of `AvlInsertBalanced` at a node whose right subtree takes the new key. */
  lemma BalancedRight(l: Shape, id: int, k: int, r: Shape, c: int, n: int)
    requires Balanced(Branch(l, id, k, r)) && n > k
    requires var a := AvlInsert(r, c, n);
             Balanced(a) && Height(r) <= Height(a) <= Height(r) + 1 &&
             (Height(a) == Height(r) + 1 && r.Branch? ==>
                a.Branch? && (Height(a.left) - Height(a.right) == 1 ||
                              Height(a.right) - Height(a.left) == 1))
    ensures var t := Branch(l, id, k, r);
            var a := AvlInsert(t, c, n);
            Balanced(a) && Height(t) <= Height(a) <= Height(t) + 1 &&
            (Height(a) == Height(t) + 1 ==>
               a.Branch? && (Height(a.left) - Height(a.right) == 1 ||
                             Height(a.right) - Height(a.left) == 1))
  {
    var z := Branch(l, id, k, AvlInsert(r, c, n));
    assert AvlInsert(Branch(l, id, k, r), c, n) == Rebalanced(z);
    if !RootBalanced(z) {
      RebalanceTwo(z);
    }
  }

  // ---------------------------------------------------------------------------------------
  // Where the walk of `AVLcondition()` is on the grown tree

  /** A node outside a tree has no subtree in it. */
  lemma {:induction false} SubtreeAbsent(t: Shape, u: int)
    requires u !in Ids(t)
    ensures Subtree(t, u) == Empty
  {
    match t
    case Empty =>
    case Branch(l, id, _, r) => SubtreeAbsent(r, u);
  }

  /** Putting a subtree back where it was leaves the tree as it is. */
  lemma {:induction false} ReplaceSelf(t: Shape, x: int)
    requires x in Ids(t)
    ensures Replace(t, x, Subtree(t, x)) == t
  {
    match t
    case Branch(l, id, k, r) =>
      if x != id {
        if x in Ids(l) { ReplaceSelf(l, x); } else { ReplaceSelf(r, x); }
      }
  }

  /** The new leaf is the first node of its own path in the grown tree. */
  lemma GrowLeaf(t: Shape, c: int, n: int)
    requires Distinct(t) && c !in Ids(t) && n !in Keys(t)
    ensures var g := Grow(t, c, n);
            c in Ids(g) && Distinct(g) && c in Path(g, c) &&
            Subtree(g, c) == Branch(Empty, c, n, Empty) && Subtree(t, c) == Empty
  {
    GrowIds(t, c, n);
    GrowLeafSubtree(t, c, n);
    PathShape(Grow(t, c, n), c);
    SubtreeAbsent(t, c);
  }

  lemma {:induction false} GrowLeafSubtree(t: Shape, c: int, n: int)
    requires Distinct(t) && c !in Ids(t) && n !in Keys(t)
    ensures Subtree(Grow(t, c, n), c) == Branch(Empty, c, n, Empty)
  {
    match t
    case Empty =>
    case Branch(l, id, k, r) =>
      assert Keys(t) == Keys(l) + [k] + Keys(r);
      if n < k {
        GrowLeafSubtree(l, c, n);
        GrowIds(l, c, n);
      } else {
        GrowLeafSubtree(r, c, n);
        GrowIds(r, c, n);
        GrowIds(l, c, n);
      }
  }

  /** The path of the new leaf goes down the side of each of its ancestors that `n` selects. */
  lemma GrowPathSide(t: Shape, c: int, n: int, v: int)
    requires t.Branch? && Distinct(t) && c !in Ids(t) && n !in Keys(t)
    requires v in Path(Grow(t, c, n), c) && v != t.id
    ensures n < t.key ==> v in Path(Grow(t.left, c, n), c)
    ensures n > t.key ==> v in Path(Grow(t.right, c, n), c)
    ensures n != t.key
  {
    assert Keys(t) == Keys(t.left) + [t.key] + Keys(t.right);
    GrowIds(t.left, c, n);
    GrowIds(t.right, c, n);
  }

  /**
   * The node above a node `u` of the new leaf's path: a node of the old tree, whose subtree
   * grows on the side `n` selects by what grew below `u`; the other side is unchanged.
   */
  lemma {:induction false} GrowStep(t: Shape, c: int, n: int, u: int)
    requires Distinct(t) && c !in Ids(t) && n !in Keys(t)
    requires u in Path(Grow(t, c, n), c) && u != Grow(t, c, n).id
    ensures var g := Grow(t, c, n);
            |Path(g, u)| >= 2 && var z := Path(g, u)[1];
            z in Ids(t) && z in Path(g, c) && Path(g, z) == Path(g, u)[1..] &&
            var s := Subtree(t, z);
            s.Branch? && s.id == z && n != s.key &&
            (n < s.key ==> Subtree(t, u) == s.left &&
                           Subtree(g, z) == Branch(Subtree(g, u), z, s.key, s.right)) &&
            (n > s.key ==> Subtree(t, u) == s.right &&
                           Subtree(g, z) == Branch(s.left, z, s.key, Subtree(g, u)))
    decreases t, 1
  {
    GrowIds(t, c, n);
    GrowPathSide(t, c, n, u);
    if n < t.key {
      GrowStepLeft(t, c, n, u);
    } else {
      GrowStepRight(t, c, n, u);
    }
  }

  /** `GrowStep` when the new key lies left of the root. */
  lemma {:induction false} GrowStepLeft(t: Shape, c: int, n: int, u: int)
    requires t.Branch? && n < t.key && Distinct(t) && c !in Ids(t) && n !in Keys(t)
    requires u in Path(Grow(t.left, c, n), c)
    ensures var g := Grow(t, c, n);
            |Path(g, u)| >= 2 && var z := Path(g, u)[1];
            z in Ids(t) && z in Path(g, c) && Path(g, z) == Path(g, u)[1..] &&
            var s := Subtree(t, z);
            s.Branch? && s.id == z && n != s.key &&
            (n < s.key ==> Subtree(t, u) == s.left &&
                           Subtree(g, z) == Branch(Subtree(g, u), z, s.key, s.right)) &&
            (n > s.key ==> Subtree(t, u) == s.right &&
                           Subtree(g, z) == Branch(s.left, z, s.key, Subtree(g, u)))
    decreases t, 0
  {
    var l, id, k, r := t.left, t.id, t.key, t.right;
    var g := Grow(t, c, n);
    var gs := Grow(l, c, n);
    assert Keys(t) == Keys(l) + [k] + Keys(r);
    GrowIds(l, c, n);
    assert g == Branch(gs, id, k, r);
    PathShape(gs, c);
    assert u in Ids(gs) && u != id;
    assert Path(g, c) == Path(gs, c) + [id];
    assert Path(g, u) == Path(gs, u) + [id];
    if u == gs.id {
      assert Path(g, u) == [u, id];
      if l.Empty? {
        SubtreeAbsent(t, c);
      }
      assert Path(g, id) == [id];
    } else {
      GrowStep(l, c, n, u);
      var z := Path(gs, u)[1];
      assert z in Ids(l) && z != id;
      assert Path(g, z) == Path(gs, z) + [id];
      assert Path(g, u)[1..] == Path(gs, u)[1..] + [id];
      if u == c {
        SubtreeAbsent(t, c);
        SubtreeAbsent(l, c);
      }
    }
  }

  /** `GrowStep` when the new key lies right of the root. */
  lemma {:induction false} GrowStepRight(t: Shape, c: int, n: int, u: int)
    requires t.Branch? && n > t.key && Distinct(t) && c !in Ids(t) && n !in Keys(t)
    requires u in Path(Grow(t.right, c, n), c)
    ensures var g := Grow(t, c, n);
            |Path(g, u)| >= 2 && var z := Path(g, u)[1];
            z in Ids(t) && z in Path(g, c) && Path(g, z) == Path(g, u)[1..] &&
            var s := Subtree(t, z);
            s.Branch? && s.id == z && n != s.key &&
            (n < s.key ==> Subtree(t, u) == s.left &&
                           Subtree(g, z) == Branch(Subtree(g, u), z, s.key, s.right)) &&
            (n > s.key ==> Subtree(t, u) == s.right &&
                           Subtree(g, z) == Branch(s.left, z, s.key, Subtree(g, u)))
    decreases t, 0
  {
    var l, id, k, r := t.left, t.id, t.key, t.right;
    var g := Grow(t, c, n);
    var gs := Grow(r, c, n);
    assert Keys(t) == Keys(l) + [k] + Keys(r);
    GrowIds(r, c, n);
    assert g == Branch(l, id, k, gs);
    PathShape(gs, c);
    assert u in Ids(gs) && u != id && u !in Ids(l);
    assert c !in Ids(l);
    assert Path(g, c) == Path(gs, c) + [id];
    assert Path(g, u) == Path(gs, u) + [id];
    if u == gs.id {
      assert Path(g, u) == [u, id];
      if r.Empty? {
        SubtreeAbsent(t, c);
      }
      assert Path(g, id) == [id];
    } else {
      GrowStep(r, c, n, u);
      var z := Path(gs, u)[1];
      assert z in Ids(r) && z != id && z !in Ids(l);
      assert Path(g, z) == Path(gs, z) + [id];
      assert Path(g, u)[1..] == Path(gs, u)[1..] + [id];
      if u == c {
        SubtreeAbsent(t, c);
        SubtreeAbsent(r, c);
      }
    }
  }

  /**
   * Above the node `z` where rebalancing brought the height back to its old value, inserting
   * changes nothing: every ancestor keeps its height and its balance, so the tree is the grown
   * tree with the subtree at `z` replaced by the rebalanced one.
   */
  lemma {:induction false} AvlInsertAbove(t: Shape, c: int, n: int, z: int, s: Shape)
    requires Balanced(t) && Distinct(t) && c !in Ids(t) && n !in Keys(t)
    requires z in Ids(t) && z in Path(Grow(t, c, n), c)
    requires s == AvlInsert(Subtree(t, z), c, n) && Balanced(s)
    requires Height(s) == Height(Subtree(t, z))
    ensures AvlInsert(t, c, n) == Replace(Grow(t, c, n), z, s)
    ensures Balanced(AvlInsert(t, c, n)) && Height(AvlInsert(t, c, n)) == Height(t)
  {
    match t
    case Branch(l, id, k, r) =>
      if z != id {
        GrowPathSide(t, c, n, z);
        var side := if n < k then l else r;
        GrowIds(side, c, n);
        PathShape(Grow(side, c, n), c);
        assert z in Ids(side);
        AvlInsertAbove(side, c, n, z, s);
      }
  }

  /** A subtree of an AVL-balanced tree is AVL-balanced, and holds no key the tree lacks. */
  lemma {:induction false} SubtreeInherits(t: Shape, x: int, n: int)
    ensures Balanced(t) ==> Balanced(Subtree(t, x))
    ensures n !in Keys(t) ==> n !in Keys(Subtree(t, x))
  {
    match t
    case Empty =>
    case Branch(l, id, k, r) =>
      assert Keys(t) == Keys(l) + [k] + Keys(r);
      if x != id {
        if x in Ids(l) { SubtreeInherits(l, x, n); } else { SubtreeInherits(r, x, n); }
      }
  }

  /**
   * One step of the walk of `AVLcondition()` up the path of the new leaf, on the abstract tree:
   * below `u` the subtree is already what `AvlInsert` makes of it and grew by one level.  At the
   * parent `z`, rebalancing the grown subtree gives what `AvlInsert` makes of the old subtree at
   * `z`; it grows by one level only when `z` needs no rotation, and when it does not grow the
   * whole insertion is the grown tree with the subtree at `z` rebalanced, AVL-balanced.
   */
  lemma GrowClimb(t: Shape, c: int, n: int, u: int)
    requires Balanced(t) && Distinct(t) && c !in Ids(t) && n !in Keys(t)
    requires u in Path(Grow(t, c, n), c) && u != Grow(t, c, n).id
    requires Subtree(Grow(t, c, n), u) == AvlInsert(Subtree(t, u), c, n)
    requires Height(Subtree(Grow(t, c, n), u)) == Height(Subtree(t, u)) + 1
    ensures var g := Grow(t, c, n);
            |Path(g, u)| >= 2 && var z := Path(g, u)[1];
            z in Ids(t) && z in Path(g, c) && Path(g, z) == Path(g, u)[1..] &&
            var sz, zg := Subtree(t, z), Subtree(g, z);
            AvlInsert(sz, c, n) == Rebalanced(zg) &&
            (Height(Rebalanced(zg)) == Height(sz) + 1 ==> RootBalanced(zg)) &&
            (Height(Rebalanced(zg)) != Height(sz) + 1 ==>
               AvlInsert(t, c, n) == Replace(g, z, Rebalanced(zg)) && Balanced(AvlInsert(t, c, n)))
  {
    var g := Grow(t, c, n);
    GrowStep(t, c, n, u);
    var z := Path(g, u)[1];
    var sz, zg := Subtree(t, z), Subtree(g, z);
    SubtreeInherits(t, z, n);
    SubtreeInherits(t, u, n);
    SubtreeIds(t, z);
    assert Keys(sz) == Keys(sz.left) + [sz.key] + Keys(sz.right);
    AvlInsertBalanced(sz, c, n);
    AvlInsertBalanced(Subtree(t, u), c, n);
    if !RootBalanced(zg) {
      RebalanceTwo(zg);
    }
    if Height(Rebalanced(zg)) != Height(sz) + 1 {
      AvlInsertAbove(t, c, n, z, Rebalanced(zg));
    }
  }

  /**
   * The state of the walk of `AVLcondition()` at a node `u` on the path of the new leaf `c`,
   * on the abstract tree: the subtree at `u` is already what `AvlInsert` makes of the old one
   * and is one level taller.
   */
  ghost predicate Growing(t: Shape, c: int, n: int, u: int)
  {
    var g := Grow(t, c, n);
    Balanced(t) && Distinct(t) && c !in Ids(t) && n !in Keys(t) &&
    u in Path(g, c) && Subtree(g, u) == AvlInsert(Subtree(t, u), c, n) &&
    Height(Subtree(g, u)) == Height(Subtree(t, u)) + 1
  }

  /**
   * The climb of the walk of `AVLcondition()` from a growing node `u`: the first `j + 1`
   * nodes of the path up from `u` head subtrees balanced at their roots, so the walk passes
   * them without a rotation; after them either the root is reached and `AvlInsert` is `Grow`,
   * or the next node up is rebalanced once, nothing above it changes, and the whole tree is
   * AVL-balanced.
   */
  lemma {:induction false} ClimbShape(t: Shape, c: int, n: int, u: int, g: Shape, a: Shape) returns (j: nat)
    requires Growing(t, c, n, u) && g == Grow(t, c, n) && a == AvlInsert(t, c, n)
    ensures var P := Path(g, u);
            u in Ids(g) && j < |P| &&
            (forall i :: 0 <= i <= j ==> RootBalanced(Subtree(g, P[i]))) &&
            (j == |P| - 1 ==> a == g) &&
            (j < |P| - 1 ==> a == Replace(g, P[j + 1], Rebalanced(Subtree(g, P[j + 1]))) && Balanced(a))
    decreases |Path(g, u)|
  {
    if u == g.id {
      ClimbTop(t, c, n, u, g, a);
      j := 0;
    } else {
      var z := ClimbStep(t, c, n, u, g, a);
      if Growing(t, c, n, z) {
        var k := ClimbShape(t, c, n, z, g, a);
        j := ClimbJoin(g, a, u, z, Path(g, u), Path(g, z), k);
      } else {
        j := 0;
      }
    }
  }

  /**
   * The climb from `u` is the climb from its parent `z` with `u` in front, when `u`'s subtree
   * is balanced at its root.
   */
  lemma ClimbJoin(g: Shape, a: Shape, u: int, z: int, P: seq<int>, Pz: seq<int>, k: nat)
    returns (j: nat)
    requires |P| >= 2 && P[0] == u && P[1] == z && Pz == P[1..] && RootBalanced(Subtree(g, u))
    requires k < |Pz| && (forall i :: 0 <= i <= k ==> RootBalanced(Subtree(g, Pz[i])))
    requires k == |Pz| - 1 ==> a == g
    requires k < |Pz| - 1 ==> a == Replace(g, Pz[k + 1], Rebalanced(Subtree(g, Pz[k + 1]))) && Balanced(a)
    ensures j == k + 1 && j < |P| && (forall i :: 0 <= i <= j ==> RootBalanced(Subtree(g, P[i])))
    ensures j == |P| - 1 ==> a == g
    ensures j < |P| - 1 ==> a == Replace(g, P[j + 1], Rebalanced(Subtree(g, P[j + 1]))) && Balanced(a)
  {
    j := k + 1;
    forall i | 0 <= i <= j ensures RootBalanced(Subtree(g, P[i])) {
      if i > 0 {
        assert P[i] == Pz[i - 1];
      }
    }
    assert j + 1 < |P| ==> P[j + 1] == Pz[k + 1];
  }

  /** At the root of the grown tree the climb is over: `AvlInsert` is `Grow`. */
  lemma ClimbTop(t: Shape, c: int, n: int, u: int, g: Shape, a: Shape)
    requires Growing(t, c, n, u) && g == Grow(t, c, n) && a == AvlInsert(t, c, n) && u == g.id
    ensures u in Ids(g) && |Path(g, u)| == 1 && Path(g, u)[0] == u &&
            RootBalanced(Subtree(g, u)) && a == g
  {
    ClimbFacts(t, c, n, u);
    PathRoot(g, u);
    if t.Branch? {
      assert g.id == t.id && Subtree(t, u) == t;
    } else {
      SubtreeAbsent(t, u);
    }
  }

  /**
   * One step of the climb below the root: the parent `z` of `u` either still grows, and the
   * climb goes on from it, or is rebalanced, and `AvlInsert` is `Grow` with the subtree at `z`
   * rebalanced.
   */
  lemma ClimbStep(t: Shape, c: int, n: int, u: int, g: Shape, a: Shape) returns (z: int)
    requires Growing(t, c, n, u) && g == Grow(t, c, n) && a == AvlInsert(t, c, n) && u != g.id
    ensures var P := Path(g, u);
            u in Ids(g) && |P| >= 2 && P[0] == u && P[1] == z && RootBalanced(Subtree(g, u)) &&
            Path(g, z) == P[1..] &&
            (!Growing(t, c, n, z) ==> a == Replace(g, z, Rebalanced(Subtree(g, z))) && Balanced(a))
  {
    ClimbFacts(t, c, n, u);
    GrowClimb(t, c, n, u);
    z := Path(g, u)[1];
    var zg := Subtree(g, z);
    if Height(Rebalanced(zg)) == Height(Subtree(t, z)) + 1 {
      assert Rebalanced(zg) == zg;
    }
  }

  /** A growing node is a node of the grown tree, heads its own path and is balanced at its root. */
  lemma ClimbFacts(t: Shape, c: int, n: int, u: int)
    requires Growing(t, c, n, u)
    ensures var g := Grow(t, c, n);
            Distinct(g) && u in Ids(g) && Path(g, u)[0] == u && RootBalanced(Subtree(g, u))
  {
    var g := Grow(t, c, n);
    GrowLeaf(t, c, n);
    PathShape(g, c);
    PathShape(g, u);
    SubtreeInherits(t, u, n);
    AvlInsertBalanced(Subtree(t, u), c, n);
  }
}
