/**
 * What each mutating member of the header does to the arena, as ghost functions of the old
 * arena.  The methods of `AvlArena` perform the same writes one statement at a time and are
 * proved to end in the state these functions give.
 *
 * The walks up parent links (`updateNumberOfChidren`, `updateParentHeight`, `AVLcondition`)
 * carry a `fuel` bound and yield `None` when they would not stop within it: on an arena whose
 * parent links form a cycle the C++ loops forever, so no bound fits.  `updateChildrenHeight`
 * recurses down child links and needs the subtree below its node to be finite (`Finite`).
 */
module AvlSteps {
  import opened AvlNodes
  import opened AvlShape

  datatype Option<T> = None | Some(value: T)

  // ---------------------------------------------------------------------------------------
  // Single field writes

  /** `i->left = v`. */
  function SetLeft(h: seq<Node>, i: int, v: int): seq<Node>
    requires IsNode(h, i)
  {
    h[i := h[i].(left := v)]
  }

  /** `i->right = v`. */
  function SetRight(h: seq<Node>, i: int, v: int): seq<Node>
    requires IsNode(h, i)
  {
    h[i := h[i].(right := v)]
  }

  /** `i->parent = v`. */
  function SetParent(h: seq<Node>, i: int, v: int): seq<Node>
    requires IsNode(h, i)
  {
    h[i := h[i].(parent := v)]
  }

  /** `i->numberOfChildren += d`. */
  function AddCount(h: seq<Node>, i: int, d: int): seq<Node>
    requires IsNode(h, i)
  {
    h[i := h[i].(numberOfChildren := h[i].numberOfChildren + d)]
  }

  /** `i->height = max(leftHeight, rightHeight) + 1` (avlTree.h:136-138). */
  function FixHeight(h: seq<Node>, i: int): seq<Node>
    requires Closed(h) && IsNode(h, i)
  {
    h[i := h[i].(height := RecomputedHeight(h, i))]
  }

  /** Writing an in-range pointer into a link keeps the arena well formed. */
  lemma LinkOK(h: seq<Node>, i: int, v: int)
    requires ArenaOK(h) && IsNode(h, i) && IsLink(h, v)
    ensures ArenaOK(SetLeft(h, i, v)) && ArenaOK(SetRight(h, i, v)) &&
            ArenaOK(SetParent(h, i, v))
  {
    ArenaUpdate(h, i, h[i].(left := v));
    ArenaUpdate(h, i, h[i].(right := v));
    ArenaUpdate(h, i, h[i].(parent := v));
  }

  /** Changing a count keeps the arena well formed. */
  lemma CountOK(h: seq<Node>, i: int, d: int)
    requires ArenaOK(h) && IsNode(h, i)
    ensures ArenaOK(AddCount(h, i, d))
  {
    ArenaUpdate(h, i, h[i].(numberOfChildren := h[i].numberOfChildren + d));
  }

  /** A recomputed height is never below 0, so fixing it keeps the arena well formed. */
  lemma HeightOK(h: seq<Node>, i: int)
    requires ArenaOK(h) && IsNode(h, i)
    ensures ArenaOK(FixHeight(h, i))
  {
    ArenaUpdate(h, i, h[i].(height := RecomputedHeight(h, i)));
  }

  // ---------------------------------------------------------------------------------------
  // insert: descent, duplicates and leaf creation

  /** Where the descent of `insert(n)` from `p` ends. */
  datatype Place = Found(node: int) | Vacant(parent: int, toLeft: bool)

  /**
   * The descent of `insert(n)` started at `p` (avlTree.h:44-62): left for a smaller key or at
   * the sentinel, stop at an equal key, right for a larger key, until the slot to descend into
   * is empty.
   */
  ghost function Locate(h: seq<Node>, p: int, n: int, t: Shape): (r: Place)
    requires Realizes(h, p, t) && p != NIL
    ensures r.Found? ==> r.node in Ids(t) && IsNode(h, r.node) && h[r.node].data == n &&
                         h[r.node].times != NOTIMES
    ensures r.Vacant? ==> r.parent in Ids(t) && IsNode(h, r.parent) &&
                          (if r.toLeft then h[r.parent].left else h[r.parent].right) == NIL
    decreases t
  {
    if n < h[p].data || h[p].times == NOTIMES then
      if h[p].left != NIL then Locate(h, h[p].left, n, t.left) else Vacant(p, true)
    else if n == h[p].data then Found(p)
    else if h[p].right != NIL then Locate(h, h[p].right, n, t.right) else Vacant(p, false)
  }

  /** `times++` at the node that already holds the key (avlTree.h:52-55). */
  function Bump(h: seq<Node>, q: int): (r: seq<Node>)
    requires ArenaOK(h) && IsNode(h, q) && h[q].times != NOTIMES
    ensures ArenaOK(r) && |r| == |h|
  {
    ClosedUpdate(h, q, h[q].(times := h[q].times + 1));
    h[q := h[q].(times := h[q].times + 1)]
  }

  /**
   * The links `insertLeft(n)`/`insertRight(n)` write (avlTree.h:119-133): a fresh leaf holding
   * `n` is appended to the arena as the new node `|h|`, hung in the chosen slot of `q`, and
   * pointed back at `q`.
   */
  function LinkChild(h: seq<Node>, q: int, n: int, toLeft: bool): (r: seq<Node>)
    requires ArenaOK(h) && IsNode(h, q)
    ensures ArenaOK(r) && |r| == |h| + 1
  {
    var c := |h|;
    var h1 := Allocate(h, n);
    LinkOK(h1, q, c);
    var h2 := if toLeft then SetLeft(h1, q, c) else SetRight(h1, q, c);
    LinkOK(h2, c, q);
    SetParent(h2, c, q)
  }

  /** `new Tree(n)`: the fresh leaf holding `n` becomes the last node of the arena. */
  function Allocate(h: seq<Node>, n: int): (r: seq<Node>)
    requires ArenaOK(h)
    ensures ArenaOK(r) && |r| == |h| + 1
  {
    var h1 := h + [Fresh(n)];
    assert forall i :: 0 <= i < |h| ==> h1[i] == h[i];
    assert Closed(h1) by {
      forall i | 0 <= i < |h1| ensures LinksIn(h1, h1[i]) {
        if i < |h| { assert LinksIn(h, h[i]); }
      }
    }
    h1
  }

  /** The subtree below `p` is finite, so `updateChildrenHeight()` at `p` returns. */
  ghost predicate Finite(h: seq<Node>, p: int)
  {
    exists t :: Realizes(h, p, t)
  }

  /**
   * `updateParentHeight()` at `p` (avlTree.h:135-140): fix the height of `p`, then of each
   * ancestor reached through `parent` while `hasParent()` holds.
   */
  ghost function UpHeights(h: seq<Node>, p: int, fuel: nat): (r: Option<seq<Node>>)
    requires ArenaOK(h) && IsNode(h, p)
    ensures r.Some? ==> ArenaOK(r.value) && |r.value| == |h|
    decreases fuel
  {
    HeightOK(h, p);
    var h1 := FixHeight(h, p);
    if !HasParent(h1, p) then Some(h1)
    else if fuel == 0 then None
    else UpHeights(h1, h1[p].parent, fuel - 1)
  }

  /**
   * `updateHeight()` at `p` (avlTree.h:148-151): `updateChildrenHeight()`, whose result is
   * dropped, then `updateParentHeight()`.
   */
  ghost function UpdatedHeight(h: seq<Node>, p: int, fuel: nat): (r: Option<seq<Node>>)
    requires ArenaOK(h) && IsNode(h, p)
    ensures r.Some? ==> ArenaOK(r.value) && |r.value| == |h|
  {
    if Finite(h, p) then UpHeights(h, p, fuel) else None
  }

  /**
   * `insertLeft(n)` (toLeft) or `insertRight(n)` at `q`: link the new leaf, then
   * `updateHeight()` at `q` when the leaf's parent is a real node.
   */
  ghost function InsertedLeaf(h: seq<Node>, q: int, n: int, toLeft: bool, fuel: nat)
    : (r: Option<seq<Node>>)
    requires ArenaOK(h) && IsNode(h, q)
    ensures r.Some? ==> ArenaOK(r.value) && |r.value| == |h| + 1
  {
    var h1 := LinkChild(h, q, n, toLeft);
    if HasParent(h1, |h|) then UpdatedHeight(h1, q, fuel) else Some(h1)
  }

  /**
   * `updateNumberOfChidren()` at `p` (avlTree.h:66-71): while `hasParent()`, add one to the
   * parent's count and move to the parent.
   */
  ghost function CountsUp(h: seq<Node>, p: int, fuel: nat): (r: Option<seq<Node>>)
    requires ArenaOK(h) && IsNode(h, p)
    ensures r.Some? ==> ArenaOK(r.value) && |r.value| == |h|
    decreases fuel
  {
    if !HasParent(h, p) then Some(h)
    else if fuel == 0 then None
    else
      var q := h[p].parent;
      CountOK(h, q, 1);
      CountsUp(AddCount(h, q, 1), q, fuel - 1)
  }

  // ---------------------------------------------------------------------------------------
  // Rotations

  /**
   * The count arithmetic of `rightRotation()` at `x` (avlTree.h:157-160), whose left child is
   * `L`: `L` gains one, plus the right subtree of `x` and its root; `x` loses one, plus the
   * left subtree of `L` and its root.  Every read is taken from the state the preceding writes
   * left.
   */
  function RightCounts(h: seq<Node>, x: int, L: int): seq<Node>
    requires IsNode(h, x) && IsNode(h, L) && IsLink(h, h[x].right) && IsLink(h, h[L].left)
  {
    var h1 := AddCount(h, L, 1);
    var h2 := if h1[x].right != NIL
              then AddCount(h1, L, h1[h1[x].right].numberOfChildren + 1) else h1;
    var h3 := AddCount(h2, x, -1);
    if h3[L].left != NIL then AddCount(h3, x, -(h3[h3[L].left].numberOfChildren + 1)) else h3
  }

  /** The mirror image for `leftRotation()` at `x` with right child `R` (avlTree.h:182-185). */
  function LeftCounts(h: seq<Node>, x: int, R: int): seq<Node>
    requires IsNode(h, x) && IsNode(h, R) && IsLink(h, h[x].left) && IsLink(h, h[R].right)
  {
    var h1 := AddCount(h, R, 1);
    var h2 := if h1[x].left != NIL
              then AddCount(h1, R, h1[h1[x].left].numberOfChildren + 1) else h1;
    var h3 := AddCount(h2, x, -1);
    if h3[R].right != NIL then AddCount(h3, x, -(h3[h3[R].right].numberOfChildren + 1)) else h3
  }

  /**
   * `if (parent) { ... }` of `rightRotation()` (avlTree.h:162-165): the slot of the parent `p`
   * that holds `x` now holds `c`; the left slot is tested first.
   */
  function RehangLeftFirst(h: seq<Node>, p: int, x: int, c: int): seq<Node>
    requires IsLink(h, p)
  {
    if p == NIL then h else
    var h1 := if h[p].left == x then SetLeft(h, p, c) else h;
    if h1[p].right == x then SetRight(h1, p, c) else h1
  }

  /** The same for `leftRotation()` (avlTree.h:187-190), which tests the right slot first. */
  function RehangRightFirst(h: seq<Node>, p: int, x: int, c: int): seq<Node>
    requires IsLink(h, p)
  {
    if p == NIL then h else
    var h1 := if h[p].right == x then SetRight(h, p, c) else h;
    if h1[p].left == x then SetLeft(h1, p, c) else h1
  }

  /** `r` differs from `h` in descendant counts only. */
  ghost predicate CountsOnly(h: seq<Node>, r: seq<Node>)
  {
    |r| == |h| &&
    forall i :: 0 <= i < |h| ==> r[i].(numberOfChildren := 0) == h[i].(numberOfChildren := 0)
  }

  /** Changing descendant counts only keeps the arena well formed. */
  lemma CountsOnlyOK(h: seq<Node>, r: seq<Node>)
    requires ArenaOK(h) && CountsOnly(h, r)
    ensures ArenaOK(r)
  {
    forall i | 0 <= i < |r| ensures LinksIn(r, r[i]) {
      assert LinksIn(h, h[i]);
      assert r[i].(numberOfChildren := 0) == h[i].(numberOfChildren := 0);
    }
    assert r[SENTINEL].(numberOfChildren := 0) == h[SENTINEL].(numberOfChildren := 0);
  }

  /** The count arithmetic of `rightRotation()` writes counts only. */
  lemma RightCountsOK(h: seq<Node>, x: int, c: int)
    requires ArenaOK(h) && IsNode(h, x) && IsNode(h, c)
    ensures CountsOnly(h, RightCounts(h, x, c)) && ArenaOK(RightCounts(h, x, c))
  {
    assert CountsOnly(h, RightCounts(h, x, c));
    CountsOnlyOK(h, RightCounts(h, x, c));
  }

  /** The count arithmetic of `leftRotation()` writes counts only. */
  lemma LeftCountsOK(h: seq<Node>, x: int, c: int)
    requires ArenaOK(h) && IsNode(h, x) && IsNode(h, c)
    ensures CountsOnly(h, LeftCounts(h, x, c)) && ArenaOK(LeftCounts(h, x, c))
  {
    assert CountsOnly(h, LeftCounts(h, x, c));
    CountsOnlyOK(h, LeftCounts(h, x, c));
  }

  /** Rehanging a parent's slot onto a node of the arena keeps the arena well formed. */
  lemma RehangOK(h: seq<Node>, p: int, x: int, c: int)
    requires ArenaOK(h) && IsLink(h, p) && IsNode(h, c)
    ensures ArenaOK(RehangLeftFirst(h, p, x, c)) && |RehangLeftFirst(h, p, x, c)| == |h|
    ensures ArenaOK(RehangRightFirst(h, p, x, c)) && |RehangRightFirst(h, p, x, c)| == |h|
  {
    if p != NIL {
      LinkOK(h, p, c);
      LinkOK(SetLeft(h, p, c), p, c);
      LinkOK(SetRight(h, p, c), p, c);
    }
  }

  /**
   * The link rewriting of `rightRotation()` at `x` (avlTree.h:154-172), statement by statement.
   * Without a left child nothing is written.
   */
  function RelinkRight(h: seq<Node>, x: int): (r: seq<Node>)
    requires IsNode(h, x) && LinksIn(h, h[x]) && (h[x].left != NIL ==> LinksIn(h, h[h[x].left]))
    ensures |r| == |h|
  {
    var L := h[x].left;
    if L == NIL then h else
    var newLeft := h[L].right;
    var h1 := RightCounts(h, x, L);
    var p := h1[x].parent;
    var h2 := RehangLeftFirst(h1, p, x, L);
    var h3 := SetParent(h2, L, p);
    var h4 := SetRight(h3, L, x);
    var h5 := SetParent(h4, x, L);
    SetLeft(h5, x, newLeft)
  }

  /** The link rewriting of `rightRotation()` keeps the arena well formed. */
  lemma RelinkRightOK(h: seq<Node>, x: int)
    requires ArenaOK(h) && IsNode(h, x)
    ensures ArenaOK(RelinkRight(h, x))
  {
    var L := h[x].left;
    if L != NIL {
      var newLeft := h[L].right;
      RightCountsOK(h, x, L);
      var h1 := RightCounts(h, x, L);
      var p := h1[x].parent;
      RehangOK(h1, p, x, L);
      var h2 := RehangLeftFirst(h1, p, x, L);
      LinkOK(h2, L, p);
      var h3 := SetParent(h2, L, p);
      LinkOK(h3, L, x);
      var h4 := SetRight(h3, L, x);
      LinkOK(h4, x, L);
      var h5 := SetParent(h4, x, L);
      LinkOK(h5, x, newLeft);
    }
  }

  /** The mirror image, `leftRotation()` at `x` (avlTree.h:179-197). */
  function RelinkLeft(h: seq<Node>, x: int): (r: seq<Node>)
    requires IsNode(h, x) && LinksIn(h, h[x]) && (h[x].right != NIL ==> LinksIn(h, h[h[x].right]))
    ensures |r| == |h|
  {
    var R := h[x].right;
    if R == NIL then h else
    var newRight := h[R].left;
    var h1 := LeftCounts(h, x, R);
    var p := h1[x].parent;
    var h2 := RehangRightFirst(h1, p, x, R);
    var h3 := SetParent(h2, R, p);
    var h4 := SetLeft(h3, R, x);
    var h5 := SetParent(h4, x, R);
    SetRight(h5, x, newRight)
  }

  /** The link rewriting of `leftRotation()` keeps the arena well formed. */
  lemma RelinkLeftOK(h: seq<Node>, x: int)
    requires ArenaOK(h) && IsNode(h, x)
    ensures ArenaOK(RelinkLeft(h, x))
  {
    var R := h[x].right;
    if R != NIL {
      var newRight := h[R].left;
      LeftCountsOK(h, x, R);
      var h1 := LeftCounts(h, x, R);
      var p := h1[x].parent;
      RehangOK(h1, p, x, R);
      var h2 := RehangRightFirst(h1, p, x, R);
      LinkOK(h2, R, p);
      var h3 := SetParent(h2, R, p);
      LinkOK(h3, R, x);
      var h4 := SetLeft(h3, R, x);
      LinkOK(h4, x, R);
      var h5 := SetParent(h4, x, R);
      LinkOK(h5, x, newRight);
    }
  }

  /** `rightRotation()` at `x`: relink, then `updateHeight()` at `x` (avlTree.h:153-176). */
  ghost function RotateRight(h: seq<Node>, x: int, fuel: nat): (r: Option<seq<Node>>)
    requires ArenaOK(h) && IsNode(h, x)
    ensures r.Some? ==> ArenaOK(r.value) && |r.value| == |h|
  {
    RelinkRightOK(h, x);
    UpdatedHeight(RelinkRight(h, x), x, fuel)
  }

  /** `leftRotation()` at `x`: relink, then `updateHeight()` at `x` (avlTree.h:178-201). */
  ghost function RotateLeft(h: seq<Node>, x: int, fuel: nat): (r: Option<seq<Node>>)
    requires ArenaOK(h) && IsNode(h, x)
    ensures r.Some? ==> ArenaOK(r.value) && |r.value| == |h|
  {
    RelinkLeftOK(h, x);
    UpdatedHeight(RelinkLeft(h, x), x, fuel)
  }

  // ---------------------------------------------------------------------------------------
  // AVLcondition

  /**
   * The `rotation` code `AVLcondition` computes at an unbalanced node `q` (avlTree.h:80-95):
   * 1 left-left, 2 left-right, 3 right-left, 4 right-right, 0 when the heavy child's two
   * children have equal stored heights.  Stored heights are never below 0, so the heavier side
   * always has a child to look into.
   */
  function Rotation(h: seq<Node>, q: int): (rot: int)
    requires ArenaOK(h) && IsNode(h, q)
    ensures 0 <= rot <= 4
    ensures rot == 1 || rot == 2 ==>
              h[q].left != NIL && NodeHeight(h, h[q].left) > NodeHeight(h, h[q].right)
    ensures rot == 3 || rot == 4 ==>
              h[q].right != NIL && NodeHeight(h, h[q].right) > NodeHeight(h, h[q].left)
    ensures NodeHeight(h, h[q].left) == NodeHeight(h, h[q].right) ==> rot == 0
    ensures var l := h[q].left;
            NodeHeight(h, l) > NodeHeight(h, h[q].right) && l != NIL ==>
              (rot == 1 <==> NodeHeight(h, h[l].left) > NodeHeight(h, h[l].right)) &&
              (rot == 2 <==> NodeHeight(h, h[l].right) > NodeHeight(h, h[l].left))
    ensures var r := h[q].right;
            NodeHeight(h, r) > NodeHeight(h, h[q].left) && r != NIL ==>
              (rot == 3 <==> NodeHeight(h, h[r].left) > NodeHeight(h, h[r].right)) &&
              (rot == 4 <==> NodeHeight(h, h[r].right) > NodeHeight(h, h[r].left))
  {
    var lh := NodeHeight(h, h[q].left);
    var rh := NodeHeight(h, h[q].right);
    if lh > rh then
      var l := h[q].left;
      var llh := NodeHeight(h, h[l].left);
      var lrh := NodeHeight(h, h[l].right);
      if llh > lrh then 1 else if lrh > llh then 2 else 0
    else if rh > lh then
      var r := h[q].right;
      var rlh := NodeHeight(h, h[r].left);
      var rrh := NodeHeight(h, h[r].right);
      if rlh > rrh then 3 else if rrh > rlh then 4 else 0
    else 0
  }

  /**
   * The `switch (rotation)` of `AVLcondition` at `q` (avlTree.h:97-108), with the fall-through
   * from case 2 into case 1 and from case 3 into case 4.
   */
  ghost function Rebalance(h: seq<Node>, q: int, fuel: nat): (r: Option<seq<Node>>)
    requires ArenaOK(h) && IsNode(h, q)
    ensures r.Some? ==> ArenaOK(r.value) && |r.value| == |h|
  {
    var rot := Rotation(h, q);
    if rot == 1 then RotateRight(h, q, fuel)
    else if rot == 2 then
      var first := if h[q].left != NIL then RotateLeft(h, h[q].left, fuel) else Some(h);
      if first.None? then None else RotateRight(first.value, q, fuel)
    else if rot == 3 then
      var first := if h[q].right != NIL then RotateRight(h, h[q].right, fuel) else Some(h);
      if first.None? then None else RotateLeft(first.value, q, fuel)
    else if rot == 4 then RotateLeft(h, q, fuel)
    else Some(h)
  }

  /**
   * `AVLcondition()` from `ptr` (avlTree.h:73-111): while `ptr` has a parent, move to it and,
   * when it is not AVL-complete, rebalance there.  A rotation leaves the promoted node as the
   * parent of `ptr`, so the walk goes on from there.
   */
  ghost function AVLWalk(h: seq<Node>, ptr: int, fuel: nat): (r: Option<seq<Node>>)
    requires ArenaOK(h) && IsNode(h, ptr)
    ensures r.Some? ==> ArenaOK(r.value) && |r.value| == |h|
    decreases fuel
  {
    if !HasParent(h, ptr) then Some(h)
    else if fuel == 0 then None
    else
      var q := h[ptr].parent;
      var h1 := Visit(h, q, fuel);
      if h1.None? then None else AVLWalk(h1.value, q, fuel - 1)
  }

  /** One pass of the `while` of `AVLcondition()` at `q` (avlTree.h:77-109). */
  ghost function Visit(h: seq<Node>, q: int, fuel: nat): (r: Option<seq<Node>>)
    requires ArenaOK(h) && IsNode(h, q)
    ensures r.Some? ==> ArenaOK(r.value) && |r.value| == |h|
  {
    if IsAVLComplete(h, q) then Some(h) else Rebalance(h, q, fuel)
  }

  /** One unfolding of the walk, for a caller that goes round the loop. */
  lemma AVLWalkStep(h: seq<Node>, ptr: int, fuel: nat) returns (f1: nat)
    requires ArenaOK(h) && IsNode(h, ptr) && HasParent(h, ptr) && AVLWalk(h, ptr, fuel).Some?
    ensures fuel > 0 && f1 == fuel - 1 && Visit(h, h[ptr].parent, fuel).Some?
    ensures AVLWalk(h, ptr, fuel) == AVLWalk(Visit(h, h[ptr].parent, fuel).value, h[ptr].parent, f1)
  {
    f1 := fuel - 1;
  }

  /**
   * No rotation on ties (avlTree.h:87-88, 93-94): at a node that is not AVL-complete whose
   * heavier child has two children of equal stored height, the code stays 0 and the pass
   * writes nothing.
   */
  lemma VisitTie(h: seq<Node>, q: int, fuel: nat)
    requires ArenaOK(h) && IsNode(h, q) && !IsAVLComplete(h, q)
    requires var l, r := h[q].left, h[q].right;
             (NodeHeight(h, l) > NodeHeight(h, r) && l != NIL &&
              NodeHeight(h, h[l].left) == NodeHeight(h, h[l].right)) ||
             (NodeHeight(h, r) > NodeHeight(h, l) && r != NIL &&
              NodeHeight(h, h[r].left) == NodeHeight(h, h[r].right))
    ensures Rotation(h, q) == 0 && Visit(h, q, fuel) == Some(h)
  {
  }

  /** A node that already satisfies `isAVLComplete()` is passed over unchanged. */
  lemma VisitSkip(h: seq<Node>, q: int, fuel: nat)
    requires ArenaOK(h) && IsNode(h, q) && IsAVLComplete(h, q)
    ensures Visit(h, q, fuel) == Some(h)
  {
  }

  /** One unfolding of the walk at a node with a parent, whatever the visit of the parent does. */
  lemma AVLWalkUnfold(h: seq<Node>, ptr: int, fuel: nat) returns (f1: nat)
    requires ArenaOK(h) && IsNode(h, ptr) && HasParent(h, ptr) && fuel > 0
    ensures f1 == fuel - 1
    ensures Visit(h, h[ptr].parent, fuel).None? ==> AVLWalk(h, ptr, fuel).None?
    ensures Visit(h, h[ptr].parent, fuel).Some? ==>
              AVLWalk(h, ptr, fuel) == AVLWalk(Visit(h, h[ptr].parent, fuel).value, h[ptr].parent, f1)
  {
    f1 := fuel - 1;
  }

  // ---------------------------------------------------------------------------------------
  // insert as a whole

  /** The node `insert(n)` from `p` returns: the node holding `n`, or the new node `|h|`. */
  ghost function InsertResult(h: seq<Node>, p: int, n: int, t: Shape): int
    requires Realizes(h, p, t) && p != NIL
  {
    match Locate(h, p, n, t)
    case Found(q) => q
    case Vacant(_, _) => |h|
  }

  /**
   * The arena after `insert(n)` from `p` (avlTree.h:44-64): a duplicate only bumps `times`; a
   * new key is linked as a leaf, then `updateNumberOfChidren()` and `AVLcondition()` run from
   * the new node.
   */
  ghost function Inserted(h: seq<Node>, p: int, n: int, t: Shape, fuel: nat)
    : (r: Option<seq<Node>>)
    requires ArenaOK(h) && Realizes(h, p, t) && p != NIL
    ensures r.Some? ==> ArenaOK(r.value)
  {
    match Locate(h, p, n, t)
    case Found(q) => Some(Bump(h, q))
    case Vacant(q, toLeft) =>
      var h1 := InsertedLeaf(h, q, n, toLeft, fuel);
      if h1.None? then None else
      var h2 := CountsUp(h1.value, |h|, fuel);
      if h2.None? then None else AVLWalk(h2.value, |h|, fuel)
  }
}
