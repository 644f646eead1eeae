/**
 * The abstract binary tree that a part of the arena stands for, and the shape-level invariants
 * of the header's tree: search order, distinct nodes, AVL balance, and the per-node local
 * invariants (stored heights, stored descendant counts, parent links) that make the stored
 * fields agree with the shape.
 */
module AvlShape {
  import opened AvlNodes

  /** A finite binary tree whose branches name arena nodes and the keys they hold. */
  datatype Shape = Empty | Branch(left: Shape, id: int, key: int, right: Shape)

  /**
   * Following `left`/`right` from `p` in `h` traces out exactly `t`.  A `Realizes` witness is
   * what makes a recursive descent from `p` finish.
   */
  ghost predicate Realizes(h: seq<Node>, p: int, t: Shape)
    decreases t
  {
    match t
    case Empty => p == NIL
    case Branch(l, id, k, r) =>
      p == id && IsNode(h, p) && h[p].data == k &&
      Realizes(h, h[p].left, l) && Realizes(h, h[p].right, r)
  }

  function Ids(t: Shape): set<int>
  {
    match t
    case Empty => {}
    case Branch(l, id, _, r) => Ids(l) + {id} + Ids(r)
  }

  /** The in-order key sequence (what `inOrder()` prints, without duplicates). */
  function Keys(t: Shape): seq<int>
  {
    match t
    case Empty => []
    case Branch(l, _, k, r) => Keys(l) + [k] + Keys(r)
  }

  /** Height of a tree; the empty tree has height -1. */
  function Height(t: Shape): (ht: int)
    ensures ht >= -1 && (ht >= 0 <==> t.Branch?)
  {
    match t
    case Empty => -1
    case Branch(l, _, _, r) => Max(Height(l), Height(r)) + 1
  }

  function Size(t: Shape): nat
  {
    match t
    case Empty => 0
    case Branch(l, _, _, r) => Size(l) + 1 + Size(r)
  }

  /** No arena node occurs twice in the tree. */
  ghost predicate Distinct(t: Shape)
  {
    match t
    case Empty => true
    case Branch(l, id, _, r) =>
      Distinct(l) && Distinct(r) && id !in Ids(l) && id !in Ids(r) && Ids(l) !! Ids(r)
  }

  predicate Increasing(s: seq<int>)
  {
    forall i, j :: 0 <= i < j < |s| ==> s[i] < s[j]
  }

  /** Binary-search-tree order: the in-order keys strictly increase. */
  ghost predicate SearchTree(t: Shape)
  {
    Increasing(Keys(t))
  }

  /** The AVL invariant: at every branch the two subtree heights differ by at most one. */
  ghost predicate Balanced(t: Shape)
  {
    match t
    case Empty => true
    case Branch(l, _, _, r) =>
      Balanced(l) && Balanced(r) && -1 <= Height(l) - Height(r) <= 1
  }

  /** No node of `t` is the sentinel. */
  ghost predicate RealNodes(h: seq<Node>, t: Shape)
  {
    forall u :: u in Ids(t) ==> IsNode(h, u) && h[u].times != NOTIMES
  }

  /** `c` hangs directly below `p`. */
  predicate IsChildOf(h: seq<Node>, c: int, p: int)
    requires IsNode(h, p)
  {
    h[p].left == c || h[p].right == c
  }

  /** The stored heights of all nodes of `S` are locally right. */
  ghost predicate HeightsOK(h: seq<Node>, S: set<int>)
    requires Closed(h)
  {
    forall u :: u in S ==> IsNode(h, u) && LocalHeight(h, u)
  }

  /** The stored descendant counts of all nodes of `S` are locally right. */
  ghost predicate CountsOK(h: seq<Node>, S: set<int>)
    requires Closed(h)
  {
    forall u :: u in S ==> IsNode(h, u) && LocalCount(h, u)
  }

  /**
   * The part of `TreeIn` that a descent by keys relies on (`find`, and the descent of
   * `insert`): a real tree of distinct nodes hanging from the sentinel, holding keys in search
   * order.  No parent link is read.
   */
  ghost predicate SearchIn(h: seq<Node>, t: Shape)
  {
    ArenaOK(h) && h[SENTINEL].right == NIL &&
    Realizes(h, h[SENTINEL].left, t) && Distinct(t) && SENTINEL !in Ids(t) &&
    SearchTree(t)
  }

  /**
   * The tree hanging from the sentinel, with the invariants the header keeps: it is a real
   * tree of distinct nodes holding keys in search order, whose root points back at the
   * sentinel and whose children point back at their parents.
   */
  ghost predicate TreeIn(h: seq<Node>, t: Shape)
  {
    ArenaOK(h) && h[SENTINEL].right == NIL &&
    Realizes(h, h[SENTINEL].left, t) && Distinct(t) && SENTINEL !in Ids(t) &&
    SearchTree(t) &&
    (t.Branch? ==> h[t.id].parent == SENTINEL) &&
    (forall u :: u in Ids(t) ==> IsNode(h, u) && ParentLinks(h, u))
  }

  /** The tree seen from the sentinel: `t` as its left subtree, nothing on its right. */
  function FromSentinel(h: seq<Node>, t: Shape): Shape
    requires |h| > 0
  {
    Branch(t, SENTINEL, h[SENTINEL].data, Empty)
  }

  // ---------------------------------------------------------------------------------------
  // Basic facts about realizations

  lemma {:induction false} RealizesIds(h: seq<Node>, p: int, t: Shape)
    requires Realizes(h, p, t)
    ensures forall u :: u in Ids(t) ==> IsNode(h, u)
    ensures t.Branch? <==> p != NIL
    ensures p != NIL ==> p in Ids(t)
    decreases t
  {
    if t.Branch? {
      RealizesIds(h, h[p].left, t.left);
      RealizesIds(h, h[p].right, t.right);
    }
  }

  /** The fields fixing a realization are equal at `i` in both arenas. */
  ghost predicate SameShapeFields(h: seq<Node>, h': seq<Node>, i: int)
  {
    IsNode(h, i) && IsNode(h', i) &&
    h'[i].data == h[i].data && h'[i].left == h[i].left && h'[i].right == h[i].right
  }

  /** A realization only depends on the keys and child links of its own nodes. */
  lemma {:induction false} RealizesFrame(h: seq<Node>, h': seq<Node>, p: int, t: Shape)
    requires Realizes(h, p, t)
    requires forall i :: i in Ids(t) ==> SameShapeFields(h, h', i)
    ensures Realizes(h', p, t)
    decreases t
  {
    if t.Branch? {
      assert SameShapeFields(h, h', p);
      RealizesFrame(h, h', h[p].left, t.left);
      RealizesFrame(h, h', h[p].right, t.right);
    }
  }

  /** The arena determines the realized tree. */
  lemma {:induction false} RealizesUnique(h: seq<Node>, p: int, t: Shape, t': Shape)
    requires Realizes(h, p, t) && Realizes(h, p, t')
    ensures t == t'
    decreases t
  {
    if t.Branch? && t'.Branch? {
      RealizesUnique(h, h[p].left, t.left, t'.left);
      RealizesUnique(h, h[p].right, t.right, t'.right);
    }
  }

  /** Facts about one node of a realized tree of distinct nodes, read off the arena. */
  lemma {:induction false} RealizesNode(h: seq<Node>, p: int, t: Shape, u: int)
    requires Realizes(h, p, t) && Distinct(t) && u in Ids(t)
    ensures IsNode(h, u)
    ensures h[u].left == NIL || h[u].left in Ids(t)
    ensures h[u].right == NIL || h[u].right in Ids(t)
    ensures h[u].left != u && h[u].right != u
    ensures h[u].left != NIL ==> h[u].left != h[u].right
    ensures u != p ==> exists v :: v in Ids(t) && IsNode(h, v) && IsChildOf(h, u, v)
    decreases t
  {
    var l, r := h[p].left, h[p].right;
    RealizesIds(h, l, t.left);
    RealizesIds(h, r, t.right);
    if u == p {
    } else if u in Ids(t.left) {
      RealizesNode(h, l, t.left, u);
      if u == l {
        assert IsChildOf(h, u, p);
      }
    } else {
      RealizesNode(h, r, t.right, u);
      if u == r {
        assert IsChildOf(h, u, p);
      }
    }
  }

  /** With locally right heights, the stored height of the root is the tree's height. */
  lemma {:induction false} HeightOfRealized(h: seq<Node>, p: int, t: Shape)
    requires Closed(h) && Realizes(h, p, t) && HeightsOK(h, Ids(t))
    ensures NodeHeight(h, p) == Height(t)
    decreases t
  {
    RealizesIds(h, p, t);
    if t.Branch? {
      assert LocalHeight(h, p);
      HeightOfRealized(h, h[p].left, t.left);
      HeightOfRealized(h, h[p].right, t.right);
    }
  }

  /** With locally right counts, `numberOfChildren` is the number of proper descendants. */
  lemma {:induction false} CountOfRealized(h: seq<Node>, p: int, t: Shape)
    requires Closed(h) && Realizes(h, p, t) && CountsOK(h, Ids(t))
    ensures Cnt(h, p) == Size(t)
    ensures p != NIL ==> h[p].numberOfChildren == Size(t) - 1
    decreases t
  {
    RealizesIds(h, p, t);
    if t.Branch? {
      assert LocalCount(h, p);
      CountOfRealized(h, h[p].left, t.left);
      CountOfRealized(h, h[p].right, t.right);
    }
  }

  /**
   * With locally right heights, the tree is AVL-balanced exactly when `isAVLComplete()` holds at
   * every one of its nodes.
   */
  lemma {:induction false} BalancedIffComplete(h: seq<Node>, p: int, t: Shape)
    requires Closed(h) && Realizes(h, p, t) && HeightsOK(h, Ids(t))
    ensures Balanced(t) <==> forall u :: u in Ids(t) ==> IsNode(h, u) && IsAVLComplete(h, u)
    decreases t
  {
    RealizesIds(h, p, t);
    if t.Branch? {
      var l, r := h[p].left, h[p].right;
      BalancedIffComplete(h, l, t.left);
      BalancedIffComplete(h, r, t.right);
      HeightOfRealized(h, l, t.left);
      HeightOfRealized(h, r, t.right);
    }
  }

  /** Distinct nodes: the size of a tree is the number of its nodes. */
  lemma {:induction false} SizeIsCard(t: Shape)
    requires Distinct(t)
    ensures Size(t) == |Ids(t)|
  {
    if t.Branch? {
      SizeIsCard(t.left);
      SizeIsCard(t.right);
      assert Ids(t) == (Ids(t.left) + Ids(t.right)) + {t.id};
    }
  }

  /** Search order of a branch splits into the order of its subtrees around its key. */
  lemma SearchTreeSplit(t: Shape)
    requires t.Branch? && SearchTree(t)
    ensures SearchTree(t.left) && SearchTree(t.right)
    ensures forall k :: k in Keys(t.left) ==> k < t.key
    ensures forall k :: k in Keys(t.right) ==> t.key < k
  {
    var s := Keys(t);
    var nl := |Keys(t.left)|;
    assert s == Keys(t.left) + [t.key] + Keys(t.right);
    assert s[nl] == t.key;
    forall i, j | 0 <= i < j < |Keys(t.left)| ensures Keys(t.left)[i] < Keys(t.left)[j] {
      assert s[i] == Keys(t.left)[i] && s[j] == Keys(t.left)[j];
    }
    forall i, j | 0 <= i < j < |Keys(t.right)| ensures Keys(t.right)[i] < Keys(t.right)[j] {
      assert s[nl + 1 + i] == Keys(t.right)[i] && s[nl + 1 + j] == Keys(t.right)[j];
    }
    forall k | k in Keys(t.left) ensures k < t.key {
      var i :| 0 <= i < nl && Keys(t.left)[i] == k;
      assert s[i] == k;
    }
    forall k | k in Keys(t.right) ensures t.key < k {
      var i :| 0 <= i < |Keys(t.right)| && Keys(t.right)[i] == k;
      assert s[nl + 1 + i] == k;
    }
  }
}
