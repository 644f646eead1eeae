/**
 * The cells of the intrusive AVL tree and the pure per-node readers.
 *
 * Every `Tree` object of the C++ header is one `Node` of an arena (a sequence indexed by node
 * id).  A pointer is an `int`: the id of a node, or `NIL` for `nullptr`.  Index 0 of an arena is
 * the sentinel that sits above the real root (its `times` is `NOTIMES` and its `left` is the
 * real root).
 */
module AvlNodes {

  /** The `times` value that marks the sentinel node (avlTree.h:5). */
  const NOTIMES: int := -202

  /** The null pointer of the arena. */
  const NIL: int := -1

  /** Id of the sentinel node in every arena. */
  const SENTINEL: int := 0

  /** One `Tree` object: key, duplicate count, stored height, descendant count and the links. */
  datatype Node = Node(times: int, data: int, height: int, numberOfChildren: int,
                       parent: int, left: int, right: int)

  /** The node `new Tree(n)` yields once its fabricated parent is dropped: a leaf holding `n`. */
  function Fresh(n: int): Node
  {
    Node(1, n, 0, 0, NIL, NIL, NIL)
  }

  /** The sentinel built by `Tree(firstChild)` (avlTree.h:18-20). */
  function Sentinel(firstChild: int): Node
  {
    Node(NOTIMES, 0, 0, if firstChild != NIL then 1 else 0, NIL, firstChild, NIL)
  }

  function Max(a: int, b: int): int
  {
    if a < b then b else a
  }

  /** `p` names a node of the arena. */
  predicate IsNode(h: seq<Node>, p: int)
  {
    0 <= p < |h|
  }

  /** `p` is `nullptr` or names a node of the arena. */
  predicate IsLink(h: seq<Node>, p: int)
  {
    p == NIL || IsNode(h, p)
  }

  /** The three links of a node all point into the arena (no dangling pointer). */
  predicate LinksIn(h: seq<Node>, n: Node)
  {
    IsLink(h, n.parent) && IsLink(h, n.left) && IsLink(h, n.right)
  }

  ghost predicate Closed(h: seq<Node>)
  {
    forall i :: 0 <= i < |h| ==> LinksIn(h, h[i])
  }

  /**
   * What the model keeps true of every arena: no dangling pointer, the sentinel at index 0 and
   * only there, positive duplicate counts elsewhere, and stored heights that are never below 0
   * (every stored height is either the 0 of a fresh node or `1 + max` of two values >= -1).
   */
  ghost predicate ArenaOK(h: seq<Node>)
  {
    Closed(h) && |h| > 0 && h[SENTINEL].times == NOTIMES &&
    (forall i :: 0 < i < |h| ==> h[i].times >= 1) &&
    (forall i :: 0 <= i < |h| ==> h[i].height >= 0)
  }

  /**
   * `hasParent()` (avlTree.h:32): the parent exists and is not the sentinel.  In an arena the
   * model keeps, the sentinel is the one node marked `NOTIMES`, so this is a test on the index.
   */
  predicate HasParent(h: seq<Node>, p: int): (b: bool)
    requires IsNode(h, p) && IsLink(h, h[p].parent)
    ensures ArenaOK(h) ==> (b <==> h[p].parent != NIL && h[p].parent != SENTINEL)
  {
    h[p].parent != NIL && h[h[p].parent].times != NOTIMES
  }

  /** `getNodeHeight(node)` (avlTree.h:293-296): the stored height, -1 for `nullptr`. */
  function NodeHeight(h: seq<Node>, p: int): (ht: int)
    requires IsLink(h, p)
    ensures ArenaOK(h) ==> ht >= -1 && (ht == -1 <==> p == NIL)
  {
    if p == NIL then -1 else h[p].height
  }

  /** The height `updateParentHeight` stores at `p`: one more than its taller child. */
  function RecomputedHeight(h: seq<Node>, p: int): int
    requires IsNode(h, p) && IsLink(h, h[p].left) && IsLink(h, h[p].right)
  {
    Max(NodeHeight(h, h[p].left), NodeHeight(h, h[p].right)) + 1
  }

  /** `isAVLComplete()` (avlTree.h:113-117): stored child heights differ by at most one. */
  predicate IsAVLComplete(h: seq<Node>, p: int)
    requires IsNode(h, p) && IsLink(h, h[p].left) && IsLink(h, h[p].right)
  {
    var d := NodeHeight(h, h[p].left) - NodeHeight(h, h[p].right);
    -1 <= d <= 1
  }

  /**
   * At a node whose stored height is right, `isAVLComplete()` holds exactly when neither child
   * is more than two levels below the node.
   */
  lemma CompleteWithinTwo(h: seq<Node>, p: int)
    requires IsNode(h, p) && IsLink(h, h[p].left) && IsLink(h, h[p].right) && LocalHeight(h, p)
    ensures IsAVLComplete(h, p) <==>
              NodeHeight(h, h[p].left) >= h[p].height - 2 &&
              NodeHeight(h, h[p].right) >= h[p].height - 2
  {
  }

  /** The stored height of `p` is one more than the taller of its children's stored heights. */
  predicate LocalHeight(h: seq<Node>, p: int)
    requires IsNode(h, p) && IsLink(h, h[p].left) && IsLink(h, h[p].right)
  {
    h[p].height == RecomputedHeight(h, p)
  }

  /** Number of nodes in the subtree a pointer stands for, read off the stored counts. */
  function Cnt(h: seq<Node>, p: int): int
    requires IsLink(h, p)
  {
    if p == NIL then 0 else h[p].numberOfChildren + 1
  }

  /** The stored descendant count of `p` agrees with its children's stored counts. */
  predicate LocalCount(h: seq<Node>, p: int)
    requires IsNode(h, p) && IsLink(h, h[p].left) && IsLink(h, h[p].right)
  {
    h[p].numberOfChildren == Cnt(h, h[p].left) + Cnt(h, h[p].right)
  }

  /** Both children of `p`, when present, point back at `p`. */
  predicate ParentLinks(h: seq<Node>, p: int)
    requires IsNode(h, p) && IsLink(h, h[p].left) && IsLink(h, h[p].right)
  {
    (h[p].left != NIL ==> h[h[p].left].parent == p) &&
    (h[p].right != NIL ==> h[h[p].right].parent == p)
  }

  /** Overwriting one node with a node whose links are in range keeps the arena closed. */
  lemma ClosedUpdate(h: seq<Node>, i: int, n: Node)
    requires Closed(h) && IsNode(h, i) && LinksIn(h, n)
    ensures Closed(h[i := n])
  {
    var h' := h[i := n];
    forall j | 0 <= j < |h'| ensures LinksIn(h', h'[j]) {
      assert LinksIn(h, h[j]);
    }
  }

  /** Changing only the height and the count of a node keeps the arena closed. */
  lemma ArenaUpdate(h: seq<Node>, i: int, n: Node)
    requires ArenaOK(h) && IsNode(h, i) && LinksIn(h, n)
    requires n.times == h[i].times && n.height >= 0
    ensures ArenaOK(h[i := n])
  {
    ClosedUpdate(h, i, n);
  }
}
