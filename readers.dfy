/**
 * The pure readers of the header that walk down child links: `find` and
 * `updateChildrenHeight`.  Both recurse on the tree below the node, so each takes a ghost
 * `Shape` that witnesses that this tree is finite (on a cyclic child graph the C++ recursion
 * never returns).
 */
module AvlReaders {
  import opened AvlNodes
  import opened AvlShape

  /**
   * `find(key)` at node `p` (avlTree.h:203-217): descend left for a smaller key or at the
   * sentinel, stop at an equal key, descend right for a larger key; `NIL` when the slot to
   * descend into is empty.  The final `return nullptr` of the C++ is unreachable and has no
   * counterpart here.
   */
  function Find(h: seq<Node>, p: int, key: int, ghost t: Shape): (r: int)
    requires Realizes(h, p, t) && p != NIL
    ensures r == NIL || (r in Ids(t) && IsNode(h, r) && h[r].data == key && h[r].times != NOTIMES)
    decreases t
  {
    if key < h[p].data || h[p].times == NOTIMES then
      if h[p].left != NIL then Find(h, h[p].left, key, t.left) else NIL
    else if key == h[p].data then p
    else if h[p].right != NIL then Find(h, h[p].right, key, t.right) else NIL
  }

  /**
   * `updateChildrenHeight()` (avlTree.h:142-146): the height of the subtree below `p` computed
   * from the links alone; it stores nothing.
   */
  function ChildrenHeight(h: seq<Node>, p: int, ghost t: Shape): (r: int)
    requires Realizes(h, p, t) && p != NIL
    ensures r == Height(t)
    decreases t
  {
    RealizesIds(h, h[p].left, t.left);
    RealizesIds(h, h[p].right, t.right);
    var lh := if h[p].left != NIL then ChildrenHeight(h, h[p].left, t.left) else -1;
    var rh := if h[p].right != NIL then ChildrenHeight(h, h[p].right, t.right) else -1;
    Max(lh, rh) + 1
  }

  /** On a search tree of real nodes, `find` misses only keys the tree does not hold. */
  lemma {:induction false} FindComplete(h: seq<Node>, p: int, key: int, t: Shape)
    requires Realizes(h, p, t) && p != NIL && SearchTree(t) && RealNodes(h, t)
    ensures Find(h, p, key, t) != NIL <==> key in Keys(t)
    decreases t
  {
    RealizesIds(h, p, t);
    SearchTreeSplit(t);
    assert h[p].times != NOTIMES;
    var l, r := h[p].left, h[p].right;
    RealizesIds(h, l, t.left);
    RealizesIds(h, r, t.right);
    if key < h[p].data {
      if l != NIL { FindComplete(h, l, key, t.left); }
    } else if key > h[p].data {
      if r != NIL { FindComplete(h, r, key, t.right); }
    }
  }

  /**
   * `find` called on the sentinel searches the whole tree: it returns the node holding `key`
   * when there is one and `nullptr` otherwise.
   */
  lemma FindFromSentinel(h: seq<Node>, t: Shape, key: int)
    requires SearchIn(h, t)
    ensures Realizes(h, SENTINEL, FromSentinel(h, t))
    ensures var r := Find(h, SENTINEL, key, FromSentinel(h, t));
            (r != NIL <==> key in Keys(t)) &&
            (r != NIL ==> r in Ids(t) && h[r].data == key)
  {
    var root := h[SENTINEL].left;
    RealizesIds(h, root, t);
    if root != NIL {
      FindComplete(h, root, key, t);
    }
  }

  /** With locally right stored heights, the recomputed height equals the stored one. */
  lemma ChildrenHeightStored(h: seq<Node>, p: int, t: Shape)
    requires Closed(h) && Realizes(h, p, t) && p != NIL && HeightsOK(h, Ids(t))
    ensures ChildrenHeight(h, p, t) == h[p].height
  {
    HeightOfRealized(h, p, t);
  }
}
