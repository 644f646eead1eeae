/**
 * The mutating members of the header's `struct Tree`, performed in place on an arena of
 * nodes.  Each method does the same writes as the C++ statement by statement and ends in the
 * state the matching ghost function of `AvlSteps` describes.
 */
module AvlArena {
  import opened AvlNodes
  import opened AvlShape
  import opened AvlReaders
  import opened AvlSteps

  class Arena {
    /** Every `Tree` object of one tree; index 0 is its sentinel. */
    var nodes: seq<Node>

    ghost predicate Valid()
      reads this
    {
      ArenaOK(nodes)
    }

    /**
     * `new Tree(n)` (avlTree.h:22-24): one real node holding `n`, with `times == 1`, under a
     * sentinel built by `Tree(this)` whose left child it is.
     */
    constructor (n: int)
      ensures Valid()
      ensures nodes == [Sentinel(1), Fresh(n).(parent := SENTINEL)]
      ensures TreeIn(nodes, Branch(Empty, 1, n, Empty))
      ensures HeightsOK(nodes, {1}) && CountsOK(nodes, {1})
    {
      var ns := [Sentinel(1), Fresh(n).(parent := SENTINEL)];
      assert Ids(Branch(Empty, 1, n, Empty)) == {1};
      assert ParentLinks(ns, 1);
      nodes := ns;
    }

    /** `new Tree()` (avlTree.h:18-20 with no first child): a sentinel with an empty tree. */
    constructor NoRoot()
      ensures Valid() && nodes == [Sentinel(NIL)]
      ensures TreeIn(nodes, Empty)
    {
      nodes := [Sentinel(NIL)];
    }

    /** `updateParentHeight()` at `p` (avlTree.h:135-140). */
    method UpdateParentHeight(p: int, ghost fuel: nat)
      requires Valid() && IsNode(nodes, p) && UpHeights(nodes, p, fuel).Some?
      modifies this
      ensures Valid() && nodes == UpHeights(old(nodes), p, fuel).value
      decreases fuel
    {
      HeightOK(nodes, p);
      nodes := FixHeight(nodes, p);
      if HasParent(nodes, p) {
        UpdateParentHeight(nodes[p].parent, fuel - 1);
      }
    }

    /** `updateHeight()` at `p` (avlTree.h:148-151). */
    method UpdateHeight(p: int, ghost fuel: nat)
      requires Valid() && IsNode(nodes, p) && UpdatedHeight(nodes, p, fuel).Some?
      modifies this
      ensures Valid() && nodes == UpdatedHeight(old(nodes), p, fuel).value
    {
      ghost var t :| Realizes(nodes, p, t);
      var _ := ChildrenHeight(nodes, p, t);
      UpdateParentHeight(p, fuel);
    }

    /** `updateNumberOfChidren()` at `p` (avlTree.h:66-71). */
    method UpdateNumberOfChildren(p: int, ghost fuel: nat)
      requires Valid() && IsNode(nodes, p) && CountsUp(nodes, p, fuel).Some?
      modifies this
      ensures Valid() && nodes == CountsUp(old(nodes), p, fuel).value
      decreases fuel
    {
      if HasParent(nodes, p) {
        var q := nodes[p].parent;
        CountOK(nodes, q, 1);
        nodes := AddCount(nodes, q, 1);
        UpdateNumberOfChildren(q, fuel - 1);
      }
    }

    /** `insertLeft(n)` at `q` (avlTree.h:119-125); returns the new node. */
    method InsertLeft(q: int, n: int, ghost fuel: nat) returns (c: int)
      requires Valid() && IsNode(nodes, q) && InsertedLeaf(nodes, q, n, true, fuel).Some?
      modifies this
      ensures Valid() && c == |old(nodes)|
      ensures nodes == InsertedLeaf(old(nodes), q, n, true, fuel).value
    {
      c := |nodes|;
      nodes := Allocate(nodes, n);
      nodes := SetLeft(nodes, q, c);
      nodes := SetParent(nodes, c, q);
      assert nodes == LinkChild(old(nodes), q, n, true);
      if HasParent(nodes, c) {
        UpdateHeight(q, fuel);
      }
    }

    /** `insertRight(n)` at `q` (avlTree.h:127-133); returns the new node. */
    method InsertRight(q: int, n: int, ghost fuel: nat) returns (c: int)
      requires Valid() && IsNode(nodes, q) && InsertedLeaf(nodes, q, n, false, fuel).Some?
      modifies this
      ensures Valid() && c == |old(nodes)|
      ensures nodes == InsertedLeaf(old(nodes), q, n, false, fuel).value
    {
      c := |nodes|;
      nodes := Allocate(nodes, n);
      nodes := SetRight(nodes, q, c);
      nodes := SetParent(nodes, c, q);
      assert nodes == LinkChild(old(nodes), q, n, false);
      if HasParent(nodes, c) {
        UpdateHeight(q, fuel);
      }
    }

    /** `rightRotation()` at `x` (avlTree.h:153-176); returns `x`. */
    method RightRotation(x: int, ghost fuel: nat) returns (r: int)
      requires Valid() && IsNode(nodes, x) && RotateRight(nodes, x, fuel).Some?
      modifies this
      ensures Valid() && r == x && nodes == RotateRight(old(nodes), x, fuel).value
    {
      var L := nodes[x].left;
      if L != NIL {
        var newLeft := nodes[L].right;
        ghost var h0 := nodes;
        RightCountsOK(nodes, x, L);
        nodes := RightCounts(nodes, x, L);
        var p := nodes[x].parent;
        ghost var h1 := nodes;
        if p != NIL {
          if nodes[p].left == x { nodes := SetLeft(nodes, p, L); }
          if nodes[p].right == x { nodes := SetRight(nodes, p, L); }
        }
        assert nodes == RehangLeftFirst(h1, p, x, L);
        RehangOK(h1, p, x, L);
        nodes := SetParent(nodes, L, p);
        nodes := SetRight(nodes, L, x);
        nodes := SetParent(nodes, x, L);
        nodes := SetLeft(nodes, x, newLeft);
        assert nodes == RelinkRight(h0, x);
        RelinkRightOK(h0, x);
      }
      UpdateHeight(x, fuel);
      r := x;
    }

    /** `leftRotation()` at `x` (avlTree.h:178-201); returns `x`. */
    method LeftRotation(x: int, ghost fuel: nat) returns (r: int)
      requires Valid() && IsNode(nodes, x) && RotateLeft(nodes, x, fuel).Some?
      modifies this
      ensures Valid() && r == x && nodes == RotateLeft(old(nodes), x, fuel).value
    {
      var R := nodes[x].right;
      if R != NIL {
        var newRight := nodes[R].left;
        ghost var h0 := nodes;
        LeftCountsOK(nodes, x, R);
        nodes := LeftCounts(nodes, x, R);
        var p := nodes[x].parent;
        ghost var h1 := nodes;
        if p != NIL {
          if nodes[p].right == x { nodes := SetRight(nodes, p, R); }
          if nodes[p].left == x { nodes := SetLeft(nodes, p, R); }
        }
        assert nodes == RehangRightFirst(h1, p, x, R);
        RehangOK(h1, p, x, R);
        nodes := SetParent(nodes, R, p);
        nodes := SetLeft(nodes, R, x);
        nodes := SetParent(nodes, x, R);
        nodes := SetRight(nodes, x, newRight);
        assert nodes == RelinkLeft(h0, x);
        RelinkLeftOK(h0, x);
      }
      UpdateHeight(x, fuel);
      r := x;
    }

    /**
     * One pass of the `while` of `AVLcondition()` at `q` (avlTree.h:79-108): when `q` is not
     * AVL-complete, compute the rotation code and run the `switch`.
     */
    method VisitAt(q: int, ghost fuel: nat)
      requires Valid() && IsNode(nodes, q) && Visit(nodes, q, fuel).Some?
      modifies this
      ensures Valid() && nodes == Visit(old(nodes), q, fuel).value
    {
      if !IsAVLComplete(nodes, q) {
        var rotation := Rotation(nodes, q);
        // case 2 falls through into case 1, case 3 into case 4
        if rotation == 2 && nodes[q].left != NIL {
          var _ := LeftRotation(nodes[q].left, fuel);
        }
        if rotation == 1 || rotation == 2 {
          var _ := RightRotation(q, fuel);
        }
        if rotation == 3 && nodes[q].right != NIL {
          var _ := RightRotation(nodes[q].right, fuel);
        }
        if rotation == 3 || rotation == 4 {
          var _ := LeftRotation(q, fuel);
        }
      }
    }

    /** `AVLcondition()` from `p` (avlTree.h:73-111). */
    method AVLCondition(p: int, ghost fuel: nat)
      requires Valid() && IsNode(nodes, p) && AVLWalk(nodes, p, fuel).Some?
      modifies this
      ensures Valid() && nodes == AVLWalk(old(nodes), p, fuel).value
    {
      var ptr := p;
      ghost var f := fuel;
      while HasParent(nodes, ptr)
        invariant Valid() && IsNode(nodes, ptr)
        invariant AVLWalk(nodes, ptr, f) == AVLWalk(old(nodes), p, fuel)
        decreases f
      {
        ghost var f1 := AVLWalkStep(nodes, ptr, f);
        ptr := nodes[ptr].parent;
        VisitAt(ptr, f);
        f := f1;
      }
    }

    /** `insert(n)` at `p` (avlTree.h:44-64). */
    method Insert(p: int, n: int, ghost t: Shape, ghost fuel: nat) returns (r: int)
      requires Valid() && Realizes(nodes, p, t) && p != NIL
      requires Inserted(nodes, p, n, t, fuel).Some?
      modifies this
      ensures Valid() && nodes == Inserted(old(nodes), p, n, t, fuel).value
      ensures r == InsertResult(old(nodes), p, n, t)
      decreases t
    {
      if n < nodes[p].data || nodes[p].times == NOTIMES {
        if nodes[p].left != NIL {
          r := Insert(nodes[p].left, n, t.left, fuel);
          return;
        }
        r := InsertLeft(p, n, fuel);
        UpdateNumberOfChildren(r, fuel);
        AVLCondition(r, fuel);
      } else if n == nodes[p].data {
        nodes := Bump(nodes, p);
        r := p;
      } else {
        if nodes[p].right != NIL {
          r := Insert(nodes[p].right, n, t.right, fuel);
          return;
        }
        r := InsertRight(p, n, fuel);
        UpdateNumberOfChildren(r, fuel);
        AVLCondition(r, fuel);
      }
    }
  }
}
