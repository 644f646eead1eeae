/**
 * What `rightRotation()` and `leftRotation()` do to the tree hanging from the sentinel: the
 * links they write, the tree the arena realizes afterwards, and the stored heights and counts
 * they leave.  They read only the parent links on the path from the rotated node up to the
 * root, so the statements ask only those to agree with the tree.
 */
module AvlRotations {
  import opened AvlNodes
  import opened AvlShape
  import opened AvlPaths
  import opened AvlSteps
  import opened AvlHeights
  import opened AvlRotShape

  /**
   * Everything the header keeps of the tree hanging from the sentinel except that every child
   * points back at its parent: a search tree of distinct real nodes, with its root pointing at
   * the sentinel and every stored height and count right.
   */
  ghost predicate Sound(h: seq<Node>, t: Shape)
  {
    Rooted(h, t) && h[SENTINEL].right == NIL && SearchTree(t) &&
    (t.Branch? ==> h[t.id].parent == SENTINEL) &&
    HeightsOK(h, Ids(t)) && CountsOK(h, Ids(t))
  }

  /** A sound tree can still be searched: `find` and the descent of `insert` apply to it. */
  lemma SoundSearchIn(h: seq<Node>, t: Shape)
    requires Sound(h, t)
    ensures SearchIn(h, t)
  {
  }

  /** The count arithmetic of `rightRotation()` at `x` with left child `L` (avlTree.h:157-160). */
  lemma RightCountsFields(h: seq<Node>, x: int, L: int)
    requires IsNode(h, x) && IsNode(h, L) && IsLink(h, h[x].right) && IsLink(h, h[L].left)
    requires L != x && h[x].right != L && h[L].left != L && h[L].left != x
    ensures var r := RightCounts(h, x, L);
            |r| == |h| &&
            r[L] == h[L].(numberOfChildren := h[L].numberOfChildren + 1 + Cnt(h, h[x].right)) &&
            r[x] == h[x].(numberOfChildren := h[x].numberOfChildren - 1 - Cnt(h, h[L].left)) &&
            forall i :: 0 <= i < |h| && i != x && i != L ==> r[i] == h[i]
  {
  }

  /**
   * The writes of `rightRotation()` at `x` with left child `L` and parent `p`
   * (avlTree.h:154-172): `L` takes the slot of `p` that held `x`, `L`'s parent becomes `p`,
   * `x` becomes `L`'s right child with parent `L`, and `L`'s old right child becomes `x`'s left
   * child (its own parent link is not written).  `L` gains one plus the size of `x`'s right
   * subtree as descendants, `x` loses one plus the size of `L`'s left subtree.  No other node
   * changes; without a left child nothing is written.
   */
  ghost predicate RightRelinked(h: seq<Node>, r: seq<Node>, x: int)
  {
    IsNode(h, x) && IsNode(h, h[x].left) && IsNode(h, h[x].parent) && |r| == |h| &&
    IsLink(h, h[x].right) && IsLink(h, h[h[x].left].left) &&
    var L, p := h[x].left, h[x].parent;
    r[L] == h[L].(parent := p, right := x,
                  numberOfChildren := h[L].numberOfChildren + 1 + Cnt(h, h[x].right)) &&
    r[x] == h[x].(parent := L, left := h[L].right,
                  numberOfChildren := h[x].numberOfChildren - 1 - Cnt(h, h[L].left)) &&
    r[p] == h[p].(left := if h[p].left == x then L else h[p].left,
                  right := if h[p].right == x then L else h[p].right) &&
    forall i :: 0 <= i < |h| && i != x && i != L && i != p ==> r[i] == h[i]
  }

  /** The relinking of `rightRotation()` makes exactly the writes `RightRelinked` lists. */
  lemma RelinkRightFields(h: seq<Node>, x: int)
    requires IsNode(h, x) && LinksIn(h, h[x]) && (h[x].left != NIL ==> LinksIn(h, h[h[x].left]))
    requires var L, p := h[x].left, h[x].parent;
             L != NIL ==>
               L != x && p != NIL && p != x && p != L &&
               h[x].right != L && h[L].left != L && h[L].left != x
    ensures h[x].left == NIL ==> RelinkRight(h, x) == h
    ensures h[x].left != NIL ==> RightRelinked(h, RelinkRight(h, x), x)
  {
    var L, p := h[x].left, h[x].parent;
    if L != NIL {
      RightCountsFields(h, x, L);
      var h1 := RightCounts(h, x, L);
      var h2 := RehangLeftFirst(h1, p, x, L);
      assert h2[p] == h1[p].(left := if h[p].left == x then L else h[p].left,
                             right := if h[p].right == x then L else h[p].right);
      assert forall i :: 0 <= i < |h| && i != p ==> h2[i] == h1[i];
      var nc := h[L].right;
      var h3 := SetParent(h2, L, p);
      var h4 := SetRight(h3, L, x);
      var h5 := SetParent(h4, x, L);
      var h6 := SetLeft(h5, x, nc);
      assert RelinkRight(h, x) == h6;
      assert h6[L] == h2[L].(parent := p, right := x);
      assert h6[x] == h2[x].(parent := L, left := nc);
      assert forall i :: 0 <= i < |h| && i != x && i != L ==> h6[i] == h2[i];
    }
  }

  /** The count arithmetic of `leftRotation()` at `x` with right child `R` (avlTree.h:182-185). */
  lemma LeftCountsFields(h: seq<Node>, x: int, R: int)
    requires IsNode(h, x) && IsNode(h, R) && IsLink(h, h[x].left) && IsLink(h, h[R].right)
    requires R != x && h[x].left != R && h[R].right != R && h[R].right != x
    ensures var r := LeftCounts(h, x, R);
            |r| == |h| &&
            r[R] == h[R].(numberOfChildren := h[R].numberOfChildren + 1 + Cnt(h, h[x].left)) &&
            r[x] == h[x].(numberOfChildren := h[x].numberOfChildren - 1 - Cnt(h, h[R].right)) &&
            forall i :: 0 <= i < |h| && i != x && i != R ==> r[i] == h[i]
  {
  }

  /**
   * The writes of `leftRotation()` at `x` with right child `R` and parent `p`
   * (avlTree.h:179-197), the mirror image of those of `rightRotation()`.
   */
  ghost predicate LeftRelinked(h: seq<Node>, r: seq<Node>, x: int)
  {
    IsNode(h, x) && IsNode(h, h[x].right) && IsNode(h, h[x].parent) && |r| == |h| &&
    IsLink(h, h[x].left) && IsLink(h, h[h[x].right].right) &&
    var R, p := h[x].right, h[x].parent;
    r[R] == h[R].(parent := p, left := x,
                  numberOfChildren := h[R].numberOfChildren + 1 + Cnt(h, h[x].left)) &&
    r[x] == h[x].(parent := R, right := h[R].left,
                  numberOfChildren := h[x].numberOfChildren - 1 - Cnt(h, h[R].right)) &&
    r[p] == h[p].(left := if h[p].left == x then R else h[p].left,
                  right := if h[p].right == x then R else h[p].right) &&
    forall i :: 0 <= i < |h| && i != x && i != R && i != p ==> r[i] == h[i]
  }

  /** The relinking of `leftRotation()` makes exactly the writes `LeftRelinked` lists. */
  lemma RelinkLeftFields(h: seq<Node>, x: int)
    requires IsNode(h, x) && LinksIn(h, h[x]) && (h[x].right != NIL ==> LinksIn(h, h[h[x].right]))
    requires var R, p := h[x].right, h[x].parent;
             R != NIL ==>
               R != x && p != NIL && p != x && p != R &&
               h[x].left != R && h[R].right != R && h[R].right != x
    ensures h[x].right == NIL ==> RelinkLeft(h, x) == h
    ensures h[x].right != NIL ==> LeftRelinked(h, RelinkLeft(h, x), x)
  {
    var R, p := h[x].right, h[x].parent;
    if R != NIL {
      LeftCountsFields(h, x, R);
      var h1 := LeftCounts(h, x, R);
      var h2 := RehangRightFirst(h1, p, x, R);
      assert h2[p] == h1[p].(left := if h[p].left == x then R else h[p].left,
                             right := if h[p].right == x then R else h[p].right);
      assert forall i :: 0 <= i < |h| && i != p ==> h2[i] == h1[i];
      var nc := h[R].left;
      var h3 := SetParent(h2, R, p);
      var h4 := SetLeft(h3, R, x);
      var h5 := SetParent(h4, x, R);
      var h6 := SetRight(h5, x, nc);
      assert RelinkLeft(h, x) == h6;
      assert h6[R] == h2[R].(parent := p, left := x);
      assert h6[x] == h2[x].(parent := R, right := nc);
      assert forall i :: 0 <= i < |h| && i != x && i != R ==> h6[i] == h2[i];
    }
  }

  /**
   * An arena `r` that agrees with `h` on the shape of every node of `W` outside the subtree at
   * `x` except `x`'s parent, whose parent of `x` holds the root of `s` in the slot that held
   * `x`, and which realizes `s`, realizes `W` with the subtree at `x` replaced by `s`.
   */
  lemma {:induction false} RealizesReplace(h: seq<Node>, r: seq<Node>, top: int, W: Shape,
                                           x: int, s: Shape)
    requires Realizes(h, top, W) && Distinct(W) && x in Ids(W) && x != W.id
    requires s.Branch? && Realizes(r, s.id, s)
    requires |Path(W, x)| >= 2
    requires var p := Path(W, x)[1];
             forall v :: v in Ids(W) && v !in Ids(Subtree(W, x)) && v != p ==>
               SameShapeFields(h, r, v)
    requires var p := Path(W, x)[1];
             IsNode(h, p) && IsNode(r, p) && r[p].data == h[p].data &&
             (if h[p].left == x then r[p].left == s.id && r[p].right == h[p].right
              else r[p].right == s.id && r[p].left == h[p].left)
    ensures Realizes(r, top, Replace(W, x, s))
    decreases W
  {
    var p := Path(W, x)[1];
    match W
    case Branch(l, id, k, rr) =>
      RealizesIds(h, h[top].left, l);
      RealizesIds(h, h[top].right, rr);
      var c := if x in Ids(l) then l else rr;
      SubtreeIds(c, x);
      PathShape(c, x);
      assert Path(W, x) == Path(c, x) + [id];
      assert Subtree(W, x) == Subtree(c, x);
      if x == c.id {
        assert Path(c, x) == [x];
        assert p == id;
        if x in Ids(l) {
          assert h[top].left == x;
          RealizesFrame(h, r, h[top].right, rr);
        } else {
          assert h[top].left != x;
          RealizesFrame(h, r, h[top].left, l);
        }
      } else {
        PathRoot(c, x);
        assert |Path(c, x)| >= 2 && Path(c, x)[1] == p;
        assert id != p && id !in Ids(Subtree(W, x));
        assert SameShapeFields(h, r, id);
        if x in Ids(l) {
          RealizesReplace(h, r, h[top].left, l, x, s);
          RealizesFrame(h, r, h[top].right, rr);
        } else {
          RealizesReplace(h, r, h[top].right, rr, x, s);
          RealizesFrame(h, r, h[top].left, l);
        }
      }
  }

  /**
   * The tree seen from the sentinel: the tree hanging from its left slot with the sentinel on
   * top, so every node of the tree has a parent in it.
   */
  lemma SentinelView(h: seq<Node>, t: Shape, x: int, s: Shape)
    requires |h| > 0 && h[SENTINEL].right == NIL && Realizes(h, h[SENTINEL].left, t)
    requires Distinct(t) && SENTINEL !in Ids(t) && x in Ids(t)
    ensures var W := FromSentinel(h, t);
            Realizes(h, SENTINEL, W) && Distinct(W) && x in Ids(W) && x != W.id &&
            Ids(W) == Ids(t) + {SENTINEL} &&
            Path(W, x) == Path(t, x) + [SENTINEL] && Subtree(W, x) == Subtree(t, x) &&
            Replace(W, x, s) == Branch(Replace(t, x, s), SENTINEL, h[SENTINEL].data, Empty)
  {
    RealizesIds(h, h[SENTINEL].left, t);
  }

  /**
   * An arena `r` that realizes `s`, keeps every node outside the subtree at `x` except `x`'s
   * parent `p`, and holds the root of `s` in the slot of `p` that held `x`, realizes from the
   * sentinel the tree with the subtree at `x` replaced by `s`.
   */
  lemma ReplaceFromSentinel(h: seq<Node>, r: seq<Node>, t: Shape, x: int, s: Shape)
    requires |h| > 0 && h[SENTINEL].right == NIL && Realizes(h, h[SENTINEL].left, t)
    requires Distinct(t) && SENTINEL !in Ids(t) && x in Ids(t) && IsNode(h, x)
    requires s.Branch? && Realizes(r, s.id, s) && |r| == |h|
    requires var p := h[x].parent;
             (x == t.id ==> p == SENTINEL) &&
             (x != t.id ==> |Path(t, x)| >= 2 && p == Path(t, x)[1])
    requires var p := h[x].parent;
             forall v :: 0 <= v < |h| && v !in Ids(Subtree(t, x)) && v != p ==> r[v] == h[v]
    requires var p := h[x].parent;
             IsNode(h, p) && r[p].data == h[p].data &&
             (if h[p].left == x then r[p].left == s.id && r[p].right == h[p].right
              else r[p].right == s.id && r[p].left == h[p].left)
    ensures Realizes(r, r[SENTINEL].left, Replace(t, x, s)) && r[SENTINEL].right == NIL
  {
    var S, p := Subtree(t, x), h[x].parent;
    var W := FromSentinel(h, t);
    SentinelView(h, t, x, s);
    assert Path(W, x)[1] == p;
    RealizesIds(h, SENTINEL, W);
    forall v | v in Ids(W) && v !in Ids(S) && v != p ensures SameShapeFields(h, r, v) {
      assert IsNode(h, v) && r[v] == h[v];
    }
    RealizesReplace(h, r, SENTINEL, W, x, s);
  }

  /**
   * The neighbourhood of a node `x` with a left child `L` in a sound tree whose parent links
   * agree with the tree from `x` up: its subtree, its parent `p` (the sentinel at the root),
   * and the distinctness facts the writes of `rightRotation()` rely on.
   */
  lemma RightSetting(h: seq<Node>, t: Shape, x: int)
    requires Sound(h, t) && x in Ids(t) && UpLinked(h, t, x) && IsNode(h, x) && h[x].left != NIL
    ensures var S, L, p := Subtree(t, x), h[x].left, h[x].parent;
            Realizes(h, x, S) && S.Branch? && S.id == x && S.left.Branch? && S.left.id == L &&
            Distinct(S) && Ids(S) <= Ids(t) && L in Ids(t) && L != x && IsNode(h, L) &&
            IsNode(h, p) && p !in Ids(S) && p != x && p != L &&
            (x == t.id ==> p == SENTINEL) &&
            (x != t.id ==> |Path(t, x)| >= 2 && p == Path(t, x)[1] && p in Ids(t)) &&
            IsChildOf(h, x, p) && (h[p].left == x ==> h[p].right != x) &&
            h[x].right != L && h[L].left != L && h[L].left != x &&
            ParentIn(t, L, x) &&
            Realizes(h, h[L].left, S.left.left) && Realizes(h, h[L].right, S.left.right) &&
            Realizes(h, h[x].right, S.right)
  {
    var root := h[SENTINEL].left;
    RealizesIds(h, root, t);
    SubtreeRealized(h, root, t, x);
    SubtreeIds(t, x);
    var S, L, p := Subtree(t, x), h[x].left, h[x].parent;
    RealizesIds(h, L, S.left);
    RealizesIds(h, h[x].right, S.right);
    RealizesIds(h, h[L].left, S.left.left);
    RealizesIds(h, h[L].right, S.left.right);
    assert Ids(S) == Ids(S.left) + {x} + Ids(S.right);
    assert Ids(S.left) == Ids(S.left.left) + {L} + Ids(S.left.right);
    var P := Path(t, x);
    PathShape(t, x);
    PathRoot(t, x);
    AncestorsOutside(t, x);
    if x == t.id {
      assert P == [x];
      assert p == SENTINEL;
    } else {
      assert p == P[1] && p in P;
      ParentChild(h, root, t, x, p);
    }
    RealizesNode(h, root, t, x);
    ChildParent(h, root, t, x, L);
    if p != SENTINEL {
      RealizesNode(h, root, t, p);
    } else {
      assert 0 < x;
    }
  }

  /** After the writes of `rightRotation()` at `x`, its old left child roots the rotated subtree. */
  lemma RelinkRightLocal(h: seq<Node>, r: seq<Node>, x: int, S: Shape)
    requires Realizes(h, x, S) && Distinct(S) && S.Branch? && S.left.Branch?
    requires RightRelinked(h, r, x) && h[x].parent !in Ids(S)
    ensures var RS := RotR(S);
            RS.Branch? && RS.id == h[x].left && Realizes(r, RS.id, RS) && Distinct(RS) &&
            Ids(RS) == Ids(S) && Keys(RS) == Keys(S) && Size(RS) == Size(S)
  {
    var L, p := h[x].left, h[x].parent;
    RotRSame(S);
    RotRDistinct(S);
    var a, b, c := S.left.left, S.left.right, S.right;
    assert Ids(S) == Ids(S.left) + {x} + Ids(c);
    assert Ids(S.left) == Ids(a) + {L} + Ids(b);
    RealizesIds(h, h[L].left, a);
    RealizesIds(h, h[L].right, b);
    RealizesIds(h, h[x].right, c);
    assert forall i :: i in Ids(a) + Ids(b) + Ids(c) ==> i != x && i != L && i != p && r[i] == h[i];
    RealizesFrame(h, r, h[L].left, a);
    RealizesFrame(h, r, h[L].right, b);
    RealizesFrame(h, r, h[x].right, c);
    assert Realizes(r, x, Branch(b, x, S.key, c));
  }

  /**
   * After the writes of `rightRotation()` at `x` the sentinel's left slot holds the tree with
   * the subtree at `x` rotated right.
   */
  lemma RelinkRightTree(h: seq<Node>, t: Shape, x: int, r: seq<Node>)
    requires |h| > 0 && h[SENTINEL].right == NIL && Realizes(h, h[SENTINEL].left, t)
    requires Distinct(t) && SENTINEL !in Ids(t) && x in Ids(t)
    requires var S := Subtree(t, x);
             Realizes(h, x, S) && Distinct(S) && S.Branch? && S.left.Branch?
    requires RightRelinked(h, r, x)
    requires var p := h[x].parent;
             p !in Ids(Subtree(t, x)) && IsChildOf(h, x, p) &&
             (h[p].left == x ==> h[p].right != x) &&
             (x == t.id ==> p == SENTINEL) &&
             (x != t.id ==> |Path(t, x)| >= 2 && p == Path(t, x)[1])
    ensures Realizes(r, r[SENTINEL].left, Replace(t, x, RotR(Subtree(t, x))))
    ensures r[SENTINEL].right == NIL
  {
    var S, p := Subtree(t, x), h[x].parent;
    RelinkRightLocal(h, r, x, S);
    var RS := RotR(S);
    assert x in Ids(S) && h[x].left in Ids(S);
    ReplaceFromSentinel(h, r, t, x, RS);
  }

  /**
   * After the writes of `rightRotation()` at `x` the arena realizes, from the sentinel, the tree
   * with the subtree at `x` rotated right: the same nodes and the same in-order keys, so still
   * a search tree of distinct real nodes whose root points at the sentinel.
   */
  lemma RelinkRightShape(h: seq<Node>, t: Shape, x: int, r: seq<Node>)
    requires Sound(h, t) && x in Ids(t) && UpLinked(h, t, x) && IsNode(h, x) && h[x].left != NIL
    requires RightRelinked(h, r, x) && ArenaOK(r)
    ensures var t2 := Replace(t, x, RotR(Subtree(t, x)));
            Rooted(r, t2) && r[SENTINEL].right == NIL &&
            Ids(t2) == Ids(t) && Keys(t2) == Keys(t) && Size(t2) == Size(t) && SearchTree(t2) &&
            t2.Branch? && r[t2.id].parent == SENTINEL
  {
    RightSetting(h, t, x);
    var S, L := Subtree(t, x), h[x].left;
    RelinkRightLocal(h, r, x, S);
    RelinkRightTree(h, t, x, r);
    var RS := RotR(S);
    var t2 := Replace(t, x, RS);
    ReplaceSame(t, x, RS);
    if x != t.id {
      PathShape(t, x);
      PathRoot(t, x);
      AncestorsOutside(t, x);
      assert t2.id == t.id && t.id !in Ids(S);
    }
  }

  /**
   * After the writes of `rightRotation()` at `x`, the parent links from `x` up agree with the
   * rotated tree: `x` now hangs from its old left child, which hangs from `x`'s old parent.
   */
  lemma RelinkRightUp(h: seq<Node>, t: Shape, x: int, r: seq<Node>)
    requires Distinct(t) && x in Ids(t) && UpLinked(h, t, x)
    requires var S := Subtree(t, x); Realizes(h, x, S) && S.Branch? && S.left.Branch?
    requires RightRelinked(h, r, x)
    ensures var t2 := Replace(t, x, RotR(Subtree(t, x)));
            Path(t2, x) == [x, h[x].left] + Path(t, x)[1..] && UpLinked(r, t2, x)
  {
    SubtreeIds(t, x);
    var S, L, p := Subtree(t, x), h[x].left, h[x].parent;
    var RS := RotR(S);
    RotRSame(S);
    RotRDistinct(S);
    PathReplace(t, x, RS, x);
    var P := Path(t, x);
    PathShape(t, x);
    AncestorsOutside(t, x);
    assert Ids(S) == Ids(S.left) + {x} + Ids(S.right);
    assert Ids(S.left) == Ids(S.left.left) + {L} + Ids(S.left.right);
    assert x !in Ids(S.left.left) && x != L;
    assert Path(RS, x) == [x, L];
    var t2 := Replace(t, x, RS);
    var Q := Path(t2, x);
    assert Q == [x, L] + P[1..];
    assert forall v :: 0 <= v < |h| && v != x && v != L ==> r[v].parent == h[v].parent;
    forall i | 2 <= i < |Q| ensures Q[i] == P[i - 1] && Q[i] != x && Q[i] != L {
      assert P[i - 1] !in Ids(S);
    }
    if |P| >= 2 {
      assert p == P[1] == Q[2];
    }
  }

  /**
   * The writes of `rightRotation()` at `x` change no stored height and no links of a node off
   * the path from `x` up the rotated tree, so the heights off that path stay right.
   */
  lemma RelinkRightHeights(h: seq<Node>, t: Shape, x: int, r: seq<Node>)
    requires Closed(h) && Closed(r) && Distinct(t) && SENTINEL !in Ids(t) && x in Ids(t)
    requires UpLinked(h, t, x) && HeightsOK(h, Ids(t))
    requires var S := Subtree(t, x); Realizes(h, x, S) && S.Branch? && S.left.Branch?
    requires RightRelinked(h, r, x)
    ensures var t2 := Replace(t, x, RotR(Subtree(t, x)));
            Ids(t2) == Ids(t) && HeightsOffPath(r, t2, x)
  {
    RelinkRightUp(h, t, x, r);
    SubtreeIds(t, x);
    var S, L, p := Subtree(t, x), h[x].left, h[x].parent;
    RotRSame(S);
    var t2 := Replace(t, x, RotR(S));
    ReplaceIdsSub(t, x, RotR(S));
    var P := Path(t, x);
    PathShape(t, x);
    assert P[0] == x;
    assert forall i :: 0 <= i < |h| ==> r[i].height == h[i].height;
    forall v | v in Ids(t2) && v !in Path(t2, x) ensures IsNode(r, v) && LocalHeight(r, v) {
      assert v != x && v != L && v !in P[1..];
      if |P| >= 2 {
        assert p == P[1] && P[1] in P[1..];
      }
      assert v != p;
      assert r[v] == h[v] && LocalHeight(h, v);
    }
  }

  /**
   * The counts `rightRotation()` at `x` writes are right for the rotated tree: `L` now counts
   * `x`'s remaining subtrees too, `x` counts only the subtrees it keeps, and every other count,
   * the one of `x`'s old parent included, still matches its children.
   */
  lemma RelinkRightCounts(h: seq<Node>, t: Shape, x: int, r: seq<Node>)
    requires Sound(h, t) && x in Ids(t) && UpLinked(h, t, x) && IsNode(h, x) && h[x].left != NIL
    requires RightRelinked(h, r, x) && Closed(r)
    ensures CountsOK(r, Ids(t))
  {
    RightSetting(h, t, x);
    var root := h[SENTINEL].left;
    RealizesIds(h, root, t);
    var S, L, p := Subtree(t, x), h[x].left, h[x].parent;
    var a, b, c := h[L].left, h[L].right, h[x].right;
    RealizesIds(h, a, S.left.left);
    RealizesIds(h, b, S.left.right);
    RealizesIds(h, c, S.right);
    assert Ids(S) == Ids(S.left) + {x} + Ids(S.right);
    assert Ids(S.left) == Ids(S.left.left) + {L} + Ids(S.left.right);
    assert a != x && a != L && b != x && b != L && c != x && c != L;
    assert forall i :: 0 <= i < |h| && i != x && i != L ==>
      r[i].numberOfChildren == h[i].numberOfChildren;
    assert r[L].left == a && r[L].right == x && r[x].left == b && r[x].right == c;
    assert LocalCount(h, x) && LocalCount(h, L);
    forall v | v in Ids(t) ensures IsNode(r, v) && LocalCount(r, v) {
      if v != x && v != L {
        RelinkRightCountAt(h, t, x, r, v);
      }
    }
  }

  /** One node other than `x` and its left child keeps a right count under `rightRotation()`. */
  lemma RelinkRightCountAt(h: seq<Node>, t: Shape, x: int, r: seq<Node>, v: int)
    requires Sound(h, t) && x in Ids(t) && UpLinked(h, t, x) && IsNode(h, x) && h[x].left != NIL
    requires RightRelinked(h, r, x) && Closed(r)
    requires v in Ids(t) && v != x && v != h[x].left
    ensures IsNode(r, v) && LocalCount(r, v)
  {
    RightSetting(h, t, x);
    var root := h[SENTINEL].left;
    RealizesIds(h, root, t);
    var L, p := h[x].left, h[x].parent;
    assert LocalCount(h, v) && LocalCount(h, x);
    var dl, dr := h[v].left, h[v].right;
    if dl != NIL {
      ChildParent(h, root, t, v, dl);
    }
    if dr != NIL {
      ChildParent(h, root, t, v, dr);
    }
    assert dl != L && dr != L;
    if v != p {
      assert dl != x && dr != x;
      assert r[v] == h[v];
    }
  }

  /** Changing stored heights only keeps every count right. */
  lemma HeightsOnlyCounts(h: seq<Node>, r: seq<Node>, S: set<int>)
    requires Closed(h) && Closed(r) && HeightsOnly(h, r) && CountsOK(h, S)
    ensures CountsOK(r, S)
  {
    forall u | u in S ensures IsNode(r, u) && LocalCount(r, u) {
      assert LocalCount(h, u);
      assert r[u] == h[u].(height := r[u].height);
      var l, rr := h[u].left, h[u].right;
      assert l != NIL ==> r[l] == h[l].(height := r[l].height);
      assert rr != NIL ==> r[rr] == h[rr].(height := r[rr].height);
    }
  }

  /**
   * A sound tree except for the stored heights on the path from `u` up, whose parent links
   * agree with the tree from `u` up: the state a rotation's relinking leaves before
   * `updateHeight()`.
   */
  ghost predicate SoundOffPath(h: seq<Node>, t: Shape, u: int)
  {
    Rooted(h, t) && h[SENTINEL].right == NIL && SearchTree(t) &&
    (t.Branch? ==> h[t.id].parent == SENTINEL) &&
    u in Ids(t) && IsNode(h, u) && UpLinked(h, t, u) &&
    HeightsOffPath(h, t, u) && CountsOK(h, Ids(t))
  }

  /** `updateHeight()` at `u` repairs the heights on the path from `u` and changes nothing else. */
  lemma UpdatedHeightSound(h: seq<Node>, t: Shape, u: int, fuel: nat)
    requires SoundOffPath(h, t, u) && fuel >= Size(t)
    ensures UpdatedHeight(h, u, fuel).Some?
    ensures var r := UpdatedHeight(h, u, fuel).value;
            Sound(r, t) && UpLinked(r, t, u) && HeightsOnly(h, r)
  {
    PathShape(t, u);
    UpdatedHeightIsUp(h, t, u, fuel);
    UpHeightsPath(h, t, u, fuel);
    UpHeightsRepair(h, t, u, fuel);
    var r := UpHeights(h, u, fuel).value;
    assert HeightsOnly(h, r);
    HeightsOnlyRealizes(h, r, h[SENTINEL].left, t);
    HeightsOnlyCounts(h, r, Ids(t));
    assert forall i :: 0 <= i < |h| ==> r[i].parent == h[i].parent;
    UpLinkedFrame(h, r, t, u);
    assert r[SENTINEL] == h[SENTINEL].(height := r[SENTINEL].height);
    if t.Branch? {
      assert r[t.id] == h[t.id].(height := r[t.id].height);
    }
  }

  /** The relinking of `rightRotation()` at `x` leaves the rotated tree sound off `x`'s path. */
  lemma RelinkRightSound(h: seq<Node>, t: Shape, x: int)
    requires Sound(h, t) && x in Ids(t) && UpLinked(h, t, x) && IsNode(h, x) && h[x].left != NIL
    ensures ArenaOK(RelinkRight(h, x))
    ensures var r1, t2 := RelinkRight(h, x), Replace(t, x, RotR(Subtree(t, x)));
            SoundOffPath(r1, t2, x) && Ids(t2) == Ids(t) && Keys(t2) == Keys(t) &&
            Size(t2) == Size(t) && Path(t2, x) == [x, h[x].left] + Path(t, x)[1..] &&
            h[x].left in Ids(t) && Subtree(t2, h[x].left) == RotR(Subtree(t, x))
  {
    RightSetting(h, t, x);
    var S, L := Subtree(t, x), h[x].left;
    var r1 := RelinkRight(h, x);
    RelinkRightFields(h, x);
    RelinkRightOK(h, x);
    RelinkRightShape(h, t, x, r1);
    RelinkRightUp(h, t, x, r1);
    RelinkRightHeights(h, t, x, r1);
    RelinkRightCounts(h, t, x, r1);
    RelinkRightLocal(h, r1, x, S);
    ReplaceSubtree(t, x, RotR(S));
  }

  /**
   * `rightRotation()` at a node `x` with a left child, in a sound tree whose parent links agree
   * with it from `x` up, finishes within fuel the tree's size and leaves a sound tree: the tree
   * with the subtree at `x` rotated right, on the same nodes and keys, with every stored height
   * and count right, and with the parent links from `x` up agreeing with it (`x` now hangs from
   * its old left child).
   */
  lemma RotateRightSound(h: seq<Node>, t: Shape, x: int, fuel: nat)
    requires Sound(h, t) && x in Ids(t) && UpLinked(h, t, x) && IsNode(h, x) && h[x].left != NIL
    requires fuel >= Size(t)
    ensures RotateRight(h, x, fuel).Some?
    ensures var r, t2 := RotateRight(h, x, fuel).value, Replace(t, x, RotR(Subtree(t, x)));
            Sound(r, t2) && Ids(t2) == Ids(t) && Keys(t2) == Keys(t) && Size(t2) == Size(t) &&
            UpLinked(r, t2, x) && Path(t2, x) == [x, h[x].left] + Path(t, x)[1..] &&
            h[x].left in Ids(t) && Subtree(t2, h[x].left) == RotR(Subtree(t, x))
  {
    RelinkRightSound(h, t, x);
    var t2 := Replace(t, x, RotR(Subtree(t, x)));
    UpdatedHeightSound(RelinkRight(h, x), t2, x, fuel);
  }

  /**
   * The parent link `rightRotation()` leaves stale (avlTree.h:155, 171): the right child `c` of
   * `x`'s left child `L` becomes `x`'s left child, but its own `parent` still names `L`, which
   * is now `x`'s parent.
   */
  lemma StaleAfterRight(h: seq<Node>, t: Shape, x: int, fuel: nat)
    requires Sound(h, t) && x in Ids(t) && UpLinked(h, t, x) && IsNode(h, x) && h[x].left != NIL
    requires fuel >= Size(t)
    requires IsNode(h, h[x].left) && h[h[x].left].right != NIL
    requires IsNode(h, h[h[x].left].right) && h[h[h[x].left].right].parent == h[x].left
    ensures RotateRight(h, x, fuel).Some?
    ensures var L, r := h[x].left, RotateRight(h, x, fuel).value;
            var c := h[L].right;
            r[x].left == c && r[x].parent == L && r[L].right == x &&
            r[c].parent == L && r[c].parent != x
  {
    RightSetting(h, t, x);
    var S, L, p := Subtree(t, x), h[x].left, h[x].parent;
    var c := h[L].right;
    RealizesIds(h, c, S.left.right);
    assert c in Ids(S.left) && c != L;
    assert c != x && c != p;
    var r1 := RelinkRight(h, x);
    RelinkRightFields(h, x);
    RelinkRightSound(h, t, x);
    UpdatedHeightSound(r1, Replace(t, x, RotR(S)), x, fuel);
    var r := UpdatedHeight(r1, x, fuel).value;
    assert r[c] == r1[c].(height := r[c].height);
    assert r[x] == r1[x].(height := r[x].height);
    assert r[L] == r1[L].(height := r[L].height);
  }

  // ---------------------------------------------------------------------------------------
  // leftRotation

  /**
   * The neighbourhood of a node `x` with a right child `R` in a sound tree whose parent links
   * agree with the tree from `x` up: its subtree, its parent `p` (the sentinel at the root),
   * and the distinctness facts the writes of `leftRotation()` rely on.
   */
  lemma LeftSetting(h: seq<Node>, t: Shape, x: int)
    requires Sound(h, t) && x in Ids(t) && UpLinked(h, t, x) && IsNode(h, x) && h[x].right != NIL
    ensures var S, R, p := Subtree(t, x), h[x].right, h[x].parent;
            Realizes(h, x, S) && S.Branch? && S.id == x && S.right.Branch? && S.right.id == R &&
            Distinct(S) && Ids(S) <= Ids(t) && R in Ids(t) && R != x && IsNode(h, R) &&
            IsNode(h, p) && p !in Ids(S) && p != x && p != R &&
            (x == t.id ==> p == SENTINEL) &&
            (x != t.id ==> |Path(t, x)| >= 2 && p == Path(t, x)[1] && p in Ids(t)) &&
            IsChildOf(h, x, p) && (h[p].right == x ==> h[p].left != x) &&
            h[x].left != R && h[R].right != R && h[R].right != x &&
            ParentIn(t, R, x) &&
            Realizes(h, h[R].right, S.right.right) && Realizes(h, h[R].left, S.right.left) &&
            Realizes(h, h[x].left, S.left)
  {
    var root := h[SENTINEL].left;
    RealizesIds(h, root, t);
    SubtreeRealized(h, root, t, x);
    SubtreeIds(t, x);
    var S, R, p := Subtree(t, x), h[x].right, h[x].parent;
    RealizesIds(h, R, S.right);
    RealizesIds(h, h[x].left, S.left);
    RealizesIds(h, h[R].right, S.right.right);
    RealizesIds(h, h[R].left, S.right.left);
    assert Ids(S) == Ids(S.right) + {x} + Ids(S.left);
    assert Ids(S.right) == Ids(S.right.right) + {R} + Ids(S.right.left);
    var P := Path(t, x);
    PathShape(t, x);
    PathRoot(t, x);
    AncestorsOutside(t, x);
    if x == t.id {
      assert P == [x];
      assert p == SENTINEL;
    } else {
      assert p == P[1] && p in P;
      ParentChild(h, root, t, x, p);
    }
    RealizesNode(h, root, t, x);
    ChildParent(h, root, t, x, R);
    if p != SENTINEL {
      RealizesNode(h, root, t, p);
    } else {
      assert 0 < x;
    }
  }

  /** After the writes of `leftRotation()` at `x`, its old right child roots the rotated subtree. */
  lemma RelinkLeftLocal(h: seq<Node>, r: seq<Node>, x: int, S: Shape)
    requires Realizes(h, x, S) && Distinct(S) && S.Branch? && S.right.Branch?
    requires LeftRelinked(h, r, x) && h[x].parent !in Ids(S)
    ensures var RS := RotL(S);
            RS.Branch? && RS.id == h[x].right && Realizes(r, RS.id, RS) && Distinct(RS) &&
            Ids(RS) == Ids(S) && Keys(RS) == Keys(S) && Size(RS) == Size(S)
  {
    var R, p := h[x].right, h[x].parent;
    RotLSame(S);
    RotLDistinct(S);
    var a, b, c := S.right.right, S.right.left, S.left;
    assert Ids(S) == Ids(S.right) + {x} + Ids(c);
    assert Ids(S.right) == Ids(a) + {R} + Ids(b);
    RealizesIds(h, h[R].right, a);
    RealizesIds(h, h[R].left, b);
    RealizesIds(h, h[x].left, c);
    assert forall i :: i in Ids(a) + Ids(b) + Ids(c) ==> i != x && i != R && i != p && r[i] == h[i];
    RealizesFrame(h, r, h[R].right, a);
    RealizesFrame(h, r, h[R].left, b);
    RealizesFrame(h, r, h[x].left, c);
    assert Realizes(r, x, Branch(c, x, S.key, b));
    assert RotL(S) == Branch(Branch(c, x, S.key, b), R, S.right.key, a);
  }

  /**
   * After the writes of `leftRotation()` at `x` the sentinel's left slot holds the tree with
   * the subtree at `x` rotated left.
   */
  lemma RelinkLeftTree(h: seq<Node>, t: Shape, x: int, r: seq<Node>)
    requires |h| > 0 && h[SENTINEL].right == NIL && Realizes(h, h[SENTINEL].left, t)
    requires Distinct(t) && SENTINEL !in Ids(t) && x in Ids(t)
    requires var S := Subtree(t, x);
             Realizes(h, x, S) && Distinct(S) && S.Branch? && S.right.Branch?
    requires LeftRelinked(h, r, x)
    requires var p := h[x].parent;
             p !in Ids(Subtree(t, x)) && IsChildOf(h, x, p) &&
             (h[p].right == x ==> h[p].left != x) &&
             (x == t.id ==> p == SENTINEL) &&
             (x != t.id ==> |Path(t, x)| >= 2 && p == Path(t, x)[1])
    ensures Realizes(r, r[SENTINEL].left, Replace(t, x, RotL(Subtree(t, x))))
    ensures r[SENTINEL].right == NIL
  {
    var S, p := Subtree(t, x), h[x].parent;
    RelinkLeftLocal(h, r, x, S);
    var RS := RotL(S);
    assert x in Ids(S) && h[x].right in Ids(S);
    ReplaceFromSentinel(h, r, t, x, RS);
  }

  /**
   * After the writes of `leftRotation()` at `x` the arena realizes, from the sentinel, the tree
   * with the subtree at `x` rotated left: the same nodes and the same in-order keys, so still
   * a search tree of distinct real nodes whose root points at the sentinel.
   */
  lemma RelinkLeftShape(h: seq<Node>, t: Shape, x: int, r: seq<Node>)
    requires Sound(h, t) && x in Ids(t) && UpLinked(h, t, x) && IsNode(h, x) && h[x].right != NIL
    requires LeftRelinked(h, r, x) && ArenaOK(r)
    ensures var t2 := Replace(t, x, RotL(Subtree(t, x)));
            Rooted(r, t2) && r[SENTINEL].right == NIL &&
            Ids(t2) == Ids(t) && Keys(t2) == Keys(t) && Size(t2) == Size(t) && SearchTree(t2) &&
            t2.Branch? && r[t2.id].parent == SENTINEL
  {
    LeftSetting(h, t, x);
    var S, R := Subtree(t, x), h[x].right;
    RelinkLeftLocal(h, r, x, S);
    RelinkLeftTree(h, t, x, r);
    var RS := RotL(S);
    var t2 := Replace(t, x, RS);
    ReplaceSame(t, x, RS);
    if x != t.id {
      PathShape(t, x);
      PathRoot(t, x);
      AncestorsOutside(t, x);
      assert t2.id == t.id && t.id !in Ids(S);
    }
  }

  /**
   * After the writes of `leftRotation()` at `x`, the parent links from `x` up agree with the
   * rotated tree: `x` now hangs from its old right child, which hangs from `x`'s old parent.
   */
  lemma RelinkLeftUp(h: seq<Node>, t: Shape, x: int, r: seq<Node>)
    requires Distinct(t) && x in Ids(t) && UpLinked(h, t, x)
    requires var S := Subtree(t, x); Realizes(h, x, S) && S.Branch? && S.right.Branch?
    requires LeftRelinked(h, r, x)
    ensures var t2 := Replace(t, x, RotL(Subtree(t, x)));
            Path(t2, x) == [x, h[x].right] + Path(t, x)[1..] && UpLinked(r, t2, x)
  {
    SubtreeIds(t, x);
    var S, R, p := Subtree(t, x), h[x].right, h[x].parent;
    var RS := RotL(S);
    RotLSame(S);
    RotLDistinct(S);
    PathReplace(t, x, RS, x);
    var P := Path(t, x);
    PathShape(t, x);
    AncestorsOutside(t, x);
    assert Ids(S) == Ids(S.right) + {x} + Ids(S.left);
    assert Ids(S.right) == Ids(S.right.right) + {R} + Ids(S.right.left);
    assert x !in Ids(S.right.right) && x != R;
    assert Path(RS, x) == [x, R];
    var t2 := Replace(t, x, RS);
    var Q := Path(t2, x);
    assert Q == [x, R] + P[1..];
    assert forall v :: 0 <= v < |h| && v != x && v != R ==> r[v].parent == h[v].parent;
    forall i | 2 <= i < |Q| ensures Q[i] == P[i - 1] && Q[i] != x && Q[i] != R {
      assert P[i - 1] !in Ids(S);
    }
    if |P| >= 2 {
      assert p == P[1] == Q[2];
    }
  }

  /**
   * The writes of `leftRotation()` at `x` change no stored height and no links of a node off
   * the path from `x` up the rotated tree, so the heights off that path stay right.
   */
  lemma RelinkLeftHeights(h: seq<Node>, t: Shape, x: int, r: seq<Node>)
    requires Closed(h) && Closed(r) && Distinct(t) && SENTINEL !in Ids(t) && x in Ids(t)
    requires UpLinked(h, t, x) && HeightsOK(h, Ids(t))
    requires var S := Subtree(t, x); Realizes(h, x, S) && S.Branch? && S.right.Branch?
    requires LeftRelinked(h, r, x)
    ensures var t2 := Replace(t, x, RotL(Subtree(t, x)));
            Ids(t2) == Ids(t) && HeightsOffPath(r, t2, x)
  {
    RelinkLeftUp(h, t, x, r);
    SubtreeIds(t, x);
    var S, R, p := Subtree(t, x), h[x].right, h[x].parent;
    RotLSame(S);
    var t2 := Replace(t, x, RotL(S));
    ReplaceIdsSub(t, x, RotL(S));
    var P := Path(t, x);
    PathShape(t, x);
    assert P[0] == x;
    assert forall i :: 0 <= i < |h| ==> r[i].height == h[i].height;
    forall v | v in Ids(t2) && v !in Path(t2, x) ensures IsNode(r, v) && LocalHeight(r, v) {
      assert v != x && v != R && v !in P[1..];
      if |P| >= 2 {
        assert p == P[1] && P[1] in P[1..];
      }
      assert v != p;
      assert r[v] == h[v] && LocalHeight(h, v);
    }
  }

  /**
   * The counts `leftRotation()` at `x` writes are right for the rotated tree: `R` now counts
   * `x`'s remaining subtrees too, `x` counts only the subtrees it keeps, and every other count,
   * the one of `x`'s old parent included, still matches its children.
   */
  lemma RelinkLeftCounts(h: seq<Node>, t: Shape, x: int, r: seq<Node>)
    requires Sound(h, t) && x in Ids(t) && UpLinked(h, t, x) && IsNode(h, x) && h[x].right != NIL
    requires LeftRelinked(h, r, x) && Closed(r)
    ensures CountsOK(r, Ids(t))
  {
    LeftSetting(h, t, x);
    var root := h[SENTINEL].left;
    RealizesIds(h, root, t);
    var S, R, p := Subtree(t, x), h[x].right, h[x].parent;
    var a, b, c := h[R].right, h[R].left, h[x].left;
    RealizesIds(h, a, S.right.right);
    RealizesIds(h, b, S.right.left);
    RealizesIds(h, c, S.left);
    assert Ids(S) == Ids(S.right) + {x} + Ids(S.left);
    assert Ids(S.right) == Ids(S.right.right) + {R} + Ids(S.right.left);
    assert a != x && a != R && b != x && b != R && c != x && c != R;
    assert forall i :: 0 <= i < |h| && i != x && i != R ==>
      r[i].numberOfChildren == h[i].numberOfChildren;
    assert r[R].right == a && r[R].left == x && r[x].right == b && r[x].left == c;
    assert LocalCount(h, x) && LocalCount(h, R);
    forall v | v in Ids(t) ensures IsNode(r, v) && LocalCount(r, v) {
      if v != x && v != R {
        RelinkLeftCountAt(h, t, x, r, v);
      }
    }
  }

  /** One node other than `x` and its right child keeps a right count under `leftRotation()`. */
  lemma RelinkLeftCountAt(h: seq<Node>, t: Shape, x: int, r: seq<Node>, v: int)
    requires Sound(h, t) && x in Ids(t) && UpLinked(h, t, x) && IsNode(h, x) && h[x].right != NIL
    requires LeftRelinked(h, r, x) && Closed(r)
    requires v in Ids(t) && v != x && v != h[x].right
    ensures IsNode(r, v) && LocalCount(r, v)
  {
    LeftSetting(h, t, x);
    var root := h[SENTINEL].left;
    RealizesIds(h, root, t);
    var R, p := h[x].right, h[x].parent;
    assert LocalCount(h, v) && LocalCount(h, x);
    var dl, dr := h[v].right, h[v].left;
    if dl != NIL {
      ChildParent(h, root, t, v, dl);
    }
    if dr != NIL {
      ChildParent(h, root, t, v, dr);
    }
    assert dl != R && dr != R;
    if v != p {
      assert dl != x && dr != x;
      assert r[v] == h[v];
    }
  }


  /** The relinking of `leftRotation()` at `x` leaves the rotated tree sound off `x`'s path. */
  lemma RelinkLeftSound(h: seq<Node>, t: Shape, x: int)
    requires Sound(h, t) && x in Ids(t) && UpLinked(h, t, x) && IsNode(h, x) && h[x].right != NIL
    ensures ArenaOK(RelinkLeft(h, x))
    ensures var r1, t2 := RelinkLeft(h, x), Replace(t, x, RotL(Subtree(t, x)));
            SoundOffPath(r1, t2, x) && Ids(t2) == Ids(t) && Keys(t2) == Keys(t) &&
            Size(t2) == Size(t) && Path(t2, x) == [x, h[x].right] + Path(t, x)[1..] &&
            h[x].right in Ids(t) && Subtree(t2, h[x].right) == RotL(Subtree(t, x))
  {
    LeftSetting(h, t, x);
    var S, R := Subtree(t, x), h[x].right;
    var r1 := RelinkLeft(h, x);
    RelinkLeftFields(h, x);
    RelinkLeftOK(h, x);
    RelinkLeftShape(h, t, x, r1);
    RelinkLeftUp(h, t, x, r1);
    RelinkLeftHeights(h, t, x, r1);
    RelinkLeftCounts(h, t, x, r1);
    RelinkLeftLocal(h, r1, x, S);
    ReplaceSubtree(t, x, RotL(S));
  }

  /**
   * `leftRotation()` at a node `x` with a right child, in a sound tree whose parent links agree
   * with it from `x` up, finishes within fuel the tree's size and leaves a sound tree: the tree
   * with the subtree at `x` rotated left, on the same nodes and keys, with every stored height
   * and count right, and with the parent links from `x` up agreeing with it (`x` now hangs from
   * its old right child).
   */
  lemma RotateLeftSound(h: seq<Node>, t: Shape, x: int, fuel: nat)
    requires Sound(h, t) && x in Ids(t) && UpLinked(h, t, x) && IsNode(h, x) && h[x].right != NIL
    requires fuel >= Size(t)
    ensures RotateLeft(h, x, fuel).Some?
    ensures var r, t2 := RotateLeft(h, x, fuel).value, Replace(t, x, RotL(Subtree(t, x)));
            Sound(r, t2) && Ids(t2) == Ids(t) && Keys(t2) == Keys(t) && Size(t2) == Size(t) &&
            UpLinked(r, t2, x) && Path(t2, x) == [x, h[x].right] + Path(t, x)[1..] &&
            h[x].right in Ids(t) && Subtree(t2, h[x].right) == RotL(Subtree(t, x))
  {
    RelinkLeftSound(h, t, x);
    var t2 := Replace(t, x, RotL(Subtree(t, x)));
    UpdatedHeightSound(RelinkLeft(h, x), t2, x, fuel);
  }

  /**
   * The parent link `leftRotation()` leaves stale (avlTree.h:180, 196): the left child `c` of
   * `x`'s right child `R` becomes `x`'s right child, but its own `parent` still names `R`, which
   * is now `x`'s parent.
   */
  lemma StaleAfterLeft(h: seq<Node>, t: Shape, x: int, fuel: nat)
    requires Sound(h, t) && x in Ids(t) && UpLinked(h, t, x) && IsNode(h, x) && h[x].right != NIL
    requires fuel >= Size(t)
    requires IsNode(h, h[x].right) && h[h[x].right].left != NIL
    requires IsNode(h, h[h[x].right].left) && h[h[h[x].right].left].parent == h[x].right
    ensures RotateLeft(h, x, fuel).Some?
    ensures var R, r := h[x].right, RotateLeft(h, x, fuel).value;
            var c := h[R].left;
            r[x].right == c && r[x].parent == R && r[R].left == x &&
            r[c].parent == R && r[c].parent != x
  {
    LeftSetting(h, t, x);
    var S, R, p := Subtree(t, x), h[x].right, h[x].parent;
    var c := h[R].left;
    RealizesIds(h, c, S.right.left);
    assert c in Ids(S.right) && c != R;
    assert c != x && c != p;
    var r1 := RelinkLeft(h, x);
    RelinkLeftFields(h, x);
    RelinkLeftSound(h, t, x);
    UpdatedHeightSound(r1, Replace(t, x, RotL(S)), x, fuel);
    var r := UpdatedHeight(r1, x, fuel).value;
    assert r[c] == r1[c].(height := r[c].height);
    assert r[x] == r1[x].(height := r[x].height);
    assert r[R] == r1[R].(height := r[R].height);
  }
}
