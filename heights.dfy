/**
 * What `updateParentHeight()` and `updateHeight()` do to a tree whose parent links along the
 * walk agree with the tree: they store `1 + max` of the children's heights at the node and at
 * every ancestor up to the real root, and change nothing else.
 */
module AvlHeights {
  import opened AvlNodes
  import opened AvlShape
  import opened AvlPaths
  import opened AvlSteps

  /** `r` differs from `h` in stored heights only. */
  ghost predicate HeightsOnly(h: seq<Node>, r: seq<Node>)
  {
    |r| == |h| && forall i :: 0 <= i < |h| ==> r[i] == h[i].(height := r[i].height)
  }

  /** The stored heights of the nodes of `t` off the path from `u` are locally right. */
  ghost predicate HeightsOffPath(h: seq<Node>, t: Shape, u: int)
    requires Closed(h)
  {
    forall v :: v in Ids(t) && v !in Path(t, u) ==> IsNode(h, v) && LocalHeight(h, v)
  }

  /** Changing stored heights only keeps the tree realized. */
  lemma HeightsOnlyRealizes(h: seq<Node>, r: seq<Node>, p: int, t: Shape)
    requires HeightsOnly(h, r) && Realizes(h, p, t)
    ensures Realizes(r, p, t)
  {
    RealizesIds(h, p, t);
    forall i | i in Ids(t) ensures SameShapeFields(h, r, i) {
      assert r[i] == h[i].(height := r[i].height);
    }
    RealizesFrame(h, r, p, t);
  }

  /**
   * The first step of `updateParentHeight()` at a non-root node `u` of the tree: `u` gets its
   * height fixed and the walk moves on to its parent in the tree.
   */
  lemma FixHeightStep(h: seq<Node>, t: Shape, u: int)
    requires Rooted(h, t) && u in Ids(t) && u != t.id && UpLinked(h, t, u)
    ensures IsNode(h, u) && |Path(t, u)| >= 2
    ensures var h1 := FixHeight(h, u);
            ArenaOK(h1) && HasParent(h1, u) && h1[u].parent == Path(t, u)[1] &&
            HeightsOnly(h, h1) && Rooted(h1, t) && UpLinked(h1, t, Path(t, u)[1])
  {
    RealizesIds(h, h[SENTINEL].left, t);
    HeightOK(h, u);
    var h1 := FixHeight(h, u);
    assert HeightsOnly(h, h1);
    UpLinkedTail(h, t, u);
    PathShape(t, u);
    var w := Path(t, u)[1];
    assert h1[u].parent == w && w != SENTINEL && IsNode(h, w);
    assert h1[w].times == h[w].times;
    UpLinkedFrame(h, h1, t, w);
    HeightsOnlyRealizes(h, h1, h[SENTINEL].left, t);
  }

  /** Fixing the height of `u` makes it locally right, and only its height changes. */
  lemma FixHeightLocal(h: seq<Node>, t: Shape, u: int)
    requires Rooted(h, t) && u in Ids(t)
    ensures IsNode(h, u)
    ensures var h1 := FixHeight(h, u);
            HeightsOnly(h, h1) && LocalHeight(h1, u) &&
            forall c :: c != NIL && IsChildOf(h, c, u) ==> c in Ids(t) && c !in Path(t, u)
  {
    RealizesIds(h, h[SENTINEL].left, t);
    var h1 := FixHeight(h, u);
    forall c | c != NIL && IsChildOf(h, c, u) ensures c in Ids(t) && c !in Path(t, u) {
      ChildPath(h, t, u, c);
    }
    PathShape(t, u);
  }

  /**
   * `r` is `h` with the heights along the path from `u` recomputed: each node of the path
   * holds `1 + max` of its children's heights, and nothing else differs.
   */
  ghost predicate FixedAlong(h: seq<Node>, r: seq<Node>, t: Shape, u: int)
    requires Closed(r)
  {
    HeightsOnly(h, r) &&
    (forall i :: 0 <= i < |h| && i !in Path(t, u) ==> r[i] == h[i]) &&
    (forall v :: v in Path(t, u) ==> IsNode(r, v) && LocalHeight(r, v))
  }

  /**
   * `updateParentHeight()` from `u` (avlTree.h:135-140) visits exactly the path from `u` to the
   * root: it finishes within `|path| - 1` steps, every node of the path ends with
   * `height == 1 + max(left, right)` (absent child -1), and no other field of any node, and no
   * height off the path, changes.
   */
  lemma {:induction false} UpHeightsPath(h: seq<Node>, t: Shape, u: int, fuel: nat)
    requires Rooted(h, t) && u in Ids(t) && IsNode(h, u) && UpLinked(h, t, u)
    requires fuel >= |Path(t, u)| - 1
    ensures UpHeights(h, u, fuel).Some? && FixedAlong(h, UpHeights(h, u, fuel).value, t, u)
    decreases |Path(t, u)|
  {
    if u == t.id {
      FixedAlongRoot(h, t, u, fuel);
    } else {
      FixHeightStep(h, t, u);
      var h1 := FixHeight(h, u);
      var w := Path(t, u)[1];
      PathTail(t, u);
      var f1 := UpHeightsStep(h, u, fuel);
      UpHeightsPath(h1, t, w, f1);
      FixedAlongCons(h, UpHeights(h1, w, f1).value, t, u);
    }
  }

  /** One step of `updateParentHeight()` at a node whose parent is real. */
  lemma UpHeightsStep(h: seq<Node>, u: int, fuel: nat) returns (f1: nat)
    requires ArenaOK(h) && IsNode(h, u) && fuel > 0
    requires ArenaOK(FixHeight(h, u)) && HasParent(FixHeight(h, u), u)
    ensures f1 == fuel - 1
    ensures UpHeights(h, u, fuel) == UpHeights(FixHeight(h, u), FixHeight(h, u)[u].parent, f1)
  {
    f1 := fuel - 1;
  }

  /** At the root the walk fixes the root's height and stops. */
  lemma FixedAlongRoot(h: seq<Node>, t: Shape, u: int, fuel: nat)
    requires Rooted(h, t) && u in Ids(t) && IsNode(h, u) && UpLinked(h, t, u) && u == t.id
    ensures UpHeights(h, u, fuel) == Some(FixHeight(h, u))
    ensures FixedAlong(h, FixHeight(h, u), t, u)
  {
    var P := Path(t, u);
    PathShape(t, u);
    PathRoot(t, u);
    FixHeightLocal(h, t, u);
    var h1 := FixHeight(h, u);
    assert P == [u];
    assert !HasParent(h1, u);
    assert forall i :: 0 <= i < |h| && i != u ==> h1[i] == h[i];
  }

  /** Fixing `u` and then the path from its parent fixes the path from `u`. */
  lemma FixedAlongCons(h: seq<Node>, r: seq<Node>, t: Shape, u: int)
    requires Rooted(h, t) && u in Ids(t) && IsNode(h, u) && u != t.id && Closed(r)
    requires |Path(t, u)| >= 2 && FixedAlong(FixHeight(h, u), r, t, Path(t, u)[1])
    ensures FixedAlong(h, r, t, u)
  {
    var P := Path(t, u);
    var w := P[1];
    var h1 := FixHeight(h, u);
    PathShape(t, u);
    PathTail(t, u);
    PathDistinct(t, u);
    FixHeightLocal(h, t, u);
    assert Path(t, w) == P[1..];
    assert u !in Path(t, w);
    forall c | c != NIL && IsChildOf(h, c, u) ensures r[c] == h1[c] {
      assert c !in Path(t, w);
    }
    assert r[u] == h1[u];
    assert LocalHeight(r, u);
    forall v | v in P ensures IsNode(r, v) && LocalHeight(r, v) {
      if v != u {
        assert v in Path(t, w);
      }
    }
    forall i | 0 <= i < |h| && i !in P ensures r[i] == h[i] {
      assert i !in Path(t, w);
    }
    assert HeightsOnly(h, r);
  }

  /**
   * When every height off the path from `u` was already right, `updateParentHeight()` from `u`
   * leaves every stored height of the tree locally right.
   */
  lemma UpHeightsRepair(h: seq<Node>, t: Shape, u: int, fuel: nat)
    requires Rooted(h, t) && u in Ids(t) && IsNode(h, u) && UpLinked(h, t, u)
    requires fuel >= |Path(t, u)| - 1 && HeightsOffPath(h, t, u)
    ensures UpHeights(h, u, fuel).Some?
    ensures HeightsOK(UpHeights(h, u, fuel).value, Ids(t))
  {
    UpHeightsPath(h, t, u, fuel);
    var r := UpHeights(h, u, fuel).value;
    assert FixedAlong(h, r, t, u);
    RealizesIds(h, h[SENTINEL].left, t);
    forall v | v in Ids(t) ensures IsNode(r, v) && LocalHeight(r, v) {
      if v !in Path(t, u) {
        assert r[v] == h[v];
        forall c | c != NIL && IsChildOf(h, c, v) ensures r[c] == h[c] {
          ParentOnPath(h, t, u, v, c);
        }
      }
    }
  }

  /**
   * `updateHeight()` at a node of the tree (avlTree.h:148-151): its `updateChildrenHeight()`
   * returns, since the subtree below the node is finite, and the rest is
   * `updateParentHeight()`.
   */
  lemma UpdatedHeightIsUp(h: seq<Node>, t: Shape, u: int, fuel: nat)
    requires Rooted(h, t) && u in Ids(t) && IsNode(h, u)
    ensures UpdatedHeight(h, u, fuel) == UpHeights(h, u, fuel)
  {
    RealizesIds(h, h[SENTINEL].left, t);
    SubtreeRealized(h, h[SENTINEL].left, t, u);
  }

  /** Changing stored heights only keeps the tree, its links and its counts as they were. */
  lemma HeightsOnlyTreeIn(h: seq<Node>, r: seq<Node>, t: Shape, S: set<int>)
    requires TreeIn(h, t) && HeightsOnly(h, r) && ArenaOK(r)
    ensures TreeIn(r, t)
    ensures CountsOK(h, S) ==> CountsOK(r, S)
  {
    HeightsOnlyRealizes(h, r, h[SENTINEL].left, t);
    assert r[SENTINEL] == h[SENTINEL].(height := r[SENTINEL].height);
    forall u | u in Ids(t) ensures IsNode(r, u) && ParentLinks(r, u) {
      assert ParentLinks(h, u);
      assert r[u] == h[u].(height := r[u].height);
      if h[u].left != NIL {
        assert r[h[u].left] == h[h[u].left].(height := r[h[u].left].height);
      }
      if h[u].right != NIL {
        assert r[h[u].right] == h[h[u].right].(height := r[h[u].right].height);
      }
    }
    if t.Branch? {
      RealizesIds(h, h[SENTINEL].left, t);
      assert r[t.id] == h[t.id].(height := r[t.id].height);
    }
    if CountsOK(h, S) {
      forall u | u in S ensures IsNode(r, u) && LocalCount(r, u) {
        assert LocalCount(h, u);
        assert r[u] == h[u].(height := r[u].height);
        if h[u].left != NIL {
          assert r[h[u].left] == h[h[u].left].(height := r[h[u].left].height);
        }
        if h[u].right != NIL {
          assert r[h[u].right] == h[h[u].right].(height := r[h[u].right].height);
        }
      }
    }
  }
}
