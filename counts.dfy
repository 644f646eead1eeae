/**
 * What `updateNumberOfChidren()` does to a tree whose parent links along the walk agree with
 * the tree: every proper ancestor of the node, up to the real root, gains exactly one
 * descendant, and nothing else changes.
 */
module AvlCounts {
  import opened AvlNodes
  import opened AvlShape
  import opened AvlPaths
  import opened AvlSteps

  /** Changing descendant counts only keeps the tree realized. */
  lemma CountsOnlyRealizes(h: seq<Node>, r: seq<Node>, p: int, t: Shape)
    requires CountsOnly(h, r) && Realizes(h, p, t)
    ensures Realizes(r, p, t)
  {
    RealizesIds(h, p, t);
    forall i | i in Ids(t) ensures SameShapeFields(h, r, i) {
      assert r[i].(numberOfChildren := 0) == h[i].(numberOfChildren := 0);
    }
    RealizesFrame(h, r, p, t);
  }

  /**
   * `r` is `h` with one more descendant counted at every node of the path from `u` except `u`
   * itself, and nothing else changed.
   */
  ghost predicate BumpedAlong(h: seq<Node>, r: seq<Node>, t: Shape, u: int)
  {
    CountsOnly(h, r) &&
    forall i :: 0 <= i < |h| ==>
      r[i].numberOfChildren ==
        h[i].numberOfChildren + (if i in Path(t, u) && i != u then 1 else 0)
  }

  /** The first step of the walk at a non-root node `u`: its parent gains one. */
  lemma AddCountStep(h: seq<Node>, t: Shape, u: int)
    requires Rooted(h, t) && u in Ids(t) && IsNode(h, u) && u != t.id && UpLinked(h, t, u)
    ensures |Path(t, u)| >= 2 && HasParent(h, u) && h[u].parent == Path(t, u)[1]
    ensures IsNode(h, h[u].parent)
    ensures var h1 := AddCount(h, h[u].parent, 1);
            ArenaOK(h1) && CountsOnly(h, h1) && Rooted(h1, t) && UpLinked(h1, t, Path(t, u)[1])
  {
    RealizesIds(h, h[SENTINEL].left, t);
    UpLinkedTail(h, t, u);
    PathShape(t, u);
    var w := Path(t, u)[1];
    assert h[u].parent == w && w != SENTINEL && IsNode(h, w);
    CountOK(h, w, 1);
    var h1 := AddCount(h, w, 1);
    assert CountsOnly(h, h1);
    UpLinkedFrame(h, h1, t, w);
    CountsOnlyRealizes(h, h1, h[SENTINEL].left, t);
  }

  /**
   * `updateNumberOfChidren()` from `u` (avlTree.h:66-71) finishes within `|path| - 1` steps
   * and adds exactly one to `numberOfChildren` at every real ancestor of `u` and nowhere else:
   * not at `u`, not at the sentinel, not off the path.
   */
  lemma {:induction false} CountsUpPath(h: seq<Node>, t: Shape, u: int, fuel: nat)
    requires Rooted(h, t) && u in Ids(t) && IsNode(h, u) && UpLinked(h, t, u)
    requires fuel >= |Path(t, u)| - 1
    ensures CountsUp(h, u, fuel).Some? && BumpedAlong(h, CountsUp(h, u, fuel).value, t, u)
    decreases |Path(t, u)|
  {
    PathShape(t, u);
    PathRoot(t, u);
    if u == t.id {
      assert Path(t, u) == [u];
      assert !HasParent(h, u);
    } else {
      AddCountStep(h, t, u);
      var w := Path(t, u)[1];
      var h1 := AddCount(h, w, 1);
      PathTail(t, u);
      CountsUpPath(h1, t, w, fuel - 1);
      var r := CountsUp(h1, w, fuel - 1).value;
      assert CountsUp(h, u, fuel) == Some(r);
      BumpedAlongCons(h, r, t, u);
    }
  }

  /** Adding one at the parent of `u`, then along the parent's path, adds along `u`'s path. */
  lemma BumpedAlongCons(h: seq<Node>, r: seq<Node>, t: Shape, u: int)
    requires Distinct(t) && u in Ids(t) && u != t.id && |Path(t, u)| >= 2
    requires IsNode(h, Path(t, u)[1])
    requires BumpedAlong(AddCount(h, Path(t, u)[1], 1), r, t, Path(t, u)[1])
    ensures BumpedAlong(h, r, t, u)
  {
    var P := Path(t, u);
    var w := P[1];
    var h1 := AddCount(h, w, 1);
    PathShape(t, u);
    PathTail(t, u);
    PathDistinct(t, u);
    assert Path(t, w) == P[1..];
    forall i | 0 <= i < |h|
      ensures r[i].numberOfChildren ==
                h[i].numberOfChildren + (if i in P && i != u then 1 else 0)
    {
      assert (i in P && i != u) <==> i in Path(t, w);
    }
    assert CountsOnly(h, r) by {
      forall i | 0 <= i < |h|
        ensures r[i].(numberOfChildren := 0) == h[i].(numberOfChildren := 0)
      {
        assert h1[i].(numberOfChildren := 0) == h[i].(numberOfChildren := 0);
      }
    }
  }

  /** A child of `v` on the path from `u` is the node just below `v` on that path. */
  lemma ChildOnPath(h: seq<Node>, t: Shape, u: int, v: int, d: int)
    requires Rooted(h, t) && u in Ids(t) && v in Ids(t)
    requires d != NIL && IsNode(h, v) && IsChildOf(h, d, v) && d in Path(t, u)
    ensures v in Path(t, u) && v != u
    ensures forall j :: 0 <= j < |Path(t, u)| && Path(t, u)[j] == d ==>
                          j + 1 < |Path(t, u)| && Path(t, u)[j + 1] == v
  {
    var P := Path(t, u);
    ChildPath(h, t, v, d);
    PathShape(t, v);
    forall j | 0 <= j < |P| && P[j] == d ensures j + 1 < |P| && P[j + 1] == v {
      PathSuffix(t, u, j);
      assert Path(t, d) == P[j..];
    }
    var j :| 0 <= j < |P| && P[j] == d;
    assert P[j + 1] == v;
    PathShape(t, u);
    PathDistinct(t, u);
  }

  /** Each node of a path holds the node below it in one of its child slots. */
  lemma PathChild(h: seq<Node>, t: Shape, u: int, i: int)
    requires Rooted(h, t) && u in Ids(t) && 1 <= i < |Path(t, u)|
    ensures IsNode(h, Path(t, u)[i]) && IsChildOf(h, Path(t, u)[i - 1], Path(t, u)[i])
  {
    var P := Path(t, u);
    PathSuffix(t, u, i - 1);
    PathDistinct(t, u);
    PathRoot(t, P[i - 1]);
    PathTail(t, P[i - 1]);
    assert ParentIn(t, P[i - 1], P[i]);
    ParentChild(h, h[SENTINEL].left, t, P[i - 1], P[i]);
  }

  /** After the walk, the subtree count read at a link has grown by one exactly on the path. */
  lemma CntBumped(h: seq<Node>, r: seq<Node>, t: Shape, u: int, x: int)
    requires BumpedAlong(h, r, t, u) && IsLink(h, x)
    ensures Cnt(r, x) == Cnt(h, x) + (if x != NIL && x in Path(t, u) && x != u then 1 else 0)
  {
  }

  /** The only child of a path node that lies on the path is the node just below it. */
  lemma OnlyChildOnPath(h: seq<Node>, t: Shape, u: int, i: int)
    requires Rooted(h, t) && u in Ids(t) && 1 <= i < |Path(t, u)| && IsNode(h, Path(t, u)[i])
    ensures forall d :: d != NIL && IsChildOf(h, d, Path(t, u)[i]) && d in Path(t, u) ==>
                          d == Path(t, u)[i - 1]
  {
    var P := Path(t, u);
    PathShape(t, u);
    PathDistinct(t, u);
    forall d | d != NIL && IsChildOf(h, d, P[i]) && d in P ensures d == P[i - 1] {
      ChildOnPath(h, t, u, P[i], d);
      var j :| 0 <= j < |P| && P[j] == d;
      assert P[j + 1] == P[i];
    }
  }

  /** The walk leaves the count right at a node of the path above `u`. */
  lemma RepairedOnPath(h: seq<Node>, r: seq<Node>, t: Shape, u: int, i: int)
    requires Rooted(h, t) && u in Ids(t) && BumpedAlong(h, r, t, u) && Closed(r)
    requires 1 <= i < |Path(t, u)|
    requires var v := Path(t, u)[i];
             IsNode(h, v) &&
             h[v].numberOfChildren + (if i == 1 then 1 else 0) ==
               Cnt(h, h[v].left) + Cnt(h, h[v].right)
    ensures IsNode(r, Path(t, u)[i]) && LocalCount(r, Path(t, u)[i])
  {
    var P := Path(t, u);
    var v := P[i];
    var root := h[SENTINEL].left;
    PathShape(t, u);
    PathDistinct(t, u);
    RealizesIds(h, root, t);
    RealizesNode(h, root, t, v);
    PathChild(h, t, u, i);
    var l, rt := h[v].left, h[v].right;
    assert r[v].(numberOfChildren := 0) == h[v].(numberOfChildren := 0);
    assert r[v].left == l && r[v].right == rt;
    OnlyChildOnPath(h, t, u, i);
    var d := P[i - 1];
    assert d in P && d != NIL;
    assert d == u <==> i == 1;
    assert v in P && v != u;
    assert r[v].numberOfChildren == h[v].numberOfChildren + 1;
    var other := if l == d then rt else l;
    assert other == NIL || other !in P;
    CntBumped(h, r, t, u, d);
    CntBumped(h, r, t, u, other);
  }

  /** The walk leaves the count right at a node off the path above `u`. */
  lemma RepairedOffPath(h: seq<Node>, r: seq<Node>, t: Shape, u: int, v: int)
    requires Rooted(h, t) && u in Ids(t) && BumpedAlong(h, r, t, u) && Closed(r)
    requires v in Ids(t) && (v == u || v !in Path(t, u))
    requires IsNode(h, v) && LocalCount(h, v)
    ensures IsNode(r, v) && LocalCount(r, v)
  {
    var root := h[SENTINEL].left;
    RealizesNode(h, root, t, v);
    var l, rt := h[v].left, h[v].right;
    assert r[v].(numberOfChildren := 0) == h[v].(numberOfChildren := 0);
    if l != NIL && l in Path(t, u) { ChildOnPath(h, t, u, v, l); }
    if rt != NIL && rt in Path(t, u) { ChildOnPath(h, t, u, v, rt); }
    CntBumped(h, r, t, u, l);
    CntBumped(h, r, t, u, rt);
  }

  /**
   * `updateNumberOfChidren()` from a new leaf `u` restores every count of the tree: before it,
   * all counts were right except at the leaf's parent, which was one short.
   */
  lemma CountsRepair(h: seq<Node>, t: Shape, u: int, fuel: nat)
    requires Rooted(h, t) && u in Ids(t) && IsNode(h, u) && UpLinked(h, t, u) && u != t.id
    requires fuel >= |Path(t, u)| - 1
    requires |Path(t, u)| >= 2 && IsNode(h, Path(t, u)[1])
    requires forall v :: v in Ids(t) && v != Path(t, u)[1] ==> IsNode(h, v) && LocalCount(h, v)
    requires var q := Path(t, u)[1];
             h[q].numberOfChildren + 1 == Cnt(h, h[q].left) + Cnt(h, h[q].right)
    ensures CountsUp(h, u, fuel).Some? && CountsOK(CountsUp(h, u, fuel).value, Ids(t))
  {
    var P := Path(t, u);
    CountsUpPath(h, t, u, fuel);
    var r := CountsUp(h, u, fuel).value;
    PathShape(t, u);
    PathDistinct(t, u);
    RealizesIds(h, h[SENTINEL].left, t);
    forall v | v in Ids(t) ensures IsNode(r, v) && LocalCount(r, v) {
      if v in P && v != u {
        var i :| 0 <= i < |P| && P[i] == v;
        assert i >= 1 && (i == 1 <==> v == P[1]);
        RepairedOnPath(h, r, t, u, i);
      } else {
        assert v != P[1];
        RepairedOffPath(h, r, t, u, v);
      }
    }
  }

  /** Changing descendant counts only keeps the tree, its links and its heights as they were. */
  lemma CountsOnlyTreeIn(h: seq<Node>, r: seq<Node>, t: Shape, S: set<int>)
    requires TreeIn(h, t) && CountsOnly(h, r)
    ensures TreeIn(r, t)
    ensures HeightsOK(h, S) ==> HeightsOK(r, S)
  {
    CountsOnlyOK(h, r);
    CountsOnlyRealizes(h, r, h[SENTINEL].left, t);
    assert r[SENTINEL].(numberOfChildren := 0) == h[SENTINEL].(numberOfChildren := 0);
    forall u | u in Ids(t) ensures IsNode(r, u) && ParentLinks(r, u) {
      assert ParentLinks(h, u);
      assert r[u].(numberOfChildren := 0) == h[u].(numberOfChildren := 0);
      if h[u].left != NIL {
        assert r[h[u].left].(numberOfChildren := 0) == h[h[u].left].(numberOfChildren := 0);
      }
      if h[u].right != NIL {
        assert r[h[u].right].(numberOfChildren := 0) == h[h[u].right].(numberOfChildren := 0);
      }
    }
    if t.Branch? {
      RealizesIds(h, h[SENTINEL].left, t);
      assert r[t.id].(numberOfChildren := 0) == h[t.id].(numberOfChildren := 0);
    }
    if HeightsOK(h, S) {
      forall u | u in S ensures IsNode(r, u) && LocalHeight(r, u) {
        assert LocalHeight(h, u);
        assert r[u].(numberOfChildren := 0) == h[u].(numberOfChildren := 0);
        if h[u].left != NIL {
          assert r[h[u].left].(numberOfChildren := 0) == h[h[u].left].(numberOfChildren := 0);
        }
        if h[u].right != NIL {
          assert r[h[u].right].(numberOfChildren := 0) == h[h[u].right].(numberOfChildren := 0);
        }
      }
    }
  }
}
