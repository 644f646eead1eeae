/**
 * Where a node sits in the realized tree: its subtree, the path from it up to the root, and
 * what it means for the `parent` links along that path to agree with the tree.  These are the
 * facts the parent-link walks (`updateParentHeight`, `updateNumberOfChidren`, `AVLcondition`)
 * rest on.
 */
module AvlPaths {
  import opened AvlNodes
  import opened AvlShape

  /** The subtree of `t` whose root is the node `u` (`Empty` when `u` is not in `t`). */
  function Subtree(t: Shape, u: int): Shape
  {
    match t
    case Empty => Empty
    case Branch(l, id, _, r) =>
      if u == id then t
      else if u in Ids(l) then Subtree(l, u)
      else Subtree(r, u)
  }

  /** The nodes from `u` up to the root of `t`, `u` first (empty when `u` is not in `t`). */
  function Path(t: Shape, u: int): seq<int>
  {
    match t
    case Empty => []
    case Branch(l, id, _, r) =>
      if u == id then [id]
      else if u in Ids(l) then Path(l, u) + [id]
      else if u in Ids(r) then Path(r, u) + [id]
      else []
  }

  /**
   * `t` is the tree hanging from the sentinel of a well-formed arena, made of distinct real
   * nodes: what the walks up parent links need of the tree, whatever its parent links say.
   */
  ghost predicate Rooted(h: seq<Node>, t: Shape)
  {
    ArenaOK(h) && Realizes(h, h[SENTINEL].left, t) && Distinct(t) && SENTINEL !in Ids(t)
  }

  /** `p` is the parent of `u` in `t`. */
  ghost predicate ParentIn(t: Shape, u: int, p: int)
  {
    var P := Path(t, u);
    |P| >= 2 && P[1] == p
  }

  /**
   * The `parent` link of every node on the path from `u` names the next node of the path, and
   * the root's names the sentinel: the walk up from `u` follows the tree.
   */
  ghost predicate UpLinked(h: seq<Node>, t: Shape, u: int)
  {
    var P := Path(t, u);
    |P| > 0 &&
    (forall i :: 0 <= i < |P| ==> IsNode(h, P[i])) &&
    (forall i :: 0 <= i < |P| - 1 ==> h[P[i]].parent == P[i + 1]) &&
    h[P[|P| - 1]].parent == SENTINEL
  }

  lemma {:induction false} PathShape(t: Shape, u: int)
    requires u in Ids(t)
    ensures |Path(t, u)| > 0 && Path(t, u)[0] == u && Path(t, u)[|Path(t, u)| - 1] == t.id
    ensures forall v :: v in Path(t, u) ==> v in Ids(t)
    ensures |Path(t, u)| <= Size(t)
  {
    match t
    case Branch(l, id, _, r) =>
      if u == id {
      } else if u in Ids(l) {
        PathShape(l, u);
      } else {
        PathShape(r, u);
      }
  }

  /** Only the root has a one-node path. */
  lemma {:induction false} PathRoot(t: Shape, u: int)
    requires Distinct(t) && u in Ids(t)
    ensures |Path(t, u)| == 1 <==> u == t.id
  {
    match t
    case Branch(l, id, _, r) =>
      if u != id {
        if u in Ids(l) { PathShape(l, u); } else { PathShape(r, u); }
      }
  }

  /** Dropping the first node of a path gives the path of the parent. */
  lemma {:induction false} PathTail(t: Shape, u: int)
    requires Distinct(t) && u in Ids(t) && u != t.id
    ensures |Path(t, u)| >= 2 && Path(t, u)[1] in Ids(t)
    ensures Path(t, Path(t, u)[1]) == Path(t, u)[1..]
  {
    match t
    case Branch(l, id, _, r) =>
      var s := if u in Ids(l) then l else r;
      PathShape(s, u);
      if u == s.id {
        assert Path(t, u) == [u, id];
      } else {
        PathTail(s, u);
        var w := Path(s, u)[1];
        assert w in Ids(s) && w != id;
        if s == l {
          assert Path(t, w) == Path(l, w) + [id];
        } else {
          assert w !in Ids(l);
          assert Path(t, w) == Path(r, w) + [id];
        }
        assert Path(t, u)[1..] == Path(s, u)[1..] + [id];
      }
  }

  /** A node's subtree is realized from it. */
  lemma {:induction false} SubtreeRealized(h: seq<Node>, p: int, t: Shape, u: int)
    requires Realizes(h, p, t) && u in Ids(t)
    ensures Subtree(t, u).Branch? && Subtree(t, u).id == u
    ensures Realizes(h, u, Subtree(t, u))
    ensures Ids(Subtree(t, u)) <= Ids(t)
    decreases t
  {
    match t
    case Branch(l, id, _, r) =>
      if u == id {
      } else if u in Ids(l) {
        SubtreeRealized(h, h[p].left, l, u);
      } else {
        SubtreeRealized(h, h[p].right, r, u);
      }
  }

  /** A child link inside a realized tree of distinct nodes goes to the node's child in the tree. */
  lemma {:induction false} ChildParent(h: seq<Node>, p: int, t: Shape, v: int, c: int)
    requires Realizes(h, p, t) && Distinct(t) && v in Ids(t)
    requires c != NIL && IsNode(h, v) && IsChildOf(h, c, v)
    ensures c in Ids(t) && c != t.id && ParentIn(t, c, v)
    decreases t
  {
    match t
    case Branch(l, id, _, r) =>
      RealizesIds(h, h[p].left, l);
      RealizesIds(h, h[p].right, r);
      if v == id {
        if c == h[p].left {
          PathShape(l, c);
          assert Path(t, c) == Path(l, c) + [id];
        } else {
          PathShape(r, c);
          assert Path(t, c) == Path(r, c) + [id];
        }
      } else if v in Ids(l) {
        ChildParent(h, h[p].left, l, v, c);
        PathShape(l, c);
        assert Path(t, c) == Path(l, c) + [id];
      } else {
        ChildParent(h, h[p].right, r, v, c);
        PathShape(r, c);
        assert Path(t, c) == Path(r, c) + [id];
      }
  }

  /**
   * In the tree hanging from the sentinel, with every child pointing back at its parent, the
   * walk up from any node follows the tree.
   */
  lemma TreeUpLinked(h: seq<Node>, t: Shape, u: int)
    requires TreeIn(h, t) && u in Ids(t)
    ensures UpLinked(h, t, u)
  {
    var root := h[SENTINEL].left;
    RealizesIds(h, root, t);
    var P := Path(t, u);
    PathShape(t, u);
    forall i | 0 <= i < |P| ensures IsNode(h, P[i]) {
      assert P[i] in P;
    }
    forall i | 0 <= i < |P| - 1 ensures h[P[i]].parent == P[i + 1] {
      PathSuffix(t, u, i);
      var v := P[i];
      PathRoot(t, v);
      PathTail(t, v);
      var w := P[i + 1];
      assert IsNode(h, w) && ParentLinks(h, w);
      RealizesNode(h, root, t, v);
      var w' :| w' in Ids(t) && IsNode(h, w') && IsChildOf(h, v, w');
      ChildParent(h, root, t, w', v);
      assert w' == w;
    }
  }

  /** Every suffix of a path is the path of its first node. */
  lemma {:induction false} PathSuffix(t: Shape, u: int, i: int)
    requires Distinct(t) && u in Ids(t) && 0 <= i < |Path(t, u)|
    ensures Path(t, u)[i] in Ids(t) && Path(t, Path(t, u)[i]) == Path(t, u)[i..]
    decreases i
  {
    PathShape(t, u);
    if i > 0 {
      PathSuffix(t, u, i - 1);
      var v := Path(t, u)[i - 1];
      PathRoot(t, v);
      PathTail(t, v);
      assert Path(t, u)[i..] == Path(t, u)[i - 1..][1..];
    }
  }

  /** No node occurs twice on a path. */
  lemma {:induction false} PathDistinct(t: Shape, u: int)
    requires Distinct(t)
    ensures forall i, j :: 0 <= i < j < |Path(t, u)| ==> Path(t, u)[i] != Path(t, u)[j]
  {
    match t
    case Empty =>
    case Branch(l, id, _, r) =>
      if u != id && (u in Ids(l) || u in Ids(r)) {
        var s := if u in Ids(l) then l else r;
        PathDistinct(s, u);
        PathShape(s, u);
        assert Path(t, u) == Path(s, u) + [id];
      }
  }

  /** A child's path is the child followed by its parent's path. */
  lemma ChildPath(h: seq<Node>, t: Shape, v: int, c: int)
    requires IsNode(h, SENTINEL) && Realizes(h, h[SENTINEL].left, t) && Distinct(t) && v in Ids(t)
    requires c != NIL && IsNode(h, v) && IsChildOf(h, c, v)
    ensures c in Ids(t) && Path(t, c) == [c] + Path(t, v)
    ensures c !in Path(t, v)
  {
    ChildParent(h, h[SENTINEL].left, t, v, c);
    PathShape(t, c);
    PathTail(t, c);
    PathDistinct(t, c);
    assert Path(t, c) == [c] + Path(t, c)[1..];
  }

  /** The parent of a node on the path from `u` is on that path too. */
  lemma ParentOnPath(h: seq<Node>, t: Shape, u: int, v: int, c: int)
    requires IsNode(h, SENTINEL) && Realizes(h, h[SENTINEL].left, t) && Distinct(t)
    requires u in Ids(t) && v in Ids(t)
    requires c != NIL && IsNode(h, v) && IsChildOf(h, c, v)
    ensures c in Path(t, u) ==> v in Path(t, u)
  {
    ChildPath(h, t, v, c);
    PathShape(t, v);
    if c in Path(t, u) {
      var i :| 0 <= i < |Path(t, u)| && Path(t, u)[i] == c;
      PathSuffix(t, u, i);
      assert Path(t, u)[i + 1] == v;
    }
  }

  /** The walk from `u` follows the tree, so the walk from its parent does too. */
  lemma UpLinkedTail(h: seq<Node>, t: Shape, u: int)
    requires Distinct(t) && u in Ids(t) && u != t.id && UpLinked(h, t, u)
    ensures |Path(t, u)| >= 2 && Path(t, u)[1] in Ids(t) && UpLinked(h, t, Path(t, u)[1])
  {
    PathTail(t, u);
    var P := Path(t, u);
    var Q := Path(t, P[1]);
    assert forall i :: 0 <= i < |Q| ==> Q[i] == P[i + 1];
  }

  /** The walk only reads `parent` links, so an arena with the same ones is walked alike. */
  lemma UpLinkedFrame(h: seq<Node>, r: seq<Node>, t: Shape, u: int)
    requires UpLinked(h, t, u) && |r| == |h|
    requires forall i :: 0 <= i < |h| ==> r[i].parent == h[i].parent
    ensures UpLinked(r, t, u)
  {
  }

  /** The parent of a node in the tree holds it in one of its child slots. */
  lemma {:induction false} ParentChild(h: seq<Node>, p: int, t: Shape, c: int, v: int)
    requires Realizes(h, p, t) && Distinct(t) && c in Ids(t) && ParentIn(t, c, v)
    ensures v in Ids(t) && IsNode(h, v) && IsChildOf(h, c, v)
    decreases t
  {
    match t
    case Branch(l, id, _, r) =>
      RealizesIds(h, h[p].left, l);
      RealizesIds(h, h[p].right, r);
      if c != id {
        var s := if c in Ids(l) then l else r;
        var q := if c in Ids(l) then h[p].left else h[p].right;
        PathShape(s, c);
        PathRoot(s, c);
        assert Path(t, c) == Path(s, c) + [id];
        if c != s.id {
          ParentChild(h, q, s, c, v);
        }
      }
  }
}
