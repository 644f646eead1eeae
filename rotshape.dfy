/**
 * The rotations of the header on the abstract tree, and what replacing one subtree of a tree
 * by another does to its nodes, keys and paths.
 */
module AvlRotShape {
  import opened AvlNodes
  import opened AvlShape
  import opened AvlPaths

  /**
   * The tree `rightRotation()` makes of a subtree whose root `x` has a left child `l`: `l` is
   * the new root, `x` its right child, and `l`'s old right subtree moves under `x`.  A tree
   * without a left child is left as it is.
   */
  function RotR(t: Shape): Shape
  {
    match t
    case Branch(Branch(a, l, kl, b), x, kx, c) => Branch(a, l, kl, Branch(b, x, kx, c))
    case _ => t
  }

  /** The mirror image, `leftRotation()`. */
  function RotL(t: Shape): Shape
  {
    match t
    case Branch(a, x, kx, Branch(b, r, kr, c)) => Branch(Branch(a, x, kx, b), r, kr, c)
    case _ => t
  }

  /** `t` with the subtree rooted at `x` replaced by `s`. */
  function Replace(t: Shape, x: int, s: Shape): Shape
  {
    match t
    case Empty => Empty
    case Branch(l, id, k, r) =>
      if x == id then s
      else if x in Ids(l) then Branch(Replace(l, x, s), id, k, r)
      else if x in Ids(r) then Branch(l, id, k, Replace(r, x, s))
      else t
  }

  /** A right rotation keeps the nodes, the in-order keys and the size. */
  lemma RotRSame(t: Shape)
    ensures Ids(RotR(t)) == Ids(t) && Keys(RotR(t)) == Keys(t) && Size(RotR(t)) == Size(t)
  {
    match t
    case Branch(Branch(a, l, kl, b), x, kx, c) =>
      assert Keys(RotR(t)) == Keys(a) + [kl] + (Keys(b) + [kx] + Keys(c));
      assert Keys(t) == (Keys(a) + [kl] + Keys(b)) + [kx] + Keys(c);
    case _ =>
  }

  /** A right rotation keeps distinctness. */
  lemma RotRDistinct(t: Shape)
    requires Distinct(t)
    ensures Distinct(RotR(t))
  {
    match t
    case Branch(Branch(a, l, kl, b), x, kx, c) =>
      var m := Branch(a, l, kl, b);
      assert Distinct(m) && Ids(m) == Ids(a) + {l} + Ids(b);
      assert Distinct(a) && Distinct(b) && l !in Ids(a) && l !in Ids(b) && Ids(a) !! Ids(b);
      assert x !in Ids(m) && Ids(m) !! Ids(c);
      var n := Branch(b, x, kx, c);
      assert Distinct(n);
      assert Ids(n) == Ids(b) + {x} + Ids(c);
      assert l !in Ids(n) && Ids(a) !! Ids(n);
    case _ =>
  }

  /** A left rotation keeps the nodes, the in-order keys and the size. */
  lemma RotLSame(t: Shape)
    ensures Ids(RotL(t)) == Ids(t) && Keys(RotL(t)) == Keys(t) && Size(RotL(t)) == Size(t)
  {
    match t
    case Branch(a, x, kx, Branch(b, r, kr, c)) =>
      assert Keys(RotL(t)) == (Keys(a) + [kx] + Keys(b)) + [kr] + Keys(c);
      assert Keys(t) == Keys(a) + [kx] + (Keys(b) + [kr] + Keys(c));
    case _ =>
  }

  /** A left rotation keeps distinctness. */
  lemma RotLDistinct(t: Shape)
    requires Distinct(t)
    ensures Distinct(RotL(t))
  {
    match t
    case Branch(a, x, kx, Branch(b, r, kr, c)) =>
      var m := Branch(b, r, kr, c);
      assert Distinct(m) && Ids(m) == Ids(b) + {r} + Ids(c);
      assert Distinct(b) && Distinct(c) && r !in Ids(b) && r !in Ids(c) && Ids(b) !! Ids(c);
      assert x !in Ids(m) && Ids(a) !! Ids(m);
      var n := Branch(a, x, kx, b);
      assert Distinct(n);
      assert Ids(n) == Ids(a) + {x} + Ids(b);
      assert r !in Ids(n) && Ids(n) !! Ids(c);
    case _ =>
  }

  /** The subtree at a node of `t` is a branch rooted there, made of nodes of `t`. */
  lemma {:induction false} SubtreeIds(t: Shape, x: int)
    requires x in Ids(t)
    ensures Subtree(t, x).Branch? && Subtree(t, x).id == x && Ids(Subtree(t, x)) <= Ids(t)
    ensures Distinct(t) ==> Distinct(Subtree(t, x))
    ensures Size(Subtree(t, x)) <= Size(t)
  {
    match t
    case Branch(l, id, _, r) =>
      if x != id {
        if x in Ids(l) { SubtreeIds(l, x); } else { SubtreeIds(r, x); }
      }
  }

  /** No proper ancestor of `x` lies in the subtree at `x`. */
  lemma {:induction false} AncestorsOutside(t: Shape, x: int)
    requires Distinct(t) && x in Ids(t)
    ensures forall i :: 1 <= i < |Path(t, x)| ==> Path(t, x)[i] !in Ids(Subtree(t, x))
  {
    match t
    case Branch(l, id, _, r) =>
      if x != id {
        var s := if x in Ids(l) then l else r;
        AncestorsOutside(s, x);
        SubtreeIds(s, x);
        PathShape(s, x);
        var P := Path(t, x);
        assert P == Path(s, x) + [id];
        forall i | 1 <= i < |P| ensures P[i] !in Ids(Subtree(t, x)) {
          if i < |P| - 1 {
            assert P[i] == Path(s, x)[i];
          }
        }
      }
  }

  /**
   * Replacing the subtree at `x` by one with the same nodes and the same in-order keys keeps
   * the nodes, the keys, the size and distinctness of the whole tree.
   */
  lemma {:induction false} ReplaceSame(t: Shape, x: int, s: Shape)
    requires Distinct(t) && x in Ids(t) && Distinct(s)
    requires Ids(s) == Ids(Subtree(t, x)) && Keys(s) == Keys(Subtree(t, x))
    requires Size(s) == Size(Subtree(t, x))
    ensures Ids(Replace(t, x, s)) == Ids(t) && Keys(Replace(t, x, s)) == Keys(t)
    ensures Size(Replace(t, x, s)) == Size(t) && Distinct(Replace(t, x, s))
  {
    match t
    case Branch(l, id, k, r) =>
      if x != id {
        if x in Ids(l) {
          ReplaceSame(l, x, s);
        } else {
          ReplaceSame(r, x, s);
        }
      }
  }

  /** The subtree standing where `x` stood is the replacement. */
  lemma {:induction false} ReplaceSubtree(t: Shape, x: int, s: Shape)
    requires Distinct(t) && x in Ids(t) && s.Branch? && Distinct(s)
    requires Ids(s) == Ids(Subtree(t, x))
    ensures s.id in Ids(Replace(t, x, s)) && Subtree(Replace(t, x, s), s.id) == s
  {
    match t
    case Branch(l, id, k, r) =>
      SubtreeIds(t, x);
      if x != id {
        if x in Ids(l) {
          SubtreeIds(l, x);
          ReplaceSubtree(l, x, s);
          ReplaceIdsSub(l, x, s);
        } else {
          SubtreeIds(r, x);
          ReplaceSubtree(r, x, s);
          ReplaceIdsSub(r, x, s);
        }
      }
  }

  /** With a replacement on the same nodes, the node set is unchanged. */
  lemma {:induction false} ReplaceIdsSub(t: Shape, x: int, s: Shape)
    requires Distinct(t) && x in Ids(t) && Ids(s) == Ids(Subtree(t, x))
    ensures Ids(Replace(t, x, s)) == Ids(t)
  {
    match t
    case Branch(l, id, k, r) =>
      if x != id {
        if x in Ids(l) { ReplaceIdsSub(l, x, s); } else { ReplaceIdsSub(r, x, s); }
      }
  }

  /**
   * A node of the replacement reaches the root through its path in the replacement and then
   * through the old ancestors of `x`.
   */
  lemma {:induction false} PathReplace(t: Shape, x: int, s: Shape, v: int)
    requires Distinct(t) && x in Ids(t) && Distinct(s) && Ids(s) == Ids(Subtree(t, x))
    requires v in Ids(s)
    ensures |Path(t, x)| >= 1 && Path(Replace(t, x, s), v) == Path(s, v) + Path(t, x)[1..]
  {
    match t
    case Branch(l, id, k, r) =>
      SubtreeIds(t, x);
      if x == id {
        assert Path(t, x) == [id];
      } else {
        var c := if x in Ids(l) then l else r;
        SubtreeIds(c, x);
        PathShape(c, x);
        PathReplace(c, x, s, v);
        ReplaceIdsSub(c, x, s);
        assert Path(t, x) == Path(c, x) + [id];
        assert Path(t, x)[1..] == Path(c, x)[1..] + [id];
        if x in Ids(l) {
          assert Path(Replace(t, x, s), v) == Path(Replace(l, x, s), v) + [id];
        } else {
          assert v !in Ids(l);
          assert Path(Replace(t, x, s), v) == Path(Replace(r, x, s), v) + [id];
        }
      }
  }

  /** A node outside the subtree at `x` keeps its path. */
  lemma {:induction false} PathReplaceOut(t: Shape, x: int, s: Shape, v: int)
    requires Distinct(t) && x in Ids(t) && Ids(s) == Ids(Subtree(t, x))
    requires v in Ids(t) && v !in Ids(Subtree(t, x))
    ensures Path(Replace(t, x, s), v) == Path(t, v)
  {
    match t
    case Branch(l, id, k, r) =>
      SubtreeIds(t, x);
      if x != id && v != id {
        if x in Ids(l) {
          SubtreeIds(l, x);
          ReplaceIdsSub(l, x, s);
          if v in Ids(l) { PathReplaceOut(l, x, s, v); }
        } else {
          SubtreeIds(r, x);
          ReplaceIdsSub(r, x, s);
          if v in Ids(r) { PathReplaceOut(r, x, s, v); }
        }
      }
  }

  /**
   * Replacing a subtree strictly inside the subtree at `z` changes the subtree at `z`
   * accordingly, and a later replacement at `z` overrides it.
   */
  lemma {:induction false} ReplaceInside(t: Shape, z: int, x: int, s: Shape, w: Shape)
    requires Distinct(t) && z in Ids(t) && x in Ids(Subtree(t, z)) && x != z
    requires Ids(s) == Ids(Subtree(t, x))
    ensures Subtree(Replace(t, x, s), z) == Replace(Subtree(t, z), x, s)
    ensures Replace(Replace(t, x, s), z, w) == Replace(t, z, w)
  {
    match t
    case Branch(l, id, k, r) =>
      if z == id {
        assert x in Ids(l) || x in Ids(r);
      } else if z in Ids(l) {
        SubtreeIds(l, z);
        ReplaceIdsSub(l, x, s);
        ReplaceInside(l, z, x, s, w);
      } else {
        SubtreeIds(r, z);
        ReplaceIdsSub(r, x, s);
        ReplaceInside(r, z, x, s, w);
      }
  }

  /** The subtree at a node inside the subtree at `z` is the same seen from either. */
  lemma {:induction false} SubtreeNested(t: Shape, z: int, x: int)
    requires Distinct(t) && z in Ids(t) && x in Ids(Subtree(t, z))
    ensures Subtree(t, x) == Subtree(Subtree(t, z), x)
  {
    match t
    case Branch(l, id, k, r) =>
      if z != id {
        if z in Ids(l) {
          SubtreeIds(l, z);
          SubtreeNested(l, z, x);
        } else {
          SubtreeIds(r, z);
          SubtreeNested(r, z, x);
        }
      }
  }
}
