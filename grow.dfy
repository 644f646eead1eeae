/**
 * The abstract effect of `insert(n)` on the tree: a new leaf hung in the empty slot the
 * descent by key reaches.  Its laws say that the in-order keys gain exactly `n`, in sorted
 * position, and the node set gains exactly the new node.
 */
module AvlGrow {
  import opened AvlNodes
  import opened AvlShape
  import opened AvlPaths

  /**
   * `t` with the node `c` holding `n` added as a leaf where the descent by `n` falls off the
   * tree: left below a larger key, right below a smaller one.  A tree already holding `n` at
   * the end of the descent is unchanged.
   */
  function Grow(t: Shape, c: int, n: int): Shape
  {
    match t
    case Empty => Branch(Empty, c, n, Empty)
    case Branch(l, id, k, r) =>
      if n < k then Branch(Grow(l, c, n), id, k, r)
      else if n == k then t
      else Branch(l, id, k, Grow(r, c, n))
  }

  /** Search order of a branch from the order of its subtrees around its key. */
  lemma SearchTreeJoin(l: Shape, id: int, k: int, r: Shape)
    requires SearchTree(l) && SearchTree(r)
    requires forall x :: x in Keys(l) ==> x < k
    requires forall x :: x in Keys(r) ==> k < x
    ensures SearchTree(Branch(l, id, k, r))
  {
    var s := Keys(Branch(l, id, k, r));
    var nl := |Keys(l)|;
    assert s == Keys(l) + [k] + Keys(r);
    forall i, j | 0 <= i < j < |s| ensures s[i] < s[j] {
      if i < nl {
        assert s[i] == Keys(l)[i] && s[i] in Keys(l);
        if j < nl {
          assert s[j] == Keys(l)[j];
        } else if j > nl {
          assert s[j] == Keys(r)[j - nl - 1] && s[j] in Keys(r);
        }
      } else if i == nl {
        assert s[j] == Keys(r)[j - nl - 1] && s[j] in Keys(r);
      } else {
        assert s[i] == Keys(r)[i - nl - 1] && s[j] == Keys(r)[j - nl - 1];
      }
    }
  }

  /** Growing a tree by an absent key `n` adds exactly `n` to its in-order keys. */
  lemma {:induction false} GrowMultiset(t: Shape, c: int, n: int)
    requires n !in Keys(t)
    ensures multiset(Keys(Grow(t, c, n))) == multiset(Keys(t)) + multiset{n}
  {
    match t
    case Empty =>
    case Branch(l, id, k, r) =>
      assert Keys(t) == Keys(l) + [k] + Keys(r);
      if n < k {
        GrowMultiset(l, c, n);
        assert Keys(Grow(t, c, n)) == Keys(Grow(l, c, n)) + [k] + Keys(r);
      } else {
        GrowMultiset(r, c, n);
        assert Keys(Grow(t, c, n)) == Keys(l) + [k] + Keys(Grow(r, c, n));
      }
  }

  /** The keys of the grown tree are the old ones and `n`. */
  lemma GrowMembers(t: Shape, c: int, n: int)
    requires n !in Keys(t)
    ensures forall x :: x in Keys(Grow(t, c, n)) <==> x in Keys(t) || x == n
  {
    GrowMultiset(t, c, n);
    forall x ensures x in Keys(Grow(t, c, n)) <==> x in Keys(t) || x == n {
      assert x in Keys(Grow(t, c, n)) <==> x in multiset(Keys(Grow(t, c, n)));
      assert x in Keys(t) <==> x in multiset(Keys(t));
    }
  }

  /**
   * Growing a search tree by an absent key `n` gives a search tree: the new key lands in its
   * sorted position of the in-order sequence.
   */
  lemma {:induction false} GrowSearch(t: Shape, c: int, n: int)
    requires SearchTree(t) && n !in Keys(t)
    ensures SearchTree(Grow(t, c, n))
  {
    match t
    case Empty =>
    case Branch(l, id, k, r) =>
      SearchTreeSplit(t);
      assert Keys(t) == Keys(l) + [k] + Keys(r);
      if n < k {
        GrowSearch(l, c, n);
        GrowMembers(l, c, n);
        SearchTreeJoin(Grow(l, c, n), id, k, r);
      } else {
        GrowSearch(r, c, n);
        GrowMembers(r, c, n);
        SearchTreeJoin(l, id, k, Grow(r, c, n));
      }
  }

  /** The nodes of the grown tree: the old ones and the leaf, all distinct. */
  lemma {:induction false} GrowIds(t: Shape, c: int, n: int)
    requires Distinct(t) && c !in Ids(t) && n !in Keys(t)
    ensures Ids(Grow(t, c, n)) == Ids(t) + {c}
    ensures Distinct(Grow(t, c, n))
    ensures Size(Grow(t, c, n)) == Size(t) + 1
  {
    match t
    case Empty =>
    case Branch(l, id, k, r) =>
      assert Keys(t) == Keys(l) + [k] + Keys(r);
      if n < k {
        GrowIds(l, c, n);
      } else {
        GrowIds(r, c, n);
      }
  }

  /** The old nodes keep their paths to the root. */
  lemma {:induction false} GrowPathOld(t: Shape, c: int, n: int, v: int)
    requires Distinct(t) && c !in Ids(t) && n !in Keys(t) && v in Ids(t)
    ensures Path(Grow(t, c, n), v) == Path(t, v)
  {
    match t
    case Branch(l, id, k, r) =>
      assert Keys(t) == Keys(l) + [k] + Keys(r);
      if v != id {
        if n < k {
          GrowIds(l, c, n);
          if v in Ids(l) { GrowPathOld(l, c, n, v); }
        } else {
          GrowIds(r, c, n);
          if v in Ids(r) { GrowPathOld(r, c, n, v); }
        }
      }
  }
}
