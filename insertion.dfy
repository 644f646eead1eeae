/**
 * What one `insert(n)` does to a consistent tree, up to the rebalancing walk: the descent,
 * the duplicate case, the new leaf, the height update from its parent and the count
 * propagation from the leaf.
 */
module AvlInsertion {
  import opened AvlNodes
  import opened AvlShape
  import opened AvlPaths
  import opened AvlReaders
  import opened AvlSteps
  import opened AvlHeights
  import opened AvlCounts
  import opened AvlGrow

  /**
   * The tree hanging from the sentinel with every stored field right: parent links, search
   * order, heights and descendant counts.
   */
  ghost predicate Consistent(h: seq<Node>, t: Shape)
  {
    TreeIn(h, t) && HeightsOK(h, Ids(t)) && CountsOK(h, Ids(t))
  }

  /** The descent of `insert(n)` is the descent of `find(n)`: it stops where `find` would. */
  lemma {:induction false} LocateFind(h: seq<Node>, p: int, n: int, t: Shape)
    requires Realizes(h, p, t) && p != NIL
    ensures Locate(h, p, n, t).Found? ==> Locate(h, p, n, t).node == Find(h, p, n, t)
    ensures Locate(h, p, n, t).Vacant? ==> Find(h, p, n, t) == NIL
    decreases t
  {
    RealizesIds(h, h[p].left, t.left);
    RealizesIds(h, h[p].right, t.right);
    if n < h[p].data || h[p].times == NOTIMES {
      if h[p].left != NIL { LocateFind(h, h[p].left, n, t.left); }
    } else if n != h[p].data {
      if h[p].right != NIL { LocateFind(h, h[p].right, n, t.right); }
    }
  }

  /**
   * `insertLeft(n)`/`insertRight(n)` before the height update (avlTree.h:120-122,
   * avlTree.h:128-130): the new node `|h|` holds `n` with `times == 1`, `height == 0`,
   * `numberOfChildren == 0`, no children and parent `q`; `q`'s chosen slot points at it; no
   * other node changes.
   */
  lemma LinkChildFields(h: seq<Node>, q: int, n: int, toLeft: bool)
    requires ArenaOK(h) && IsNode(h, q)
    ensures var r := LinkChild(h, q, n, toLeft);
            |r| == |h| + 1 &&
            r[|h|] == Node(1, n, 0, 0, q, NIL, NIL) &&
            r[q] == (if toLeft then h[q].(left := |h|) else h[q].(right := |h|)) &&
            forall i :: 0 <= i < |h| && i != q ==> r[i] == h[i]
  {
  }

  /** Linking the new leaf leaves a subtree without `q` realized as before. */
  lemma LinkChildFrame(h: seq<Node>, q: int, n: int, toLeft: bool, x: int, s: Shape)
    requires ArenaOK(h) && IsNode(h, q) && Realizes(h, x, s) && q !in Ids(s)
    ensures Realizes(LinkChild(h, q, n, toLeft), x, s)
  {
    LinkChildFields(h, q, n, toLeft);
    RealizesIds(h, x, s);
    RealizesFrame(h, LinkChild(h, q, n, toLeft), x, s);
  }

  /**
   * Where the descent from a real node `p` falls off the tree, the new leaf makes the arena
   * realize the grown tree; the slot is the left one exactly when `n` is below the key there.
   */
  lemma {:induction false} LocateGrow(h: seq<Node>, p: int, n: int, t: Shape)
    requires ArenaOK(h) && Realizes(h, p, t) && p != NIL && Distinct(t) && RealNodes(h, t)
    requires Locate(h, p, n, t).Vacant?
    ensures var q, toLeft := Locate(h, p, n, t).parent, Locate(h, p, n, t).toLeft;
            (toLeft <==> n < h[q].data) &&
            Realizes(LinkChild(h, q, n, toLeft), p, Grow(t, |h|, n))
    decreases t
  {
    var q, toLeft := Locate(h, p, n, t).parent, Locate(h, p, n, t).toLeft;
    LinkChildFields(h, q, n, toLeft);
    var h1 := LinkChild(h, q, n, toLeft);
    RealizesIds(h, p, t);
    var l, r := h[p].left, h[p].right;
    RealizesIds(h, l, t.left);
    RealizesIds(h, r, t.right);
    assert h[p].times != NOTIMES;
    if n < h[p].data {
      if l != NIL {
        LocateGrow(h, l, n, t.left);
        LinkChildFrame(h, q, n, toLeft, r, t.right);
      } else {
        LinkChildFrame(h, q, n, toLeft, r, t.right);
      }
    } else {
      if r != NIL {
        LocateGrow(h, r, n, t.right);
        LinkChildFrame(h, q, n, toLeft, l, t.left);
      } else {
        LinkChildFrame(h, q, n, toLeft, l, t.left);
      }
    }
  }

  /**
   * A duplicate `insert(n)` from the sentinel (avlTree.h:52-55): it reaches the node `find(n)`
   * returns, adds one to its `times`, leaves every other field of every node alone and
   * returns that node.
   */
  lemma InsertDuplicate(h: seq<Node>, t: Shape, n: int, fuel: nat)
    requires SearchIn(h, t) && n in Keys(t)
    ensures Realizes(h, SENTINEL, FromSentinel(h, t))
    ensures var q := Find(h, SENTINEL, n, FromSentinel(h, t));
            q in Ids(t) && IsNode(h, q) && h[q].data == n &&
            InsertResult(h, SENTINEL, n, FromSentinel(h, t)) == q &&
            Inserted(h, SENTINEL, n, FromSentinel(h, t), fuel) ==
              Some(h[q := h[q].(times := h[q].times + 1)])
  {
    FindFromSentinel(h, t, n);
    LocateFind(h, SENTINEL, n, FromSentinel(h, t));
  }

  /** The slot where `insert(n)` from the sentinel hangs the new leaf. */
  lemma LocateFromSentinel(h: seq<Node>, t: Shape, n: int)
    requires SearchIn(h, t) && n !in Keys(t)
    ensures Realizes(h, SENTINEL, FromSentinel(h, t))
    ensures Locate(h, SENTINEL, n, FromSentinel(h, t)).Vacant?
    ensures var q, toLeft := Locate(h, SENTINEL, n, FromSentinel(h, t)).parent,
                             Locate(h, SENTINEL, n, FromSentinel(h, t)).toLeft;
            IsNode(h, q) &&
            (q == SENTINEL <==> t == Empty) && (q == SENTINEL ==> toLeft) &&
            (q != SENTINEL ==> q in Ids(t) && (toLeft <==> n < h[q].data)) &&
            Realizes(LinkChild(h, q, n, toLeft), LinkChild(h, q, n, toLeft)[SENTINEL].left,
                     Grow(t, |h|, n))
  {
    var root := h[SENTINEL].left;
    var ts := FromSentinel(h, t);
    FindFromSentinel(h, t, n);
    LocateFind(h, SENTINEL, n, ts);
    RealizesIds(h, root, t);
    var L := Locate(h, SENTINEL, n, ts);
    LinkChildFields(h, L.parent, n, L.toLeft);
    if root != NIL {
      LocateGrow(h, root, n, t);
    }
  }

  /**
   * Linking the new leaf where `insert(n)` from the sentinel puts it keeps every invariant of
   * the tree hanging from the sentinel, now grown by the leaf: a search tree of distinct real
   * nodes whose children point back at their parents.
   */
  lemma LinkedTreeIn(h: seq<Node>, t: Shape, n: int)
    requires TreeIn(h, t) && n !in Keys(t)
    ensures LocateFromSentinelVacant(h, t, n)
    ensures var L := Locate(h, SENTINEL, n, FromSentinel(h, t));
            TreeIn(LinkChild(h, L.parent, n, L.toLeft), Grow(t, |h|, n))
  {
    LocateFromSentinel(h, t, n);
    var L := Locate(h, SENTINEL, n, FromSentinel(h, t));
    var q, toLeft, c := L.parent, L.toLeft, |h|;
    var t' := Grow(t, c, n);
    LinkChildFields(h, q, n, toLeft);
    var h1 := LinkChild(h, q, n, toLeft);
    var root := h[SENTINEL].left;
    RealizesIds(h, root, t);
    assert c !in Ids(t);
    GrowIds(t, c, n);
    GrowSearch(t, c, n);
    assert h1[SENTINEL].right == NIL;
    if t.Branch? {
      assert t'.id == t.id && h1[t.id].parent == h[t.id].parent;
    }
    forall u | u in Ids(t') ensures IsNode(h1, u) && ParentLinks(h1, u) {
      if u != c {
        assert ParentLinks(h, u);
        assert h1[u].left == h[u].left || h1[u].left == c;
        assert h1[u].right == h[u].right || h1[u].right == c;
        if h[u].left != NIL { assert h1[h[u].left].parent == h[h[u].left].parent; }
        if h[u].right != NIL { assert h1[h[u].right].parent == h[h[u].right].parent; }
      }
    }
  }

  /** `insert(n)` from the sentinel on a tree without `n` reaches an empty slot. */
  ghost predicate LocateFromSentinelVacant(h: seq<Node>, t: Shape, n: int)
  {
    |h| > 0 && Realizes(h, SENTINEL, FromSentinel(h, t)) &&
    Locate(h, SENTINEL, n, FromSentinel(h, t)).Vacant? &&
    IsNode(h, Locate(h, SENTINEL, n, FromSentinel(h, t)).parent)
  }

  /**
   * After the new leaf is linked, every stored height of the tree is still right except,
   * possibly, along the path from the leaf's parent: the leaf's height 0 is right, and no
   * other node's children changed.
   */
  lemma LinkedHeights(h: seq<Node>, t: Shape, n: int)
    requires TreeIn(h, t) && HeightsOK(h, Ids(t)) && n !in Keys(t)
    ensures LocateFromSentinelVacant(h, t, n)
    ensures var L := Locate(h, SENTINEL, n, FromSentinel(h, t));
            var h1 := LinkChild(h, L.parent, n, L.toLeft);
            var t' := Grow(t, |h|, n);
            (L.parent == SENTINEL ==> HeightsOK(h1, Ids(t'))) &&
            (L.parent != SENTINEL ==> HeightsOffPath(h1, t', L.parent))
  {
    LocateFromSentinel(h, t, n);
    var L := Locate(h, SENTINEL, n, FromSentinel(h, t));
    var q, toLeft, c := L.parent, L.toLeft, |h|;
    var t' := Grow(t, c, n);
    LinkChildFields(h, q, n, toLeft);
    var h1 := LinkChild(h, q, n, toLeft);
    var root := h[SENTINEL].left;
    RealizesIds(h, root, t);
    GrowIds(t, c, n);
    if q != SENTINEL {
      GrowPathOld(t, c, n, q);
      PathShape(t, q);
    }
    forall v | v in Ids(t') && (q == SENTINEL || v !in Path(t', q))
      ensures IsNode(h1, v) && LocalHeight(h1, v)
    {
      if v != c {
        RealizesNode(h, root, t, v);
        assert LocalHeight(h, v) && h1[v] == h[v];
        if q != SENTINEL {
          if h[v].left == q { ParentOnPath(h, t, q, v, q); }
          if h[v].right == q { ParentOnPath(h, t, q, v, q); }
        }
        if h[v].left != NIL { assert h1[h[v].left] == h[h[v].left]; }
        if h[v].right != NIL { assert h1[h[v].right] == h[h[v].right]; }
      }
    }
  }

  /**
   * After the new leaf is linked, every stored count of the tree is still right except at the
   * leaf's parent, which is one short (the sentinel's count is not one of them).
   */
  lemma LinkedCounts(h: seq<Node>, t: Shape, n: int)
    requires TreeIn(h, t) && CountsOK(h, Ids(t)) && n !in Keys(t)
    ensures LocateFromSentinelVacant(h, t, n)
    ensures var L := Locate(h, SENTINEL, n, FromSentinel(h, t));
            var q := L.parent;
            var h1 := LinkChild(h, q, n, L.toLeft);
            (forall v :: v in Ids(Grow(t, |h|, n)) && v != q ==> IsNode(h1, v) && LocalCount(h1, v)) &&
            (q != SENTINEL ==>
               h1[q].numberOfChildren + 1 == Cnt(h1, h1[q].left) + Cnt(h1, h1[q].right))
  {
    LinkedCountsOff(h, t, n);
    LinkedCountsAt(h, t, n);
  }

  /** The counts away from the leaf's parent, for `LinkedCounts`. */
  lemma LinkedCountsOff(h: seq<Node>, t: Shape, n: int)
    requires TreeIn(h, t) && CountsOK(h, Ids(t)) && n !in Keys(t)
    ensures LocateFromSentinelVacant(h, t, n)
    ensures var L := Locate(h, SENTINEL, n, FromSentinel(h, t));
            var q := L.parent;
            var h1 := LinkChild(h, q, n, L.toLeft);
            forall v :: v in Ids(Grow(t, |h|, n)) && v != q ==> IsNode(h1, v) && LocalCount(h1, v)
  {
    LocateFromSentinel(h, t, n);
    var L := Locate(h, SENTINEL, n, FromSentinel(h, t));
    var q, toLeft, c := L.parent, L.toLeft, |h|;
    LinkChildFields(h, q, n, toLeft);
    var h1 := LinkChild(h, q, n, toLeft);
    var root := h[SENTINEL].left;
    RealizesIds(h, root, t);
    GrowIds(t, c, n);
    forall v | v in Ids(Grow(t, c, n)) && v != q ensures IsNode(h1, v) && LocalCount(h1, v) {
      if v != c {
        RealizesNode(h, root, t, v);
        assert LocalCount(h, v) && h1[v] == h[v];
        if h[v].left != NIL {
          assert h1[h[v].left].numberOfChildren == h[h[v].left].numberOfChildren;
        }
        if h[v].right != NIL {
          assert h1[h[v].right].numberOfChildren == h[h[v].right].numberOfChildren;
        }
      }
    }
  }

  /** The count at the leaf's parent, for `LinkedCounts`. */
  lemma LinkedCountsAt(h: seq<Node>, t: Shape, n: int)
    requires TreeIn(h, t) && CountsOK(h, Ids(t)) && n !in Keys(t)
    ensures LocateFromSentinelVacant(h, t, n)
    ensures var L := Locate(h, SENTINEL, n, FromSentinel(h, t));
            var q := L.parent;
            var h1 := LinkChild(h, q, n, L.toLeft);
            q != SENTINEL ==>
              h1[q].numberOfChildren + 1 == Cnt(h1, h1[q].left) + Cnt(h1, h1[q].right)
  {
    LocateFromSentinel(h, t, n);
    var L := Locate(h, SENTINEL, n, FromSentinel(h, t));
    var q, toLeft := L.parent, L.toLeft;
    LinkChildFields(h, q, n, toLeft);
    var h1 := LinkChild(h, q, n, toLeft);
    var root := h[SENTINEL].left;
    RealizesIds(h, root, t);
    if q != SENTINEL {
      RealizesNode(h, root, t, q);
      assert LocalCount(h, q);
      var other := if toLeft then h[q].right else h[q].left;
      if other != NIL {
        assert h1[other].numberOfChildren == h[other].numberOfChildren;
      }
    }
  }

  /**
   * `insertLeft(n)`/`insertRight(n)` where `insert(n)` from the sentinel puts a new key
   * (avlTree.h:119-133), height update included: the grown tree hangs from the sentinel, every
   * stored height of it is right, only heights on the path from the leaf's parent `q` changed,
   * and every count is right except `q`'s, which is one short.
   */
  lemma InsertLeafState(h: seq<Node>, t: Shape, n: int, fuel: nat)
    requires Consistent(h, t) && n !in Keys(t) && fuel >= Size(t)
    ensures LocateFromSentinelVacant(h, t, n)
    ensures var L := Locate(h, SENTINEL, n, FromSentinel(h, t));
            var q := L.parent;
            var t' := Grow(t, |h|, n);
            var h1 := LinkChild(h, q, n, L.toLeft);
            InsertedLeaf(h, q, n, L.toLeft, fuel).Some? &&
            var h2 := InsertedLeaf(h, q, n, L.toLeft, fuel).value;
            TreeIn(h2, t') && HeightsOK(h2, Ids(t')) && HeightsOnly(h1, h2) &&
            (forall i :: 0 <= i < |h1| && (q == SENTINEL || i !in Path(t', q)) ==> h2[i] == h1[i]) &&
            (forall v :: v in Ids(t') && v != q ==> IsNode(h2, v) && LocalCount(h2, v)) &&
            (q != SENTINEL ==>
               h2[q].numberOfChildren + 1 == Cnt(h2, h2[q].left) + Cnt(h2, h2[q].right))
  {
    LinkedTreeIn(h, t, n);
    LinkedHeights(h, t, n);
    LinkedCounts(h, t, n);
    LocateFromSentinel(h, t, n);
    var L := Locate(h, SENTINEL, n, FromSentinel(h, t));
    var q, toLeft, c := L.parent, L.toLeft, |h|;
    var t' := Grow(t, c, n);
    LinkChildFields(h, q, n, toLeft);
    var h1 := LinkChild(h, q, n, toLeft);
    RealizesIds(h, h[SENTINEL].left, t);
    GrowIds(t, c, n);
    if q == SENTINEL {
      assert !HasParent(h1, c);
      assert InsertedLeaf(h, q, n, toLeft, fuel) == Some(h1);
      assert HeightsOnly(h1, h1);
    } else {
      assert HasParent(h1, c);
      UpdatedHeightIsUp(h1, t', q, fuel);
      PathShape(t', q);
      assert CountsOK(h1, Ids(t') - {q});
      ParentHeights(h1, t', q, fuel);
    }
  }

  /**
   * `updateParentHeight()` from the new leaf's parent `q`, on the tree whose heights are right
   * off the path from `q` and whose counts are right except at `q`: all heights become right,
   * only heights change, and the counts are as they were.
   */
  lemma ParentHeights(h: seq<Node>, t: Shape, q: int, fuel: nat)
    requires TreeIn(h, t) && q in Ids(t) && HeightsOffPath(h, t, q)
    requires fuel >= |Path(t, q)| - 1
    requires CountsOK(h, Ids(t) - {q})
    ensures UpHeights(h, q, fuel).Some?
    ensures var r := UpHeights(h, q, fuel).value;
            TreeIn(r, t) && HeightsOK(r, Ids(t)) && HeightsOnly(h, r) &&
            (forall i :: 0 <= i < |h| && i !in Path(t, q) ==> r[i] == h[i]) &&
            (forall v :: v in Ids(t) && v != q ==> IsNode(r, v) && LocalCount(r, v)) &&
            r[q].numberOfChildren == h[q].numberOfChildren &&
            Cnt(r, r[q].left) + Cnt(r, r[q].right) == Cnt(h, h[q].left) + Cnt(h, h[q].right)
  {
    RealizesIds(h, h[SENTINEL].left, t);
    TreeUpLinked(h, t, q);
    UpHeightsPath(h, t, q, fuel);
    UpHeightsRepair(h, t, q, fuel);
    var r := UpHeights(h, q, fuel).value;
    HeightsOnlyTreeIn(h, r, t, Ids(t) - {q});
    forall v | v in Ids(t) && v != q ensures IsNode(r, v) && LocalCount(r, v) {
      assert v in Ids(t) - {q};
    }
    assert r[q] == h[q].(height := r[q].height);
    if h[q].left != NIL {
      assert r[h[q].left] == h[h[q].left].(height := r[h[q].left].height);
    }
    if h[q].right != NIL {
      assert r[h[q].right] == h[h[q].right].(height := r[h[q].right].height);
    }
  }

  /**
   * `updateNumberOfChidren()` from the new leaf `c` (avlTree.h:66-71) on a tree whose only
   * wrong count is that of the leaf's parent, one short: every count becomes right, with one
   * more at each real ancestor of `c` and no other change, links and heights included.
   */
  lemma LeafCounts(h: seq<Node>, t: Shape, c: int, fuel: nat)
    requires TreeIn(h, t) && HeightsOK(h, Ids(t)) && c in Ids(t) && IsNode(h, c)
    requires fuel >= |Path(t, c)| - 1
    requires forall v :: v in Ids(t) && v != h[c].parent ==> IsNode(h, v) && LocalCount(h, v)
    requires t.Branch? && c != t.id ==>
               IsNode(h, h[c].parent) &&
               h[h[c].parent].numberOfChildren + 1 ==
                 Cnt(h, h[h[c].parent].left) + Cnt(h, h[h[c].parent].right)
    ensures CountsUp(h, c, fuel).Some?
    ensures var r := CountsUp(h, c, fuel).value;
            Consistent(r, t) && BumpedAlong(h, r, t, c)
  {
    RealizesIds(h, h[SENTINEL].left, t);
    TreeUpLinked(h, t, c);
    CountsUpPath(h, t, c, fuel);
    var r := CountsUp(h, c, fuel).value;
    PathShape(t, c);
    PathRoot(t, c);
    if c == t.id {
      assert Path(t, c) == [c];
      assert forall i :: 0 <= i < |h| ==> r[i] == h[i];
      assert r == h;
    } else {
      CountsRepair(h, t, c, fuel);
    }
    CountsOnlyTreeIn(h, r, t, Ids(t));
  }

  /**
   * The state `insert(n)` from the sentinel hands to `AVLcondition()` when `n` is new (avlTree.h:58-61
   * and 64): the leaf is linked and the heights and counts are updated.
   */
  ghost function BeforeWalk(h: seq<Node>, t: Shape, n: int, fuel: nat): Option<seq<Node>>
    requires LocateFromSentinelVacant(h, t, n) && ArenaOK(h)
  {
    var L := Locate(h, SENTINEL, n, FromSentinel(h, t));
    var h2 := InsertedLeaf(h, L.parent, n, L.toLeft, fuel);
    if h2.None? then None else CountsUp(h2.value, |h|, fuel)
  }

  /**
   * Where a new key goes: `insert(n)` from the sentinel on a search tree without `n`
   * (avlTree.h:44-62) returns the new node `|h|`, hung below the node `q` where the descent fell
   * off: in the left slot when `n` is below `q`'s key and in the right one otherwise, always
   * the left one at the sentinel (reached only on an empty tree).  The grown tree has the new
   * node besides the old ones, and its in-order keys gain `n` in sorted position.
   */
  lemma NewKeyPlace(h: seq<Node>, t: Shape, n: int)
    requires SearchIn(h, t) && n !in Keys(t)
    ensures LocateFromSentinelVacant(h, t, n)
    ensures var L := Locate(h, SENTINEL, n, FromSentinel(h, t));
            var q, c, t' := L.parent, |h|, Grow(t, |h|, n);
            InsertResult(h, SENTINEL, n, FromSentinel(h, t)) == c &&
            (q == SENTINEL <==> t == Empty) && (q == SENTINEL ==> L.toLeft) &&
            (q != SENTINEL ==> q in Ids(t) && (L.toLeft <==> n < h[q].data)) &&
            Ids(t') == Ids(t) + {c} && SearchTree(t') &&
            multiset(Keys(t')) == multiset(Keys(t)) + multiset{n}
  {
    LocateFromSentinel(h, t, n);
    RealizesIds(h, h[SENTINEL].left, t);
    GrowIds(t, |h|, n);
    GrowSearch(t, |h|, n);
    GrowMultiset(t, |h|, n);
  }

  /**
   * The state handed to the rebalancing walk when `n` is new (avlTree.h:58-61): the grown tree
   * is consistent, and the new node holds `n` once, with height 0, no descendants and parent
   * `q`, in the slot of `q` the descent chose.  What `insert(n)` leaves is what
   * `AVLcondition()` makes of this state, starting at the new node.
   */
  lemma NewKeyState(h: seq<Node>, t: Shape, n: int, fuel: nat)
    requires Consistent(h, t) && n !in Keys(t) && fuel >= Size(t)
    ensures LocateFromSentinelVacant(h, t, n) && BeforeWalk(h, t, n, fuel).Some?
    ensures var L := Locate(h, SENTINEL, n, FromSentinel(h, t));
            var q, c := L.parent, |h|;
            var w := BeforeWalk(h, t, n, fuel).value;
            Inserted(h, SENTINEL, n, FromSentinel(h, t), fuel) == AVLWalk(w, c, fuel) &&
            Consistent(w, Grow(t, |h|, n)) && |w| == |h| + 1 &&
            w[c] == Node(1, n, 0, 0, q, NIL, NIL) &&
            (if L.toLeft then w[q].left else w[q].right) == c
  {
    NewKeyStages(h, t, n, fuel);
  }

  /**
   * What else the new key changes before the walk: each real ancestor of the new node has
   * exactly one more descendant and no other count changed; only heights on the path from `q`
   * changed; no link changed except the slot of `q` that now holds the new node.
   */
  lemma NewKeyFrame(h: seq<Node>, t: Shape, n: int, fuel: nat)
    requires Consistent(h, t) && n !in Keys(t) && fuel >= Size(t)
    ensures LocateFromSentinelVacant(h, t, n) && BeforeWalk(h, t, n, fuel).Some?
    ensures var L := Locate(h, SENTINEL, n, FromSentinel(h, t));
            var q, c, t' := L.parent, |h|, Grow(t, |h|, n);
            var w := BeforeWalk(h, t, n, fuel).value;
            |w| == |h| + 1 &&
            (forall i :: 0 <= i < |h| ==>
              w[i].numberOfChildren ==
                h[i].numberOfChildren + (if i in Path(t', c) && i != c then 1 else 0)) &&
            (forall i :: 0 <= i < |h| && (q == SENTINEL || i !in Path(t', q)) ==>
              w[i].height == h[i].height) &&
            (forall i :: 0 <= i < |h| && i != q ==>
              w[i].(height := 0, numberOfChildren := 0) == h[i].(height := 0, numberOfChildren := 0))
  {
    NewKeyStages(h, t, n, fuel);
    var L := Locate(h, SENTINEL, n, FromSentinel(h, t));
    var q, toLeft, c := L.parent, L.toLeft, |h|;
    LinkChildFields(h, q, n, toLeft);
    var h1 := LinkChild(h, q, n, toLeft);
    var h2 := InsertedLeaf(h, q, n, toLeft, fuel).value;
    var w := BeforeWalk(h, t, n, fuel).value;
    forall i | 0 <= i < |h| && i != q
      ensures w[i].(height := 0, numberOfChildren := 0) == h[i].(height := 0, numberOfChildren := 0)
    {
      assert w[i].(numberOfChildren := 0) == h2[i].(numberOfChildren := 0);
      assert h2[i] == h1[i].(height := h2[i].height);
    }
  }

  /** The two stages of a new key before the walk, `InsertLeafState` then `LeafCounts`. */
  lemma NewKeyStages(h: seq<Node>, t: Shape, n: int, fuel: nat)
    requires Consistent(h, t) && n !in Keys(t) && fuel >= Size(t)
    ensures LocateFromSentinelVacant(h, t, n) && BeforeWalk(h, t, n, fuel).Some?
    ensures var L := Locate(h, SENTINEL, n, FromSentinel(h, t));
            var q, c, t' := L.parent, |h|, Grow(t, |h|, n);
            var h1 := LinkChild(h, q, n, L.toLeft);
            InsertedLeaf(h, q, n, L.toLeft, fuel).Some? &&
            var h2 := InsertedLeaf(h, q, n, L.toLeft, fuel).value;
            var w := BeforeWalk(h, t, n, fuel).value;
            w == CountsUp(h2, c, fuel).value &&
            Inserted(h, SENTINEL, n, FromSentinel(h, t), fuel) == AVLWalk(w, c, fuel) &&
            HeightsOnly(h1, h2) &&
            (forall i :: 0 <= i < |h1| && (q == SENTINEL || i !in Path(t', q)) ==> h2[i] == h1[i]) &&
            Consistent(w, t') && BumpedAlong(h2, w, t', c) &&
            w[c] == Node(1, n, 0, 0, q, NIL, NIL) &&
            (if L.toLeft then w[q].left else w[q].right) == c
  {
    LocateFromSentinel(h, t, n);
    InsertLeafState(h, t, n, fuel);
    var L := Locate(h, SENTINEL, n, FromSentinel(h, t));
    var q, toLeft, c, t' := L.parent, L.toLeft, |h|, Grow(t, |h|, n);
    LinkChildFields(h, q, n, toLeft);
    var h1 := LinkChild(h, q, n, toLeft);
    var h2 := InsertedLeaf(h, q, n, toLeft, fuel).value;
    RealizesIds(h, h[SENTINEL].left, t);
    GrowIds(t, c, n);
    assert c !in Path(t', q) by {
      if q != SENTINEL {
        GrowPathOld(t, c, n, q);
        PathShape(t, q);
      }
    }
    assert h2[c] == h1[c];
    assert h2[q] == h1[q].(height := h2[q].height);
    PathShape(t', c);
    if q != SENTINEL {
      assert t'.id == t.id;
    }
    LeafCounts(h2, t', c, fuel);
    var w := CountsUp(h2, c, fuel).value;
    assert BeforeWalk(h, t, n, fuel) == Some(w);
    assert w[c].(numberOfChildren := 0) == h2[c].(numberOfChildren := 0);
    assert w[q].(numberOfChildren := 0) == h2[q].(numberOfChildren := 0);
  }
}
