# AVL tree with parent links, modelled in Dafny

This project models the mutation and balancing engine of `avlTree.h`. That header is an
intrusive AVL tree of `int` keys. Every `Tree` node stores seven fields, four `int`s and three pointers:

- its key `data`;
- a duplicate count `times`;
- a cached `height`;
- `numberOfChildren`, its number of proper descendants;
- `left`, `right` and `parent` pointers.

A sentinel node sits above the real tree. It has `times == NOTIMES`, and the real root is its
left child.

## How the model represents the tree

- **The arena.** The heap of `Tree` objects is a `seq<Node>`. A pointer is an index into it,
  `nullptr` is `NIL` (-1), and the sentinel is node `0`.
  - `new Tree(n)` appends a fresh node at the end of the arena.
  - The mutating members are methods of the class `AvlArena.Arena`. Each one performs the C++
    writes in place on the field `nodes`.
  - Each method's `ensures` ties the new `nodes` to a ghost function of `AvlSteps`, which
    states the same writes on values.
- **Walks.** The walks up `parent` links are ghost functions with a `fuel` bound that return
  `Option`: `updateNumberOfChidren`, `updateParentHeight` and the loop of `AVLcondition`.
  `None` means the C++ would still be walking after `fuel` steps.
- **Descents.** The recursions down child links take a ghost `Shape` (an abstract binary tree)
  that witnesses the subtree below the node is finite. These are `find`, `insert` and
  `updateChildrenHeight`.
- **What is proved.** The lemmas relate the arena to the abstract tree it realizes. They prove:
  - the local effect of every operation: which fields change and to what;
  - that rotations keep the node set and the in-order keys and make the count arithmetic
    exact;
  - that `AVLcondition` chooses one of the four classic rotations;
  - that one `insert` of a new key into a consistent AVL tree leaves a sound AVL tree: every
    height and count right, the root linked to the sentinel, but not every child linked back
    to its parent. It is one level taller at most, and its in-order keys gain exactly that
    key. When nothing rotated, the tree is fully consistent again;
  - that `find`, a duplicate `insert` and the placement of a new key need only a search tree
    (`AvlShape.SearchIn`), so they still apply after an insert that rotated.

The model keeps the header's parent-link behaviour exactly as written:

- **Stale parent links.** A rotation re-hangs a subtree without rewriting that subtree's
  `parent` link. In `rightRotation` this is `newLeft`; in `leftRotation` it is `newRight`.
- **Weaker whole-tree invariant.** Because of those stale links, the invariant after a
  rotation (`AvlRotations.Sound`) keeps only one parent link: the root's, which names the
  sentinel. It does not ask any child to point back at its parent.
  - The rotation lemmas (`RotateRightSound`, `RotateLeftSound`, `VisitSound`) add
    `AvlPaths.UpLinked`: the parent links along the path from the rotated node up to the root
    agree with the tree.
  - `StaleAfterRight` and `StaleAfterLeft` state the stale link itself.
  - The state after an `insert` that rotated is only `Sound`. It says nothing about parent
    links below the root.
- **No rotation on ties.** When the heavy child's two subtrees have equal stored heights, the
  rotation code stays 0 and nothing rotates (`AvlBalance.TieKeeps`, `AvlSteps.VisitTie`).

## Model

| member | source | states |
|---|---|---|
| `AvlReaders.Find` | avlTree.h:203-217 | the result is `nullptr` or a real node of the searched subtree whose `data` is the key |
| `AvlReaders.FindComplete` | avlTree.h:203-217 | on a search tree of real nodes, `find` returns a node exactly when the key is among the in-order keys |
| `AvlReaders.FindFromSentinel` | avlTree.h:203-217 | on any search tree under the sentinel, whatever its parent links, `find` from the sentinel searches the whole tree: it returns a node of the tree holding the key exactly when the key is stored |
| `AvlReaders.ChildrenHeight` | avlTree.h:142-146 | `updateChildrenHeight` returns the height of the subtree, -1 for an absent child, and writes nothing |
| `AvlReaders.ChildrenHeightStored` | avlTree.h:142-146 | with locally right stored heights, its result is the node's stored `height` |
| `AvlNodes.HasParent` | avlTree.h:32 | in a well-formed arena, `hasParent()` holds exactly when the parent pointer is neither `nullptr` nor the sentinel |
| `AvlNodes.NodeHeight` | avlTree.h:293-296 | in a well-formed arena, `getNodeHeight` is at least -1, and it is -1 exactly for `nullptr` |
| `AvlNodes.CompleteWithinTwo` | avlTree.h:113-117 | when the node's stored height is right, `isAVLComplete()` holds exactly when neither child is more than two levels below the node |
| `AvlShape.HeightOfRealized` | avlTree.h:293-296 | with locally right heights, `getNodeHeight` of a subtree's root is the subtree's height, -1 for `nullptr` |
| `AvlShape.BalancedIffComplete` | avlTree.h:113-117 | with locally right heights, a tree is AVL-balanced exactly when `isAVLComplete()` holds at every node |
| `AvlShape.CountOfRealized` | avlTree.h:11-15 | with locally right counts, `numberOfChildren` is the number of proper descendants |
| `AvlArena.Arena.constructor` | avlTree.h:22-24 | `new Tree(n)` gives a one-node tree under a sentinel, with every invariant in place |
| `AvlArena.Arena.NoRoot` | avlTree.h:18-20 | `new Tree()` gives a bare sentinel holding the empty tree |
| `AvlSteps.Locate` | avlTree.h:44-62 | the descent of `insert(n)` stops either at a real node holding `n` or at an empty slot |
| `AvlInsertion.LocateFind` | avlTree.h:44-62 | the descent of `insert(n)` stops where `find(n)` does |
| `AvlArena.Arena.Insert` | avlTree.h:44-64 | `insert(n)` performs the writes of `AvlSteps.Inserted` and returns the node `AvlSteps.InsertResult` names |
| `AvlInsertion.InsertDuplicate` | avlTree.h:52-55 | on any search tree, whatever its parent links, inserting a stored key returns the node `find` returns and adds one to its `times`; no other field of any node changes |
| `AvlInsertion.NewKeyPlace` | avlTree.h:44-62 | on any search tree, whatever its parent links, inserting an absent key returns the new node, hung left below a larger key and right below a smaller one, always left at the sentinel; the grown tree stays a search tree whose keys gain exactly `n` |
| `AvlInsertion.LinkChildFields` | avlTree.h:119-133 | `insertLeft`/`insertRight` append a leaf with `times == 1`, `height == 0`, no descendants and parent `q`, set the chosen slot of `q`, and change nothing else |
| `AvlArena.Arena.InsertLeft` | avlTree.h:119-125 | returns the new node and leaves the state `AvlSteps.InsertedLeaf` describes for the left slot |
| `AvlArena.Arena.InsertRight` | avlTree.h:127-133 | returns the new node and leaves the state `AvlSteps.InsertedLeaf` describes for the right slot |
| `AvlInsertion.InsertLeafState` | avlTree.h:119-133 | after the leaf is linked and `updateHeight` runs, every height is right, only heights on the path from the leaf's parent changed, and only that parent's count is one short |
| `AvlInsertion.NewKeyState` | avlTree.h:58-61 | the state handed to `AVLcondition` is consistent for the grown tree, holds the new leaf with its initial fields, and the result of `insert` is the walk from it |
| `AvlInsertion.NewKeyFrame` | avlTree.h:44-71 | before the walk, each real ancestor of the new node has one more descendant and no other count changed; only heights on the path changed; only the chosen slot changed among the links |
| `AvlArena.Arena.UpdateNumberOfChildren` | avlTree.h:66-71 | performs the writes of `AvlSteps.CountsUp` |
| `AvlCounts.CountsUpPath` | avlTree.h:66-71 | `updateNumberOfChidren` finishes and adds exactly one at every real ancestor, not at the node, not at the sentinel, nowhere else |
| `AvlCounts.AddCountStep` | avlTree.h:32 | below the root, `hasParent()` holds and the parent link names the node's parent in the tree |
| `AvlCounts.CountsRepair` | avlTree.h:66-71 | when only the leaf's parent was one short, the walk makes every count of the tree right |
| `AvlInsertion.LeafCounts` | avlTree.h:66-71 | after the count walk from the new leaf the tree is consistent, with exactly one more descendant along the path |
| `AvlArena.Arena.UpdateParentHeight` | avlTree.h:135-140 | performs the writes of `AvlSteps.UpHeights` |
| `AvlHeights.UpHeightsPath` | avlTree.h:135-140 | `updateParentHeight` finishes within the path's length, stores `1 + max` of the children's heights (absent -1) on every node of the path, and changes nothing else |
| `AvlHeights.UpHeightsRepair` | avlTree.h:135-140 | when the heights off the path were right, all heights are right afterwards |
| `AvlHeights.FixHeightLocal` | avlTree.h:136-138 | fixing a node's height makes it locally right and changes only that height |
| `AvlArena.Arena.UpdateHeight` | avlTree.h:148-151 | performs the writes of `AvlSteps.UpdatedHeight` |
| `AvlHeights.UpdatedHeightIsUp` | avlTree.h:148-151 | `updateHeight` at a node of a finite tree is `updateParentHeight`, because the result of `updateChildrenHeight` is dropped |
| `AvlArena.Arena.RightRotation` | avlTree.h:153-176 | performs the writes of `AvlSteps.RotateRight` and returns the node it was called on |
| `AvlRotations.RightCountsFields` | avlTree.h:157-160 | the promoted node gains one plus the size of the demoted node's right subtree; the demoted node loses one plus the size of the promoted node's left subtree; no other node changes |
| `AvlRotations.RelinkRightFields` | avlTree.h:154-172 | the promoted left child takes the slot of the old parent (the sentinel's `left` slot included) and points at that parent; the node becomes its right child; the old inner subtree moves under the node without its parent link being written; with no left child nothing is written |
| `AvlRotations.RelinkRightShape` | avlTree.h:154-172 | after the relinking the arena realizes the tree with that subtree rotated right, on the same nodes and in-order keys, still a search tree |
| `AvlRotations.RelinkRightUp` | avlTree.h:154-172 | the parent links from the demoted node up agree with the rotated tree |
| `AvlRotations.RelinkRightCounts` | avlTree.h:157-160 | right descendant counts before the rotation remain right afterwards |
| `AvlRotations.RotateRightSound` | avlTree.h:153-176 | `rightRotation` at a node with a left child leaves a sound tree: the subtree rotated right, the same nodes and keys, every height and count right |
| `AvlArena.Arena.LeftRotation` | avlTree.h:178-201 | performs the writes of `AvlSteps.RotateLeft` and returns the node it was called on |
| `AvlRotations.LeftCountsFields` | avlTree.h:182-185 | the mirror image of `RightCountsFields` |
| `AvlRotations.RelinkLeftFields` | avlTree.h:179-197 | the mirror image of `RelinkRightFields` |
| `AvlRotations.RelinkLeftShape` | avlTree.h:179-197 | the arena realizes the tree with that subtree rotated left, on the same nodes and in-order keys |
| `AvlRotations.RelinkLeftUp` | avlTree.h:179-197 | the parent links from the demoted node up agree with the rotated tree |
| `AvlRotations.RelinkLeftCounts` | avlTree.h:182-185 | right descendant counts remain right |
| `AvlRotations.RotateLeftSound` | avlTree.h:178-201 | `leftRotation` at a node with a right child leaves a sound tree: the subtree rotated left, the same nodes and keys, every height and count right |
| `AvlRotations.SoundSearchIn` | avlTree.h:203-217 | a sound tree, as a rotation leaves it, is still a search tree under the sentinel, so `find` and the descent of `insert` apply to it |
| `AvlRotations.StaleAfterRight` | avlTree.h:153-176 | after `rightRotation`, the old right child of the promoted node is the rotated node's left child, but its `parent` still names the promoted node, not the rotated node |
| `AvlRotations.StaleAfterLeft` | avlTree.h:178-201 | after `leftRotation`, the old left child of the promoted node is the rotated node's right child, but its `parent` still names the promoted node |
| `AvlRotShape.RotRSame` | avlTree.h:153-176 | a right rotation keeps the nodes, the in-order keys and the size |
| `AvlRotShape.RotLSame` | avlTree.h:178-201 | a left rotation keeps the nodes, the in-order keys and the size |
| `AvlBalance.RotationCode` | avlTree.h:80-95 | the code is 0 to 4; codes 1 and 2 need a taller left child, codes 3 and 4 a taller right child; on the heavy side, 1 (or 4) exactly when the outer grandchild subtree is taller and 2 (or 3) exactly when the inner one is, so a tie gives 0 |
| `AvlSteps.Rotation` | avlTree.h:80-95 | the code computed on the arena is 0 to 4: codes 1 and 2 only with a present, strictly taller left child, codes 3 and 4 with a present, strictly taller right child, 0 when the children have equal heights; on the heavy side, 1 (or 4) exactly when the outer grandchild is taller and 2 (or 3) exactly when the inner one is |
| `AvlBalance.TieKeeps` | avlTree.h:84-95 | at an unbalanced root whose heavier child has two subtrees of equal height, the code is 0 and the pass leaves the tree unchanged |
| `AvlSteps.VisitTie` | avlTree.h:84-108 | at a node that is not AVL-complete whose heavier child has two children of equal stored height, the code is 0 and the pass writes nothing |
| `AvlSteps.Rebalance` | avlTree.h:97-108 | the `switch` with its fall-throughs allocates nothing: when it finishes, the arena has the same nodes and is still well-formed |
| `AvlCondition.RotationCodeAt` | avlTree.h:79-95 | with right stored heights, the code computed on the arena is the code of the subtree, and `isAVLComplete()` holds exactly when that subtree's root is balanced |
| `AvlBalance.RotateLeftLeft` | avlTree.h:97-102 | case 1: a right rotation rebalances a left-left imbalance of two, one level lower |
| `AvlBalance.RotateLeftRight` | avlTree.h:97-102 | case 2 falling into case 1: a left rotation of the child, then a right rotation, rebalance a left-right imbalance, one level lower |
| `AvlBalance.RotateRightLeft` | avlTree.h:103-106 | case 3 falling into case 4 |
| `AvlBalance.RotateRightRight` | avlTree.h:103-106 | case 4 |
| `AvlBalance.RebalanceTwo` | avlTree.h:79-108 | an imbalance of two whose heavy child leans strictly gets a nonzero code and becomes AVL-balanced, one level lower |
| `AvlBalance.RebalancedSame` | avlTree.h:79-108 | rebalancing keeps the nodes, the keys, the size and distinctness |
| `AvlArena.Arena.VisitAt` | avlTree.h:79-108 | one pass of the loop performs the writes of `AvlSteps.Visit` |
| `AvlCondition.VisitLeftRight` | avlTree.h:99-102 | on the arena, case 2 realizes the double rotation of the abstract rebalancing soundly |
| `AvlCondition.VisitRightLeft` | avlTree.h:103-106 | on the arena, case 3 realizes the mirror double rotation soundly |
| `AvlCondition.VisitSound` | avlTree.h:79-108 | one pass at a node of a consistent tree changes nothing when it is AVL-complete; otherwise it realizes the subtree rebalanced, soundly, on the same nodes and keys |
| `AvlArena.Arena.AVLCondition` | avlTree.h:73-111 | the `while` loop up the parent links performs the writes of `AvlSteps.AVLWalk` |
| `AvlCondition.WalkIdentity` | avlTree.h:73-111 | on a sound AVL-balanced tree the walk changes nothing |
| `AvlCondition.WalkChain` | avlTree.h:73-111 | the walk passes AVL-complete ancestors without writing anything |
| `AvlCondition.WalkFrom` | avlTree.h:73-111 | from the new leaf, the walk passes the balanced ancestors and then rebalances at most once, ending sound on the expected tree; when it reaches the root without rebalancing, it writes nothing |
| `AvlBalance.AvlInsertSame` | avlTree.h:44-64 | inserting an absent key adds exactly the new node and the key in sorted position |
| `AvlBalance.AvlInsertBalanced` | avlTree.h:44-64 | on an AVL-balanced tree the insertion is AVL-balanced and at most one level taller |
| `AvlBalance.AvlInsertAbove` | avlTree.h:73-111 | once a rotation restores the old height, no ancestor above it changes |
| `AvlBalance.ClimbShape` | avlTree.h:73-111 | on the abstract tree, the walk passes the ancestors that stay balanced and then needs at most one rebalancing, after which the tree is AVL-balanced |
| `AvlCondition.InsertBalanced` | avlTree.h:44-64 | `insert(n)` of a new key into a consistent AVL tree finishes and leaves a sound AVL-balanced search tree: at most one level taller, the new node added, the keys gaining exactly `n`; when no ancestor of the new leaf needs rebalancing, the result is fully consistent again, so a further insert is covered too |
| `AvlGrow.GrowMultiset` | avlTree.h:44-62 | hanging the new leaf adds exactly `n` to the multiset of in-order keys |
| `AvlGrow.GrowSearch` | avlTree.h:44-62 | the new key lands in its sorted position, so the grown tree is still a search tree |

## Left out

- The string renderers `pathToRoot`, `printLongestHeight`, `preOrder`, `inOrder`,
  `postOrder`, `parents` and `specs` (avlTree.h:219-289) are only `stringstream` formatting.
  `AvlShape.Keys` stands in for the in-order key sequence.
- Memory management is not modelled: allocation is appending to the arena. This leaves out:
  - the extra sentinel that `Tree(int)` allocates;
  - its `delete` in `insertLeft`/`insertRight`;
  - the missing destructor.
- Removal, minimum, maximum and other queries are not part of the header.
- 32-bit overflow of `times`, `data`, `height` and `numberOfChildren` is not modelled; the
  fields are mathematical integers.
- `NOPARENT` is used only by the renderers.
- The getters (avlTree.h:28-42) are field reads and need no model.
- The final `return nullptr` of `insert` and `find` is unreachable and has no counterpart.
- Termination of the walks:
  - The walks up `parent` links are modelled with fuel. On an arena whose parent links form a
    cycle, the C++ loops forever and the model returns `None`.
  - The lemmas give fuel bounds under which the walks finish on a consistent tree.
- `AvlCondition.InsertBalanced` covers one insert of a new key into a consistent tree. When
  that insert rotates, the result is only `Sound`. On that tree `find`, a duplicate insert and
  the placement of a new key are still covered (`AvlRotations.SoundSearchIn`), but the
  rebalancing walk of a later new key is not. When it does not rotate, the result is
  `Consistent` again and the next insert is covered in full. This
  is deliberately weaker than "AVL and search-tree order after any sequence of inserts",
  which the header does not deliver:
  - A rotation leaves the re-hung inner subtree's `parent` link pointing at the promoted
    node. The resulting arena satisfies `AvlRotations.Sound` but not the full parent-link
    invariant of `AvlInsertion.Consistent`.
  - A later insert below that subtree would walk a wrong chain of ancestors.
- `AvlSteps.Rebalance` states on its own only that the arena stays well-formed and keeps its
  size. What it does to the tree is stated by `AvlCondition.VisitSound` and the four rotation
  lemmas of `AvlBalance`.
- `AvlArena.Arena.Insert` states only that its result is `AvlSteps.Inserted` and its returned
  node is `AvlSteps.InsertResult`. The properties of that state are the lemmas in the table.
  The method requires the walk to finish within the ghost fuel.
