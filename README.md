# Three binary search trees of `btsrtavl.py`, modelled and verified

`btsrtavl.py` holds three in-memory search trees over comparable keys, each
with `insert` and `search`:

- `BinarySearchTree` (lines 1-41): an unbalanced tree whose `insert` links a
  new `TreeNode` at the first absent child. Smaller values go left; every
  other value, ties included, goes right.
- `RedBlackTree` (lines 44-115): its author meant a left-leaning red-black
  tree. `_insert` descends only on a strict `<` or `>`, so a duplicate adds no
  node. It applies three fix-ups on the way back up and then paints the root
  black.
- `AVLTree` (lines 118-205): a height-balanced tree. Each node caches its
  height. `_insert` recomputes that height after re-linking a child and then
  applies the left-left, right-right, left-right or right-left rotation.

The model has two layers, one pair of modules per tree:

- Value layer: `Trees`, `BstSpec`, `RedBlackSpec` and `AvlSpec`. A subtree is
  a value `Tree<A>` (`A` is nothing, a colour or a cached height), and each
  operation is a function over it, written branch for branch as in the code.
  A Python `AttributeError` raised on a `None` child becomes the `Raised` case
  of `Outcome`. Such an outcome carries the tree that the mutations completed
  before the error left behind.
- Heap layer: `Bst`, `RedBlack` and `Avl`. The program's own node objects
  become classes whose child fields the methods update in place, with the same
  re-linking and return-the-new-subtree-root protocol. Each node carries two
  ghost fields, its footprint (`Repr`) and the subtree it forms (`Model`).
  Every method is proved to turn the old `Model` into exactly what the
  value-level function computes, raises included.

The properties are proved as lemmas about the value layer:

- Order and membership are preserved.
- Duplicates are handled: the unbalanced tree and the AVL tree store one more
  copy of the value, and the red-black tree adds no node for it.
- The red-black root is always black.
- Cached AVL heights stay correct after every insertion that completes. After
  a raise, the nodes above the raising one keep stale heights, as in the code.
- AVL balance is kept when the inserted value is new.
- A rotation keeps the in-order sequence of keys. In the red-black tree the
  new subtree root takes the old root's colour and the old root becomes red.
  A colour flip negates the colours of a node and its two children and
  changes no link.

Keys are mathematical integers. Python's comparison on `int` is total, so
ordering has no edge cases to model.

The code departs from a textbook left-leaning red-black tree and a textbook
AVL tree in four places, and the model follows the code in each:

- The red-black fix-ups rotate the wrong way (see Findings).
- The red-black tree adds no node for an equal key, where the other two trees
  store it on the right at insertion time. The fix-ups still run on the way back up and can
  rotate, recolour or raise (RedBlackSpec.DuplicateKeyRaises).
- `AVLTree.search` is not a descent (see Findings).
- Insertion into either balanced tree can raise `AttributeError`: the
  red-black tree through its swapped rotations, and the AVL tree after
  repeated equal keys (see Findings).

## Model

| member | source | states |
|---|---|---|
| Trees.Find | btsrtavl.py:33-41 | the standard descent of `_search_tree`; on a weakly ordered tree it answers exactly whether the value is among the keys |
| BstSpec.Leaf | btsrtavl.py:2-5 | a new node is a leaf holding just the value, ordered |
| BstSpec.Insert | btsrtavl.py:12-28 | the value-level `insert`: the result is a present node with exactly one more node than before |
| BstSpec.InsertElems | btsrtavl.py:18-28 | insertion adds exactly one copy of the value, a duplicate included |
| BstSpec.InsertKeys | btsrtavl.py:18-28 | as a set, the keys after insertion are the old keys plus the value |
| BstSpec.InsertOrdered | btsrtavl.py:18-28 | insertion keeps left keys strictly below and right keys at or above each node |
| BstSpec.SearchCorrect | btsrtavl.py:30-41 | on an ordered tree, `search` is true exactly when the value is stored |
| BstSpec.InsertThenFind | btsrtavl.py:12-41 | after inserting `v`, a query `q` is found exactly when `q == v` or `q` was found before |
| BstSpec.InsertAll | btsrtavl.py:12-16 | a run of `insert` calls, one after another; the tree gains one node per inserted value |
| BstSpec.InsertAllElems | btsrtavl.py:12-16 | any run of insertions adds exactly the multiset of inserted values |
| BstSpec.InsertAllOrdered | btsrtavl.py:12-16 | any run of insertions keeps the order |
| BstSpec.InsertAllSorted | btsrtavl.py:12-28 | any run of insertions into an empty tree gives an in-order sequence that is the inserted values, sorted non-decreasingly |
| BstSpec.SevenKeys | btsrtavl.py:12-41 | after inserting 5, 3, 8, 1, 4, 7, 9 the in-order sequence is 1, 3, 4, 5, 7, 8, 9; 4 is found and 6 is not |
| Bst.TreeNode.constructor | btsrtavl.py:2-5 | a new node holds the value and has no children |
| Bst.BinarySearchTree.constructor | btsrtavl.py:9-10 | a new tree is empty |
| Bst.BinarySearchTree.Insert | btsrtavl.py:12-16 | the linked tree becomes the value-level insertion of the old one and stays ordered; only new nodes are added |
| Bst.BinarySearchTree.InsertRecursive | btsrtavl.py:18-28 | in place below `node`, the subtree becomes the value-level insertion; the new node is linked at the first absent child on the value's side |
| Bst.BinarySearchTree.Search | btsrtavl.py:30-31 | true exactly when the value is stored in the tree |
| Bst.BinarySearchTree.SearchTree | btsrtavl.py:33-41 | the recursion over the linked nodes agrees with the descent on the subtree they form |
| RedBlackSpec.Negate | btsrtavl.py:100-102 | the `not` applied to a colour: the result is always the other colour |
| RedBlackSpec.NewNode | btsrtavl.py:49-53 | a new node is a red leaf holding just the value, and is ordered |
| RedBlackSpec.IsRed | btsrtavl.py:80-81 | definition (no contract): a present node whose colour is red; an absent node is never red |
| RedBlackSpec.RotateLeft | btsrtavl.py:83-89 | raises exactly when the right child is absent; otherwise the right child becomes the root with the old colour, and the old root becomes its red left child; in-order, keys, size and strict order are kept |
| RedBlackSpec.RotateRight | btsrtavl.py:91-97 | the mirror image; it raises exactly when the left child is absent |
| RedBlackSpec.RotateRightUndoesRotateLeft | btsrtavl.py:83-97 | a right rotation after a left rotation restores the node and all its links; only the right child ends up red |
| RedBlackSpec.FlipColors | btsrtavl.py:99-102 | negates the colours of the node and of its two children, and of nothing else; shape and order are kept |
| RedBlackSpec.FlipColorsTwice | btsrtavl.py:99-102 | flipping twice is the identity |
| RedBlackSpec.FixUp | btsrtavl.py:71-76 | raises exactly when the red right child has no left sibling, or when a red left-left pair has no right sibling; a raise leaves the node as it was; otherwise in-order, keys, size and order are kept |
| RedBlackSpec.Descend | btsrtavl.py:66-69 | the node keeps its key and colour whether the insertion below completes or raises; a value equal to the node's key leaves the node as it was |
| RedBlackSpec.InsertRec | btsrtavl.py:62-78 | a completed insertion returns a present node; a raise happens only at a present node, whose key and colour are kept |
| RedBlackSpec.Insert | btsrtavl.py:58-60 | a completed insertion leaves a black root; a raise leaves the root's colour unchanged |
| RedBlackSpec.DescendKeeps | btsrtavl.py:66-69 | after the descent the keys are the old keys plus the value, the strict order is kept, and the size grows by one exactly when the value was new, even on a raise |
| RedBlackSpec.InsertRecKeeps | btsrtavl.py:62-78 | the same facts for a whole `_insert` step, fix-ups included |
| RedBlackSpec.InsertKeeps | btsrtavl.py:58-78 | `insert` adds exactly the value to the key set and keeps the strict order; a duplicate adds no node |
| RedBlackSpec.InsertAll | btsrtavl.py:58-60 | a run of `insert` calls, each starting from the tree the last one left, including after a raise |
| RedBlackSpec.InsertAllRootBlack | btsrtavl.py:58-60 | every tree reached by any run of `insert` calls from a tree with a black root has a black root |
| RedBlackSpec.InsertAllKeeps | btsrtavl.py:58-78 | any run of `insert` calls, raises included, stores exactly the inserted keys on top of the old ones and keeps the strict order |
| RedBlackSpec.OrderedInOrderIncreasing | btsrtavl.py:66-69 | the strict order makes the in-order sequence strictly increasing, so no key is stored twice |
| RedBlackSpec.SearchCorrect | btsrtavl.py:104-115 | on an ordered tree, `search` is true exactly when the value is stored; colours play no part |
| RedBlackSpec.LargerKeyIntoSingletonRaises | btsrtavl.py:71-72 | inserting a larger key into a one-node tree raises, and leaves the new red leaf linked as the right child |
| RedBlackSpec.DescendingKeysRaise | btsrtavl.py:73-74 | inserting 30, 20, 10 completes twice, then raises in the second fix-up, leaving the third node linked |
| RedBlackSpec.DuplicateKeyRaises | btsrtavl.py:66-72 | after 20, 10, 30, 25, 35 complete, inserting 10 again adds no node, yet the first fix-up at the root calls `_rotate_right` with no left child and raises |
| RedBlackSpec.BalancedThreeKeys | btsrtavl.py:75-76 | inserting 30 after 20, 10 takes the colour flip and completes with a black root and two black children |
| RedBlackSpec.FixUpCorrected | btsrtavl.py:71-76 | the fix-ups with the two rotations swapped back never raise, and keep in-order, keys, size and order |
| RedBlackSpec.InsertRecCorrected | btsrtavl.py:62-78 | `_insert` over the corrected fix-ups is total, adds exactly the value and keeps the order |
| RedBlackSpec.InsertCorrected | btsrtavl.py:58-60 | the corrected `insert` is total and leaves a black root holding the old keys plus the value |
| RedBlackSpec.CorrectedInsertsLargerKey | btsrtavl.py:71-74 | where the code as written raises, the corrected insertion gives a black root with a red left child |
| RedBlack.RbNode.constructor | btsrtavl.py:49-53 | a new node is a red leaf holding the value |
| RedBlack.RedBlackTree.constructor | btsrtavl.py:55-56 | a new tree is empty |
| RedBlack.RedBlackTree.PaintBlack | btsrtavl.py:60 | paints the node black; its links and subtrees are untouched |
| RedBlack.RedBlackTree.Insert | btsrtavl.py:58-60 | reports a raise exactly when the value-level `insert` raises; the linked tree becomes that function's tree, and stays ordered with a black root |
| RedBlack.RedBlackTree.InsertNode | btsrtavl.py:62-78 | in place, returns the subtree root that `_insert` computes; on a raise the old node holds the partly mutated subtree |
| RedBlack.RedBlackTree.InsertLeft | btsrtavl.py:66-67 | re-links the left child to the result of the insertion below, unless that raised |
| RedBlack.RedBlackTree.InsertRight | btsrtavl.py:68-69 | the mirror image for the right child |
| RedBlack.RedBlackTree.FixUp | btsrtavl.py:71-78 | in place, the fix-ups as written over the same nodes; a raise leaves the node untouched |
| RedBlack.RedBlackTree.IsRedColor | btsrtavl.py:80-81 | true exactly when the node is present and red |
| RedBlack.RedBlackTree.RotateLeft | btsrtavl.py:83-89 | returns null exactly when the value-level rotation raises, and then changes nothing; otherwise the same nodes form the rotated subtree |
| RedBlack.RedBlackTree.RotateRight | btsrtavl.py:91-97 | the mirror image |
| RedBlack.RedBlackTree.FlipColors | btsrtavl.py:99-102 | recolours the three nodes in place to the value-level flip |
| RedBlack.RedBlackTree.Search | btsrtavl.py:104-105 | true exactly when the value is stored |
| RedBlack.RedBlackTree.SearchTree | btsrtavl.py:107-115 | the recursion over the linked nodes agrees with the descent on their subtree |
| AvlSpec.GetHeight | btsrtavl.py:164-167 | 0 for an absent node; when the cached heights are correct, the true height |
| AvlSpec.GetBalance | btsrtavl.py:169-172 | 0 for an absent node; with correct caches in the children, the left height minus the right height |
| AvlSpec.Fix | btsrtavl.py:140 | the height update keeps the children and the key; over children with correct heights it makes the node's cache correct |
| AvlSpec.RotateLeft | btsrtavl.py:174-184 | raises exactly when the right child is absent; otherwise in-order and weak order are kept, and the lower node's height is recomputed before the upper one's, so the cached heights are correct |
| AvlSpec.RotateRight | btsrtavl.py:186-196 | the mirror image |
| AvlSpec.Rebalance | btsrtavl.py:140-162 | recomputes the height, then raises exactly in the left-right case without a left-right grandchild or the right-left case without a right-left grandchild; otherwise in-order, weak order and correct heights are kept |
| AvlSpec.InsertRec | btsrtavl.py:132-162 | the result is a present node; a raise keeps the node's key |
| AvlSpec.RebalanceElems | btsrtavl.py:140-162 | rebalancing keeps the keys with their multiplicities |
| AvlSpec.InsertElems | btsrtavl.py:132-162 | whatever the outcome, insertion adds exactly one more copy of the value |
| AvlSpec.InsertKeys | btsrtavl.py:132-162 | as a set, the keys after insertion are the old keys plus the value |
| AvlSpec.InsertOrdered | btsrtavl.py:132-162 | insertion keeps the weak order, whether it completes or raises |
| AvlSpec.InsertHeights | btsrtavl.py:140 | a completed insertion keeps every cached height correct |
| AvlSpec.RebalanceNoRotation | btsrtavl.py:143-162 | when the node's subtrees differ in height by at most one, no case applies; only the height is recomputed |
| AvlSpec.RebalanceLeftGrown | btsrtavl.py:145-156 | when the left subtree grew to two taller on the side of the inserted value, the left-left or left-right case restores balance at the old height |
| AvlSpec.RebalanceRightGrown | btsrtavl.py:149-160 | the mirror image for the right subtree |
| AvlSpec.InsertBalanced | btsrtavl.py:132-162 | inserting a value not yet stored into an AVL tree completes, and gives an AVL tree; its height is the same or one more, and any growth is toward the value's side |
| AvlSpec.InsertKeepsAvl | btsrtavl.py:129-162 | a new value keeps the tree AVL, weakly ordered, and exactly one copy richer |
| AvlSpec.FindAfterInsert | btsrtavl.py:132-162 | after an insertion, the descent finds `q` exactly when `q` is the value or was found before |
| AvlSpec.RightRightCase | btsrtavl.py:149-150 | inserting 10, 20, 30 takes the right-right case: root 20, height 2 |
| AvlSpec.LeftLeftCase | btsrtavl.py:145-146 | inserting 10 after 30, 20 takes the left-left case: root 20, height 2 |
| AvlSpec.LeftRightCase | btsrtavl.py:153-155 | inserting 20 after 30, 10 takes the left-right case: root 20 |
| AvlSpec.RightLeftCase | btsrtavl.py:158-160 | inserting 20 after 10, 30 takes the right-left case: root 20 |
| AvlSpec.TiesCanLandLeft | btsrtavl.py:137-138 | after 10, 10, 20 a rotation moves a key equal to the root's into its left subtree, so only the weak order is kept |
| AvlSpec.DuplicateBreaksBalance | btsrtavl.py:145-153 | inserting 10 into the AVL tree 20, 10 matches no case, because both guards use strict comparisons; the result is unbalanced |
| AvlSpec.TieChain | btsrtavl.py:132-139 | the right-leaning chain of 10s that equal keys build; its cached heights are correct and its height is its length |
| AvlSpec.TiesBuildChain | btsrtavl.py:137-158 | from the empty tree on, inserting 10 into the chain only lengthens it: ties go right, and the strict guards never rotate |
| AvlSpec.TiesThenSmallerRaises | btsrtavl.py:158-159 | on a chain of at least four 10s, inserting any smaller key reaches the right-left case and raises in `_rotate_right`, leaving the new leaf linked |
| AvlSpec.FourTiesThenFiveRaises | btsrtavl.py:129-162 | inserting 10, 10, 10, 10, 5 into an empty tree: the first four complete and the fifth raises |
| AvlSpec.RebalanceCorrected | btsrtavl.py:140-162 | the rebalancing step with ties broken as the descent breaks them (`>=` in the right-right and left-right guards); keeps in-order, weak order and correct heights |
| AvlSpec.InsertRecCorrected | btsrtavl.py:132-162 | `_insert` over the corrected step: the result is a present node, and a raise keeps the node's key |
| AvlSpec.RebalanceCorrectedNoRotation | btsrtavl.py:143-162 | with subtrees within one of each other in height, the corrected step only recomputes the height |
| AvlSpec.RebalanceCorrectedLeftGrown | btsrtavl.py:145-156 | a left subtree grown to two taller toward the value's side, ties included, is rebalanced to an AVL tree at the old height |
| AvlSpec.RebalanceCorrectedRightGrown | btsrtavl.py:149-160 | the mirror image, a tie counting as the right side |
| AvlSpec.InsertBalancedCorrected | btsrtavl.py:132-162 | with the corrected guards, inserting any value, duplicates included, into an AVL tree completes and gives an AVL tree at most one taller |
| AvlSpec.RebalanceCorrectedElems | btsrtavl.py:140-162 | the corrected step keeps the keys with their multiplicities |
| AvlSpec.InsertElemsCorrected | btsrtavl.py:132-162 | the corrected insertion adds exactly one copy of the value |
| AvlSpec.CorrectedTiesStayBalanced | btsrtavl.py:149-150 | on the third 10, the corrected insertion takes the right-right case and gives a balanced tree of height 2 |
| AvlSpec.SearchTree | btsrtavl.py:198-205 | `search` as written is true exactly when the tree is non-empty, whatever the value |
| AvlSpec.SearchFindsAbsentKey | btsrtavl.py:201-205 | on the one-node tree 10, searching for 5 answers true, although 5 is not stored and the descent does not find it |
| Avl.AvlNode.constructor | btsrtavl.py:120-124 | a new node is a leaf of height 1 |
| Avl.AVLTree.constructor | btsrtavl.py:126-127 | a new tree is empty |
| Avl.AVLTree.Insert | btsrtavl.py:129-130 | reports a raise exactly when the value-level insertion raises, and the linked tree becomes that function's tree; a new value into an AVL tree completes and keeps it AVL |
| Avl.AVLTree.InsertNode | btsrtavl.py:132-162 | in place, returns the subtree root that `_insert` computes; on a raise the old node holds the partly mutated subtree |
| Avl.AVLTree.InsertLeft | btsrtavl.py:135-136 | re-links the left child to the result of the insertion below, unless that raised |
| Avl.AVLTree.InsertRight | btsrtavl.py:137-138 | the mirror image; ties go right |
| Avl.AVLTree.Rebalance | btsrtavl.py:140-162 | in place, over the same nodes, the height update and the four cases; the subtree becomes the value-level rebalancing |
| Avl.AVLTree.RelinkLeftRotated | btsrtavl.py:154 | re-links the left child to its left rotation, or on a raise leaves the node as it was |
| Avl.AVLTree.RelinkRightRotated | btsrtavl.py:159 | re-links the right child to its right rotation, or on a raise leaves the node as it was |
| Avl.AVLTree.UpdateHeight | btsrtavl.py:140 | sets the node's cached height to one more than the larger of its children's cached heights |
| Avl.AVLTree.GetHeight | btsrtavl.py:164-167 | agrees with the value-level `_get_height` |
| Avl.AVLTree.GetBalance | btsrtavl.py:169-172 | agrees with the value-level `_get_balance` |
| Avl.AVLTree.RotateLeft | btsrtavl.py:174-184 | returns null exactly when the value-level rotation raises, and then changes nothing; otherwise the same nodes form the rotated subtree with recomputed heights |
| Avl.AVLTree.RotateRight | btsrtavl.py:186-196 | the mirror image |
| Avl.AVLTree.Search | btsrtavl.py:198-199 | agrees with the value-level `search` as written |
| Avl.AVLTree.SearchTree | btsrtavl.py:201-205 | true exactly when the node is present |
| Avl.AVLTree.SearchCorrected | btsrtavl.py:198-205 | the corrected `search`, a descent like the other two trees': true exactly when the value is stored |
| Avl.AVLTree.SearchTreeCorrected | btsrtavl.py:201-205 | the corrected descent over the linked nodes agrees with the value-level descent on their subtree |

## Left out

- Keys are `int`. Python accepts any values that `<` orders, and mixed types that raise `TypeError` on comparison are not modelled.
- An `AttributeError` is modelled as a `false` result that the callers pass straight up. RedBlackSpec.InsertAll stands for a caller that catches the `AttributeError` and goes on using the tree. Exceptions of other kinds are not modelled. That includes the `RecursionError` Python raises when `_insert_recursive` or `_insert` recurses past its limit, as a long sorted run into the unbalanced tree or a long AVL tie chain would; the model always completes there.
- Aliasing between different trees is not modelled. Each tree owns its nodes, and no node is shared.
- Concurrency and I/O: the code has none.
- The left-leaning red-black invariants (no two red links in a row, equal black height) are not stated. Because the rotations are swapped, the code as written does not keep them.
- The logarithmic height bounds of the red-black and AVL trees are not stated.
- AvlSpec.InsertBalanced: requires a value not yet stored. With a duplicate the guards, which use strict comparisons, can skip a needed rotation (AvlSpec.DuplicateBreaksBalance), and later insertions can raise (see Findings). AvlSpec.InsertBalancedCorrected drops that requirement for the corrected guards.
- AvlSpec.InsertHeights: requires a completed insertion. After a raise, the heights of the ancestors of the raising node are not recomputed, so they are stale, as they are in the code.
- Avl.AVLTree.Insert: promises balance only for a new value into an AVL tree, for the same reason as AvlSpec.InsertBalanced.
- RedBlack.RedBlackTree.FlipColors: requires both children to be present, as every call in `_insert` guarantees.

## Findings

| source | as written | input that shows it | evidently intended | confidence | as-written member | corrected member |
|---|---|---|---|---|---|---|
| btsrtavl.py:71-74 | a red right child triggers `_rotate_right` and a red left-left pair triggers `_rotate_left`; each rotation reads a child the guard does not ensure, and raises `AttributeError` | `insert(10)` then `insert(20)` into a `RedBlackTree`: the second call raises | the left-leaning fix-ups, rotating left for the red right child and right for the red left-left pair, which never raise | high (proved about the model; not executed) | RedBlackSpec.LargerKeyIntoSingletonRaises | RedBlackSpec.InsertCorrected |
| btsrtavl.py:201-205 | `AVLTree._search_tree` returns `True` for any present node, without comparing or descending | `insert(10)` then `search(5)` on an `AVLTree`: answers `True` | the standard descent of the other two trees, which after insertions finds exactly the stored keys | high (proved about the model; not executed) | AvlSpec.SearchFindsAbsentKey | Avl.AVLTree.SearchCorrected |
| btsrtavl.py:145-160 | the right-right and left-right guards compare `value > child.value`, but the descent sends a tie right; a tie matches no case, so equal keys pile up unbalanced in a right chain, and a later smaller key reaches the right-left case with no grandchild for `_rotate_right` and raises `AttributeError` | `insert(10)` four times, then `insert(5)` on an `AVLTree`: the fifth call raises | guards that break ties the way the descent does (`>=` at lines 149 and 153), under which every insertion into an AVL tree, duplicates included, completes and keeps it AVL | high (proved about the model; not executed) | AvlSpec.FourTiesThenFiveRaises | AvlSpec.InsertBalancedCorrected |
