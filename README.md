# BALST: an AVL-balanced ordered map, modelled in Dafny

BALST is an in-memory ordered map. It stores unique keys with values in a
binary search tree, and after every insert and remove it runs a bottom-up
rebalancing pass over the whole tree, using four rotations. This project
models that engine and proves what it does to the stored map, to the key
order and to AVL balance.

Layout:

- `wrappers.dfy`: `Option`, `Result` and the error kinds `KeyNotFound` and
  `DuplicateKey`. A thrown exception becomes an `Err` result.
- `trees.dfy`: the node model. `Tree<V> = Nil | Node(left, key, value, right)`
  replaces a nullable `Node` reference. It also holds the views the contracts
  speak in: `Size`, `Height`, `Keys`, the in-order pair sequence `Elements`,
  `InOrder`, the abstract map `MapOf`, `Bst` and `Avl`.
- `balancing.dfy`: the four rotations, `getBalanceFactor` and the recursive
  `rebalance`. It holds both the pass as written (`Rebalance`) and the
  corrected pass (`RebalanceFixed`); see "Findings".
- `mutation.dfy`: the recursive insert and remove helpers, and the
  in-order-predecessor cursor loop.
- `search.dfy`: `get`, `contains`, `getKeyAtRoot` and the child-key lookups.
- `traversals.dfy`: the three depth-first traversals, which append to a list
  that is threaded through the calls, and the level-order traversal, which
  drains a FIFO queue. `Level(t, d)` lists the keys at depth d, left to
  right. The file proves that the queue lists them depth by depth.
- `avl.dfy`: the public insert and remove as tree-to-tree steps. It proves
  how they change the map, that insert keeps AVL balance, that the
  corrected remove keeps AVL balance, and that the remove as written does
  not. It also proves the logarithmic height bound.
- `scenarios.dfy`: concrete insertion sequences, evaluated by the verifier.
- `balst.dfy`: the class `BALST<V>`.
  - Its fields `root` and `numKeys` are reassigned by `Insert` and `Remove`.
  - `Valid()` holds the BST order and `numKeys == Size(root)`. AVL balance
    is not part of it, because the remove as written can break it (see
    "Findings"). `Insert` keeps an AVL tree AVL, and `GetHeight` gives the
    logarithmic bound whenever the tree is AVL.
  - `Contents()` is the stored map.

Each in-place relink of the source (`node.left = …`, and the rotations
rewiring three links) becomes building a new tree value. This is sound
because every node has exactly one owner and there are no parent links.

## Model

| member | source | states |
|---|---|---|
| Trees.Height | BALST.java:306-322 | height is 0 exactly for an empty slot and never exceeds the node count |
| Trees.BstIffAscending | BALST.java:344-353 | a tree is a BST iff its in-order key sequence is strictly ascending |
| Trees.BstSizeIsKeyCount | BALST.java:708-710 | in a BST the node count equals the number of distinct keys and the size of the stored map |
| Trees.SameElements | BALST.java:50-115 | two trees with the same in-order pairs have the same keys, size, map and in-order keys, and one is a BST iff the other is |
| Trees.MapOfKeys | BALST.java:756-770 | the stored map's domain is exactly the set of keys in the tree |
| Balancing.BalanceFactor | BALST.java:161-166 | -1 for an empty slot; for a node, positive exactly when the left subtree is taller, in which case the left subtree sets the height (otherwise the right one does); within -1..1 on an AVL node |
| Balancing.RotateRight | BALST.java:50-58 | needs a left child; the left child becomes the subtree root with the old root as its right child; in-order pairs unchanged |
| Balancing.RotateLeft | BALST.java:67-75 | needs a right child; the right child becomes the subtree root with the old root as its left child; in-order pairs unchanged |
| Balancing.RotateRightLeft | BALST.java:84-95 | needs the inner grandchild right.left; it becomes the root over the old root (left) and old right child (right); in-order pairs unchanged |
| Balancing.RotateLeftRight | BALST.java:104-115 | needs the inner grandchild left.right; it becomes the root over the old left child (left) and old root (right); in-order pairs unchanged |
| Balancing.HeavySideExists | BALST.java:136-166 | whenever the pass rotates, the child and grandchild the rotation dereferences exist, so the -1 answer for an empty slot is never used |
| Balancing.RebalanceNode | BALST.java:133-149 | the per-node rotation decision, as written, keeps the node's in-order pairs and never empties it |
| Balancing.Rebalance | BALST.java:125-152 | the pass, as written, rebalances both children before the node, keeps the in-order pairs and empties nothing |
| Balancing.RebalanceNodeFixed | BALST.java:136-141 | the corrected decision (single right rotation when the left child is level) keeps the in-order pairs |
| Balancing.RebalanceFixed | BALST.java:125-152 | the corrected pass keeps the in-order pairs and empties nothing |
| Balancing.RebalanceKeepsContent | BALST.java:125-152 | both passes keep keys, node count, stored map and in-order keys, and keep the BST order (both directions) |
| Balancing.AvlIsFixpoint | BALST.java:125-152 | both passes leave an AVL tree unchanged |
| Balancing.RotateRightAvl | BALST.java:50-58 | on a node two levels heavier on the left whose left child is not right-heavy, a right rotation gives an AVL subtree of known height |
| Balancing.RotateLeftRightAvl | BALST.java:104-115 | on a node two levels heavier on the left whose left child is right-heavy, the double rotation gives an AVL subtree one level lower |
| Balancing.RotateRightLeftAvl | BALST.java:84-95 | the mirror image of RotateLeftRightAvl |
| Balancing.RotateLeftAvl | BALST.java:67-75 | the mirror image of RotateRightAvl |
| Balancing.RebalanceNodeFixedAvl | BALST.java:133-148 | over AVL children whose heights differ by at most two, the corrected decision gives an AVL subtree, leaves a balanced node alone, and gives the exact resulting height |
| Balancing.RebalanceNodeAgree | BALST.java:136-147 | the written and corrected decisions differ only on a node two levels heavier on the left whose left child is level |
| Mutation.InsertNode | BALST.java:494-514 | the recursive insert fails with DuplicateKey only on a present key; otherwise it adds exactly that key and one node |
| Mutation.Rightmost | BALST.java:600-606 | the rightmost node has no right child and holds the last in-order pair |
| Mutation.InOrderPredecessor | BALST.java:600-606 | the cursor loop stops at the rightmost node of the left subtree, whose pair comes just before the node's own pair in order |
| Mutation.RemoveNode | BALST.java:552-591 | the recursive remove fails only with KeyNotFound; on success the key was stored, no key is added and exactly one node is removed (the converse, failure iff absent, is RemoveNodeCorrect) |
| Mutation.InsertNodeCorrect | BALST.java:494-514 | on a BST, insert fails iff the key is present; otherwise it gives a BST whose map is the old map with key bound to value |
| Mutation.RightmostIsMax | BALST.java:600-606 | in a BST the predecessor found holds the largest key of the subtree |
| Mutation.RemoveTwoChildren | BALST.java:562-571 | copying the predecessor's key and value into a two-child node and removing the predecessor from the left subtree drops exactly the node's key and keeps the BST order |
| Mutation.RemoveNodeCorrect | BALST.java:552-591 | on a BST, remove fails iff the key is absent; otherwise it gives a BST whose map is the old map without key |
| Search.KeyAtRoot | BALST.java:175-181 | none exactly for the empty tree; otherwise a stored key |
| Search.Get | BALST.java:640-654 | failure is KeyNotFound; success means the key is stored |
| Search.Contains | BALST.java:686-700 | true only for a stored key |
| Search.KeyOfLeftChildOf | BALST.java:216-235 | failure is KeyNotFound; success means the key is stored |
| Search.KeyOfRightChildOf | BALST.java:269-287 | failure is KeyNotFound; success means the key is stored |
| Search.GetCorrect | BALST.java:640-654 | on a BST, get succeeds iff the key is in the map, and returns the value the map binds |
| Search.ContainsCorrect | BALST.java:686-700 | on a BST, contains holds iff the key is stored |
| Search.ChildLookupCorrect | BALST.java:216-287 | on a BST, the child lookups fail iff the key is absent; for the node holding the key they return its left and right child keys, or none for an empty slot |
| Traversals.AppendInOrder | BALST.java:344-353 | appends exactly the in-order keys to the list passed in |
| Traversals.AppendPreOrder | BALST.java:375-384 | appends exactly the pre-order keys to the list passed in |
| Traversals.AppendPostOrder | BALST.java:406-414 | appends exactly the post-order keys to the list passed in |
| Traversals.LevelOrderTraversal | BALST.java:436-457 | the queue-draining loop returns the keys depth by depth, from the root's depth down to the deepest level, each level left to right |
| Traversals.DrainPrefix | BALST.java:440-454 | draining a run of subtrees queued ahead of others lists the roots of the run, then leaves the others followed by the run's non-empty children in the queue |
| Traversals.ChildrenLevel | BALST.java:446-451 | the children enqueued for a run of subtrees hold, at depth d, exactly the run's keys at depth d + 1, in order |
| Traversals.LevelOrderFromByLevels | BALST.java:440-454 | draining a queue lists its depth-0 keys, then its depth-1 keys, and so on |
| Traversals.LevelOrderIsBreadthFirst | BALST.java:423-457 | level-order lists the keys at depth 0, then depth 1, down to the deepest level, each level left to right |
| Traversals.LevelOrderFromKeys | BALST.java:436-457 | draining a queue lists each key of each waiting subtree exactly once |
| Traversals.PreOrderIsPermutation | BALST.java:375-384 | pre-order is a permutation of the in-order keys and starts with the root |
| Traversals.PostOrderIsPermutation | BALST.java:406-414 | post-order is a permutation of the in-order keys and ends with the root |
| Traversals.LevelOrderIsPermutation | BALST.java:436-457 | level-order is a permutation of the in-order keys, has one entry per node and starts with the root |
| Traversals.InOrderSortedOnBst | BALST.java:344-353 | on a BST the in-order keys are strictly ascending, one per node, and are exactly the stored keys |
| AvlBalance.Put | BALST.java:472-481 | public insert fails only with DuplicateKey on a stored key; on success one more node and exactly one more key |
| AvlBalance.Delete | BALST.java:529-540 | public remove fails only with KeyNotFound; on success the key was stored, one node fewer and no key added |
| AvlBalance.PutFixed | BALST.java:472-481 | the same as Put, with the corrected pass |
| AvlBalance.DeleteFixed | BALST.java:529-540 | the same as Delete, with the corrected pass |
| AvlBalance.PutUpdatesMap | BALST.java:472-481 | on a BST, public insert fails with DuplicateKey iff the key is present; otherwise it binds key to value, keeps the BST order and adds one node |
| AvlBalance.DeleteUpdatesMap | BALST.java:529-540 | on a BST, public remove fails with KeyNotFound iff the key is absent; otherwise it drops the key, keeps the BST order and loses one node |
| AvlBalance.GetAfterPut | BALST.java:621-629 | after inserting an absent key, get returns its value |
| AvlBalance.GetAfterDelete | BALST.java:621-629 | after removing a present key, get fails with KeyNotFound |
| AvlBalance.PutDeleteRoundTrip | BALST.java:529-540 | inserting an absent key and removing it again restores the map |
| AvlBalance.GrowLeftStep | BALST.java:133-148 | over a left subtree that grew by at most one level, both decisions coincide, give an AVL subtree and grow it by at most one level |
| AvlBalance.GrowRightStep | BALST.java:133-148 | the mirror image of GrowLeftStep |
| AvlBalance.InsertKeepsAvl | BALST.java:472-481 | insert followed by the pass as written keeps an AVL tree AVL, agrees with the corrected pass, and grows the height by at most one |
| AvlBalance.PutKeepsAvl | BALST.java:472-481 | public insert keeps AVL balance and inserts the same tree under either pass |
| AvlBalance.ShrinkLeftStep | BALST.java:133-148 | over a left subtree that shrank by at most one level, the corrected decision gives an AVL subtree at most one level lower |
| AvlBalance.ShrinkRightStep | BALST.java:133-148 | the mirror image of ShrinkLeftStep |
| AvlBalance.RemoveFixedKeepsAvl | BALST.java:529-540 | remove followed by the corrected pass keeps an AVL tree AVL and lowers it by at most one level |
| AvlBalance.DeleteFixedKeepsAvl | BALST.java:529-540 | public remove with the corrected pass keeps AVL balance |
| AvlBalance.SampleTreeIsAvlBst | BALST.java:472-481 | the tree built by inserting 5, 2, 6, 1, 3, 7, 0, 4 is an AVL BST |
| AvlBalance.DeleteBreaksAvl | BALST.java:136-141 | removing 7 from that tree with the pass as written gives a tree that is not AVL |
| AvlBalance.DeleteFixedRepairsSample | BALST.java:136-141 | the same removal with the corrected pass gives an AVL tree |
| AvlBalance.LevelLeftRotatesRight | BALST.java:136-141 | when a removal leaves a node two levels heavier on the left over a level AVL left child, the corrected pass takes a single right rotation and the result is AVL |
| AvlBalance.AvlSizeBound | BALST.java:306-322 | an AVL tree of height h has at least the minimum AVL node count for h |
| AvlBalance.MinAvlSizeGrows | BALST.java:306-322 | that minimum count at least doubles every two levels |
| AvlBalance.AvlHeightLogarithmic | BALST.java:295-297 | an AVL tree of height h with n nodes has 2^(h/2) <= n + 1 |
| Scenarios.PutKey | BALST.java:472-481 | inserting and ignoring a duplicate leaves the key set grown by exactly the key |
| Scenarios.InsertAscending | BALSTTest.java:49-70 | inserting 10, 20, 30 gives root 20 with left child 10 and right child 30 |
| Scenarios.InsertDescending | BALSTTest.java:87-100 | inserting 30, 20, 10 gives root 20 with children 10 and 30 |
| Scenarios.InsertRightLeft | BALSTTest.java:121-135 | inserting 10, 30, 20 gives root 20 with children 10 and 30 |
| Scenarios.InsertLeftRight | BALSTTest.java:155-167 | inserting 30, 10, 20 gives root 20 with children 10 and 30 |
| Scenarios.InsertDuplicate | BALST.java:502-504 | inserting a present key fails with DuplicateKey |
| Scenarios.TwoKeys | BALST.java:494-514 | two distinct keys inserted into an empty tree need no rotation: the first is the root and the second its left or right child by order |
| Scenarios.RotateLeftAtRoot | BALST.java:142-147 | a right-right chain 10, 20, 30 is fixed by one left rotation into the balanced tree rooted at 20 |
| Scenarios.RotateRightAtRoot | BALST.java:136-138 | a left-left chain is fixed by one right rotation into the balanced tree rooted at 20 |
| Scenarios.RotateRightLeftAtRoot | BALST.java:142-144 | a right-left zigzag is fixed by the right-left double rotation |
| Scenarios.RotateLeftRightAtRoot | BALST.java:136-140 | a left-right zigzag is fixed by the left-right double rotation |
| Scenarios.SampleTreeReachable | BALST.java:472-481 | inserting 5, 2, 6, 1, 3, 7, 0, 4 builds the sample tree without any rotation |
| Balst.BALST.constructor | BALST.java:38-41 | a new tree is valid, holds the empty map and counts zero keys |
| Balst.BALST.Insert | BALST.java:472-481 | fails with DuplicateKey iff the key is present, leaving root and count unchanged; otherwise binds key to value, adds one to the count, keeps the invariant, leaves the root the public insert as written gives, and keeps an AVL tree AVL |
| Balst.BALST.Remove | BALST.java:529-540 | fails with KeyNotFound iff the key is absent, leaving root and count unchanged; otherwise returns true, drops the key, subtracts one from the count, keeps the invariant, and leaves the root the public remove as written gives |
| Balst.BALST.Get | BALST.java:621-629 | succeeds iff the key is stored, returns its value, and fails with KeyNotFound otherwise |
| Balst.BALST.Contains | BALST.java:668-677 | true iff the key is stored |
| Balst.BALST.GetKeyAtRoot | BALST.java:175-181 | none iff the count is zero; otherwise the root's key, which is stored |
| Balst.BALST.GetKeyOfLeftChildOf | BALST.java:197-204 | fails with KeyNotFound iff the key is absent; otherwise the left child key, or none, of the node holding it |
| Balst.BALST.GetKeyOfRightChildOf | BALST.java:250-257 | fails with KeyNotFound iff the key is absent; otherwise the right child key, or none, of the node holding it |
| Balst.BALST.GetHeight | BALST.java:295-297 | the tree's height: zero iff the count is zero, and logarithmic in the count whenever the tree is AVL |
| Balst.BALST.NumKeys | BALST.java:708-710 | the count equals the number of stored keys |
| Balst.BALST.GetInOrderTraversal | BALST.java:331-334 | the stored keys in strictly ascending order, as many as the count |
| Balst.BALST.GetPreOrderTraversal | BALST.java:362-365 | the pre-order keys: a permutation of the stored keys, starting with the root |
| Balst.BALST.GetPostOrderTraversal | BALST.java:393-396 | the post-order keys: a permutation of the stored keys, ending with the root |
| Balst.BALST.GetLevelOrderTraversal | BALST.java:423-426 | the keys depth by depth, each depth left to right: a permutation of the stored keys, as many as the count, starting with the root |

## Left out

- Null keys and `IllegalNullKeyException` (for example BALST.java:475-476 and 199-200). Keys are mathematical integers and are never null, so the branch cannot arise.
- Generic keys with `compareTo`/`equals`: keys are `int` with the usual total order. Mixing `equals` and `compareTo` is assumed to be consistent.
- `print` (BALST.java:716-749): console output only.
- The `height` field of `Node` (BALST.java:763) is never read. Heights are recomputed, as in the source.
- Cost: the whole-tree O(n) rebalance and the repeated height computations. Only behaviour is modelled.
- Balst.BALST.Insert: `numKeys` is an unbounded integer here, so 32-bit overflow of the Java `int` counter after 2^31 - 1 insertions is not modelled.
- Balst.BALST.Remove: no AVL guarantee is stated, because the pass as written can leave the tree unbalanced after a removal. `AvlBalance.DeleteBreaksAvl` shows this and "Findings" records it.
- Balst.BALST.GetHeight: the logarithmic bound is stated only while the tree is AVL. A tree unbalanced by a removal is outside it.
- Mutation.RemoveNode: the final `else return null` of the match case (BALST.java:579-581) is unreachable, because the two earlier tests already cover a missing child. The model has no such branch.
- AvlBalance.AvlHeightLogarithmic: this bound (height <= 2 log2(n + 1) + 1) is weaker than the classical bound of about 1.44 log2(n + 2). It still rules out a degenerate tree.
- The test that inserts 1..1000 and reads every key back (BALSTTest.java:255-270) is not evaluated literally. It follows from `PutUpdatesMap` and `GetCorrect` for every sequence of inserts.
- The source calls the structure an AVL tree (BALST.java:2 and 24), and its remove promises to rebalance the tree after a successful removal (BALST.java:517-519). The code keeps AVL balance for insert but not for remove. The class follows the code: both operations run the pass as written (`Rebalance`). The corrected pass (`RebalanceFixed`, used by `PutFixed` and `DeleteFixed`) and its AVL proof (`RemoveFixedKeepsAvl`) stand beside it, as the "Findings" row records.

## Findings

| source | as written | input that shows it | evidently intended | confidence | as-written member | corrected member |
|---|---|---|---|---|---|---|
| BALST.java:136-141 | on a node two levels heavier on the left, a left child with balance factor 0 gets the left-right double rotation (only `> 0` gets the single right rotation) | insert 5, 2, 6, 1, 3, 7, 0, 4 (an AVL tree, no rotations), then remove 7: the root is left-heavy by 2 with a level left child; the double rotation makes 3 the root and leaves node 2 with a left subtree of height 2 and no right child | a left child with balance factor 0 gets the single right rotation (`>= 0`), which gives an AVL tree after removal as well as insertion | high (proved on the concrete input; not executed) | AvlBalance.DeleteBreaksAvl | AvlBalance.RemoveFixedKeepsAvl |
