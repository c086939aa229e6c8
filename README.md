# AVL rank trees, composite keys, list and hash table

This project models the data-structure core of a music-library manager. The core is four variants of a height-balanced (AVL) binary search tree, the two composite keys the trees are ordered by, a unique-key doubly linked list, and the chained hash table built on that list. The model is written in Dafny and its properties are proved.

- **RankTree.h** (`RankTreeNode`, `RankTree`) is a recursive AVL tree with parent pointers. Every node caches its height and its rank, the number of nodes in its subtree. Deletion replaces a node by the maximum of its left subtree. Select-by-rank counts from the right, so rank 1 is the greatest key. The `RankTree(n)` constructor builds a tree of `n` nodes keyed `0 … n-1`.
- **Test.h** (`AVLRankTree`) is an iterative AVL rank tree.
  - It keeps an explicit size and a pointer to the smallest node.
  - After a change, loops walk the parent pointers to the root: `updateHeights`, `updateRanks` and `balance`.
  - A node with two children is deleted by swapping key and data with its in-order successor.
  - It can be loaded from sorted arrays, counts keys in a range, and selects by rank.
- **RankTreeSingle.h** (`RankTreeSingleNode`, `RankTreeSingle`) is a parent-less AVL tree over keys without payload. Insert and delete return the new subtree root.
- **Tree.h** (`TreeNode`, `Tree`) is the height-only twin of RankTree.h with `int` keys. Like RankTree.h it has `getNext`, the array fills and the complete-tree shape constructor; it differs in keeping no rank.
- **ThreeParamKey.cpp / TwoParamKey.cpp** are composite keys ordered lexicographically. Greater means more plays, then the smaller artist id, then the smaller song id.
- **List.h** is a doubly linked list with unique keys and head insertion.
- **HashTable.h** is a separately chained table.
  - It doubles its bucket array once more than half of the buckets' worth of items is stored.
  - It halves the array once fewer than a quarter is stored.
  - Every resize rehashes each entry.

## How the model is organised

- `AvlTree` (avl_tree.dfy) holds the node type `Leaf | Node(left, key, data, height, rank, right)` that all tree variants share.
  - It defines the true height and size, the in-order pairs `Elements`, search order `Bst` and balance `Balanced`.
  - It states the cache equations (`HeightsOk`, `RanksOk`), gives the rotations and the rebalancing choice `Fix`, and proves step lemmas for insertion and deletion.
  - The rotation names follow the source and so are inverted. `LeftRotate` promotes the left child; it is `PromoteLeft` here. `RightRotate` promotes the right child; it is `PromoteRight`. `StaticRightRotate` and `StaticLeftRotate` of RankTreeSingle.h are the same two rotations.
- Keys are generic, ordered by a comparator `lt` that is required to be a strict total order (`Order`). The two composite keys are proved to give such an order.
- RankTree.h, Tree.h and RankTreeSingle.h are modelled as functions on tree values, with a wrapper class that owns the `root` field.
  - Their in-place pointer surgery returns the rebuilt subtree.
  - A parent pointer is a position in a zipper (`Zipper`): the path of frames from a node up to the root.
  - `getNext` is `Zipper.Next`. It is cited at Tree.h, and RankTree.h:606-628 is the same code.
- Tree.h's own node type `HTree` has no rank. `HeightTree.Embed` maps it into `AvlTree`, with rank being the subtree size, so it shares the proofs of the other variants.
- Test.h is a class whose methods keep the source's `while` loops.
  - Each loop walks a zipper.
  - `updateHeights`, `updateRanks`, `balance` and the four rotations are methods proved against specification functions (`HeightsUp`, `RanksUp`, `RefreshUp`, `BalanceUp`).
  - Lemmas show that these walks do for the whole tree what a recursive insertion or deletion does.
- List.h is a class of real linked nodes. Its `nodes` and `contents` sequences are the abstraction, and a `Repr` set bounds its frame.
- HashTable.h keeps its bucket array as an `array` of bucket value sequences. The buckets reuse the list's specification functions.

Where the code and its documentation disagree, a member named `…AsWritten` (or a counterexample lemma) models the code as it stands. The corrected member beside it is what the rest of the model builds on; see Findings.
- The documented "nothing changes" for a duplicate of the root's key, and the documented "returns the new node" of `InsertGetBack`, do not hold as written; see Findings.
- The bulk builder is described as giving each subtree its true height. As written, a node with two children gets only the larger child height (Test.h:680-684).
- Input that is not sorted is described as rejected. As written, the check lets equal neighbouring keys through (Test.h:219-221).
- An insertion whose new key is below the smallest key leaves Test.h's `smallest` pointer to `balance`, which calls `updateSmallest` at its end (Test.h:502).

## Model

| member | source | states |
|---|---|---|
| ThreeParamKey.SetNumberOfPlays | ThreeParamKey.cpp:59-61 | the play count becomes the new value; song and artist ids stay |
| ThreeParamKey.SetSongId | ThreeParamKey.cpp:67-69 | the song id becomes the new value; the other fields stay |
| ThreeParamKey.SetArtistId | ThreeParamKey.cpp:75-77 | the artist id becomes the new value; the other fields stay |
| ThreeParamKey.Default | ThreeParamKey.cpp:7-9 | the default key has no plays, song 1 and artist 1, and lies below every key with at least one play |
| ThreeParamKey.Eq | ThreeParamKey.cpp:15-17 | field-wise `==` holds exactly for equal key values |
| ThreeParamKey.Ne | ThreeParamKey.cpp:19-21 | `!=` holds exactly for different key values |
| ThreeParamKey.Greater | ThreeParamKey.cpp:23-33 | a > b only for distinct keys where a has at least b's plays, and never together with a < b |
| ThreeParamKey.GreaterEq | ThreeParamKey.cpp:35-37 | a >= b exactly when a < b fails |
| ThreeParamKey.Less | ThreeParamKey.cpp:39-49 | a < b only for distinct keys where a has at most b's plays |
| ThreeParamKey.LessEq | ThreeParamKey.cpp:51-53 | a <= b exactly when a > b fails |
| ThreeParamKey.EqIsEquality | ThreeParamKey.cpp:15-21 | `==` holds exactly for equal keys and `!=` exactly for different ones |
| ThreeParamKey.GreaterIsLexicographic | ThreeParamKey.cpp:23-33 | a > b iff a has more plays, or equal plays and a smaller artist id, or equal plays and artist and a smaller song id |
| ThreeParamKey.LessMirrorsGreater | ThreeParamKey.cpp:23-49 | a < b exactly when b > a |
| ThreeParamKey.Trichotomy | ThreeParamKey.cpp:15-49 | exactly one of a < b, a == b, a > b holds |
| ThreeParamKey.NonStrict | ThreeParamKey.cpp:35-53 | `>=` is the negation of `<` and `<=` the negation of `>` |
| ThreeParamKey.LessTransitive | ThreeParamKey.cpp:39-49 | `<` is transitive |
| ThreeParamKey.LessIsStrictTotalOrder | ThreeParamKey.cpp:15-49 | `<` is a strict total order, so the key can order a tree |
| TwoParamKey.SetNumberOfPlays | TwoParamKey.cpp:51-53 | the play count becomes the new value; the song id stays |
| TwoParamKey.SetSongId | TwoParamKey.cpp:59-61 | the song id becomes the new value; the play count stays |
| TwoParamKey.Default | TwoParamKey.cpp:7-9 | the default key has no plays, song 1, and lies below every key with at least one play |
| TwoParamKey.Eq | TwoParamKey.cpp:15-17 | field-wise `==` holds exactly for equal key values |
| TwoParamKey.Ne | TwoParamKey.cpp:19-21 | `!=` holds exactly for different key values |
| TwoParamKey.Greater | TwoParamKey.cpp:23-29 | a > b only for distinct keys where a has at least b's plays, and never together with a < b |
| TwoParamKey.GreaterEq | TwoParamKey.cpp:31-33 | a >= b exactly when a < b fails |
| TwoParamKey.Less | TwoParamKey.cpp:35-41 | a < b only for distinct keys where a has at most b's plays |
| TwoParamKey.LessEq | TwoParamKey.cpp:43-45 | a <= b exactly when a > b fails |
| TwoParamKey.EqIsEquality | TwoParamKey.cpp:15-21 | `==` holds exactly for equal keys and `!=` exactly for different ones |
| TwoParamKey.GreaterIsLexicographic | TwoParamKey.cpp:23-29 | a > b iff a has more plays, or equal plays and a smaller song id |
| TwoParamKey.LessMirrorsGreater | TwoParamKey.cpp:23-41 | a < b exactly when b > a |
| TwoParamKey.Trichotomy | TwoParamKey.cpp:15-41 | exactly one of a < b, a == b, a > b holds |
| TwoParamKey.NonStrict | TwoParamKey.cpp:31-45 | `>=` is the negation of `<` and `<=` the negation of `>` |
| TwoParamKey.LessTransitive | TwoParamKey.cpp:35-41 | `<` is transitive |
| TwoParamKey.LessIsStrictTotalOrder | TwoParamKey.cpp:15-41 | `<` is a strict total order |
| AvlTree.Refresh | RankTree.h:237-253 | recomputing height and rank keeps the children and the pairs, and gives consistent caches when the children's caches are consistent |
| AvlTree.CachedHeight | RankTree.h:237-241 | where every node's height is 1 + the larger child height (a null child counts 0), the cached height is the true height |
| AvlTree.CachedRank | RankTree.h:249-253 | where every node's rank is 1 + both child ranks, the root's rank is the number of nodes |
| AvlTree.PromoteLeft | RankTree.h:339-367 | the left-child promotion keeps the in-order pairs and the key set |
| AvlTree.PromoteRight | RankTree.h:460-489 | the right-child promotion keeps the in-order pairs and the key set |
| AvlTree.PromoteLeftCaches | RankTree.h:339-367 | refreshing the demoted node and then the promoted node leaves every cache consistent |
| AvlTree.PromoteRightCaches | RankTree.h:460-489 | the same for the right-child promotion |
| AvlTree.PromoteLeftBst | RankTree.h:339-367 | the left-child promotion keeps search order |
| AvlTree.PromoteRightBst | RankTree.h:460-489 | the right-child promotion keeps search order |
| AvlTree.RotateLeftRight | RankTree.h:313-318 | the double rotation (promote right in the left child, then promote left) keeps the pairs |
| AvlTree.RotateRightLeft | RankTree.h:326-331 | the mirror double rotation keeps the pairs |
| AvlTree.Fix | RankTree.h:146-170 | the rebalancing choice keeps the in-order pairs and the key set |
| AvlTree.FixCaches | RankTree.h:146-170 | rebalancing a node with consistent caches leaves consistent caches |
| AvlTree.FixBst | RankTree.h:146-170 | rebalancing keeps search order |
| AvlTree.FixKeepsBalanced | RankTree.h:146-170 | a node whose balance factor is in [-1, 1] is left as it is |
| AvlTree.FixValid | RankTree.h:146-170 | a valid node is its own refresh and its own rebalance |
| AvlTree.FixLeftHeavy | RankTree.h:146-170 | two levels left-heavy: the single rotation (left child's factor >= 0) or the double one (< 0) balances the node, and its height is stated |
| AvlTree.FixRightHeavy | RankTree.h:146-170 | the mirror case: double rotation when the right child's factor is > 0, single otherwise |
| AvlTree.MkMeasures | RankTree.h:237-253 | a node built over consistent children has consistent caches, height 1 + the larger child height and size 1 + both sizes |
| AvlTree.FixAfterInsertLeft | RankTree.h:405-436 | after the left subtree grew by at most one level, rebalancing gives a balanced node at most one level taller. When it did grow, it is unrotated and leans left |
| AvlTree.FixAfterInsertRight | RankTree.h:405-436 | the mirror statement for growth on the right |
| AvlTree.FixAfterDeleteLeft | RankTree.h:689-712 | after the left subtree lost at most one level, rebalancing gives a balanced node that lost at most one level |
| AvlTree.FixAfterDeleteRight | RankTree.h:689-712 | the mirror statement for a right subtree |
| AvlTree.GrewLeft | RankTree.h:405-436 | a valid node whose left subtree grew stays valid after rebalancing, is at most one level taller and has the expected size |
| AvlTree.GrewRight | RankTree.h:405-436 | the mirror statement |
| AvlTree.ShrankLeft | RankTree.h:689-712 | a valid node whose left subtree shrank stays valid after rebalancing and lost at most one level |
| AvlTree.ShrankRight | RankTree.h:689-712 | the mirror statement |
| AvlTree.BstSorted | RankTree.h:661-680 | a search tree's in-order pairs come in strictly increasing key order |
| AvlTree.Find | RankTree.h:661-680 | a node the search returns lies in the tree and carries a key equal to the searched one |
| AvlTree.FindCorrect | RankTree.h:661-680 | in a search tree the search returns a node exactly when the key is present, and then it holds that key and its pair |
| AvlTree.KeysBelow | RankTree.h:661-680 | a key below the node's key is in the tree iff it is in the left subtree |
| AvlTree.KeysAbove | RankTree.h:661-680 | a key above the node's key is in the tree iff it is in the right subtree |
| AvlTree.Leftmost | RankTree.h:742-747 | the node reached going left has no left child, lies in the tree and holds the first in-order pair |
| AvlTree.LeftmostLeast | RankTree.h:742-747 | in a search tree the leftmost key is below every other key |
| AvlTree.LeftmostIsMinimum | RankTree.h:742-747 | the leftmost key is below every later in-order key |
| AvlTree.Rightmost | RankTree.h:755-760 | the node reached going right has no right child and holds the last in-order pair |
| AvlTree.RightmostGreatest | RankTree.h:755-760 | in a search tree the rightmost key is above every other key |
| AvlTree.NodeByRank | RankTree.h:972-990 | rank selection returns a node of the tree |
| AvlTree.NodeByRankCorrect | RankTree.h:972-990 | in a balanced tree with consistent ranks, for 1 <= r <= rank, selection returns the r-th largest pair, including the no-right-child branch that answers the left child |
| Zipper.Attach | RankTree.h:445-453 | a parent frame rebuilt around a child keeps its key, data and other child |
| Zipper.PlugElements | RankTree.h:606-628 | the whole tree's pairs are the pairs left of the path, then the focus, then those right of it |
| Zipper.Next | Tree.h:494-516 | getNext from a node answers the next node in order: the minimum of the right subtree, or the nearest ancestor reached from a left child, or null exactly for the maximum |
| RankTreeSingle.InsertBalance | RankTreeSingle.h:265-285 | the rotation chosen by comparing the key with the heavy child's key keeps the pairs |
| RankTreeSingle.NodeInsert | RankTreeSingle.h:252-286 | a valid tree gets the key added (a present key changes nothing) and stays a balanced search tree with consistent caches, at most one level taller |
| RankTreeSingle.InsertLeftCase | RankTreeSingle.h:265-285 | after inserting to the left, the LL or LR rotation picked by the key equals the general rebalance |
| RankTreeSingle.InsertRightCase | RankTreeSingle.h:265-285 | after inserting to the right, the RR or RL rotation picked by the key equals the general rebalance |
| RankTreeSingle.FixedLeft | RankTreeSingle.h:252-286 | a left insertion followed by rebalancing satisfies the insertion contract at the node |
| RankTreeSingle.FixedRight | RankTreeSingle.h:252-286 | a right insertion followed by rebalancing satisfies the insertion contract at the node |
| RankTreeSingle.InsertedHere | RankTreeSingle.h:252-286 | an equal key leaves the tree exactly as it was |
| RankTreeSingle.FindMin | RankTreeSingle.h:504-511 | the loop going left stops at the leftmost node |
| RankTreeSingle.DeleteNode | RankTreeSingle.h:305-368 | the key is removed (an absent key changes nothing); the result is a valid tree, at most one level lower, one node smaller when the key was present |
| RankTreeSingle.DeletedLeft | RankTreeSingle.h:326-366 | deleting in the left subtree and rebalancing keeps the deletion contract at the node |
| RankTreeSingle.DeletedRight | RankTreeSingle.h:326-366 | deleting in the right subtree and rebalancing keeps the deletion contract at the node |
| RankTreeSingle.DeletedHere | RankTreeSingle.h:315-324 | a node with at most one child is replaced by that child, which loses exactly its key |
| RankTreeSingle.DeletedSuccessor | RankTreeSingle.h:325-331 | a node with two children takes the successor `findMin(right)` and the successor is deleted on the right: exactly the node's key is gone |
| RankTreeSingle.DeleteNodeAsWritten | RankTreeSingle.h:305-368 | the code as written keeps consistent caches |
| RankTreeSingle.OneChildDeleteKeepsStaleChild | RankTreeSingle.h:315-324 | deleting a from a(-, b) as written yields b(-, b): the key twice and no search order |
| RankTreeSingle.OneChildDeleteSplices | RankTreeSingle.h:315-324 | the corrected deletion yields the single node b |
| RankTreeSingle.RankTreeSingle.constructor | RankTreeSingle.h:668 | the new tree is empty and valid |
| RankTreeSingle.RankTreeSingle.Insert | RankTreeSingle.h:709-717 | the root becomes the insertion result and the tree stays valid |
| RankTreeSingle.RankTreeSingle.Remove | RankTreeSingle.h:725-730 | the key set loses the key; an absent key changes nothing; the size drops by one for a present key |
| RankTreeSingle.RankTreeSingle.Find | RankTreeSingle.h:691-697 | a node is returned exactly when the key is present, and it holds the key |
| RankTreeSingle.RankTreeSingle.FindByRank | RankTreeSingle.h:775-777 | for 1 <= r <= the root rank, the r-th largest key |
| RankTree.Rebalance | RankTree.h:146-170 | refresh then rebalance keeps the in-order pairs and the keys |
| RankTree.RebalanceValid | RankTree.h:146-170 | a valid node is left unchanged |
| RankTree.NodeInsert | RankTree.h:405-436 | null exactly for a key equal to the node's; otherwise the subtree is again valid, at most one level taller, with the pair inserted in order and one more node |
| RankTree.ChildInserted | RankTree.h:410-428 | a child position after the recursive call (a new leaf or the child's result) satisfies the insertion contract |
| RankTree.InsertedRight | RankTree.h:407-416 | insertion into the right subtree followed by Rebalance keeps the insertion contract |
| RankTree.InsertedLeft | RankTree.h:418-428 | insertion into the left subtree followed by Rebalance keeps the insertion contract |
| RankTree.ElementsWithoutRoot | RankTree.h:721-734 | a search tree's pairs without the root's key are the left pairs and then the right pairs |
| RankTree.RemoveAbsentKey | RankTree.h:689-712 | removing an absent key keeps the pairs |
| RankTree.RemoveMax | RankTree.h:763-773 | unlinking the maximum yields that rightmost node and a valid remainder, at most one level lower, holding every other pair in order |
| RankTree.RemovedMaxRight | RankTree.h:763-773 | the maximum is found in the right subtree and rebalancing on the way up keeps that contract |
| RankTree.DeleteNode | RankTree.h:721-734 | deleting the node's own key (predecessor for a left child, right child spliced, leaf unlinked) satisfies the removal contract |
| RankTree.KeysWithoutRoot | RankTree.h:721-734 | the keys without the root's are the two subtrees' keys |
| RankTree.DeletedWithPredecessor | RankTree.h:497-522 | a node replaced by its predecessor, over the rest of the left subtree, rebalances to a valid tree holding the two subtrees' pairs |
| RankTree.NodeRemove | RankTree.h:689-712 | the removal contract: valid result, at most one level lower, the key's pair dropped and the others in order, no change for an absent key |
| RankTree.AbsentAbove | RankTree.h:690-696 | a search falling off the right of a node removes nothing |
| RankTree.AbsentBelow | RankTree.h:697-703 | a search falling off the left of a node removes nothing |
| RankTree.RemovedRight | RankTree.h:690-696 | removal in the right subtree followed by Rebalance keeps the removal contract at the node |
| RankTree.RemovedLeft | RankTree.h:697-703 | removal in the left subtree followed by Rebalance keeps the removal contract at the node |
| RankTree.PresentRight | RankTree.h:690-696 | the same when the key is present |
| RankTree.PresentLeft | RankTree.h:697-703 | the same when the key is present |
| RankTree.FindMaxMarked | RankTree.h:763-773 | the walk of findMax leaves the in-order pairs unchanged, and the node has a right child exactly when it had one before |
| RankTree.SpliceMarked | RankTree.h:497-522 | the unlinking step drops exactly the rightmost pair |
| RankTree.RemoveMaxPlain | RankTree.h:497-522 | removing the rightmost node without rebalancing keeps consistent caches and drops exactly the last pair |
| RankTree.MarkedSpliceIsPlain | RankTree.h:497-522 | on a balanced tree, findMax then the splice is exactly RemoveMaxPlain |
| RankTree.DeleteNodeAsWritten | RankTree.h:497-540 | the code as written keeps caches, search order, the other pairs in order and the keys, but not balance |
| RankTree.DeletedAsWritten | RankTree.h:497-522 | the left subtree after the as-written unlinking is RemoveMaxPlain of it, and the rebuilt node holds both subtrees' pairs |
| RankTree.NodeRemoveAsWritten | RankTree.h:689-712 | Remove over the as-written DeleteNode keeps the as-written contract |
| RankTree.PredecessorDeleteUnbalances | RankTree.h:497-522 | removing 10 from 10(5(3(2, 4), 7), 12(11, 13)) as written leaves 5(3(2, 4), -) under the root, unbalanced; the corrected removal ends balanced |
| RankTree.TreeInsert | RankTree.h:1113-1120 | insertion into the tree (empty or not) keeps the insertion contract, with a duplicate of the root key left alone |
| RankTree.TreeInsertAsWritten | RankTree.h:1113-1120 | as written the tree becomes empty exactly when the key equals the root's key, and otherwise agrees with TreeInsert |
| RankTree.TreeInsertGetBackAsWritten | RankTree.h:1131-1141 | as written the pointer handed back is a node only for an empty tree |
| RankTree.TreeInsertGetBack | RankTree.h:1131-1141 | the intended result is the new node, holding the key and data, exactly when the key was absent |
| RankTree.NewNodeFound | RankTree.h:1095-1120 | after inserting an absent key, Find answers the new pair |
| RankTree.TreeRemove | RankTree.h:1149-1153 | the removal contract for the whole tree, an empty tree included |
| RankTree.RankTree.constructor | RankTree.h:1072 | the new tree is empty and valid |
| RankTree.RankTree.Find | RankTree.h:1095-1101 | a node is returned exactly when the key is present; it holds the key, its pair and lies in the tree |
| RankTree.RankTree.Insert | RankTree.h:1113-1120 | the root becomes TreeInsert's result |
| RankTree.RankTree.InsertGetBack | RankTree.h:1131-1141 | the tree changes as under Insert and the new node is handed back, or null for a present key |
| RankTree.RankTree.Remove | RankTree.h:1149-1153 | the root becomes TreeRemove's result and the removal contract holds |
| RankTree.RankTree.FindByRank | RankTree.h:1267-1269 | for 1 <= r <= the root rank, the r-th largest key |
| RankTree.RankTree.FillArrWithNodesInOrder | RankTree.h:1225-1232 | the array's first cells are the tree's nodes in order, the rest unchanged |
| RankTreeShape.CeilLog2 | RankTree.h:1244-1248 | the least l with n <= 2^l |
| RankTreeShape.TreeLevel | RankTree.h:1244-1250 | the level count: 2^(l-1) <= n < 2^l |
| RankTreeShape.Complete | RankTree.h:897-910 | CreateCompleteBinaryTree builds a perfect tree of the asked number of levels, every payload null |
| RankTreeShape.PerfectMeasures | RankTree.h:897-910 | a perfect tree of height h is balanced, has consistent caches and 2^h - 1 nodes |
| RankTreeShape.RemoveExtra | RankTree.h:919-944 | the number of nodes still to remove never grows |
| RankTreeShape.RemoveExtraPerfect | RankTree.h:919-944 | on a perfect tree of height h, pruning removes min(c, 2^(h-1)) bottom leaves (all of them lowers the height by one), counts them off c and keeps balance and consistent caches |
| RankTreeShape.FillKeys | RankTree.h:953-964 | FillKeysInOrder keeps the shape, labels the nodes k, k+1, … in order, returns the next label and yields a search tree |
| RankTreeShape.Pruned | RankTree.h:1242-1264 | the pruned complete tree has exactly n nodes, balance and consistent caches |
| RankTreeShape.SizedTree | RankTree.h:1242-1264 | RankTree(n) is a valid tree of exactly n nodes whose pairs are (0, null), …, (n-1, null) |
| RankTreeShape.FillData | RankTree.h:845-860 | keys and shape stay, each payload becomes array[key], and search order is kept |
| RankTreeShape.InOrderNodes | RankTree.h:872-886 | one node per tree node, each a subtree of the tree |
| RankTreeShape.InOrderNodesElements | RankTree.h:872-886 | the i-th node of the in-order list holds the i-th in-order pair |
| RankTreeShape.FillArrayWithNodes | RankTree.h:872-886 | the nodes are written in order from the index on, the rest of the array unchanged, and the next index is returned |
| HeightTree.Embed | Tree.h:196-226 | a Tree.h node as a rank tree, with rank the subtree size; a null child counts height 0 |
| HeightTree.HMk | Tree.h:432-438 | the node constructor over two children holds their pairs around its own and keeps heights positive |
| HeightTree.HRefresh | Tree.h:196-200 | updateNodeHeight keeps children and pairs and search order |
| HeightTree.HLeftRotate | Tree.h:260-283 | the left-child promotion keeps the pairs |
| HeightTree.HRightRotate | Tree.h:362-386 | the right-child promotion keeps the pairs |
| HeightTree.HLeftRightRotate | Tree.h:234-239 | the double rotation keeps the pairs |
| HeightTree.HRightLeftRotate | Tree.h:247-252 | the mirror double rotation keeps the pairs |
| HeightTree.HRebalance | Tree.h:126-150 | Rebalance keeps the pairs and every cached height stays positive |
| HeightTree.HRebalanceBst | Tree.h:126-150 | Rebalance keeps search order |
| HeightTree.EmbedRebalance | Tree.h:126-150 | on children with exact heights, Tree.h's Rebalance is RankTree.h's Rebalance |
| HeightTree.EmbedLeftRotate | Tree.h:260-283 | Tree.h's left-child promotion is RankTree.h's |
| HeightTree.EmbedRightRotate | Tree.h:362-386 | Tree.h's right-child promotion is RankTree.h's |
| HeightTree.HFind | Tree.h:549-568 | Find is RankTree.h's search on the embedded tree |
| HeightTree.HFindCorrect | Tree.h:549-568 | in a search tree a node is returned exactly when the key is present |
| HeightTree.HNodeInsert | Tree.h:307-338 | null exactly for the node's own key; otherwise the insertion contract of RankTree.h holds |
| HeightTree.HInsertedRight | Tree.h:309-320 | insertion on the right followed by Rebalance keeps the insertion contract |
| HeightTree.HInsertedLeft | Tree.h:321-332 | insertion on the left followed by Rebalance keeps the insertion contract |
| HeightTree.HRightmost | Tree.h:643-648 | findMax is the rightmost node |
| HeightTree.HRemoveMax | Tree.h:394-414 | the intended unlinking of the maximum yields it and a valid remainder holding every other pair |
| HeightTree.HDeleteNode | Tree.h:609-622 | the intended DeleteNode removes exactly the node's key and keeps the tree valid |
| HeightTree.HDeletedWithPredecessor | Tree.h:394-414 | the predecessor over the refreshed rest of the left subtree rebalances to a correct removal |
| HeightTree.HDeletedOnlyRight | Tree.h:422-429 | a node with only a right child is replaced by it |
| HeightTree.HDeletedLeaf | Tree.h:609-622 | a leaf is unlinked |
| HeightTree.HNodeRemove | Tree.h:577-600 | the removal contract of RankTree.h on the embedded tree |
| HeightTree.HRemovedRight | Tree.h:578-586 | removal on the right followed by Rebalance keeps the removal contract |
| HeightTree.HRemovedLeft | Tree.h:587-595 | removal on the left followed by Rebalance keeps the removal contract |
| HeightTree.HSpliceMax | Tree.h:394-414 | the as-written unlinking drops exactly the rightmost pair and keeps heights positive |
| HeightTree.HSpliceMaxBst | Tree.h:394-414 | it keeps search order and every remaining key is below the maximum |
| HeightTree.HDeleteNodeAsWritten | Tree.h:394-429 | as written the key's pair is gone, the others keep their order, search order holds and heights stay positive, with no claim that the heights are exact |
| HeightTree.HNodeRemoveAsWritten | Tree.h:577-600 | Remove over the as-written DeleteNode keeps that contract |
| HeightTree.PredecessorDeleteLeavesStaleHeights | Tree.h:394-414 | removing c from c(a(-, b), d) as written leaves leaf a caching height 2; the corrected removal gives b(a, d) with exact heights |
| HeightTree.HTreeInsert | Tree.h:929-936 | insertion into the tree keeps the insertion contract, a duplicate of the root key left alone |
| HeightTree.HTreeInsertAsWritten | Tree.h:929-936 | as written the tree empties exactly when the key equals the root's |
| HeightTree.HTreeInsertGetBackAsWritten | Tree.h:947-957 | as written a node is handed back only for an empty tree |
| HeightTree.HTreeInsertGetBack | Tree.h:947-957 | the new node, holding the key and data, is handed back exactly when the key was absent |
| HeightTree.HTreeRemove | Tree.h:965-969 | the removal contract, an empty tree staying empty |
| HeightTree.HComplete | Tree.h:772-784 | CreateCompleteBinaryTree is RankTree.h's on the embedding |
| HeightTree.HRemoveExtra | Tree.h:793-817 | RemoveExtraNodes is RankTree.h's on the embedding |
| HeightTree.HFillKeys | Tree.h:826-837 | FillKeysInOrder is RankTree.h's on the embedding |
| HeightTree.HSizedTree | Tree.h:1058-1080 | Tree(n) is valid with pairs (0, null), …, (n-1, null) |
| HeightTree.HFillData | Tree.h:720-735 | FillNodesWithArrDataInOrder is RankTree.h's on the embedding |
| HeightTree.HInOrderNodes | Tree.h:747-761 | the in-order node list corresponds to RankTree.h's node by node |
| HeightTree.HFillArrayWithNodes | Tree.h:747-761 | the nodes are written in order from the index on, the rest unchanged, and the next index is returned |
| HeightTree.HeightTree.constructor | Tree.h:888 | the new tree is empty and valid |
| HeightTree.HeightTree.Sized | Tree.h:1058-1080 | a valid tree with keys 0 … n-1 in order, every payload null |
| HeightTree.HeightTree.Find | Tree.h:911-917 | a node is returned exactly when the key is present; it holds the key and its pair |
| HeightTree.HeightTree.Insert | Tree.h:929-936 | the root becomes HTreeInsert's result |
| HeightTree.HeightTree.InsertGetBack | Tree.h:947-957 | as Insert, handing back the new node or null for a present key |
| HeightTree.HeightTree.Remove | Tree.h:965-969 | the removal contract holds |
| HeightTree.HeightTree.FillTreeNodesWithArrData | Tree.h:1023-1030 | keys and order stay and each payload becomes array[key] |
| HeightTree.HeightTree.FillArrWithNodesInOrder | Tree.h:1041-1048 | the array's first cells are the tree's nodes in order, the rest unchanged |
| AvlRankTree.HeightsUp | Test.h:413-427 | updateHeights changes each ancestor's height cache only: its key, data, side and other child stay |
| AvlRankTree.RanksUp | Test.h:431-444 | updateRanks changes each ancestor's rank cache only |
| AvlRankTree.RefreshUp | Test.h:413-444 | both walks together change each ancestor's height and rank only, nothing else on the path |
| AvlRankTree.UpdateHeights | Test.h:413-427 | the walk sets each node from the start up to the root to 1 + the larger child height |
| AvlRankTree.UpdateRanks | Test.h:431-444 | the walk sets each node up to the root to 1 + the child ranks |
| AvlRankTree.UpdatesCompose | Test.h:413-444 | the height walk then the rank walk recompute both caches of every ancestor |
| AvlRankTree.RefreshUpCaches | Test.h:413-444 | after both walks the whole tree's caches are consistent |
| AvlRankTree.RefreshUpSiblings | Test.h:413-444 | the walks change caches only: the subtrees off the path stay, and so does their cache consistency |
| AvlRankTree.LlRotation | Test.h:507-526 | the left child takes the node's place under the parent, and caches are recomputed from the demoted node up to the root |
| AvlRankTree.RrRotation | Test.h:530-549 | the mirror rotation promoting the right child |
| AvlRankTree.LrRotation | Test.h:553-556 | rr on the left child then ll on the node: the double rotation, caches recomputed to the root |
| AvlRankTree.RlRotation | Test.h:560-563 | ll on the right child then rr on the node, caches recomputed to the root |
| AvlRankTree.Balance | Test.h:480-503 | the upward walk rotates every out-of-balance level and returns the tree that BalanceUp computes |
| AvlRankTree.ValidCalm | Test.h:480-503 | a valid tree has no node two levels out of balance, so balance leaves it alone |
| AvlRankTree.ClimbInserted | Test.h:239-290 | after the new node fills the empty position, the walk to the root does what a recursive insertion does for the whole tree |
| AvlRankTree.ClimbRemoved | Test.h:342-409 | after a deletion at a node, the walk to the root removes the key from the whole tree |
| AvlRankTree.SplicedRemoved | Test.h:343-389 | splicing out a node with at most one child removes exactly its key |
| AvlRankTree.SplicedClimb | Test.h:343-389 | pointing the parent at the child and walking up from it removes exactly the node's key from the whole tree |
| AvlRankTree.DeletedWithSuccessor | Test.h:391-408 | the node taking its successor's pair, with the successor removed from the right subtree, loses exactly its key |
| AvlRankTree.SuccessorClimb | Test.h:391-408 | swapping with the leftmost node of the right subtree and unlinking that node removes the original key from the whole tree |
| AvlRankTree.Climb | Test.h:284-286 | updateHeights, updateRanks and balance from a node give BalanceUp of the refreshed node |
| AvlRankTree.Relink | Test.h:601-612 | ParentPointTo and the walk from the parent give BalanceUp of the new child |
| AvlRankTree.StepDown | Test.h:566-576 | one search step keeps the zipper's tree and direction; the key is in the focus iff in the chosen child |
| AvlRankTree.ClosestCount | Test.h:118-139 | the keys not above k in the node findClosestParentOf stops at are the node and its left subtree, or none |
| AvlRankTree.StepCount | Test.h:690-716 | one step up in findLeftest adds the parent and its left subtree only when coming from the right |
| AvlRankTree.RangeCount | Test.h:142-191 | keys in [min, max] are those not above max, less those not above min, plus min when present |
| AvlRankTree.Build | Test.h:660-687 | LoadSortedArray2 holds the given pairs in order |
| AvlRankTree.BuildShape | Test.h:660-687 | the intended build has exact heights, is balanced and is as high as the count has binary digits |
| AvlRankTree.LoadHeight | Test.h:676-684 | the intended height: 1 + the larger child height |
| AvlRankTree.BuildAsWritten | Test.h:660-687 | the build as written is null exactly for zero pairs |
| AvlRankTree.HeightAsWritten | Test.h:675-684 | the height as written: with two children one less than the intended LoadHeight, otherwise equal to it |
| AvlRankTree.ThreeKeysHeightAsWritten | Test.h:680-684 | with three pairs the root is given height 1 though the tree has two levels |
| AvlRankTree.SetAllRanks | Test.h:463-477 | every rank becomes its subtree size; pairs, shape and heights stay |
| AvlRankTree.SetAllRanksBst | Test.h:463-477 | setting ranks keeps search order |
| AvlRankTree.SortedBst | Test.h:660-687 | a tree whose pairs come in increasing key order is a search tree |
| AvlRankTree.LoadedValid | Test.h:216-229 | from increasing keys the loaded tree is valid and holds exactly the given pairs in order |
| AvlRankTree.DuplicateKeysAccepted | Test.h:219-221 | equal keys pass the check and the tree built from them is not a search tree |
| AvlRankTree.CheckSorted | Test.h:219-221 | the intended check passes exactly for strictly increasing keys |
| AvlRankTree.CheckSortedAsWritten | Test.h:219-221 | the check as written passes exactly when no key is below the one before it |
| AvlRankTree.SortedData | Test.h:640-647 | getSortedArray2 writes the data in key order from the index on and leaves the rest |
| AvlRankTree.AVLRankTree.constructor | Test.h:194-198 | the new tree is empty and valid |
| AvlRankTree.AVLRankTree.Reset | Test.h:208-213 | the tree ends empty and valid, the smallest pointer cleared |
| AvlRankTree.AVLRankTree.ResetAsWritten | Test.h:208-213 | as written the root is cleared but the smallest pointer still names a node, so the object is no longer valid |
| AvlRankTree.AVLRankTree.GetSize | Test.h:233-235 | the size field is the number of pairs |
| AvlRankTree.AVLRankTree.UpdateSmallest | Test.h:449-459 | the smallest pointer becomes the leftmost node, null for an empty tree |
| AvlRankTree.AVLRankTree.GetNode | Test.h:566-576 | the answer is non-null exactly when the key is present, and then holds the key |
| AvlRankTree.AVLRankTree.DoesExist | Test.h:312-314 | true exactly when the key is present |
| AvlRankTree.AVLRankTree.GetByKey | Test.h:303-308 | the key's data, or KeyDoesNotExist exactly when the key is absent |
| AvlRankTree.AVLRankTree.GetSmallest | Test.h:328-332 | the data of the first in-order pair, or KeyDoesNotExist exactly for an empty tree |
| AvlRankTree.AVLRankTree.Insert | Test.h:239-290 | KeyAlreadyExist exactly for a present key; otherwise the insertion contract holds and the object stays valid |
| AvlRankTree.AVLRankTree.Unlink | Test.h:343-389 | the parent points to the node's child, the walk runs from the parent, smallest is recomputed and the size drops by one |
| AvlRankTree.AVLRankTree.RemoveNode | Test.h:342-409 | exactly the node's key is removed and the object stays valid |
| AvlRankTree.AVLRankTree.Remove | Test.h:294-299 | the removal contract; an absent key changes nothing |
| AvlRankTree.AVLRankTree.FindByRank | Test.h:719-725 | for 1 <= r <= size, the r-th largest key |
| AvlRankTree.AVLRankTree.FindClosestParentOf | Test.h:118-139 | the node holding the key, or the last node of the search with no child on that side; null only for an empty tree |
| AvlRankTree.AVLRankTree.FindLeftest | Test.h:690-716 | the number of keys not above k |
| AvlRankTree.AVLRankTree.GetInRange | Test.h:142-191 | IllegalInput exactly when max <= min; otherwise the number of keys in [min, max] |
| AvlRankTree.AVLRankTree.GetSortedArray | Test.h:319-324 | a new array holding the data in key order |
| AvlRankTree.AVLRankTree.LoadSortedArray | Test.h:216-229 | IllegalInput, with the tree as it was, unless the first `length` keys strictly increase; otherwise the tree is valid and holds exactly those pairs in order |
| LinkedList.Lookup | List.h:137-158 | the data of a key, present exactly when some entry carries the key |
| LinkedList.InsertedKeys | List.h:115-134 | head insertion keeps keys distinct and adds the key; a present key changes nothing |
| LinkedList.RemovedKeys | List.h:161-206 | removal keeps keys distinct, drops exactly the key and, when present, exactly its pair |
| LinkedList.RemoveAt | List.h:161-206 | removing the key of the i-th entry cuts exactly that entry and keeps the order |
| LinkedList.ListNode.constructor | List.h:39-41 | a node with the given key and data and no links |
| LinkedList.List.constructor | List.h:110-112 | an empty list |
| LinkedList.List.Find | List.h:137-146 | true exactly when some entry carries the key |
| LinkedList.List.FindNode | List.h:149-158 | a node of the list with the key and that key's data, or null exactly when the key is absent |
| LinkedList.List.Insert | List.h:115-134 | FAILURE exactly for a present key, which changes nothing; otherwise the pair becomes the new head and the old nodes follow |
| LinkedList.List.LinkNewHead | List.h:119-131 | the new node becomes the head before the old one, with consistent links |
| LinkedList.List.Remove | List.h:161-206 | FAILURE exactly for an absent key, which changes nothing; otherwise exactly the key's entry is cut and the order kept |
| LinkedList.List.UnlinkHead | List.h:170-180 | unlinking the head leaves the remaining nodes with consistent links |
| LinkedList.List.UnlinkMiddle | List.h:185-197 | unlinking an inner node joins its neighbours |
| LinkedList.List.UnlinkLast | List.h:181-184 | unlinking the last node clears its predecessor's next link |
| LinkedList.List.ResetIterator | List.h:227-230 | the iterator is at the head |
| LinkedList.List.NextIteration | List.h:233-236 | the iterator moves to the next node, null after the last |
| HashTable.InsertIntoBucket | HashTable.h:60-67 | adding an absent key to its bucket keeps every entry in its hash bucket, keys distinct, and adds exactly the pair |
| HashTable.RemoveFromBucket | HashTable.h:94-101 | removing a present key from its bucket drops exactly its pair and nothing else |
| HashTable.KeyInBucket | HashTable.h:79-91 | a key is in the table exactly when it is in the bucket its hash names, with the same data |
| HashTable.MoveEntries | HashTable.h:134-142 | moving one old bucket's entries inserts each into its new hash bucket, adding exactly those pairs |
| HashTable.Rehash | HashTable.h:133-145 | the new bucket array holds exactly the old pairs, each in its new hash bucket |
| HashTable.HashTable.constructor | HashTable.h:52-57 | two empty buckets and no items |
| HashTable.HashTable.GetSize | HashTable.h:181-183 | the bucket count, which is a power of two and at least twice the number of stored items |
| HashTable.HashTable.Find | HashTable.h:79-85 | SUCCESS exactly when the key is stored |
| HashTable.HashTable.FindNode | HashTable.h:88-91 | the stored data of the key, present exactly when the key is stored |
| HashTable.HashTable.Insert | HashTable.h:60-76 | FAILURE exactly for a stored key, which changes nothing; otherwise exactly the pair is added and the buckets double when items exceed half of them |
| HashTable.HashTable.Remove | HashTable.h:94-111 | FAILURE exactly for an absent key; otherwise exactly its pair is dropped and the buckets halve when items fall below a quarter |
| HashTable.HashTable.ExtendArray | HashTable.h:123-145 | the bucket count doubles and the pairs are exactly kept |
| HashTable.HashTable.ShrinkArray | HashTable.h:148-170 | the bucket count halves and the pairs are exactly kept |

## Left out

- The golden-ratio `HashFunction` (HashTable.h:114-120) uses floating point. It is a parameter `hash` of the table, required to map each key into `[0, size)` (`HashInRange`). As written, a negative key gives a negative index; the model does not capture that.
- The `ceil`, `log2` and `pow` of `RankTree(n)` and `Tree(n)` (RankTree.h:1244-1256, Tree.h:1060-1072) become the integer level count `TreeLevel`, whose contract is that of the floating-point expression for `n >= 1`.
- Memory management is not modelled, because the model is garbage collected. This covers destructors, `DeleteTreeData`, `destroy2`, `removeDataPointer` and ownership of payloads.
- Printing is not modelled: `PrintTreeInOrderWithRanks`, `print`, `print2`, and the output of `RankSanity`.
- The rank equation that `RankSanity` checks is the predicate `RanksOk`.
- Parent pointers in RankTree.h and Tree.h are not stored. The model rebuilds subtrees as values, so `SwapNodesParent`, `updateRotatedRootParent` and the re-linking through parents are not modelled.
- Aliasing between nodes is not modelled. A node pointer handed back by `InsertGetBack` or `Find` is the subtree value at that node.
- In Test.h, `balance` calls `updateSmallest` after the walk (Test.h:502). The model calls `UpdateSmallest` once, after the walk that inserts or removes.
- `LoadSortedArray` runs `updateSmallest` before `setAllRanks` (Test.h:224-225). The model sets the ranks first, so that the smallest pointer names the node with its final rank.
- RankTree.RankTree.FindByRank, RankTreeSingle.RankTreeSingle.FindByRank and AvlRankTree.AVLRankTree.FindByRank require a rank between 1 and the node count. Their callers keep the rank in that range (library2.cpp:73 and MusicManager.cpp:194). Outside it the source does not check the rank. For some ranks and shapes it returns an arbitrary key: a node with no children answers its own key for any rank (RankTree.h:987-989, RankTreeSingle.h:560-562, Test.h:64-66), and a node with only a left child answers that child's key for any rank above 1 (RankTree.h:981-986, Test.h:58-63). For others it dereferences null: an empty root, or a rank carried down to a missing left child. The `KeyDoesNotExist` throw at Test.h:720-722 cannot be reached, because `getNodeByRank` never returns null.
- `AVLRankTree`'s rank is uninitialised until `setAllRanks` sets it, and Build leaves it at zero. A negative `length` for `LoadSortedArray` is excluded by its precondition.
- HashTable buckets are value sequences, not `List` objects, so the buckets share no nodes.
- `ExtendArray` and `ShrinkArray` always return true, so the FAILURE branches at HashTable.h:71-73 and 105-107 cannot be reached and are not modelled.
- HashTable.HashTable.FindNode answers the stored data (an `Option`) rather than a list node.
- HashTable.MoveEntries, HashTable.Rehash, HashTable.HashTable.ExtendArray and HashTable.HashTable.ShrinkArray state the rehashed contents as a multiset. The order inside a new bucket follows the head insertions but is not stated.
- RankTreeSingle.h code that nothing in the core calls is not modelled: `Rebalance` (RankTreeSingle.h:107-127) is called only from commented-out lines, the node's `Remove` (473-496) was replaced by `DeleteNode`, and `MarkRootDataAsNullptr` (756-758) refers to payloads these nodes do not have.
- The statements after the `return` in Test.h:581-597 are unreachable and not modelled.
- `RankTree(n)` (RankTree.h:1242-1264) and `FillRankTreeNodesWithArrData` (RankTree.h:1207-1214) are the functions RankTreeShape.SizedTree and RankTreeShape.FillData, not members of the `RankTree` class. The class has generic keys, while that constructor counts its keys up from `K()` as integers. Tree.h's `Tree(n)` is the constructor HeightTree.HeightTree.Sized.
- `getBalanceFactor`, `getBalance` and the child height and rank getters are the functions `Bf`, `H` and `R` (for Tree.h's nodes, `HeightTree.HH` and `HeightTree.HBf`). A null child counts 0.
- `RankSanityCheck`, `IsRootNull`, `MarkRootAsNullptr` and `GetRoot` are not modelled. They are accessors or debugging helpers.
- `getNext` is stated for search trees. Its loop compares keys to recognise a left child, so it relies on distinct keys.

## Findings

| source | as written | input that shows it | evidently intended | confidence | as-written member | corrected member |
|---|---|---|---|---|---|---|
| RankTree.h:1113-1120 | `root = root->Insert(key, data)` stores the null that a duplicate returns | insert the root's own key into a non-empty tree | a duplicate changes nothing, as documented | high, not executed | RankTree.TreeInsertAsWritten | RankTree.TreeInsert |
| Tree.h:929-936 | the same assignment of the duplicate's null to the root | insert the root's own key into a non-empty tree | a duplicate changes nothing | high, not executed | HeightTree.HTreeInsertAsWritten | HeightTree.HTreeInsert |
| RankTree.h:1131-1141 | `result` is passed by value to the node's Insert, so the caller's copy stays null | InsertGetBack of a new key into a non-empty tree | the new node is handed back | high, not executed | RankTree.TreeInsertGetBackAsWritten | RankTree.TreeInsertGetBack |
| Tree.h:947-957 | the same by-value `result` | InsertGetBack of a new key into a non-empty tree | the new node is handed back | high, not executed | HeightTree.HTreeInsertGetBackAsWritten | HeightTree.HTreeInsertGetBack |
| RankTree.h:497-522 | the predecessor is unlinked from the left subtree without rebalancing its spine | remove 10 from 10(5(3(2, 4), 7), 12(11, 13)): 5(3(2, 4), -) remains with balance factor 2 | every node on the path is rebalanced | medium, not executed | RankTree.PredecessorDeleteUnbalances | RankTree.NodeRemove |
| Tree.h:394-414 | the predecessor is unlinked without refreshing the heights on the left spine | remove c from c(a(-, b), d): leaf a keeps height 2 | heights are recomputed on the way up | medium, not executed | HeightTree.PredecessorDeleteLeavesStaleHeights | HeightTree.HNodeRemove |
| RankTreeSingle.h:315-324 | one-child deletion copies the child's key and frees it but keeps the pointer to it | delete a from a(-, b) | the child is spliced in | high, not executed | RankTreeSingle.OneChildDeleteKeepsStaleChild | RankTreeSingle.DeleteNode |
| Test.h:680-684 | with two children the height is the larger child height, without the 1 | LoadSortedArray of three pairs: the root has height 1 | 1 + the larger child height | high, not executed | AvlRankTree.ThreeKeysHeightAsWritten | AvlRankTree.BuildShape |
| Test.h:219-221 | the check throws only when a key is greater than the next, so equal keys pass | keys [a, a] | keys must strictly increase; this is inferred from the class's own invariants (search order, and findLeftest telling a left child by its key), not from a comment or a caller, so the model's LoadSortedArray rejects equal neighbouring keys that the source accepts | medium, not executed | AvlRankTree.DuplicateKeysAccepted | AvlRankTree.CheckSorted |
| Test.h:208-213 | Reset frees the nodes but leaves `smallest` pointing at the old minimum | Reset a non-empty tree, then getSmallest | `smallest` is cleared with the root | medium, not executed | AvlRankTree.AVLRankTree.ResetAsWritten | AvlRankTree.AVLRankTree.Reset |
