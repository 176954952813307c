# Running median over red-black trees — a Dafny model

The repository computes a running median over a stream of `a x` and `r x` commands. It has three parts:

- **`Median/main2.py`**: a CLRS-style red-black tree (`rbtree`) with one shared `nil` sentinel.
  On top of it, a tracker keeps a pointer `center` to the lower-middle node, the `size` and the current median `m`.
  The functions `add`, `remove` and `median` update these as keys come and go.
- **`Median/main1.py`**: the naive version. It keeps a Python list sorted with `bisect`.
  This model uses it as the reference that the tracker must agree with.
- **`Median/main.py`**: a second, Wikipedia-style red-black tree (`RBTree`).
  Its leaves are per-position `RBLeaf` objects. It offers `insert`, `find`, `remove` and `verify`.

The model is functional:

- A tree is `Tree = Nil | Node(color, left, key, right)`. `Nil` stands both for main2's `nil` sentinel and for main.py's `RBLeaf`s.
- A reference to a node (a parent pointer, `center`, the argument of `remove`) is a zipper `Zip(focus, path)`.
  The path lists the ancestors' frames, innermost first. Parent links are structural, so they can never be inconsistent.
- The tracker's `center` is a rank into the in-order keys.
- `m` is an exact `real`; Python computes it in floating point.
- Operations that can raise return `Result<T>`, with `ValueError`, `AttributeError` or `AssertionError`.

Modules:

- `Outcomes`: the `Result` and `Option` wrappers.
- `SortedSeq`: sorted integer sequences, and removing or inserting at an index.
- `BisectMedian`: main1.py.
- `RbCore`: trees, black height, the red-black invariant, rotations.
- `RbZipper` and `ZipperSplit`: paths, plugging a subtree back, and the in-order rank of a node.
- `ClrsNav`: `search`, `minimum`, `maximum`, `successor`, `predecessor` of main2.py.
- `ClrsInsert`: `insert_node` and `_insert_fixup`.
- `ClrsDelete`: `delete_node`, `_replaceNode` and the six deletion cases, corrected.
- `ClrsDeleteAsWritten`: the deletion cases exactly as main2.py writes them.
- `ClrsCheck`: `check_invariants`, as written and corrected.
- `MedianTracker`: main2.py's `add`, `remove` and `median`.
- `WikiTree`: main.py's `RBTree`, proved to agree with the CLRS operations on valid trees.

## Model

| member | source | states |
|---|---|---|
| BisectMedian.BisectLeft | Median/main1.py:5 | the index returned has every element before it below `x` and every element from it on at least `x` |
| BisectMedian.BisectLeftIn | Median/main1.py:5 | halving the window keeps every element left of it below `x` and every element right of it at least `x`, so the index it ends on is the one BisectLeft characterises |
| BisectMedian.Index | Median/main1.py:3-8 | succeeds exactly when `x` occurs, returning its leftmost position; otherwise raises `ValueError` |
| BisectMedian.Add | Median/main1.py:33-39 | the list stays sorted and gains exactly one occurrence of `e` |
| BisectMedian.FirstIndex | Median/main1.py:41-42 | the position `list.remove` deletes holds `e` and no earlier position does |
| BisectMedian.Remove | Median/main1.py:41-42 | raises `ValueError` exactly when `e` is absent; otherwise exactly one occurrence of `e` is dropped and sortedness is kept |
| BisectMedian.Median | Median/main1.py:44-52 | raises `ValueError` exactly on an empty list |
| BisectMedian.MedianSplits | Median/main1.py:49-52 | the median lies between the two middle elements; the lower half is at or below it and the upper half at or above it |
| BisectMedian.MedianValue | Median/main1.py:49-52 | the arithmetic of `median`; MedianSplits places its value between the two middle elements and RenderMedian shows it is whole or an integer plus one half |
| BisectMedian.Render | Median/main1.py:54-57 | a value is shown as an integer exactly when it has no fractional part, and the shown value equals it |
| BisectMedian.RenderMedian | Median/main1.py:49-57 | a median of integers that is not whole is exactly an integer plus one half |
| RbCore.RotateLeft | Median/main2.py:161-175 | the in-order keys are unchanged; the right child becomes the subtree root, with the rotated node as its left child |
| RbCore.RotateRight | Median/main2.py:178-192 | the in-order keys are unchanged; the left child becomes the subtree root, with the rotated node as its right child |
| RbCore.RotationsInverse | Median/main2.py:161-192 | a left rotation and a right rotation undo each other |
| ClrsNav.SearchIn | Median/main2.py:61-74 | a node found carries the key and lies in the same tree; in a search tree nothing is found exactly when the key is absent |
| ClrsNav.Search | Median/main2.py:61-74 | search from the root finds a node with key `k` exactly when `k` is in a sorted tree |
| ClrsNav.Minimum | Median/main2.py:77-85 | the node reached has no left child and holds the first key of the subtree, at the subtree's first rank |
| ClrsNav.Maximum | Median/main2.py:88-96 | the node reached has no right child and holds the last key of the subtree, at the subtree's last rank |
| ClrsNav.ClimbToLeftChild | Median/main2.py:426-435 | climbing to the first ancestor entered from the left finds the next rank, and finds none exactly when nothing follows |
| ClrsNav.ClimbToRightChild | Median/main2.py:444-453 | climbing to the first ancestor entered from the right finds the previous rank, and finds none exactly when nothing precedes |
| ClrsNav.Successor | Median/main2.py:419-435 | the successor is the node of in-order rank one higher, absent exactly at the last rank |
| ClrsNav.Predecessor | Median/main2.py:437-453 | the predecessor is the node of in-order rank one lower, absent exactly at rank 0 |
| ClrsNav.Locate | Median/main2.py:553-562 | the node reached from a rank `i` lies in the same tree at exactly rank `i`; it turns the tracker's center rank back into the node `remove` deletes |
| ClrsInsert.DescendFacts | Median/main2.py:104-124 | the descent path plugs back to the original tree, and every key it passes on the left is at most `k` and every key on the right is above it |
| ClrsInsert.Descend | Median/main2.py:106-113 | the descent loop; DescendFacts states where it ends and the order of the keys it passes |
| ClrsInsert.InsertRank | Median/main2.py:106-121 | the rank the new node takes; InsertKeys states it follows every key `<= k` and precedes every larger one |
| ClrsInsert.InsertFixupKeys | Median/main2.py:127-158 | the fixup's recolourings and rotations keep the in-order keys |
| ClrsInsert.InsertFixup | Median/main2.py:127-158 | the fixup loop; InsertFixupKeys states that it keeps the keys and InsertFixupRb that it restores the colours |
| ClrsInsert.Case1 | Median/main2.py:132-136 | the red-uncle recolouring; Case1Rb states its effect on the colours |
| ClrsInsert.Case23 | Median/main2.py:137-157 | the black-uncle rotations; Case23Rb states their effect on the colours |
| ClrsInsert.Case1Rb | Median/main2.py:132-136 | the red-uncle recolouring yields a red, locally valid subtree one black level higher |
| ClrsInsert.Case23Rb | Median/main2.py:137-157 | the black-uncle rotations yield a valid subtree with a black root |
| ClrsInsert.InsertFixupRb | Median/main2.py:127-158 | a red node under a red parent, with otherwise valid colours, is fixed into a valid tree |
| ClrsInsert.InsertKeys | Median/main2.py:104-124 | insertion places `k` after every key `<= k` and before every larger key, so the tree stays sorted |
| ClrsInsert.InsertRedBlack | Median/main2.py:99-158 | inserting into a red-black tree yields a red-black tree |
| ClrsInsert.Insert | Median/main2.py:99-124 | `insert_key`; InsertKeys states where the key lands and InsertRedBlack that the tree stays red-black |
| ClrsCheck.NodeCheckAsWritten | Median/main2.py:198-235 | the node check succeeds exactly when every node has two real children or none and every red node has two black real children; the black count it returns is always 0, so black heights are never compared |
| ClrsCheck.CheckInvariantsAsWritten | Median/main2.py:237-238 | the node check at the root plus a black root; by NodeCheckAsWritten it accepts trees whatever their black heights |
| ClrsCheck.AsWrittenRejectsValid | Median/main2.py:201-202 | a valid tree whose root has one real child is rejected |
| ClrsCheck.AsWrittenRejectsRedLeaves | Median/main2.py:205-206 | the valid tree with red children 1 and 3 under black 2 is rejected |
| ClrsCheck.AsWrittenAcceptsUnbalanced | Median/main2.py:213-238 | an all-black tree with unequal black heights is accepted |
| ClrsCheck.NodeCheck | Median/main2.py:198-235 | the node check succeeds exactly on locally valid subtrees, and then returns their black height |
| ClrsCheck.CheckInvariants | Median/main2.py:195-238 | the corrected check accepts exactly the red-black trees |
| ClrsDelete.RedSiblingPath | Median/main2.py:324-330 | the rotation at the parent puts a red parent below a black former sibling and leaves the higher ancestors unchanged |
| ClrsDelete.RedSiblingKeys | Median/main2.py:324-330 | the recolouring and rotation of case 2 keep the in-order keys |
| ClrsDelete.Case1Keys | Median/main2.py:308-316 | the deletion fixup, started at case 1, keeps the in-order keys |
| ClrsDelete.Case2Keys | Median/main2.py:318-331 | case 2 keeps the in-order keys |
| ClrsDelete.Case3Keys | Median/main2.py:333-345 | case 3 keeps the in-order keys |
| ClrsDelete.Case4Keys | Median/main2.py:347-357 | case 4 keeps the in-order keys |
| ClrsDelete.Case5Keys | Median/main2.py:359-384 | case 5 keeps the in-order keys |
| ClrsDelete.Case6Keys | Median/main2.py:386-410 | case 6 keeps the in-order keys |
| ClrsDelete.Case1Root | Median/main2.py:308-316 | from a black root, the fixup leaves a black root |
| ClrsDelete.Case3Root | Median/main2.py:333-345 | from a black root, cases 3 onwards leave a black root |
| ClrsDelete.Case4Root | Median/main2.py:347-384 | from a black root, cases 4 and 5 leave a black root |
| ClrsDelete.Case6Root | Median/main2.py:386-410 | from a black root, case 6 leaves a black root |
| ClrsDelete.ReddenBlack | Median/main2.py:341-342 | painting a valid black sibling red keeps it valid and lowers its black height by one |
| ClrsDelete.Case2Inv | Median/main2.py:318-331 | after case 2 the sibling is black and the one-black-short invariant still holds |
| ClrsDelete.Case3Inv | Median/main2.py:333-343 | painting the sibling red moves the one-black-short deficit up to the parent |
| ClrsDelete.Case1Rb | Median/main2.py:308-316 | a subtree one black short, under otherwise valid ancestors, is fixed into a valid tree |
| ClrsDelete.Case2Rb | Median/main2.py:318-331 | case 2 followed by the later cases yields a valid tree |
| ClrsDelete.Case3Rb | Median/main2.py:333-345 | case 3 and its recursion or fall-through yield a valid tree |
| ClrsDelete.Case4Rb | Median/main2.py:347-357 | case 4 yields a valid tree |
| ClrsDelete.Case5Rb | Median/main2.py:359-384 | case 5 followed by case 6 yields a valid tree |
| ClrsDelete.Case6Rb | Median/main2.py:386-410 | case 6 yields a valid tree |
| ClrsDelete.DeleteCase1 | Median/main2.py:308-316 | case 1; Case1Keys, Case1Root and Case1Rb state what it keeps and repairs |
| ClrsDelete.DeleteCase2 | Median/main2.py:318-331 | case 2; Case2Keys, Case2Inv and Case2Rb state what it keeps and repairs |
| ClrsDelete.DeleteCase3 | Median/main2.py:333-345 | case 3; Case3Keys, Case3Root, Case3Inv and Case3Rb state what it keeps and repairs |
| ClrsDelete.DeleteCase4 | Median/main2.py:347-357 | case 4; Case4Keys, Case4Root and Case4Rb state what it keeps and repairs |
| ClrsDelete.DeleteCase5 | Median/main2.py:359-384 | case 5; Case5Keys and Case5Rb state what it keeps and repairs |
| ClrsDelete.DeleteCase6 | Median/main2.py:386-410 | case 6; Case6Keys, Case6Root and Case6Rb state what it keeps and repairs |
| ClrsDelete.SpliceChildKeys | Median/main2.py:284-287 | putting the only child in the removed node's place keeps every key except the removed node's |
| ClrsDelete.SpliceKeys | Median/main2.py:282-306 | splicing out a node with at most one child keeps every other key in order |
| ClrsDelete.RemoveNodeKeys | Median/main2.py:282-306 | splicing out a node removes exactly its key, at its rank |
| ClrsDelete.RemoveNode | Median/main2.py:282-306 | the splice with its fixup; RemoveNodeKeys and RemoveNodeRb state its keys and colours |
| ClrsDelete.MaximumKeys | Median/main2.py:277-280 | the maximum of the left subtree is its last key, found at the end of its rightmost path |
| ClrsDelete.DeleteTwoKeys | Median/main2.py:277-292 | replacing a two-child node's key with its predecessor's, then splicing out the predecessor, removes exactly that node's key |
| ClrsDelete.DeleteKeys | Median/main2.py:268-306 | deleting a node removes exactly the key at that node's rank |
| ClrsDelete.DeleteNode | Median/main2.py:268-306 | `delete_node`; DeleteKeys, DeleteRedBlack and DeleteObjects state its keys, its colours and the node object it unlinks |
| ClrsDelete.UnlinkedRank | Median/main2.py:277-280 | the node object `delete_node` unlinks: the predecessor of a node with two real children, else the node; see DeleteObjects |
| ClrsDelete.DeleteObjects | Median/main2.py:277-306 | the keys left in the tree are exactly those held by every node object except the unlinked one, in their old order, the node with two children now holding its predecessor's key |
| ClrsDelete.RemoveNodeRb | Median/main2.py:282-296 | splicing out a node with at most one child and running the fixup yields a red-black tree |
| ClrsDelete.RekeyRb | Median/main2.py:279 | overwriting a node's key does not affect the colour invariant |
| ClrsDelete.DeleteRedBlack | Median/main2.py:268-296 | deleting any node of a red-black tree yields a red-black tree |
| ClrsDelete.DeleteKey | Median/main2.py:254-266 | reports absence exactly when the key is not in the sorted tree |
| ClrsDelete.DeleteKeyCorrect | Median/main2.py:254-266 | deleting a present key leaves a sorted red-black tree with one fewer occurrence of the key |
| ClrsDeleteAsWritten.DeleteRedSiblingRaises | Median/main2.py:324-325 | deleting 1 from a valid tree whose node 1 has a red sibling raises `AttributeError` as written; the corrected deletion yields a red-black tree |
| ClrsDeleteAsWritten.DeletePerfectFails | Median/main2.py:341-410 | deleting 1 from the perfect all-black tree on 1..7 fails case 6's assertion as written; the corrected deletion yields a red-black tree |
| ClrsDeleteAsWritten.Case1AsWritten | Median/main2.py:308-316 | case 1 as written; the failures of the chain are exhibited by DeleteRedSiblingRaises and DeletePerfectFails |
| ClrsDeleteAsWritten.Case2AsWritten | Median/main2.py:318-331 | a red sibling raises `AttributeError` at line 325; see DeleteRedSiblingRaises |
| ClrsDeleteAsWritten.Case3AsWritten | Median/main2.py:333-345 | fires only when the sibling has no real children; see DeletePerfectFails |
| ClrsDeleteAsWritten.Case4AsWritten | Median/main2.py:347-357 | case 4 as written, including `tmp.left.red` on the sentinel sibling |
| ClrsDeleteAsWritten.Case5AsWritten | Median/main2.py:359-384 | fires when the near child is a real node and the far child is the sentinel |
| ClrsDeleteAsWritten.Case6AsWritten | Median/main2.py:386-410 | fails the assertion at line 404 or 408 when the far child is black; see DeletePerfectFails |
| ClrsDeleteAsWritten.RemoveNodeAsWritten | Median/main2.py:282-296 | the splice with the as-written fixup |
| ClrsDeleteAsWritten.DeleteNodeAsWritten | Median/main2.py:268-296 | `delete_node` as written; DeleteRedSiblingRaises and DeletePerfectFails exhibit valid trees on which it fails |
| MedianTracker.Empty | Median/main2.py:516-519 | the start state satisfies the tracker invariant, with no keys |
| MedianTracker.Valid | Median/main2.py:516-546 | the invariant the updates keep: a red-black search tree of `size` keys, with center the lower middle and `m` the median; see Add, Remove, AddAgrees, RemoveAgrees |
| MedianTracker.AddStep | Median/main2.py:530-546 | the four branches of `add`; AddMoves states what they yield |
| MedianTracker.AddSide | Median/main2.py:530 | `e >= center.key` holds exactly when the new key is placed after the center's rank |
| MedianTracker.AddMoves | Median/main2.py:530-546 | the four branches of `add` yield the new lower middle and the new median |
| MedianTracker.RemoveStep | Median/main2.py:572-590 | the four branches of `remove` for a key other than the center's; RemoveMoves states what they yield |
| MedianTracker.Add | Median/main2.py:521-546 | `add` keeps the invariant (center at the lower middle and `m` the median), grows `size` by one and adds one occurrence of `e` |
| MedianTracker.RemoveMoves | Median/main2.py:572-590 | for a key other than the center's, the four branches of `remove` yield the new lower middle and the new median |
| MedianTracker.CenterRank | Median/main2.py:563-567 | the rank the center branch moves to; DropCenter states it is the new lower middle |
| MedianTracker.DropCenter | Median/main2.py:563-570 | removing the center itself re-centers on the lower middle but leaves `m` unchanged |
| MedianTracker.DropOther | Median/main2.py:572-590 | removing another key keeps the invariant and removes one occurrence of it |
| MedianTracker.RemoveKeepingM | Median/main2.py:548-590 | `remove` with main2.py's branches, including the center branch that keeps `m`, over the corrected deletion: raises `ValueError` exactly on an empty tracker or an absent key; otherwise one occurrence is removed and the keys stay sorted |
| MedianTracker.Refresh | Median/main2.py:563-570 | recomputing `m` from the new center restores the invariant |
| MedianTracker.Remove | Median/main2.py:548-590 | corrected `remove`: same errors, and on success the invariant holds with one occurrence of `e` fewer |
| MedianTracker.Median | Median/main2.py:592-600 | raises `ValueError` exactly on an empty tracker |
| MedianTracker.AddAgrees | Median/main2.py:521-546 | after `add`, the tree's keys are the sorted list main1.py builds, and `m` is main1.py's median |
| MedianTracker.RemoveAgrees | Median/main2.py:548-590 | `remove` fails exactly when main1.py's does, leaves the same keys, and `m` is main1.py's median |
| MedianTracker.MedianAgrees | Median/main2.py:592-600 | `median()` shows exactly what main1.py's `median()` shows for the same keys |
| MedianTracker.RemoveCenterKeepsM | Median/main2.py:563-570 | removing the center's own key drops exactly that key and leaves `m` unchanged |
| MedianTracker.RemoveCenterStale | Median/main2.py:563-570 | in a tracker holding 1, 2, 4, removing 2 leaves keys [1, 4] yet `m` stays 2, breaking the invariant |
| MedianTracker.ThreeKeys | Median/main2.py:521-546 | the tracker after adding 1, 2, 4 is valid, with center 2 and `m = 2` |
| MedianTracker.CenterUnlinked | Median/main2.py:563-568 | when the center has two real children and the size becomes even, the `predecessor(center)` installed as the new center is the node object `delete_node` unlinks, and its key lives on in the old center object |
| MedianTracker.ThreeKeysUnlinksCenter | Median/main2.py:521-568 | after adding 1, 2, 4, removing 2 leaves the source's center on the unlinked node that held 1 |
| WikiTree.Parent | Median/main.py:44-47 | a parent exists exactly off the root, is a node of the same tree, and is one level up |
| WikiTree.Sibling | Median/main.py:49-54 | a sibling exists exactly off the root, lies in the same tree and has the same parent |
| WikiTree.SiblingTwice | Median/main.py:49-54 | the sibling of the sibling is the node itself |
| WikiTree.Grandparent | Median/main.py:44-47 | a grandparent exists exactly two or more levels down, and is two levels up |
| WikiTree.Uncle | Median/main.py:56-59 | an uncle exists exactly two or more levels down, and its parent is the grandparent |
| WikiTree.Descent | Median/main.py:188-206 | the descent can fail only with `ValueError` |
| WikiTree.DescentAgrees | Median/main.py:188-206 | the descent fails exactly on a key already in a sorted tree; otherwise it reaches the slot CLRS insertion uses |
| WikiTree.Rebalance | Median/main.py:208-250 | the loop can fail only with `AttributeError` |
| WikiTree.Case23Black | Median/main.py:240-250 | the black-uncle rotation leaves a black subtree root |
| WikiTree.RebalanceAgrees | Median/main.py:208-250 | under a black root the loop computes the CLRS fixup followed by blackening the root |
| WikiTree.Insert | Median/main.py:180-206 | inserting a key already in a sorted tree raises `ValueError`; no error other than `ValueError` or `AttributeError` arises |
| WikiTree.InsertAgrees | Median/main.py:180-252 | with a black root, insertion raises `ValueError` on a duplicate and otherwise equals CLRS insertion |
| WikiTree.InsertCorrect | Median/main.py:180-252 | inserting a new key into a red-black tree succeeds, gives a red-black tree and places the key in sorted position |
| WikiTree.FindIn | Median/main.py:255-267 | a node found carries the key and lies in the same tree |
| WikiTree.FindIsSearch | Median/main.py:255-267 | `find` returns the same node as main2.py's `search` |
| WikiTree.Find | Median/main.py:255-267 | in a sorted tree `find` returns nothing exactly when the key is absent |
| WikiTree.Moved | Median/main.py:127-147 | the child moved up keeps its colour and key, and takes over the removed node's leaf children |
| WikiTree.MovedChild | Median/main.py:141-147 | in a valid tree the moved child equals the plain child |
| WikiTree.RemoveLoop | Median/main.py:297-365 | the rebalancing loop can fail only with `AttributeError` |
| WikiTree.Settle | Median/main.py:321-365 | cases 3 to 6 can fail only with `AttributeError` |
| WikiTree.Unlink | Median/main.py:281-365 | unlinking can fail only with `AttributeError` |
| WikiTree.Remove | Median/main.py:269-365 | removal can fail only with `AttributeError` |
| WikiTree.LoopAgrees | Median/main.py:297-365 | on a subtree one black short, the loop computes the CLRS deletion fixup |
| WikiTree.SettleAgrees | Median/main.py:321-365 | with a black sibling, cases 3 to 6 compute the CLRS cases 3 to 6 |
| WikiTree.UnlinkRed | Median/main.py:287-289 | removing a red node just splices in its child and keeps the tree red-black |
| WikiTree.UnlinkRedChild | Median/main.py:291-295 | a black node with a red child: blackening the child keeps the tree red-black |
| WikiTree.UnlinkBlack | Median/main.py:297-365 | a black node with a black child: the loop equals the CLRS fixup and keeps the tree red-black |
| WikiTree.UnlinkCorrect | Median/main.py:281-365 | unlinking a node with at most one child succeeds, keeps the tree red-black and drops exactly its key |
| WikiTree.RemoveTwoCorrect | Median/main.py:272-279 | a node with two children takes over the largest key on its left and yields the same keys as CLRS deletion |
| WikiTree.RemoveCorrect | Median/main.py:269-365 | removing any node of a red-black tree succeeds, gives a red-black tree and removes exactly the key at its rank |
| WikiTree.Inorder | Median/main.py:149-167 | the walk visits `2n+1` positions for `n` keys, starting at a leaf |
| WikiTree.InorderKeys | Median/main.py:149-167 | the nodes the walk visits carry exactly the in-order keys |
| WikiTree.AllOkAppend | Median/main.py:381-416 | the per-position checks of a walk split over concatenation, in both directions |
| WikiTree.CheckWalkFixed | Median/main.py:381-416 | once a black count is recorded, the walk succeeds exactly when every position passes |
| WikiTree.InorderOk | Median/main.py:381-416 | every position of a subtree's walk passes exactly when the subtree is valid and the recorded count matches its leaves |
| WikiTree.CheckWalk | Median/main.py:381-416 | the loop of `verify`; CheckWalkFixed and InorderOk state when it passes |
| WikiTree.VerifyCorrect | Median/main.py:369-417 | `verify` accepts exactly the red-black trees |
| WikiTree.Verify | Median/main.py:369-417 | `verify`; VerifyCorrect states that it accepts exactly the red-black trees |

## Left out

- Input and output: reading the command stream, printing `Wrong!`, `print_tree` and the commented-out dot writer. `median` returns the value it would print, as `Shown`.
- The smoke inserts and test driver at module level in each script.
- The `ops` counters that `insert`, `find` and `remove` of main.py return. They only count loop iterations.
- main.py's own tracker (`Median/main.py:419-581`). It calls tree methods that `RBTree` does not have, so it cannot run. Its module-level `successor` and `predecessor` are left out with it; main2.py's versions are modelled.
- The nested `delete_key` at `Median/main2.py:240-252`. It is dead code, shadowed by the method that follows it.
- Floating point: `m` and the median are exact reals. Floating-point rounding of large keys is not modelled.
- Object identity. main2.py's tracker compares `id(node_to_delete) == id(center)`. In the model `center` is a rank, and the center branch is taken when the key equals the center's key. `delete_node` on a node with two children moves the predecessor's key into the node and unlinks the predecessor node (ClrsDelete.DeleteObjects). The source's `center` can then be a node that is no longer in the tree, whose stale parent link `successor`, `predecessor` and `_replaceNode` go on to follow (see Findings). The model's rank never goes stale, so it follows the corrected behaviour:
- MedianTracker.DropCenter: when the center has two real children and the size becomes even, the source installs the unlinked predecessor node as the center (MedianTracker.CenterUnlinked); the model moves to the lower middle of the remaining keys instead. Later operations in the source then diverge from it, for example by cutting a subtree off the tree.
- MedianTracker.DropOther: when the deleted node has two real children and its predecessor is the center node, the source's center becomes the unlinked node, whose `successor` and `predecessor` read stale links; the model steps its rank instead. For example, add 3, 1, 4, 2, remove 3, add 5 leaves the source's `m` at 2 where the median 3 is meant.
- MedianTracker.RemoveKeepingM: deletes with the corrected ClrsDelete.DeleteNode over a rank center. So it neither raises the deletion's `AttributeError` and `AssertionError` (Findings) nor loses keys after an unlinked center; only the stale `m` of the center branch is kept from the source.
- Parent pointers. Both trees keep them; the zipper makes them structural. So the parent-link checks of `check_invariants` and `verify` always pass and are not modelled.
- The re-rooting in main.py's rotations is not modelled. It is implicit in plugging a path back.
- Ordering in `delete_node`. main2.py runs the fixup on the node before `_replaceNode` splices it out; the model splices first and then fixes up from the child's position. The cases never read the removed node's own colour or children, so the results agree.
- Empty trees. main.py's `verify` on a `None` root, and `insert` after a tree has been emptied to a bare `RBLeaf` root, both raise `AttributeError`. The model treats both empty states as `Nil`.
- The red-leaf branch of main.py's `verify`. It is unreachable, because leaves are never red; `Verify` skips it.
- Two unreachable fallbacks, never taken in a valid tree:
  - the insert fixup's uncle lookup under a red root's child;
  - `DeleteCase6` with an empty sibling.
  They return the tree unchanged rather than raising.
- `RBNode(val, red=True)` construction with a caller-chosen colour is not modelled. `insert` recolours every node except a new root, which keeps its constructed colour (main.py:184-186); the model takes the constructor's default `red=False`, so a new root is black.
- `insert_key`'s node construction through a `create_node` factory is not modelled. The model builds a `Node` directly.
- MedianTracker.Median: proves only the error case in its own contract. That the value shown is the median is stated by `MedianTracker.MedianAgrees` together with the tracker invariant.
- WikiTree.Rebalance, WikiTree.RemoveLoop, WikiTree.Settle, WikiTree.Unlink, WikiTree.Remove: their own contracts bound only the error kind. Their results are characterised by the agreement lemmas, whose preconditions are the red-black invariant.

## Findings

| source | as written | input that shows it | evidently intended | confidence | as-written member | corrected member |
|---|---|---|---|---|---|---|
| Median/main2.py:563-570 | removing the center re-centers but returns without updating `m` | add 1, 2, 4, then remove 2: the keys are [1, 4] and `m` stays 2 | `m` recomputed from the new center, 2.5 here | not executed | MedianTracker.RemoveCenterStale | MedianTracker.Remove |
| Median/main2.py:564-568 | the center branch picks `predecessor(center)` before `delete_node(center)`; for a center with two children that predecessor is the node `delete_node` unlinks | add 1, 2, 4, remove 2, remove 1: the center is left on the unlinked node that held 1, whose stale parent link makes `successor` return nothing and `_replaceNode` cut 4 off the tree, leaving [1] where [4] is meant | the center is the node holding the lower middle key after the deletion | not executed | MedianTracker.CenterUnlinked | MedianTracker.Remove |
| Median/main2.py:325 | `n.p.red = True` assigns to a property that has no setter, which raises `AttributeError` | delete 1 from black 2 over black 1 and red 4 (black 3 and 5 below it) | set the parent's `_red` | not executed | ClrsDeleteAsWritten.DeleteRedSiblingRaises | ClrsDelete.DeleteRedBlack |
| Median/main2.py:341 | cases 3 and 5 test whether the sibling's children exist (`not tmp.left`) where their colour is meant | delete 1 from the perfect all-black tree on 1..7: case 6's assertion fails | test `tmp.left.red` / `tmp.right.red` | not executed | ClrsDeleteAsWritten.DeletePerfectFails | ClrsDelete.DeleteRedBlack |
| Median/main2.py:198-238 | `is_red_black_node` never counts black nodes and treats `nil` children as missing | rejects black 1 with red right child 2; accepts an all-black tree with black heights 2 and 1 | accept exactly the red-black trees | not executed | ClrsCheck.AsWrittenAcceptsUnbalanced | ClrsCheck.CheckInvariants |
