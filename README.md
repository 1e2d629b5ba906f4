# A B-tree with contracts, modelled in Dafny

This project models an in-memory B-tree of minimum degree `t`, in the
textbook (CLRS chapter 18) style, over integer keys. It has:

- search;
- top-down insertion that splits a full node before entering it;
- single-pass deletion that fills a child before entering it (borrow from
  the left, else borrow from the right, else merge right, else merge left);
- the contract layer: pre-conditions on insert and delete, post-conditions
  on structure and height, and the class invariant (keys sorted inside every
  node, separators bounding their subtrees, all leaves at one depth, key and
  child counts within bounds).

A second, single-file variant of the same tree simulates its
post-conditions through the class invariant.

The model has these parts:

- A node is a value, `BTreeNodes.Node(leaf, keys, children)`.
- The in-place list edits of a node become functions that return the edited node:
  - split (`BTreeInsert.SplitChild`);
  - merge, borrow-from-previous and borrow-from-next (`BTreeMoves`);
  - fill (`BTreeMoves.FillChild`);
  - the recursive insert and delete (`BTreeInsert.InsertNonFull`, `BTreeDelete.DeleteRec`).
- The tree object, whose root the mutators reassign, is the class
  `BTrees.BTree`. The variant is the class `Trabalho.TrabalhoTree`, with its
  two bookkeeping fields.
- The shifting loop of a leaf insert is a method over an array (`BTreeInsert.MakeRoom`).
- The scan loops of search and insert are methods with loop invariants.
- Every proof goes through one abstract view, `BTreeShape.InOrder`: the keys
  of a subtree in left-to-right order.
  - `BTreeShape.ValidTree` is the invariant the operations keep.
  - Insert makes `InOrder` gain the key at its sorted place.
  - Delete makes `InOrder` lose the key.
- The executable checks of the contract layer (`BTreeChecks`, `ContractsHelpers`)
  are proved to hold on every valid tree. Conversely, they imply validity
  once the keys are distinct.
- `Scenarios` replays the shape and refusal tests of the repository on the
  class: the exact shapes at `t = 2` and `t = 3`, the refused duplicate
  insert and the refused delete of a missing key. For the corrupted-state
  tests it shows, on the node values, that the checks reject those states.

Refusals become results instead of exceptions. A refused pre-condition
returns `Fail(DuplicateKey)` or `Fail(KeyNotFound)` and leaves the tree
unchanged. `t < 2` at construction returns `Fail(InvalidOrder)`.

## Model

| member | source | states |
|---|---|---|
| BTreeNodes.NewNode | b_tree_node.py:10-12 | a new node has no keys and no children, and its leaf flag is the argument (default false) |
| ContractsHelpers.CheckKeysSorted | contracts_helpers.py:17-19 | true exactly when the keys are non-decreasing |
| ContractsHelpers.NeighboursOrderAll | contracts_helpers.py:17-19 | comparing each key with its right neighbour is enough for the whole list to be non-decreasing |
| BTreeSearch.FindIndex | b_tree.py:88-89 | the scan stops at the first key not smaller than k: every earlier key is smaller, and the key there (if any) is at least k |
| BTreeSearch.ScanKeys | b_tree.py:88-89 | the while loop returns the index FindIndex specifies |
| BTreeSearch.SearchRecursive | b_tree.py:87-92 | a result (x, i) always has x.keys[i] == k |
| BTreeSearch.SearchFindsExactly | b_tree.py:84-92 | on a sorted well-formed subtree, search finds a node exactly when k is one of its keys |
| BTreeSearch.SearchNode | b_tree.py:87-92 | the looping search returns the value of the recursive search |
| BTrees.BTree.Search | b_tree.py:84-85 | returns the recursive search from the root; a hit exactly when k is stored |
| BTrees.BTree.constructor | b_tree.py:9-11 | a fresh tree is valid and has an empty leaf root |
| BTrees.BTree.Create | b_tree.py:9-11 | t < 2 is refused with InvalidOrder; otherwise a valid empty tree of height 0 |
| BTrees.BTree.GetHeight | b_tree.py:191-197 | 0 for a leaf root, else the length of the walk down the first children: the tree's height |
| BTreeShape.WalkHeight | b_tree.py:193-197 | the walk down the first children returns Height |
| BTreeShape.SameHeightSameLeaf | b_tree.py:155-165 | two well-formed siblings of equal height are both leaves or both internal, so a borrow moves a child exactly when both are internal |
| BTreeInsert.ChildIndex | b_tree.py:100-102 | the descent index: every later key is larger than k, the key before it is at most k |
| BTreeInsert.ScanChildIndex | b_tree.py:100-102 | the backward scan returns ChildIndex |
| BTreeInsert.ShiftInsert | b_tree.py:96-99 | a leaf insert yields the old keys with k placed at ChildIndex |
| BTreeInsert.MakeRoom | b_tree.py:97-99 | the shifting while-loop over the array keeps the keys before ChildIndex and moves every later key one place right |
| BTreeInsert.ChildIndexUnique | b_tree.py:101-102 | any index with the descent bracket property is ChildIndex |
| BTreeInsert.SplitHalvesInOrder | b_tree.py:108-116 | the halves of a split full node and its median give back its in-order keys |
| BTreeInsert.SplitHalvesSub | b_tree.py:108-116 | both halves of a full well-formed node are valid non-root subtrees at the same height and leafness |
| BTreeInsert.SplitHalvesParts | b_tree.py:113-116 | left keys, median, right keys concatenate to the old keys; each half has t-1 keys; internal children split at index t |
| BTreeInsert.SplitChildSub | b_tree.py:108-116 | splitting a full child of a non-full node keeps the node well formed at the same height |
| BTreeInsert.SplitChildInOrder | b_tree.py:108-116 | a split leaves the in-order keys of the parent unchanged |
| BTreeInsert.SplitChildCorrect | b_tree.py:108-116 | the median moves into x.keys at i, both halves keep t-1 keys, children split at t, in-order keys unchanged, node valid at the same height |
| BTreeInsert.SplitChildHalves | b_tree.py:103-106 | after the split both candidate children are well formed, not full, and lower than x |
| BTreeInsert.DescendSub | b_tree.py:100-106 | the child the descent enters is never full, the parent stays well formed at the same height |
| BTreeInsert.DescendInOrder | b_tree.py:100-106 | the descent keeps in-order keys and picks the child whose separators bracket k |
| BTreeInsert.DescendSplitting | b_tree.py:103-105 | when the chosen child is full, splitting and the re-adjust by the median still bracket k |
| BTreeInsert.InsertNonFullSub | b_tree.py:94-106 | insert into a non-full node keeps it well formed, at the same height and leafness |
| BTreeInsert.InsertNonFullInOrder | b_tree.py:94-106 | insert into a non-full node makes its in-order keys the old ones with k at its sorted place |
| BTreeInsert.GrowRoot | b_tree.py:21-25 | a full root under a fresh root, once split, gives a valid root with one key, the same in-order keys and height one more |
| BTreeInsert.InsertTreeCorrect | b_tree.py:13-29 | inserting an absent key keeps the tree valid, adds k at its sorted place, and raises the height by one exactly when the root was full |
| BTrees.BTree.Insert | b_tree.py:13-29 | duplicate refused and tree unchanged; else k added with everything else kept, k found, checks pass, height +1 exactly when the root had 2t-1 keys; returns the recorded height and root size |
| BTreeMoves.MergeInOrder | b_tree.py:167-172 | a merge keeps the parent's in-order keys; the merged child holds the child, the separator and the sibling |
| BTreeMoves.MergedInOrder | b_tree.py:169-171 | appending separator, sibling keys and sibling children to a child concatenates their in-order keys |
| BTreeMoves.MergeSub | b_tree.py:167-172 | merging two minimal children leaves the parent well formed with one key fewer and a merged child of 2t-1 keys |
| BTreeMoves.BorrowPrevPieces | b_tree.py:155-159 | the borrow rotates exactly one key (and one child when internal) from the left sibling through the separator |
| BTreeMoves.BorrowPrevInOrder | b_tree.py:155-159 | borrowing from the left keeps the parent's in-order keys |
| BTreeMoves.BorrowPrevSub | b_tree.py:155-159 | borrowing from the left keeps the parent well formed; the child gains one key, the parent keeps its key count |
| BTreeMoves.BorrowNextPieces | b_tree.py:161-165 | the borrow rotates exactly one key (and one child when internal) from the right sibling through the separator |
| BTreeMoves.BorrowNextInOrder | b_tree.py:161-165 | borrowing from the right keeps the parent's in-order keys |
| BTreeMoves.BorrowNextSub | b_tree.py:161-165 | borrowing from the right keeps the parent well formed; the child gains one key |
| BTreeMoves.FillChildSub | b_tree.py:149-153 | after the fill the node is well formed, lost at most one key, and the child to enter has at least t keys; it falls left only when the last child merged left |
| BTreeMoves.FillChildInOrder | b_tree.py:149-153 | the fill keeps the in-order keys and keys around the child to enter only move into it |
| BTreeDelete.GetPredecessor | b_tree.py:174-176 | the walk down the last children returns the last in-order key of the subtree |
| BTreeDelete.GetSuccessor | b_tree.py:178-180 | the walk down the first children returns the first in-order key of the subtree |
| BTreeDelete.PredecessorIsMax | b_tree.py:174-176 | the predecessor is the maximum key of a sorted subtree |
| BTreeDelete.SuccessorIsMin | b_tree.py:178-180 | the successor is the minimum key of a sorted subtree |
| BTreeDelete.FindPredecessor | b_tree.py:174-176 | the while loop returns GetPredecessor |
| BTreeDelete.FindSuccessor | b_tree.py:178-180 | the while loop returns GetSuccessor |
| BTreeDelete.DescentIndex | b_tree.py:126-133 | the re-adjusted index is the child index, or one less only when it exceeds the key count |
| BTreeDelete.FillStep | b_tree.py:126-133 | after the fill the descent index is the merged-left index exactly when the last child merged left, and the child entered has at least t keys |
| BTreeDelete.GuardsAgree | trabalho.py:302-311 | the descent guard without the last-child test (the variant) deletes exactly as the one with it |
| BTreeDelete.DeleteRecSub | b_tree.py:118-133 | recursive delete keeps the subtree well formed at the same height and leafness, losing at most one root key |
| BTreeDelete.DeleteFromInternalSub | b_tree.py:135-147 | deleting a key held by an internal node keeps it well formed at the same height |
| BTreeDelete.PredecessorCase | b_tree.py:137-140 | replacing the key by its predecessor and deleting that from the left child removes exactly the key |
| BTreeDelete.SuccessorCase | b_tree.py:141-144 | replacing the key by its successor and deleting that from the right child removes exactly the key |
| BTreeDelete.MergeCase | b_tree.py:145-147 | merging both minimal children and deleting from the merged child removes exactly the key |
| BTreeDelete.DescentInOrder | b_tree.py:124-133 | when k is not in the node, fill and descent remove exactly k from the in-order keys |
| BTreeDelete.DeleteRecInOrder | b_tree.py:118-133 | recursive delete removes exactly k from the in-order keys (nothing when absent) |
| BTreeDelete.DeleteFromInternalInOrder | b_tree.py:135-147 | deleting the key at index i of an internal node removes exactly that key |
| BTreeDelete.DeleteTreeCorrect | b_tree.py:31-45 | delete keeps the tree valid, removes exactly k, and the height stays or drops by one, dropping only from an internal root with one key |
| BTrees.BTree.Delete | b_tree.py:31-45 | missing key refused and tree unchanged; else k removed with everything else kept, k not found, checks pass, height stays or drops by one only from an internal one-key root; returns the recorded state |
| BTrees.EmptyTree | b_tree.py:191-192 | a valid tree without keys is the empty leaf root of height 0 |
| BTreeChecks.GetAllKeysMultiset | b_tree.py:182-189 | the collected keys of a subtree are exactly its in-order keys as a multiset |
| BTreeChecks.AllKeysInOrder | b_tree.py:182-189 | the node-first traversal collects the same multiset as the in-order keys |
| BTreeChecks.LeafDepthsOfSub | b_tree.py:53-60 | in a well-formed subtree every leaf depth is its depth plus its height |
| BTreeChecks.CountsOfSub | contracts_helpers.py:4-15 | a well-formed subtree passes the key-count and child-count checks at every node |
| BTreeChecks.PropertiesOfSorted | b_tree.py:62-72 | a well-formed subtree with sorted in-order keys passes the node-property check |
| BTreeChecks.ValidTreePassesChecks | b_tree.py:47-82 | every valid tree passes the structural check and the invariant check |
| BTreeChecks.CountsGiveSub | contracts_helpers.py:4-15 | passing the count checks with all leaves at one depth makes the subtree well formed |
| BTreeChecks.PropertiesGiveOrder | b_tree.py:62-72 | passing the node-property check makes the in-order keys non-decreasing |
| BTreeChecks.ChecksGiveValidity | b_tree.py:47-82 | a tree passing both checks is well formed with non-decreasing keys, and valid when its keys are distinct |
| Scenarios.RepeatedKeyPassesChecks | contracts_helpers.py:17-19 | the non-strict sorted check lets a leaf root [5, 5] pass both checks although it is not a valid tree |
| Scenarios.UnsortedRootFails | test_b_tree.py:141-154 | a root whose keys are out of order fails the invariant check |
| Scenarios.MissingChildFails | test_b_tree.py:156-168 | the t = 3 tree with its first child removed fails both checks |
| Scenarios.InsertLargestIntoLeaf | b_tree.py:96-99 | inserting a key larger than all keys of a non-full leaf root appends it |
| Scenarios.DeleteFirstFromLeaf | b_tree.py:121-122 | deleting the first key of a leaf root drops it |
| Scenarios.SixthInsertSplitsRoot | test_b_tree.py:65-75 | at t = 3 inserting 60 into the leaf [10..50] yields root [30] over [10, 20] and [40, 50, 60] |
| Scenarios.InsertSplitsThenAppends | test_b_tree.py:105 | at t = 2 inserting 40 into the leaf [10, 20, 30] yields root [20] over [10] and [30, 40] |
| Scenarios.InsertSplitsThenShifts | test_b_tree.py:91 | at t = 2 inserting 30 into the leaf [10, 20, 40] yields the same tree |
| Scenarios.DeleteWithoutFill | test_b_tree.py:93-94 | deleting 40 from that tree leaves root [20] over [10] and [30] |
| Scenarios.DeleteBorrowsFromNext | test_b_tree.py:100-112 | deleting 10 from that tree borrows from the right: root [30] over [20] and [40], height kept |
| Scenarios.DeleteMergesIntoRoot | test_b_tree.py:95-98 | deleting 10 from root [20] over [10] and [30] merges into the leaf root [20, 30] and lowers the height |
| Scenarios.InsertThenSearch | test_b_tree.py:20-26 | an inserted key is found |
| Scenarios.DuplicateInsertRefused | test_b_tree.py:28-35 | the second insert of a key is refused with DuplicateKey |
| Scenarios.DeleteThenSearch | test_b_tree.py:37-44 | a deleted key is no longer found |
| Scenarios.DeleteAbsentRefused | test_b_tree.py:46-53 | deleting a key not stored is refused with KeyNotFound |
| Scenarios.SixthInsertRaisesHeight | test_b_tree.py:58-75 | on the class at t = 3: height 0 after five inserts, 1 after the sixth, root keys [30] |
| Scenarios.TwoInsertsKeepHeight | test_b_tree.py:77-84 | two inserts at t = 3 keep height 0 |
| Scenarios.MergeLowersHeight | test_b_tree.py:86-98 | on the class at t = 2: height 1 after deleting 40, then 0 with root keys [20, 30] after deleting 10 |
| Scenarios.BorrowKeepsHeight | test_b_tree.py:100-112 | on the class at t = 2: height 1 before and after deleting 10, root keys [30] |
| Scenarios.DeleteEverything | test_b_tree.py:187-198 | deleting every key leaves an empty leaf root of height 0 |
| Scenarios.MixedScenario | test_b_tree.py:170-185 | after the mixed inserts and deletes 30 is found and 50 is not |
| Trabalho.TrabalhoTree.constructor | trabalho.py:73-89 | a fresh tree is valid with an empty leaf root and no operation recorded |
| Trabalho.TrabalhoTree.Create | trabalho.py:83-84 | t < 2 is refused with InvalidOrder |
| Trabalho.TrabalhoTree.CheckPostconditionHack | trabalho.py:91-112 | returns the (corrected) simulated post-condition for the recorded operation and clears the record |
| Trabalho.TrabalhoTree.CheckInvariant | trabalho.py:61-64 | the invariant check passes on every valid tree, so its verdict is the simulated post-condition's |
| Trabalho.TrabalhoTree.Insert | trabalho.py:114-136 | duplicate refused with nothing changed; else k added at its sorted place, the operation and its prior height and root size recorded, structural check passes |
| Trabalho.TrabalhoTree.Delete | trabalho.py:138-160 | missing key refused with nothing changed; else k removed, the operation and its prior height, root size and leafness recorded, structural check passes |
| Trabalho.TrabalhoTree.InsertChecked | trabalho.py:104-107 | an insert followed by the invariant check always passes it |
| Trabalho.TrabalhoTree.DeleteChecked | trabalho.py:108-111 | a delete followed by the corrected check always passes it |
| Trabalho.InsertPassesHack | trabalho.py:104-107 | the simulated insert post-condition holds after every insert into a valid tree |
| Trabalho.DeletePassesHack | trabalho.py:108-111 | the corrected delete post-condition holds after every delete from a valid tree |
| Scenarios.HackAsWrittenRejectsDelete | trabalho.py:108-111 | the delete post-condition as written fails on a correct delete from a valid tree |

## Left out

- `print_tree` and its helper, the command-line menu of `trabalho.py` and `main.py`: console input and output only.
- The `icontract` machinery. Pre-conditions become refusals with the tree unchanged. Post-conditions and the invariant become `ensures` clauses and `Valid()`.
- When the invariant runs: the variant's check is modelled as running once after each operation, not around nested public calls.
- In-place mutation and aliasing of node objects. Nodes are values, and the list edits (pop, insert, extend, slicing) are the sequences they produce.
- The order in which the breadth-first traversals visit nodes. `BTreeChecks.AllKeys` and `BTreeChecks.LeafDepths` walk depth first. Their contracts only use the multiset of keys and the set of depths, which do not depend on that order.
- The `if not self.root` branches. The root is never absent here, so only `GetAllKeys` keeps an optional argument.
- The corrupted-state tests expect the invariant to fire on the next `search`. The model only shows that the checks reject those states (`Scenarios.UnsortedRootFails`, `Scenarios.MissingChildFails`).
- BTreeChecks.Separates, BTreeSearch.SearchRecursive, BTreeShape.Height: on an ill-formed tree these return a value where the source raises IndexError. A missing child i+1 makes `Separates` false, while b_tree.py:68 indexes past the end. A search that reaches an internal node without the child to descend into returns None, while b_tree.py:92 fails. An internal node without children has `Height` 0, while b_tree.py:195 fails. For example, `Node(false, [30], [Leaf([10, 20])])`. On valid trees, the only states the operations produce, none of these cases arises.
- The generic sequences of test_b_tree.py:114-139 are not replayed one by one. The class contracts cover them for every sequence of valid operations.
- Python's unbounded integers are Dafny `int`. There is no width to model.

## Findings

| source | as written | input that shows it | evidently intended | confidence | as-written member | corrected member |
|---|---|---|---|---|---|---|
| trabalho.py:108-111 | after a delete from an internal root with a single key, the height must have dropped by one | t = 2: insert 10, 20, 30, 40 (root [20] over [10] and [30, 40]), then delete 40; the root stays [20] over [10] and [30] at height 1 | the post-condition of b_tree.py:35-36: the height stays or drops by one, dropping only from an internal root with one key | not executed; reads the invariant as evaluated once after the operation | Trabalho.HackAsWritten, Scenarios.HackAsWrittenRejectsDelete | Trabalho.Hack, Trabalho.DeletePassesHack |
