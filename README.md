# Bid store as an unbalanced binary search tree

The program keeps auction bids (`Bid`: `bidId`, `title`, `fund`, `amount`) in an
unbalanced binary search tree of `Node` objects (`bid`, `left`, `right`), keyed
by the string `bidId`. `BinarySearchTree` offers `Insert`, `Search`, `Remove`,
`InOrder` and `Size`. Smaller keys go left. Equal and greater keys go right.

This project models that class in Dafny. It has two layers:

- **Value layer.** A tree of bids (`Trees.BTree<Bid>`) with definitions of what each operation does to it: `TreeSpec.Inserted`, `TreeSpec.Find`, `RemoveSpec.RemoveStep`/`RemoveSpec.Removed`. Lemmas state what each definition promises: order, keys, in-order sequence, multiset, round trips.
- **Heap layer.** The class itself, `Store.BinarySearchTree`, over `LinkedTree.Node` objects. A ghost `shape` records every node with the bid it holds. `Valid()` ties the links reachable from `root` to that shape, with no node shared and the ordering invariant holding. Each method is proved to change `Contents()` exactly as the value-layer definition says.

Modules:

- `Bids`: the record and an `Option`.
- `KeyOrder`: lexicographic `<` on strings, proved a strict total order.
- `Trees`: generic binary trees, paths, subtrees and replacement at a path.
- `TreeSpec`: in-order sequence, keys, ordering, insertion, search.
- `RemoveSpec`: one pass of `Remove` as written, its repetition, and its properties.
- `LinkedTree`: `Node`, shapes, and the frame lemmas that split a structure at a path and join it again.
- `Findings`: the corrected removal, and concrete trees that show where the code as written differs from it.
- `Store`: the class.

## Model

| member | source | states |
|---|---|---|
| KeyOrder.StrictTotalOrder | BinarySearchTree.cpp:68 | the string comparison used for every descent is irreflexive, transitive, connected (any two different keys are ordered) and asymmetric |
| KeyOrder.DescentsAgree | BinarySearchTree.cpp:195-203 | Remove's "key < bidId goes right" and Search's "key > bidId goes left" pick the same side for every key other than `bidId` |
| TreeSpec.OrderedInOrderSorted | BinarySearchTree.cpp:263-272 | on an ordered tree the left-node-right traversal is non-decreasing by key |
| TreeSpec.KeysOfInOrder | BinarySearchTree.cpp:263-272 | the traversal holds a bid for every key of the tree and only those keys |
| TreeSpec.InsertedOrdered | BinarySearchTree.cpp:52-90 | insertion keeps left keys strictly smaller and right keys greater or equal at every node |
| TreeSpec.InsertedKeys | BinarySearchTree.cpp:52-90 | after insertion the keys are the old keys plus the new bid's key |
| TreeSpec.InsertedInOrder | BinarySearchTree.cpp:52-90 | the traversal gains the new bid at one position and every old bid stays in order; the multiset gains exactly that bid; the length grows by one |
| TreeSpec.EqualKeyGoesRight | BinarySearchTree.cpp:68-87 | a bid whose key equals a node's key is inserted into that node's right subtree and the node is untouched |
| TreeSpec.FindSound | BinarySearchTree.cpp:212-234 | a bid found by the search descent has the searched key and is one of the stored bids |
| TreeSpec.FindComplete | BinarySearchTree.cpp:212-234 | on an ordered tree the descent finds a bid exactly when the key is stored |
| TreeSpec.InsertThenFind | BinarySearchTree.cpp:52-90 | inserting `b` into a tree without its key and then searching for the key gives back `b`, all four fields |
| RemoveSpec.FindLocates | BinarySearchTree.cpp:102-203 | Remove's descent stops at the very node whose bid Search returns, and reaches no node when Search finds nothing |
| RemoveSpec.ReachesComplete | BinarySearchTree.cpp:102-204 | on an ordered tree Remove's descent reaches a node exactly when the key is stored |
| RemoveSpec.LeftmostFirst | BinarySearchTree.cpp:176-180 | the node reached by walking left links to the end is the first bid of the subtree's traversal |
| RemoveSpec.LeftmostMin | BinarySearchTree.cpp:176-180 | in an ordered subtree that bid has the smallest key |
| RemoveSpec.StepOrdered | BinarySearchTree.cpp:103-190 | one pass keeps the ordering invariant and adds no key |
| RemoveSpec.StepInOrder | BinarySearchTree.cpp:103-190 | one pass either drops the located bid from the traversal (no or one child), or replaces it with the next bid and leaves everything else in place (two children) |
| RemoveSpec.StepKeys | BinarySearchTree.cpp:105-173 | when the key is stored once, the unlinking cases remove that key and no other |
| RemoveSpec.StepDecreases | BinarySearchTree.cpp:183-189 | copying a successor with another key lowers the number of nodes holding `bidId` by one, which bounds the repeated calls |
| RemoveSpec.SuccessorWithSameKey | BinarySearchTree.cpp:175-189 | a successor with the searched key means the key was stored at least twice |
| RemoveSpec.CopyKeepsLocated | BinarySearchTree.cpp:183-189 | when the successor has the searched key, the next call reaches the same node and repeats the same copy |
| RemoveSpec.RemovedOrdered | BinarySearchTree.cpp:96-205 | whenever Remove terminates, the final tree is ordered |
| RemoveSpec.RemoveAbsent | BinarySearchTree.cpp:102-204 | removing a key that is not stored terminates and changes nothing |
| RemoveSpec.RemoveUnlinks | BinarySearchTree.cpp:105-173 | a found node with no or one child is dropped: the traversal loses exactly that bid, the size drops by one, order is kept |
| RemoveSpec.RemoveCopiesSuccessor | BinarySearchTree.cpp:175-190 | a found node with two children and a unique key: the traversal keeps its length, the successor's bid now appears twice, the key is gone, order is kept |
| RemoveSpec.RemoveDiverges | BinarySearchTree.cpp:175-190 | when the successor carries the searched key, each call makes the same copy and calls again with the same tree, so Remove never returns |
| RemoveSpec.UniqueKeyHalts | BinarySearchTree.cpp:189 | with at most one node holding the key, the repeated call terminates |
| RemoveSpec.UniqueKeyRemoved | BinarySearchTree.cpp:96-205 | with at most one node holding the key, the key is gone afterwards, search misses it, and every other key is still found |
| Store.NodeCount | BinarySearchTree.cpp:279-292 | in a tree with no shared node, the number of nodes equals the length of the traversal |
| Store.BinarySearchTree.constructor | BinarySearchTree.cpp:7-10 | a new store is valid, empty and owns no node |
| Store.BinarySearchTree.AddNode | BinarySearchTree.cpp:242-257 | the node gets its own copy of all four fields of the bid and no children |
| Store.BinarySearchTree.LinkNewNode | BinarySearchTree.cpp:69-87 | a fresh node holding the bid is hung on the empty link of `cur`; all other links are as before |
| Store.BinarySearchTree.InsertAt | BinarySearchTree.cpp:69-87 | hanging the new node on the side the comparison chose is value-level insertion at that node; the store gains exactly one fresh node |
| Store.BinarySearchTree.Insert | BinarySearchTree.cpp:52-90 | the store stays valid, its contents become `Inserted(old contents, bid)`, and it gains fresh nodes only |
| Store.BinarySearchTree.Relink | BinarySearchTree.cpp:138-150 | setting one child link of the parent yields the old structure with the new subtree on that side |
| Store.BinarySearchTree.Bypass | BinarySearchTree.cpp:113-172 | the parent's left or right link, whichever led to `cur`, now leads to `cur`'s only child or to null |
| Store.BinarySearchTree.Unlink | BinarySearchTree.cpp:105-173 | the link to `cur`, from the root or the parent, now leads to its only child; exactly `cur` leaves the store |
| Store.BinarySearchTree.SetBid | BinarySearchTree.cpp:183-186 | overwriting the node's bid changes that bid and no link |
| Store.BinarySearchTree.PutBid | BinarySearchTree.cpp:183-186 | the same, with the ghost shape updated and no node added or dropped |
| Store.BinarySearchTree.TakeSuccessor | BinarySearchTree.cpp:176-186 | the walk from the right child down the left links ends at the successor, whose bid is copied into `cur` |
| Store.BinarySearchTree.Remove | BinarySearchTree.cpp:96-205 | the store stays valid, its contents become `Removed(old contents, bidId)`, and it keeps only nodes it had |
| Store.BinarySearchTree.FindSuccessor | BinarySearchTree.cpp:176-180 | the walk ends at the leftmost node of the right subtree, with its parent |
| Store.BinarySearchTree.MoveSuccessorUp | BinarySearchTree.cpp:175-190 | corrected case four: the node takes the leftmost bid of its right subtree and that bid's node is unlinked, so at least one node leaves |
| Store.BinarySearchTree.RemoveCorrected | BinarySearchTree.cpp:96-205 | the corrected Remove keeps the store valid and makes its contents `RemoveFixed(old contents, bidId)` |
| Store.BinarySearchTree.Search | BinarySearchTree.cpp:212-234 | returns the bid of the first node on the descent holding the key, a stored bid with that key whenever the key is stored, and the empty bid otherwise; the store is not changed |
| Store.BinarySearchTree.InOrderAt | BinarySearchTree.cpp:263-272 | the bids below a node, left subtree first, are the value-level traversal of that subtree |
| Store.BinarySearchTree.InOrder | BinarySearchTree.cpp:37-47 | the whole traversal is the traversal of the contents and is sorted by key |
| Store.BinarySearchTree.SizeAt | BinarySearchTree.cpp:279-292 | the count below a node is the length of that subtree's traversal |
| Store.BinarySearchTree.Size | BinarySearchTree.cpp:299-314 | the count is the number of stored bids and the number of nodes the store owns; an empty store gives 0 |
| Findings.DropLeftmostInOrder | BinarySearchTree.cpp:176-180 | taking out the leftmost node of a subtree removes the first bid of its traversal and nothing else |
| Findings.FixedOrdered | BinarySearchTree.cpp:96-205 | the corrected removal keeps the ordering invariant and adds no key |
| Findings.RemoveFixedCorrect | BinarySearchTree.cpp:96-205 | the corrected removal of a stored key drops from the traversal exactly the bid Search would return, so the size falls by one; an absent key leaves the tree as it was; order is kept; no bid is duplicated |
| Findings.FixedUniqueKey | BinarySearchTree.cpp:96-205 | with at most one node holding the key, the corrected removal takes away that key and no other |
| Findings.FixedAgrees | BinarySearchTree.cpp:105-173 | outside the two-children case the corrected pass is the pass as written |
| Findings.ExampleShape | BinarySearchTree.cpp:52-90 | inserting keys 5, 3, 8, 1, 4, 7, 9 builds root 5, children 3 and 8, leaves 1, 4, 7, 9 |
| Findings.DuplicatedSuccessor | BinarySearchTree.cpp:175-190 | on that tree, Remove("5") as written gives traversal 1, 3, 4, 7, 7, 8, 9; the corrected removal gives 1, 3, 4, 7, 8, 9 |
| Findings.SameKeySuccessor | BinarySearchTree.cpp:189 | inserting keys 5, 3, 5 stores two nodes keyed 5; Remove("5") as written never terminates; the corrected removal leaves one |

## Left out

- The console program (menu, arguments, timing, output) is not part of this model. It is input and output only.
- Loading bids from a CSV file, printing a bid, and converting a currency string to a `double` are not part of this model. They rely on an external parser and floating-point library calls.
- `deleteAll`, the destructor and every `delete` are not modelled. Dafny has no manual memory release; a released node is one that leaves the store's ghost `Repr`.
- Use-after-free: for a root with one child, the code frees the root and then reads `cur->left`/`cur->right`. The model takes the evident intent: `root` becomes the old child.
- Printing in `InOrder`/`inOrder`: the functions return the sequence of bids that would be printed.
- `removeNode` is declared in BinarySearchTree.hpp but has no definition, so it is not modelled.
- Bids.NotFound: the body of `Bid()` is not part of this model. The empty bid that a missed search returns is taken to have empty strings and amount 0.0. Only its empty `bidId` follows from the source; the other three fields are placeholders.
- `amount` is a `double` that is only copied, so it is modelled as a `real`. No arithmetic is done on it.
- Store.BinarySearchTree.Size: the C++ `int` counter could overflow above 2^31 - 1 nodes. The model counts with unbounded integers.
- Store.BinarySearchTree.Remove: requires `RemoveHalts`, the exact condition under which the repeated call terminates. When the successor carries the searched key the call repeats forever. `RemoveSpec.RemoveDiverges` proves this, but the method does not model it.
- Store.BinarySearchTree.Remove: the three unlinking cases (no child, left child only, right child only) share one `Unlink` call. The child that takes the node's place is the only difference between them.
- Every method requires `Valid()`: the links form a tree with no shared node, and the keys are ordered. The class's own methods are the only way to build the tree, and each of them keeps `Valid()`.

## Findings

| source | as written | input that shows it | evidently intended | confidence | as-written member | corrected member |
|---|---|---|---|---|---|---|
| BinarySearchTree.cpp:175-190 | for a node with two children, the successor's bid is copied into the node and `Remove` is called again with the original key, so the successor's own node is never unlinked | insert keys 5, 3, 8, 1, 4, 7, 9, then remove 5: the traversal becomes 1, 3, 4, 7, 7, 8, 9 | the successor's node is unlinked and its right child takes its place, so the traversal becomes 1, 3, 4, 7, 8, 9 | not executed | Findings.DuplicatedSuccessor | Findings.RemoveFixedCorrect |
| BinarySearchTree.cpp:189 | when the successor has the same key as the removed node, the repeated call reaches the same node and makes the same copy again | insert keys 5, 3, 5, then remove 5: the call never returns | one node keyed 5 is removed and one remains | not executed | Findings.SameKeySuccessor | Store.BinarySearchTree.RemoveCorrected |

The heap-level method `Store.BinarySearchTree.Remove` models the code as written. `Store.BinarySearchTree.RemoveCorrected` implements the corrected version on the linked structure: the node takes its successor's bid and the successor's node is unlinked.
