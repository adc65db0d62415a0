# Bid index as an unbalanced binary search tree

This project models the binary search tree of `Bid` records in
`BinarySearchTree.cpp`. Each bid has a string `bidId` key plus title, fund and
amount as payload. The tree orders bids by `std::string::compare` on
`bidId`. An equal key goes to the right. Nothing rebalances the tree.

It offers five operations:
- `Insert`: attaches a new leaf node, either as the root or via the recursive `addNode`.
- `Search`: an iterative descent that returns a default-constructed bid when nothing matches.
- `InOrder`: the recursive left / visit / right walk.
- `Remove`: the recursive `removeNode`. A leaf is unlinked. A node with one child is replaced by that child. A node with two children copies in its in-order successor's bid and then removes the successor from its right subtree.
- A constructor for the empty tree.

The project has four modules:

- `StringOrder` (`string_order.dfy`) models the sign of `std::string::compare`. It proves that the derived "sorts before" relation is a strict total order.
- `BidTree` (`bid_tree.dfy`) is the value-level view:
  - The `Bid` and `Tree` datatypes.
  - The ordering invariant `Ordered`: left keys sort before the node's key, right keys do not.
  - One function per operation: `Inserted`, `Lookup`, `InOrderBids`, `Leftmost` and `Removed`.
  - Lemmas about contents, order and search results.
- `SearchTree` (`search_tree.dfy`) is the in-place implementation:
  - A `Node` class with mutable `bid`, `left` and `right` fields.
  - A `BinarySearchTree` class holding `root`.
  - Each node carries a ghost footprint and a ghost `Model`. Every method is proved against the matching `BidTree` function.
- `Scenarios` (`scenarios.dfy`) holds concrete insert/remove runs, computed with the value-level functions.

Points where the model pins down behaviour the source leaves implicit:
- The comments on `Node` (`BinarySearchTree.cpp:37-38`) describe left children as "values < parent" and right children as "values > parent". `addNode` (`BinarySearchTree.cpp:156-166`) sends an equal key right, so `Ordered` only requires right keys to be "not less" than the node's key. Unique keys (`UniqueKeys`) are a separate predicate, assumed only by the lemmas that need it.
- `Search` returns a default-constructed `Bid` (empty `bidId`, amount 0) when nothing matches (`BinarySearchTree.cpp:143-144`). Its caller tells a miss apart by testing `bidId.empty()` (`BinarySearchTree.cpp:372`). The model returns `DefaultBid` in that case.
- Keys compare as strings, so "5" and "3" both sort after "10". Inserting 10, 5, 3 makes 5 the right child of 10 and 3 the left child of 5. Removing 5 then leaves 3 as the right child of 10 (`Scenarios.SingleChildRemoval`).
- Likewise, inserting 10, 5, 15 makes 15 the left child of 5, since "15" sorts before "5". Removing 5 takes the one-child case and leaves 10, 15 in order. Removing the leaf 15 leaves 10, 5 (`Scenarios.LeafRemoval`).

## Model

| member | source | states |
|---|---|---|
| StringOrder.Compare | BinarySearchTree.cpp:196-199 | the sign of `compare` is -1, 0 or 1, and it is 0 exactly when the two keys are equal |
| StringOrder.CompareAntisymmetric | BinarySearchTree.cpp:156 | swapping the operands negates the result, so addNode's `node.compare(bid) > 0` and Search's `key.compare(node) < 0` agree |
| StringOrder.LessIrreflexive | BinarySearchTree.cpp:134 | no key sorts before itself |
| StringOrder.LessAsymmetric | BinarySearchTree.cpp:134 | if a sorts before b, b does not sort before a |
| StringOrder.LessTransitive | BinarySearchTree.cpp:134 | the key order is transitive |
| StringOrder.LessTrichotomous | BinarySearchTree.cpp:130-137 | for any two keys exactly one holds: a before b, a equals b, or b before a |
| StringOrder.LessAfterAtMost | BinarySearchTree.cpp:196-199 | a <= b and b < c give a < c |
| StringOrder.LessBeforeAtMost | BinarySearchTree.cpp:196-199 | a < b and b <= c give a < c |
| BidTree.DefaultBid | BinarySearchTree.cpp:29-31 | the default-constructed bid: empty strings and amount 0; a constant with no contract of its own, returned by `Search` on a miss (see `SearchTree.BinarySearchTree.Search`) |
| BidTree.Lookup | BinarySearchTree.cpp:128-144 | the search descent as a function; no ensures of its own: `LookupFound` and `LookupComplete` state what it finds, and `SearchTree.BinarySearchTree.Search` is proved against it |
| BidTree.InOrderBids | BinarySearchTree.cpp:177-188 | the left / visit / right order as a function; no ensures of its own: `InOrderVisitsAll`, `InOrderSorted` and `InOrderStrictlySorted` state its contents and order |
| BidTree.Leftmost | BinarySearchTree.cpp:222-224 | the node the successor loop reaches, as a function; no ensures of its own: `LeftmostStored` and `LeftmostIsMinimum` state that it is the stored minimum of the subtree |
| BidTree.WithoutLeftmost | BinarySearchTree.cpp:215-219 | the subtree with its leftmost node replaced by that node's right child; no ensures of its own: `WithoutLeftmostBids` states its contents and `RemovedLeftmost` ties it to removal |
| BidTree.Removed | BinarySearchTree.cpp:190-232 | removeNode as a function on shapes; no ensures of its own: `RemovedBids`, `RemovedOrdered`, `RemovedKeys`, `RemovedAbsent` and `LookupAfterRemoved` state what it does |
| BidTree.RemovedKeepingRoot | BinarySearchTree.cpp:116-119 | the shape Remove as written leaves visible; no ensures of its own: `SingleNodeRemovalKept` and `RemovedRootStillFound` show where it differs from `Removed` |
| BidTree.BidsAndKeys | BinarySearchTree.cpp:35-50 | the key of every stored bid is a key of the tree |
| BidTree.Inserted | BinarySearchTree.cpp:104-111 | the tree is never empty after an insert |
| BidTree.InsertedBids | BinarySearchTree.cpp:153-175 | inserting adds exactly one occurrence of the bid to the stored bids and changes nothing else |
| BidTree.InsertedKeys | BinarySearchTree.cpp:153-175 | the keys after inserting are the old keys plus the new bid's key |
| BidTree.InsertedOrdered | BinarySearchTree.cpp:153-175 | inserting preserves the ordering invariant: left keys sort before the node's key, right keys do not |
| BidTree.InsertedUnique | BinarySearchTree.cpp:153-175 | inserting a fresh key keeps all keys unique |
| BidTree.InsertedDuplicateShadowed | BinarySearchTree.cpp:153-175 | if a search already finds a bid with the key, it still finds that same bid after the insert, so a duplicate is never returned |
| BidTree.LookupFound | BinarySearchTree.cpp:124-145 | any bid the search finds is stored in the tree and carries the key searched for |
| BidTree.LookupComplete | BinarySearchTree.cpp:124-145 | on an ordered tree the search finds a bid if and only if some node holds the key |
| BidTree.LookupInserted | BinarySearchTree.cpp:104-111 | after an insert, the search finds the key; if the key was new, it finds exactly the inserted bid |
| BidTree.InOrderVisitsAll | BinarySearchTree.cpp:177-188 | the walk visits every node exactly once: the multiset of visited bids equals the stored bids |
| BidTree.InOrderKeys | BinarySearchTree.cpp:177-188 | every bid the walk produces has a key of the tree |
| BidTree.JoinNonDecreasing | BinarySearchTree.cpp:177-188 | left walk, node and right walk concatenate into a non-decreasing sequence when each part is sorted and bounded by the node's key |
| BidTree.JoinIncreasing | BinarySearchTree.cpp:177-188 | the same concatenation is strictly increasing under strict bounds |
| BidTree.InOrderSorted | BinarySearchTree.cpp:177-188 | on an ordered tree the walk yields keys in non-decreasing order |
| BidTree.InOrderStrictlySorted | BinarySearchTree.cpp:177-188 | with unique keys as well, the walk yields keys in strictly increasing order |
| BidTree.LeftmostStored | BinarySearchTree.cpp:222-224 | the node the successor loop reaches holds a bid and key of that subtree |
| BidTree.LeftmostIsMinimum | BinarySearchTree.cpp:222-224 | on an ordered subtree, no key sorts before the successor loop's result, so the successor holds the minimum key of the right subtree |
| BidTree.WithoutLeftmostBids | BinarySearchTree.cpp:215-219 | unlinking the leftmost node (replacing it with its right child) removes exactly its bid |
| BidTree.RemovedKeys | BinarySearchTree.cpp:190-232 | removal never introduces a key |
| BidTree.RemovedAbsent | BinarySearchTree.cpp:190-193 | removing a key that no node holds leaves the tree unchanged |
| BidTree.RemovedLeftmost | BinarySearchTree.cpp:226-227 | on an ordered subtree, the recursive removal of the successor's key ends at the leftmost node, which has no left child, so it takes the zero- or one-child case |
| BidTree.RemovedOrdered | BinarySearchTree.cpp:190-232 | removal preserves the ordering invariant |
| BidTree.RemovedBids | BinarySearchTree.cpp:190-232 | on an ordered tree where the search finds a bid, removal takes away exactly that bid and keeps every other stored bid |
| BidTree.RemovedNotFound | BinarySearchTree.cpp:190-193 | on an ordered tree, when the search finds nothing, removing the key is a no-op |
| BidTree.RemovedShrinks | BinarySearchTree.cpp:190-232 | on an ordered tree, removing a stored key makes the in-order walk exactly one bid shorter |
| BidTree.RemovedDropsKey | BinarySearchTree.cpp:190-232 | on an ordered tree with unique keys, no node holds the key after its removal |
| BidTree.RemovedUnique | BinarySearchTree.cpp:190-232 | on an ordered tree, removal keeps keys unique |
| BidTree.LookupAfterRemoved | BinarySearchTree.cpp:190-232 | on an ordered tree with unique keys, a search after removing a key finds nothing |
| BidTree.SingleNodeRemovalKept | BinarySearchTree.cpp:116-119 | removing the only node: removeNode yields an empty tree, yet the tree as Remove leaves it still shows the node |
| BidTree.RemovedRootStillFound | BinarySearchTree.cpp:116-119 | on an ordered tree with unique keys, whenever the root holds the key and has at most one child, a search after Remove as written still finds the removed bid, while after the intended removal it finds nothing |
| SearchTree.Node.constructor | BinarySearchTree.cpp:40-50 | a new node holds a copy of the bid and has no children |
| SearchTree.BinarySearchTree.constructor | BinarySearchTree.cpp:81-84 | the tree starts with an absent root, that is, empty |
| SearchTree.BinarySearchTree.Insert | BinarySearchTree.cpp:104-111 | the new shape is `Inserted` of the old one and stays ordered; on an empty tree the bid becomes the root with no children; every object added to the footprint is newly allocated |
| SearchTree.BinarySearchTree.AddNode | BinarySearchTree.cpp:153-175 | the subtree's new shape is `Inserted` of its old one; every object added to the footprint is newly allocated |
| SearchTree.BinarySearchTree.Search | BinarySearchTree.cpp:124-145 | returns the bid `Lookup` finds; when a node holds the key, the result carries that key and is stored in the tree; otherwise the result is the default bid. The tree is not modified |
| SearchTree.BinarySearchTree.InOrder | BinarySearchTree.cpp:96-99 | the walk's output is `InOrderBids` of the tree; it holds every stored bid exactly once, in non-decreasing key order, strictly increasing when keys are unique |
| SearchTree.BinarySearchTree.InOrderWalk | BinarySearchTree.cpp:177-188 | the recursive walk from a node yields the in-order sequence of that node's subtree |
| SearchTree.BinarySearchTree.RemoveNode | BinarySearchTree.cpp:190-232 | the returned subtree has shape `Removed` of the old one; the node itself is returned unless it held the key with fewer than two children, in which case it is left untouched and its child (or nothing) is returned |
| SearchTree.BinarySearchTree.ReplaceWithSuccessor | BinarySearchTree.cpp:221-228 | the two-child case: the node keeps its left subtree, takes the bid of the leftmost node of its right subtree, and that key is removed from the right subtree |
| SearchTree.BinarySearchTree.Remove | BinarySearchTree.cpp:116-119 | corrected Remove (result stored back into root): the new shape is `Removed` of the old one and stays ordered |
| SearchTree.BinarySearchTree.RemoveAsWritten | BinarySearchTree.cpp:116-119 | Remove as written: root is never reassigned, and the visible shape is `RemovedKeepingRoot` of the old one |
| Scenarios.TwoChildRemoval | BinarySearchTree.cpp:221-228 | insert 50, 30, 70, 20, 40, 60, 80, then remove 50: the root becomes 60 and the walk gives 20, 30, 40, 60, 70, 80 |
| Scenarios.LeafRemoval | BinarySearchTree.cpp:203-213 | insert 10, 5, 15: removing 5 leaves the walk 10, 15 (under string order 15 is 5's left child, so this is the one-child case); removing the leaf 15 instead leaves 10, 5 |
| Scenarios.SingleChildRemoval | BinarySearchTree.cpp:209-213 | insert 10, 5, 3, then remove 5: the walk gives 10, 3 (string order) and 3 is the right child of 10 |
| Scenarios.EmptyTreeQueries | BinarySearchTree.cpp:124-145 | on an empty tree the search finds nothing and the walk is empty |

## Left out

- Loading bids from a CSV file, `strToDouble`, `displayBid`, console output, the menu in `main` and the clock timing are I/O and are not modelled.
- `inOrder` prints each bid. The model returns the sequence of visited bids instead.
- The destructor is not modelled. Its body is empty in the source, so nodes are never freed.
- `delete` in `removeNode` is not modelled. A removed node simply becomes unreachable, and the model keeps its old contents. Use-after-free is therefore not captured beyond `RemoveAsWritten` (see Findings).
- `amount` is a C++ `double`. The model carries it as a `real` payload. The tree never computes with it, so floating point does not matter.
- Keys are compared character by character as Dafny `char` values. Locale, encoding and signedness of `char` are not modelled.
- BidTree.Inserted: its own ensures states only that the result is non-empty. Contents, keys, order and search results are stated by the `Inserted*` lemmas.
- SearchTree.BinarySearchTree.Insert: its ensures ties the new shape to `Inserted` but does not repeat the multiset of bids. That fact is `BidTree.InsertedBids`.
- SearchTree.BinarySearchTree.ReplaceWithSuccessor: it is the two-child branch of `removeNode`, split out as its own method. Its executable steps are the source's, in the source's order.
- The empty key is ambiguous. `Search` returns a bid whose `bidId` is empty both when nothing matches and when a stored bid has the empty key. The model keeps this and does not separate the two cases.

## Findings

| source | as written | input that shows it | evidently intended | confidence | as-written member | corrected member |
|---|---|---|---|---|---|---|
| BinarySearchTree.cpp:116-119 | `Remove` calls `removeNode(root, bidId)` and discards the returned subtree root | a tree holding one bid; remove that bid's key. `removeNode` deletes the root node and returns null, but `root` still points at the freed node, so a later Search or InOrder reads freed memory (the same happens when the root has exactly one child) | `root = removeNode(root, bidId);` so the tree's root becomes the replacement subtree | high (not executed) | SearchTree.BinarySearchTree.RemoveAsWritten, with BidTree.SingleNodeRemovalKept and BidTree.RemovedRootStillFound | SearchTree.BinarySearchTree.Remove, with BidTree.LookupAfterRemoved and BidTree.RemovedBids |
