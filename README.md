# Iterative binary search tree

A model of the iterative binary search tree in `du2/btree/iter/btree.c`. Its keys are `char` and its values `int`. Every operation is a loop over linked nodes, and none uses recursion:

- lookup;
- insertion or overwrite;
- promotion of the rightmost node of a subtree;
- deletion;
- disposal of the whole tree with an explicit stack;
- the preorder, inorder and postorder walks, each driven by an explicit stack of nodes (postorder also keeps a second stack of first-visit marks).

The model keeps the program's form:

- A node is a `class Node` whose `key`, `value`, `left` and `right` fields are updated in place.
- The tree handle (`bst_node_t **tree`) is `class Bst` with one field `root`.
- Each function of the program is a `method` with the same loop, the same branches and the same writes.

Beside the heap, the proofs keep two ghost values:

- the picture of the tree, a `Tree` datatype that lists each branch's node, key, value and subtrees;
- a record `Heap` of the fields of every node the tree owns.

`Linked` ties the picture to the record, and `Mirrors` ties the record to the heap. Each method is proved to change the picture exactly as a pure function says (`Updates.Insert`, `Updates.Delete`, `Updates.RemoveRightmost`), and to keep the record in step with the heap. Lemmas then prove what those functions mean for the key-value store `Contents`: lookup, overwrite, removal of exactly one key, the search-tree order, and the nodes that are added or released.

The walks are proved to hand the visitor exactly the recursive preorder, inorder and postorder sequences. The stack discipline is modelled with a ghost stack of branches (`Orders.Frames`), together with functions that say what is still to be produced once some branches sit on the stack.

Modules:

- `Trees` (trees.dfy): nodes, the tree picture, the store, the order, and the coupling between the picture and the heap.
- `Zipper` (zipper.dfy): the path from the root to the node a descent has reached.
- `Updates` (updates.dfy): what search, insertion, promotion and deletion do to the picture, and the lemmas about them.
- `Writes` (writes.dfy): the record of the nodes' fields after each kind of write.
- `Orders` (orders.dfy): the three orders, and the stack disciplines that produce them.
- `Walks` (walks.dfy): the iterative walks, and the release loop of disposal.
- `Btree` (btree.dfy): search, the promotion helper, the handle and its operations.

## Model

| member | source | states |
|---|---|---|
| Btree.Bst.Init | du2/btree/iter/btree.c:22-24 | the handle refers to the empty tree, which is a valid tree with an empty record |
| Btree.Search | du2/btree/iter/btree.c:35-48 | true exactly when the key is in the store; then `stored` is the key's value, otherwise the caller's value is returned unchanged; no node is written (no `modifies`) |
| Updates.FindIsLookup | du2/btree/iter/btree.c:37-45 | in an ordered tree, the descent (left when the node's key is greater) finds exactly the value the store holds, and finds nothing when the key is absent |
| Btree.Bst.Insert | du2/btree/iter/btree.c:61-98 | when allocation fails, nothing changes; otherwise the tree becomes `Updates.Insert` of the old tree with the fresh node, stays ordered and free of sharing, and the record still mirrors the heap |
| Updates.InsertContents | du2/btree/iter/btree.c:74-97 | after insertion the store is the old store with `key` mapped to `value`, and every other entry is unchanged |
| Updates.InsertOrdered | du2/btree/iter/btree.c:74-97 | insertion keeps the search-tree order |
| Updates.InsertKeys | du2/btree/iter/btree.c:74-97 | the keys after insertion are the old keys plus `key` |
| Updates.InsertNodes | du2/btree/iter/btree.c:76-96 | a present key is overwritten in place: same nodes, same keys, same shape; an absent key adds exactly the one new node, and the size grows by one |
| Updates.InsertDistinct | du2/btree/iter/btree.c:81-95 | hanging a node that was not in the tree keeps the tree free of sharing |
| Writes.InsertWrite | du2/btree/iter/btree.c:76-95 | the write at the node where the descent stops (the value, the left link or the right link) leaves the record describing the tree after insertion, node for node |
| Btree.ReplaceByRightmost | du2/btree/iter/btree.c:113-123 | given a subtree whose root has a right child, `target` takes the key and value of the rightmost node, that node's parent on the right spine takes over its left subtree, and the record is updated accordingly |
| Updates.RightmostIsMax | du2/btree/iter/btree.c:113-123 | the rightmost node holds the greatest key of an ordered subtree; removing it drops just that key, keeps the order and shrinks the size by one |
| Updates.RightmostContents | du2/btree/iter/btree.c:113-123 | the rightmost entry is in the store, and removing the rightmost node removes exactly that entry |
| Updates.RemoveRightmostNodes | du2/btree/iter/btree.c:113-123 | removing the rightmost node releases exactly that node and keeps the tree free of sharing |
| Writes.RemoveRightmostWrite | du2/btree/iter/btree.c:114-121 | the walk's `last` is the parent of the rightmost node; after it takes over the rightmost node's left subtree, the record describes the subtree without that node |
| Writes.PromoteWrite | du2/btree/iter/btree.c:148-149 | after promotion into the deleted node, the record describes the tree with the matched branch removed |
| Btree.ReplaceByPredecessor | du2/btree/iter/btree.c:148-149 | deleting a node with two children (whose left child has a right child) removes the matched branch from the picture, and the record mirrors the heap |
| Updates.PromotedIsPredecessor | du2/btree/iter/btree.c:128-131 | the key that replaces a deleted node with two children is the greatest key smaller than the deleted one, and the node itself stays in place |
| Writes.UnlinkWrite | du2/btree/iter/btree.c:141-156 | the parent's left link is the matched node exactly when the descent went left; after the redirect and the release, the record describes the tree without the matched branch |
| Btree.ReplaceByChild | du2/btree/iter/btree.c:141-156 | for a match with at most one child, the parent's link now points to the child that moves up (the right one when it exists), or to nothing |
| Btree.Bst.Delete | du2/btree/iter/btree.c:137-166 | on the inputs where the program's behaviour is defined, the tree becomes `Updates.Delete` of the old tree, stays ordered and free of sharing, and the record mirrors the heap |
| Updates.RemoveRootOrdered | du2/btree/iter/btree.c:140-157 | removal of the matched branch keeps the order, drops exactly its key and shrinks the size by one |
| Updates.RemoveRootContents | du2/btree/iter/btree.c:140-157 | removal of the matched branch drops exactly its key from the store |
| Updates.DeleteOrdered | du2/btree/iter/btree.c:125-166 | deletion keeps the search-tree order and removes exactly the given key; the size shrinks by one when the key was present |
| Updates.DeleteContents | du2/btree/iter/btree.c:125-166 | after deletion the store is the old store without the key, and every other entry is unchanged |
| Updates.DeleteAbsent | du2/btree/iter/btree.c:127 | deleting an absent key leaves the tree exactly as it was |
| Updates.DeleteDistinct | du2/btree/iter/btree.c:137-166 | deletion keeps the tree free of sharing and keeps only nodes that were there |
| Updates.DeleteKeepsRoot | du2/btree/iter/btree.c:137-166 | where deletion is defined, the root node stays the same, which is why the handle is never rewritten |
| Updates.DeleteOnlyEntryUndefined | du2/btree/iter/btree.c:138-142 | deleting the only key of a one-node tree lies outside the defined inputs, whereas the intended deletion leaves the empty store |
| Updates.DeletePromotionUndefined | du2/btree/iter/btree.c:114-115 | deleting a key whose left child has no right child lies outside the defined inputs, whereas the intended deletion promotes the left child's entry and leaves the store without the key |
| Btree.Bst.Dispose | du2/btree/iter/btree.c:178-198 | the handle is reset to the empty tree, as after initialisation; the nodes are released in inorder |
| Walks.Release | du2/btree/iter/btree.c:179-196 | the explicit-stack release loop releases the nodes in exactly the order of `Orders.InorderNodes` |
| Orders.InorderNodesExact | du2/btree/iter/btree.c:186-196 | in a tree without sharing, that list holds every node of the tree exactly once and nothing else |
| Orders.InorderNodesByStack | du2/btree/iter/btree.c:181-194 | stacking the left spine of a subtree puts all of its nodes, in inorder, ahead of what is still to be released |
| Orders.InorderNodesStep | du2/btree/iter/btree.c:186-196 | one turn of the release loop (pop, stack the right subtree's left spine, release) keeps the released list plus the pending list equal |
| Walks.LeftmostPreorder | du2/btree/iter/btree.c:209-216 | visits the entries of the left spine, top first, and pushes the spine's nodes |
| Walks.Preorder | du2/btree/iter/btree.c:226-235 | the visitor receives exactly the recursive preorder sequence; no node is written |
| Orders.PreorderByStack | du2/btree/iter/btree.c:209-216 | visiting and stacking the left spine of a subtree leaves the rest of its preorder on the stack, ahead of what was there |
| Orders.PreorderStep | du2/btree/iter/btree.c:231-234 | one turn of the preorder loop keeps the output plus the pending output equal, and the pending output shrinks |
| Walks.LeftmostInorder | du2/btree/iter/btree.c:246-252 | pushes the nodes of the left spine, top first |
| Walks.Inorder | du2/btree/iter/btree.c:262-272 | the visitor receives exactly the recursive inorder sequence; no node is written |
| Orders.InorderByStack | du2/btree/iter/btree.c:246-252 | stacking the left spine of a subtree puts its whole inorder ahead of the stack's rest |
| Orders.InorderStep | du2/btree/iter/btree.c:267-271 | one turn of the inorder loop keeps the output plus the pending output equal |
| Orders.InorderAscending | du2/btree/iter/btree.c:262-272 | in an ordered tree, inorder lists the keys strictly ascending |
| Orders.InorderKeys | du2/btree/iter/btree.c:262-272 | inorder has one entry per node, and each entry's key is a key of the tree |
| Orders.InorderIsContents | du2/btree/iter/btree.c:262-272 | the inorder of an ordered tree lists exactly the entries of its store |
| Walks.LeftmostPostorder | du2/btree/iter/btree.c:284-292 | pushes the nodes of the left spine, each with a first-visit mark, keeping the two stacks the same height |
| Walks.Postorder | du2/btree/iter/btree.c:302-320 | the visitor receives exactly the recursive postorder sequence; the loop invariant keeps the node stack and the mark stack the same height; no node is written |
| Orders.PostorderByStack | du2/btree/iter/btree.c:284-292 | stacking the left spine on first visit puts its whole postorder ahead of the stack's rest, and adds two steps of work per node |
| Orders.PostorderDescend | du2/btree/iter/btree.c:311-314 | a first visit flips the mark and stacks the right subtree's spine; the pending output is unchanged and the work left shrinks |
| Orders.PostorderVisit | du2/btree/iter/btree.c:315-318 | a second visit pops and visits the node; the output plus the pending output stay equal, and the work left shrinks |
| Orders.WalksArePermutations | du2/btree/iter/btree.c:226-320 | the three walks list the same entries, each as often, and differ only in order |

## Left out

- The stack module (`stack.h`, `stack.c`) is not part of this model. A stack is a local `seq` whose last element is the top: push appends, pop drops the last element, and empty tests the length. Its capacity and allocation failures are not modelled.
- `bst_print_node` is not part of this model. The visitor is modelled as appending `(key, value)` to the walk's returned output sequence. Its formatting and standard output are left out.
- `malloc` failure in insertion is the parameter `allocFails`. `free` is modelled as the node leaving the record of owned nodes; in disposal it is the node joining the ghost list `freed`. Leaks and double frees of memory outside the tree are not modelled.
- The picture of the tree and the record of the nodes' fields are ghost values the caller passes in and receives back. Only the handle's `root` is state of `Bst`.
- `char` is Dafny's `char`, ordered by code point. The signedness of C's `char` is not modelled: it can reorder keys above 127, which does not change any property proved here.
- Btree.Bst.Delete: requires `Updates.DeleteDefined`. It excludes the two inputs on which the program has no defined behaviour (see Findings): a match at the root with fewer than two children, and a match with two children whose left child has no right child.
- Btree.ReplaceByRightmost: requires the subtree's root to have a right child, as the walk starts one step right of it.
- Btree.Bst.Dispose: requires only that the picture is linked. The statement that every node is released exactly once is `Orders.InorderNodesExact`, which needs a tree without sharing.
- Walks.Release: the two spine-pushing loops of disposal are the loop of `Walks.LeftmostInorder` and are modelled by calls to it.

## Findings

| source | as written | input that shows it | evidently intended | confidence | as-written member | corrected member |
|---|---|---|---|---|---|---|
| du2/btree/iter/btree.c:138-142 | `last` is declared without a value and is read when the key matches before any step was taken | deleting the key of the root when the root has no child or one child, e.g. the only key of a one-node tree | a match at the root with fewer than two children makes the child (or nothing) the new root | not executed | Updates.DeleteOnlyEntryUndefined | Updates.DeleteContents |
| du2/btree/iter/btree.c:114-115 | the promotion helper starts at the right child of the left child and reads that child's right link | deleting `b` from the tree `b` with children `a` and `c`, where `a` has no right child | when the left child has no right child, it is itself the rightmost node: its entry moves up and its left subtree takes its place | not executed | Updates.DeletePromotionUndefined | Updates.DeleteOrdered |

For both rows, `Updates.Delete` is the evidently intended deletion. It is defined for every tree:

- `Updates.RemoveRoot` handles a match at the root.
- `Updates.Rightmost` of the left subtree may be the left child itself.

The store after deletion (`Updates.DeleteContents`), the order, and the removal of exactly one key (`Updates.DeleteOrdered`) are proved for all ordered trees. `Btree.Bst.Delete` is proved to produce `Updates.Delete` on every input where the program's behaviour is defined.
