# Binary search tree with a removing in-order iterator

This project models `BinarySearchTree` from
`src/main/kotlin/edu/sokolov/bst/BinarySearchTree.kt`. It is an unbalanced
binary search tree without duplicates that implements a sorted mutable set
of `Comparable` values. It is also the source's stack-based in-order
iterator, whose `remove` deletes the value `next` returned last while the
traversal goes on.

The model has five modules:

- `Trees` (Trees.dfy) is the tree as a value: `Elements`, `Inorder`,
  `Size`, `Height`, the ordering predicate `BST`, `Min`/`Max`, and the
  value-level effects of `add` (`Insert`) and `removeNode` (`RemoveNode`,
  returning the replacement subtree and the found flag). These are the
  specification functions everything else is proved against.
- `Arena` (Arena.dfy) is the object graph. Every `Node` object is a cell of
  a sequence addressed by a stable id, a null reference is `Nil`, and a
  ghost `Shape` records which cells form the tree. `Rep(h, n, s)` says that
  the cells of `h` reachable from `n` hold `s`, and `View(s)` reads it back
  as a `Trees.Tree`. `Path`, `Sub`, `ReplaceAt` and `Spine` describe
  ancestors, subtrees, relinking and left spines.
- `Traversal` (Traversal.dfy) defines what the iterator still owes
  (`Remaining`), read off `iterationStack` and `currentNode`, and the
  invariant `IterInv` that ties the two stacks to the tree. The tree's
  in-order sequence is always the values returned so far and not removed
  (the ghost record `done`), followed by `Remaining`.
- `Bst` (Bst.dfy) holds the two classes of the source: `BinarySearchTree`
  (fields `nodes`, `root`, `size`, ghost `shape`) and
  `BinarySearchTreeIterator` (fields `iterationStack`,
  `iterationParentsStack`, `currentNode`, ghost `done`). Their methods
  update these fields in place, as the Kotlin code updates its objects.
- `Clients` (Clients.dfy) holds the two loops that drive the iterator: a
  full scan, and the remove-all loop of the benchmark.

Elements are `int`s compared with `<`, which stands for `compareTo`.
Exceptions become a `Result` with `NoSuchElement` or `IllegalState`.

## Model

| member | source | states |
|---|---|---|
| Trees.Insert | src/main/kotlin/edu/sokolov/bst/BinarySearchTree.kt:49-69 | adding x gives the old elements plus x, keeps the search-tree order, leaves an ordered tree that already holds x unchanged, and adds one node when x is new |
| Trees.RemoveNode | src/main/kotlin/edu/sokolov/bst/BinarySearchTree.kt:94-125 | the flag is true only if x was present, and exactly when it was present in an ordered tree; the result is ordered, holds the old elements minus x, has one node fewer exactly when x was found, and is no taller; when x is not found the tree comes back unchanged |
| Trees.Min | src/main/kotlin/edu/sokolov/bst/BinarySearchTree.kt:130-135 | the leftmost value is an element and, in an ordered tree, no element is smaller |
| Trees.Max | src/main/kotlin/edu/sokolov/bst/BinarySearchTree.kt:288-294 | the rightmost value is an element and, in an ordered tree, no element is larger |
| Trees.InorderIncreasing | src/main/kotlin/edu/sokolov/bst/BinarySearchTree.kt:209-215 | the in-order sequence of an ordered tree is strictly increasing |
| Trees.InorderStartsWithMin | src/main/kotlin/edu/sokolov/bst/BinarySearchTree.kt:130-135 | the in-order sequence starts with the minimum |
| Trees.InorderRemoveNode | src/main/kotlin/edu/sokolov/bst/BinarySearchTree.kt:94-125 | removing x from an ordered tree removes exactly x from its in-order sequence and keeps every other value in its place |
| Trees.InorderRemoveHere | src/main/kotlin/edu/sokolov/bst/BinarySearchTree.kt:102-124 | the same for the case where x sits at the root (no child, one child, or two children with the successor copied up) |
| Trees.InorderRemoveBelow | src/main/kotlin/edu/sokolov/bst/BinarySearchTree.kt:95-97 | the same for a removal that descends to the left |
| Trees.InorderRemoveAbove | src/main/kotlin/edu/sokolov/bst/BinarySearchTree.kt:98-100 | the same for a removal that descends to the right |
| Trees.WithoutRoot | src/main/kotlin/edu/sokolov/bst/BinarySearchTree.kt:102-116 | in an ordered tree the root's value occurs once, so taking it out leaves the two subtrees' sequences |
| Trees.InorderRemoveMin | src/main/kotlin/edu/sokolov/bst/BinarySearchTree.kt:119-124 | the in-order sequence is the minimum followed by the sequence of the tree with the minimum removed |
| Trees.SizeIsCardinality | src/main/kotlin/edu/sokolov/bst/BinarySearchTree.kt:17-20 | in an ordered tree the number of nodes is the number of distinct elements |
| Trees.CopiedSuccessor | src/main/kotlin/edu/sokolov/bst/BinarySearchTree.kt:118-124 | with the right subtree's minimum copied up and removed below, the node stays ordered and holds the old elements minus the removed value |
| Trees.SuccessorReplacement | src/main/kotlin/edu/sokolov/bst/BinarySearchTree.kt:118-124 | the copied value is the right subtree's minimum: above the removed value and every left value, below every value left on the right, and the next element after the removed one |
| Arena.RemoveInPlace | src/main/kotlin/edu/sokolov/bst/BinarySearchTree.kt:253-259 | running `removeNode` on a node's own value and hanging the result in that node's place removes that value from the whole tree |
| Arena.PathThrough | src/main/kotlin/edu/sokolov/bst/BinarySearchTree.kt:180-181 | the path to a node below p runs through p |
| Arena.ChildOfPath | src/main/kotlin/edu/sokolov/bst/BinarySearchTree.kt:180-181 | the entry before a node on its path from the root is its parent, with the node as left or right child |
| Bst.Find | src/main/kotlin/edu/sokolov/bst/BinarySearchTree.kt:23-33 | the search stops at a node of the tree that holds x or has an empty slot on x's side, and in an ordered tree it holds x exactly when x is an element |
| Bst.MinNode | src/main/kotlin/edu/sokolov/bst/BinarySearchTree.kt:130-135 | the node returned has no left child and holds the subtree's minimum |
| Bst.AttachAtFind | src/main/kotlin/edu/sokolov/bst/BinarySearchTree.kt:55-66 | hanging a new leaf in the empty slot where `find` stops builds the tree `Trees.Insert` describes |
| Bst.AttachCell | src/main/kotlin/edu/sokolov/bst/BinarySearchTree.kt:58-65 | writing the new node into the empty child slot of `closest` makes that cell hold its subtree with the new leaf, and no other cell changes |
| Bst.AttachRep | src/main/kotlin/edu/sokolov/bst/BinarySearchTree.kt:55-66 | after the write the arena holds the inserted tree, with distinct node ids |
| Bst.RebuildLeft | src/main/kotlin/edu/sokolov/bst/BinarySearchTree.kt:96 | `this.left = it.first` hangs the rebuilt left subtree under the node and touches only cells of the old subtree or new ones |
| Bst.RebuildRight | src/main/kotlin/edu/sokolov/bst/BinarySearchTree.kt:99 | `this.right = it.first`, the same on the right |
| Bst.RebuildCopy | src/main/kotlin/edu/sokolov/bst/BinarySearchTree.kt:121-124 | the fresh node with the successor's value, the old left child and the rebuilt right subtree replaces the node, and the old node's cell is untouched |
| Bst.BinarySearchTree.constructor | src/main/kotlin/edu/sokolov/bst/BinarySearchTree.kt:15-17 | a new tree is empty with size 0 |
| Bst.BinarySearchTree.Contains | src/main/kotlin/edu/sokolov/bst/BinarySearchTree.kt:35-38 | `contains(x)` is true exactly when x is an element |
| Bst.BinarySearchTree.Size | src/main/kotlin/edu/sokolov/bst/BinarySearchTree.kt:17-20 | `size` is the number of elements |
| Bst.BinarySearchTree.Add | src/main/kotlin/edu/sokolov/bst/BinarySearchTree.kt:49-69 | returns true exactly when x was absent; the elements gain x, the tree is `Trees.Insert` of the old one and stays ordered, and size grows by one only on true |
| Bst.BinarySearchTree.RemoveNode | src/main/kotlin/edu/sokolov/bst/BinarySearchTree.kt:94-125 | the returned node and flag hold `Trees.RemoveNode` of the subtree; cells outside the subtree keep their fields; when x is not the node's value the node itself is returned; when it has two children the node returned is a fresh one holding the right subtree's minimum above the old left subtree, and the old node's cell is untouched |
| Bst.BinarySearchTree.RemoveLeft | src/main/kotlin/edu/sokolov/bst/BinarySearchTree.kt:95-97 | the descent to the left: the node itself is returned, its left field now points to the rebuilt subtree, and the whole is `Trees.RemoveNode` of the old subtree |
| Bst.BinarySearchTree.RemoveRight | src/main/kotlin/edu/sokolov/bst/BinarySearchTree.kt:98-100 | the descent to the right: the node itself is returned, its right field now points to the rebuilt subtree, and the whole is `Trees.RemoveNode` of the old subtree |
| Bst.BinarySearchTree.ReplaceBySuccessor | src/main/kotlin/edu/sokolov/bst/BinarySearchTree.kt:118-124 | the two-children case: the node returned is a fresh cell holding the right subtree's minimum, the old left child, and the right subtree with that minimum removed; the old node's cell is untouched, and the result is `Trees.RemoveNode` of the old subtree |
| Bst.BinarySearchTree.Remove | src/main/kotlin/edu/sokolov/bst/BinarySearchTree.kt:82-87 | returns true exactly when x was present; the elements lose x, the tree stays ordered and gets no taller, and size drops by one only on true; on false the tree and its root are unchanged |
| Bst.BinarySearchTree.First | src/main/kotlin/edu/sokolov/bst/BinarySearchTree.kt:280-286 | fails with NoSuchElement on an empty tree, and otherwise returns an element no larger than any other |
| Bst.BinarySearchTree.Last | src/main/kotlin/edu/sokolov/bst/BinarySearchTree.kt:288-294 | fails with NoSuchElement on an empty tree, and otherwise returns an element no smaller than any other |
| Bst.CurrentCell | src/main/kotlin/edu/sokolov/bst/BinarySearchTree.kt:193-194 | the cell of `currentNode` holds its value, and its child fields are non-null exactly when the subtree has those children |
| Bst.RemovedReplaceable | src/main/kotlin/edu/sokolov/bst/BinarySearchTree.kt:253 | what `removeNode` returns for `currentNode` uses only that node's subtree or new cells, so it may take the node's place |
| Bst.RelinkRoot | src/main/kotlin/edu/sokolov/bst/BinarySearchTree.kt:259 | with no parent, the removed node was the root, and the returned node becomes the whole tree |
| Bst.RelinkParent | src/main/kotlin/edu/sokolov/bst/BinarySearchTree.kt:254-258 | re-pointing the parent's child field that the values select puts the returned subtree in the removed node's place |
| Bst.ChildSide | src/main/kotlin/edu/sokolov/bst/BinarySearchTree.kt:255-258 | in an ordered tree a child hangs on its parent's right exactly when the parent's value is the smaller |
| Bst.RelinkFrame | src/main/kotlin/edu/sokolov/bst/BinarySearchTree.kt:255-258 | re-pointing the field that held the node leaves the rest of the tree as it was and puts the new subtree in |
| Bst.ParentOfCurrent | src/main/kotlin/edu/sokolov/bst/BinarySearchTree.kt:180-181 | the top of the parents stack is the parent of `currentNode`, on the side the values select, and lies outside its subtree |
| Bst.RemoveAccounts | src/main/kotlin/edu/sokolov/bst/BinarySearchTree.kt:252-272 | after `remove`, the removal was found, the tree is `Trees.RemoveNode` of the old one at the value returned last (that value and one node fewer), and the stacks with the pushed nodes owe what they owed before |
| Bst.BinarySearchTreeIterator.constructor | src/main/kotlin/edu/sokolov/bst/BinarySearchTree.kt:155-157 | a new iterator owes the tree's whole in-order sequence and has returned nothing |
| Bst.BinarySearchTreeIterator.FillIterationStack | src/main/kotlin/edu/sokolov/bst/BinarySearchTree.kt:159-175 | both stacks gain the left spine of the subtree, root first |
| Bst.BinarySearchTreeIterator.ParentOfCurrentNode | src/main/kotlin/edu/sokolov/bst/BinarySearchTree.kt:180-181 | null exactly when `currentNode` is the root, and otherwise a node that has `currentNode` as left or right child |
| Bst.BinarySearchTreeIterator.HasNext | src/main/kotlin/edu/sokolov/bst/BinarySearchTree.kt:193-195 | true exactly when something is still owed, that is, when `next` does not fail |
| Bst.BinarySearchTreeIterator.DescendRight | src/main/kotlin/edu/sokolov/bst/BinarySearchTree.kt:222-226 | after the pushes the stacks alone owe what was owed before, and nothing changes when nothing is owed |
| Bst.BinarySearchTreeIterator.PushRightSpine | src/main/kotlin/edu/sokolov/bst/BinarySearchTree.kt:222-226 | pushing `currentNode` on the parents stack and the right child's left spine on both keeps the invariant and what is owed |
| Bst.BinarySearchTreeIterator.PopCurrent | src/main/kotlin/edu/sokolov/bst/BinarySearchTree.kt:228-238 | the popped node's value is the first value owed, it is larger than the value returned before, and `currentNode` is set |
| Bst.BinarySearchTreeIterator.PopParents | src/main/kotlin/edu/sokolov/bst/BinarySearchTree.kt:231-232 | popping while the parents stack holds `currentNode` leaves exactly its ancestors |
| Bst.BinarySearchTreeIterator.Next | src/main/kotlin/edu/sokolov/bst/BinarySearchTree.kt:221-239 | fails with NoSuchElement and changes nothing when nothing is owed; otherwise returns the first value owed, which is larger than the previous one, and owes the rest; the values returned and kept, followed by those still owed, are strictly increasing |
| Bst.BinarySearchTreeIterator.LinkReplacement | src/main/kotlin/edu/sokolov/bst/BinarySearchTree.kt:254-259 | the node `removeNode` returned takes the removed node's place under its parent, or as the root |
| Bst.BinarySearchTreeIterator.LinkToParent | src/main/kotlin/edu/sokolov/bst/BinarySearchTree.kt:254-258 | the parent's child field chosen by comparing values now points to the returned node |
| Bst.BinarySearchTreeIterator.ReplaceCurrent | src/main/kotlin/edu/sokolov/bst/BinarySearchTree.kt:253-259 | `removeNode` on `currentNode` always finds its value, the tree holds its result in that node's place, and size drops by one |
| Bst.BinarySearchTreeIterator.UnlinkCurrent | src/main/kotlin/edu/sokolov/bst/BinarySearchTree.kt:252-268 | the new tree is `Trees.RemoveNode` of the old one at the value returned last, so it lost exactly that value and is no taller; the stacks, once extended by the pushes, owe what was owed before |
| Bst.BinarySearchTreeIterator.PushStacks | src/main/kotlin/edu/sokolov/bst/BinarySearchTree.kt:261-266 | pushes the replacing node when there were two children, the right child's left spine when there was only that, and nothing otherwise |
| Bst.BinarySearchTreeIterator.PushReplacement | src/main/kotlin/edu/sokolov/bst/BinarySearchTree.kt:261-271 | after the pushes and `currentNode = null` the iterator invariant holds again |
| Bst.BinarySearchTreeIterator.Remove | src/main/kotlin/edu/sokolov/bst/BinarySearchTree.kt:252-272 | fails with IllegalState and changes nothing with no current node; otherwise the new tree is `Trees.RemoveNode` of the old one at the value returned last (that value gone, no taller), size drops by one, the iterator owes what it owed before and forgets the current node; the values returned and kept, followed by those still owed, are strictly increasing |
| Traversal.InitInv | src/main/kotlin/edu/sokolov/bst/BinarySearchTree.kt:155-157 | the left spine of the tree on both stacks satisfies the invariant and owes the whole in-order sequence |
| Traversal.Forget | src/main/kotlin/edu/sokolov/bst/BinarySearchTree.kt:222-226 | with no right child, dropping `currentNode` keeps the invariant and what is owed |
| Traversal.Advance | src/main/kotlin/edu/sokolov/bst/BinarySearchTree.kt:222-226 | pushing the right child's left spine keeps the invariant and what is owed |
| Traversal.PopStep | src/main/kotlin/edu/sokolov/bst/BinarySearchTree.kt:228-233 | the top of the stack is the next value owed; its path is a prefix of the parents stack, and after popping it the invariant holds with it as `currentNode` |
| Traversal.CutParents | src/main/kotlin/edu/sokolov/bst/BinarySearchTree.kt:231-232 | popping until `currentNode` is gone leaves its path less itself |
| Traversal.ReturnedInOrder | src/main/kotlin/edu/sokolov/bst/BinarySearchTree.kt:209-215 | each value returned is larger than the one returned before it |
| Traversal.ScanIncreasing | src/main/kotlin/edu/sokolov/bst/BinarySearchTree.kt:209-215 | whatever `next` and `remove` have done, the values returned and kept, followed by the values still owed, are strictly increasing |
| Traversal.RemainingEmpty | src/main/kotlin/edu/sokolov/bst/BinarySearchTree.kt:193-195 | something is owed exactly when the stack is non-empty or `currentNode` has a right child |
| Traversal.PushedOwes | src/main/kotlin/edu/sokolov/bst/BinarySearchTree.kt:261-266 | what `remove` pushes owes exactly the removed node's right subtree |
| Traversal.RemoveInv | src/main/kotlin/edu/sokolov/bst/BinarySearchTree.kt:252-272 | after the relinking and the pushes the invariant holds with the last returned value taken out, and the same values are owed |
| Clients.Scan | src/main/kotlin/edu/sokolov/bst/BinarySearchTree.kt:209-239 | `hasNext`/`next` on a fresh iterator return the elements exactly once each, in strictly increasing order |
| Clients.Pull | src/main/kotlin/edu/sokolov/bst/BinarySearchTree.kt:221-239 | one `next` moves the first owed value to the returned ones |
| Clients.RemoveAll | src/jmh/kotlin/edu/sokolov/bst/impl/BSTAllElementsRemovalIteratorBenchmark.kt:12-15 | the `hasNext`/`next`/`remove` loop ends with an empty, valid tree of size 0 |

## Left out

- The bounded iterator (`lowerBound`, `fromElement`, `upperBound`,
  `toElementExclusively`, the bound tests in `fillIterationStack` and
  `hasNext`, and `hasLeftNodesInBound`) is left out. Only `iterator()`
  builds an iterator, and it passes no bounds; `subSet`, `headSet` and
  `tailSet` are `TODO()`.
- `comparator()` (it always returns null) and the members inherited from
  `AbstractMutableSet` are left out.
- The JMH harness is left out, except for the remove-all loop that
  `Clients.RemoveAll` models.
- `Comparable<T>` is modelled as `int` with `<`.
- `_size` is an unbounded integer; 32-bit overflow of `Int` is not modelled.
- Cells that no longer belong to the tree stay in the arena. The JVM
  garbage collector is not modelled.
- `java.util.Stack` synchronisation is left out, and so is any concurrent
  mutation of the tree. Because of that, the `ConcurrentModificationException`
  branch of the iterator's `remove` is not modelled as an outcome:
  `ReplaceCurrent` proves that `removeNode` always finds the current
  node's value.
- Bst.BinarySearchTreeIterator.ReplaceCurrent: decrements `size` before
  the pushes of `remove`, where the Kotlin code decrements it after them.
  The pushes do not read `size`, so the final state is the same.
- Exceptions are results: `NoSuchElementException` and
  `IllegalStateException` become `Failure(NoSuchElement)` and
  `Failure(IllegalState)`. On failure, `next` leaves `currentNode` as it
  was, as the Kotlin code does.
- JVM `assert` statements in `add` become proof obligations: the model
  asserts that the child slot written is empty.
