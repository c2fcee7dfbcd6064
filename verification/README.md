# Binary search tree, modelled in Dafny

This project models `binary-search-tree.js`, a small binary search tree over
ordered values. The file holds a `Node` record and a `BinarySearchTree` class
with eight operations:

- insertion: `insert` (iterative) and `insertRecursively`;
- lookup: `find` (iterative) and `findRecursively`;
- traversal: `dfsPreOrder`, `dfsInOrder`, `dfsPostOrder` and the queue-driven `bfs`.

The tree is the immutable datatype `Trees.Tree = Leaf | Node(left, val, right)`.
`Leaf` is the absent child, the source's `null`. A tree whose root is `Leaf` is
the empty tree. Values are `int`, so `===`, `<` and `>` agree with one strict
total order. The binary-search-tree property is the predicate `Trees.IsBst`.
It is never assumed: the source's constructor accepts any root. Each property
that needs the property takes it as a precondition.

Modules follow the groups of operations in the source file:

- `Trees`: the datatype, its values (`Values`, `Bag`, `Size`) and the invariant.
- `Search`: `findRecursively` as a function and `find` as a loop, proved equal.
- `Insertion`: `insertRecursively` as a function and `insert` as a loop, proved equal.
  The loop records its descent as a path of frames and rebuilds the spine above the attach point.
- `Traversal`: the three depth-first orders. The source's accumulator form
  (`traverse` pushing onto `result`) is proved equal to the compositional definition.
- `LevelOrder`: `bfs` as a queue loop, and `Drain`, the same loop as a function.
  Both are proved equal to `LevelByLevel`, an independent row-by-row definition.
- `Scenario`: the worked example that inserts 8, 3, 10, 1, 6, 14, 4, 7 and 13, with
  each operation's result on it.

Operations return values instead of mutating the tree. `insert` returns the new
tree. `find` returns the subtree rooted at the matching node, or `None` for the
source's `undefined`. Because trees are values, a search cannot change the tree.

## Model

| member | source | states |
|---|---|---|
| Insertion.InsertRecursively | binary-search-tree.js:47-64 | the values after insertion are the old values plus `v`; a binary search tree stays one; if the descent meets `v` the tree is returned unchanged; otherwise exactly one absent child slot is filled with a childless node holding `v` (`AddsLeaf`), every existing node keeps its value and position, and that new node is where the descent for `v` ends; afterwards `v` is found |
| Insertion.AddsLeafGrowsByOne | binary-search-tree.js:49-51 | filling one absent slot with a new node adds exactly one node and exactly the value `v` |
| Insertion.Insert | binary-search-tree.js:16-43 | the iterative descent with attach-at-first-empty-slot returns exactly the tree the recursive variant returns, for every tree and value |
| Insertion.InsertSize | binary-search-tree.js:26-40 | on a binary search tree the node count rises by one exactly when `v` was absent, and a present `v` leaves the tree unchanged |
| Insertion.InsertIdempotent | binary-search-tree.js:38-40 | inserting the same value a second time changes nothing |
| Insertion.InsertAll | binary-search-tree.js:45-64 | a sequence of insertions adds exactly the inserted values and keeps a binary search tree one |
| Insertion.BuiltTreeFinds | binary-search-tree.js:84-95 | after inserting any sequence into the empty tree, the result is a binary search tree and a value is found exactly when it was inserted |
| Search.FindRecursively | binary-search-tree.js:86-95 | a result is a node of the tree whose value is `v`; the empty tree yields absent |
| Search.Find | binary-search-tree.js:68-82 | the iterative lookup returns exactly what the recursive lookup returns, for every tree and value |
| Search.FindCorrect | binary-search-tree.js:86-95 | on a binary search tree, lookup succeeds if and only if `v` is stored in the tree |
| Trees.BstHasNoDuplicates | binary-search-tree.js:14-15 | the invariant the class's name and comments promise: in a binary search tree no value is held by two nodes, so the number of distinct values equals the node count |
| Insertion.InsertKeepsValuesDistinct | binary-search-tree.js:38-40 | because an equal value ends the descent unchanged, inserting into a binary search tree yields a tree with one node per distinct value |
| Traversal.PreOrderTraverse | binary-search-tree.js:101-107 | the accumulator walk appends the pre-order sequence (node, left, right) to what was already recorded |
| Traversal.InOrderTraverse | binary-search-tree.js:116-122 | the accumulator walk appends the in-order sequence (left, node, right) to what was already recorded |
| Traversal.PostOrderTraverse | binary-search-tree.js:131-137 | the accumulator walk appends the post-order sequence (left, right, node) to what was already recorded |
| Traversal.DfsPreOrder | binary-search-tree.js:99-110 | the result is the pre-order sequence (node, left, right); it has one entry per node and starts with the root's value |
| Traversal.DfsInOrder | binary-search-tree.js:114-125 | the result is the in-order sequence (left, node, right); it has one entry per node, holds exactly the stored values, and is strictly ascending on a binary search tree |
| Traversal.DfsPostOrder | binary-search-tree.js:129-140 | the result is the post-order sequence (left, right, node); it has one entry per node and ends with the root's value |
| Traversal.TraversalsVisitEveryNode | binary-search-tree.js:99-140 | the three orders have one entry per node and equal multisets of values, so each is a rearrangement of the others |
| Traversal.InOrderSortedIffBst | binary-search-tree.js:114-125 | the in-order sequence is strictly ascending if and only if the tree is a binary search tree |
| LevelOrder.Bfs | binary-search-tree.js:144-156 | the result is the level-by-level order, empty for the empty tree, root first otherwise, one entry per node, and a rearrangement of the in-order sequence |
| LevelOrder.DrainRow | binary-search-tree.js:148-153 | draining a queue that starts with a whole row records that row's values and leaves the row's children after whatever followed it |
| LevelOrder.DrainIsLevelByLevel | binary-search-tree.js:148-153 | the first-in-first-out loop lists the tree row by row, left to right within a row |
| LevelOrder.DrainVisitsEveryNode | binary-search-tree.js:148-153 | the loop records each node of each queued tree exactly once |
| LevelOrder.ChildrenSize | binary-search-tree.js:151-152 | the children a visited node enqueues hold one node fewer than its subtree, so the loop ends |
| LevelOrder.ChildrenBag | binary-search-tree.js:150-152 | a visited node's value plus the values of the children it enqueues are exactly its subtree's values |
| LevelOrder.BfsAsWrittenFaultsOnEmptyTree | binary-search-tree.js:146-150 | as written, `bfs` on the empty tree dereferences the absent root and faults |
| LevelOrder.BfsAsWrittenAgreesOnNonEmpty | binary-search-tree.js:144-156 | on a non-empty tree the code as written and the guarded traversal give the same level-by-level order |
| Scenario.ExampleIsBuiltByInsertion | binary-search-tree.js:47-64 | inserting 8, 3, 10, 1, 6, 14, 4, 7, 13 into the empty tree builds the example tree, a binary search tree |
| Scenario.ExampleInOrder | binary-search-tree.js:114-125 | the example's in-order sequence is 1, 3, 4, 6, 7, 8, 10, 13, 14 |
| Scenario.ExamplePreOrder | binary-search-tree.js:99-110 | the example's pre-order sequence is 8, 3, 1, 6, 4, 7, 10, 14, 13 |
| Scenario.ExamplePostOrder | binary-search-tree.js:129-140 | the example's post-order sequence is 1, 4, 7, 6, 3, 13, 14, 10, 8 |
| Scenario.ExampleLevelOrder | binary-search-tree.js:144-156 | the example's level order is 8, 3, 10, 1, 6, 14, 4, 7, 13 |
| Scenario.ExampleSearches | binary-search-tree.js:86-95 | looking up 6 in the example yields the node with children 4 and 7; looking up 99 yields absent |

## Left out

- Object identity and in-place mutation are not modelled. `find` returns a live `Node`, and the insert methods relink `left`/`right` and `return this` for chaining (lines 21, 29, 35, 39, 62-63). Here insertion returns the new tree, and lookup returns the matching subtree as an `Option`.
- The constructor's arbitrary root (lines 10-12) is any `Tree` value. It does not establish `IsBst`, so no operation assumes it. Roots whose nodes are shared or link back into a cycle cannot be represented, because datatype values are finite trees. On a cycle the source's `find` loop (lines 71-79) and the `dfs*` recursions never end, and `bfs` keeps enqueueing the same nodes; the model says nothing about such inputs.
- The `Node` constructor's default arguments (lines 1-7) are the datatype constructor `Node(Leaf, v, Leaf)`.
- JavaScript comparison semantics are not modelled: mixed-type `<`, `NaN`, and the split between `===` in lookup and `<`/`>` in insertion. With `int` values these agree.
- Stack depth of the recursive variants and `module.exports` are not modelled.
- LevelOrder.Bfs: departs from the code on the empty tree on purpose. It returns `[]` instead of faulting; the code's fault is recorded under Findings.
- `LevelOrder.Drain` skips absent entries at the front of the queue. The loop never enqueues one, because it only pushes children that exist; the code as written, which faults on them, is `LevelOrder.DrainAsWritten`.

## Findings

| source | as written | input that shows it | evidently intended | confidence | as-written member | corrected member |
|---|---|---|---|---|---|---|
| binary-search-tree.js:146-150 | the queue is seeded with `this.root` unconditionally and the loop reads `current.val` | a tree with no root (`root` is `null`): the first turn reads `.val` of `null` and throws | `bfs` of the empty tree returns `[]` | high; not executed | LevelOrder.BfsAsWrittenFaultsOnEmptyTree | LevelOrder.Bfs |
