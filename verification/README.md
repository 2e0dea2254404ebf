# ED1-Atv2 in Dafny: an unbalanced binary search tree and six sorts

This project models the two components of ED1-Atv2 and proves properties of them.

**The tree (`bst.go`).** `BstNode` is an unbalanced binary search tree of integers that allows duplicates:
- a smaller value goes left and an equal or greater value goes right;
- `Add` and `Remove` change the nodes in place;
- `Search`, `Min`, `Max`, `Height`, `isBst`, `Size`, `Par` and the three depth-first walks are structural recursions;
- `PrintLevels` walks the tree breadth-first with a slice used as a queue.

**The sorts (`sorting.go`).**
- Selection, bubble (with early exit), insertion and quick sort (Lomuto `partition` with a random pivot) rearrange an array in place.
- `mergeSort` (with `merge`) and `countingSort` return a new sequence.

## Files

- `seqs.dfy` (module `Seqs`): facts about integer sequences shared by both components:
  - `Sorted`;
  - removing the first copy of a value;
  - inserting a value after its equals;
  - the even elements;
  - uniqueness of the sorted permutation.
- `tree.dfy` (module `BstTree`): the value model `datatype Tree = Nil | Node(left, value, right)`, which is what a possibly-nil `*BstNode` denotes. It holds:
  - the read-only operations as functions;
  - `Insert` and `Delete`, the functional meaning of `Add` and `Remove`;
  - the global ordering invariant `Ordered`;
  - the level-order specification;
  - the lemmas about all of these;
  - the run of the demo in `main`.
- `bst_node.dfy` (module `Bst`): `class BstNode` with the fields `left`, `value` and `right`.
  - Two ghost fields support the proofs: `Model` (the `Tree` the node denotes) and `Repr` (its footprint). `Valid()` ties them to the child links.
  - `Add` and `Remove` mutate the nodes and are proved against `Insert` and `Delete`.
  - `Min` and `Max` are methods because `Remove` calls `Min` on the heap.
  - `PrintLevels` is the queue loop, proved against `LevelOrder`.
- `sort_spec.dfy` (module `SortSpec`): the specifications the sorts are proved against:
  - `Merged`, a reference merge that fixes which side wins a tie;
  - `CountLess`, `CountEq` and `Rank`, the stable position of each input element, for counting sort.
- `sorting.dfy` (module `Sorting`): the sorts and the lemmas that carry their loop invariants.
  - The in-place sorts work on `array<int>`.
  - `Merge`, `MergeSort` and `CountingSort` work on `seq<int>`. `CountingSort` fills its count and output arrays with loops.

Some inner loops, loop bodies and branches of the Go functions are separate members here, each called from the member that models the whole function:
- `MinIndex`, `BubblePass`, `BubbleStep`, `InsertKey`, `Sweep` and `Swap`;
- `MaxOf`, `Tally`, `RunningTotals` and `PlaceBackward`;
- `AddLeft`, `AddRight`, `RemoveLeft`, `RemoveRight` and `ChildNodes`.

Points where the code behaves in a way worth stating outright:
- **Ties in `merge`.** `merge` takes the right element when the two heads are equal (`sorting.go:97`, `esquerda[i] < direita[j]`), so `merge` is not stable. `Merged` and `TieGoesRight` follow the code.
- **Empty trees and negative inputs.** `Min` and `Max` on a nil tree dereference nil, and `countingSort` with a negative value indexes its count array out of range; both panic in Go. The model states these inputs as preconditions, exactly where the code would fail.
- **Where the local check goes wrong.** A left-left grandchild larger than the top node fails the local check of `isBst`, because it is compared with its parent, which is smaller than the top node. A large left-right grandchild passes it although the tree is not ordered: `LocalCheckMissesGrandchild` builds that tree.
- **The demo's corrupted tree.** After its removals, the demo in `main` corrupts `root.left.right`, and `isBst` reports the corruption: `DemoCorruptionCaught` proves that the check returns false there.

## Model

| member | source | states |
|---|---|---|
| Bst.BstNode.constructor | bst.go:29 | `&BstNode{value: v}` is a valid leaf holding `v` |
| Bst.BstNode.Add | bst.go:25-41 | Add keeps the node structure valid (a finite tree, no sharing), allocates only fresh nodes, and leaves the tree `Insert(old tree, v)` |
| Bst.BstNode.AddLeft | bst.go:26-32 | a smaller value goes into the left subtree (a new leaf when it is nil); value and right subtree are unchanged |
| Bst.BstNode.AddRight | bst.go:33-40 | an equal or greater value goes into the right subtree (a new leaf when it is nil); value and left subtree are unchanged |
| BstTree.Insert | bst.go:25-41 | Add on a node never yields an empty tree |
| BstTree.InsertElems | bst.go:25-41 | Add adds exactly one copy of the value to the multiset of stored values |
| BstTree.InsertSize | bst.go:25-41 | Size grows by exactly one under Add |
| BstTree.InsertOrdered | bst.go:25-41 | Add preserves the ordering invariant left < node <= right, over whole subtrees |
| BstTree.InsertInOrder | bst.go:25-41 | on an ordered tree the added value enters the in-order walk after every value less than or equal to it (duplicates after existing copies) |
| BstTree.Search | bst.go:44-56 | a true answer means the value is stored; on an ordered tree Search is true exactly when the value is stored (nil gives false) |
| BstTree.Min | bst.go:59-64 | the leftmost value is stored in the tree and, when the tree is ordered, is at most every stored value |
| Bst.BstNode.Min | bst.go:59-64 | following left links returns the model's minimum |
| BstTree.Max | bst.go:67-72 | the rightmost value is stored in the tree and, when the tree is ordered, is at least every stored value |
| Bst.BstNode.Max | bst.go:67-72 | following right links returns the model's maximum |
| BstTree.MinMaxBound | bst.go:59-72 | on an ordered non-empty tree every stored value lies between Min and Max |
| BstTree.MinStartsInOrder | bst.go:59-64 | Min is the first value of the in-order walk |
| BstTree.PreOrder | bst.go:75-82 | the pre-order walk lists one value per node (Size of them) and starts with the root's value |
| BstTree.InOrder | bst.go:85-92 | the in-order walk lists one value per node (Size of them) |
| BstTree.PostOrder | bst.go:95-102 | the post-order walk lists one value per node (Size of them) and ends with the root's value |
| BstTree.PreOrderElems | bst.go:75-82 | the pre-order walk lists exactly the stored values |
| BstTree.InOrderElems | bst.go:85-92 | the in-order walk lists exactly the stored values |
| BstTree.PostOrderElems | bst.go:95-102 | the post-order walk lists exactly the stored values |
| BstTree.TraversalsArePermutations | bst.go:75-102 | the three depth-first walks are permutations of each other and of the stored values, each of length Size |
| BstTree.InOrderSorted | bst.go:85-92 | the in-order walk of an ordered tree is non-decreasing |
| Bst.PrintLevels | bst.go:105-128 | the queue loop emits exactly `LevelOrder` of the tree: depth by depth, left to right; nil emits nothing |
| Bst.DequeueStep | bst.go:113-126 | one round of the loop emits the dequeued node's value, then continues with the rest of the queue followed by its children, and the work left shrinks |
| Bst.DequeueKeepsValid | bst.go:113-126 | every node still in the queue after a round is a valid subtree |
| Bst.ChildNodes | bst.go:121-126 | a round enqueues at most two nodes, each a child of the dequeued node: the left child first when it exists, the right child last when it exists, and nothing for a leaf |
| Bst.ChildModels | bst.go:121-126 | the nodes enqueued in a round denote the node's existing subtrees, left before right |
| BstTree.QueueOrder | bst.go:113-127 | the FIFO walk over a queue of trees emits one value per node of the queued trees |
| BstTree.LevelOrder | bst.go:105-128 | the level-by-level order of a tree has one entry per node and starts with the root's value |
| BstTree.QueueOrderIsLevelOrder | bst.go:105-128 | the FIFO walk from the root equals the level-by-level order (roots of a row, then the row of their children) |
| BstTree.QueueOrderElems | bst.go:105-128 | the FIFO walk over a queue emits exactly the values stored in the queued trees |
| BstTree.LevelOrderIsPermutation | bst.go:105-128 | the level walk visits every node exactly once: a permutation of the stored values of length Size |
| BstTree.Height | bst.go:131-145 | the height is -1 exactly for the empty tree and always less than Size |
| BstTree.SizeBoundedByHeight | bst.go:131-145 | a tree of height h has fewer than 2^(h+1) nodes |
| Bst.BstNode.Remove | bst.go:148-178 | the returned root (nil when the subtree empties) is valid, uses only nodes of the old subtree, and denotes `Delete(old tree, v)` |
| Bst.BstNode.RemoveLeft | bst.go:154-155 | `n.left = n.left.Remove(v)` replaces the left subtree by its removal and keeps the node valid |
| Bst.BstNode.RemoveRight | bst.go:156-157 | `n.right = n.right.Remove(v)` replaces the right subtree by its removal and keeps the node valid |
| BstTree.Delete | bst.go:148-178 | on any tree, ordered or not, Remove changes Size by at most one and leaves the tree as it is when Search does not find the value |
| BstTree.DeleteElems | bst.go:148-178 | on an ordered tree Remove takes out exactly one copy of the value, or nothing when it is absent |
| BstTree.DeleteSize | bst.go:148-178 | on an ordered tree, Size drops by exactly one when the value is present and is unchanged otherwise |
| BstTree.DeleteOrdered | bst.go:148-178 | Remove preserves the ordering invariant |
| BstTree.DeleteInOrder | bst.go:148-178 | on an ordered tree Remove takes the first copy of the value out of the in-order walk |
| BstTree.SearchAfterDelete | bst.go:148-178 | on an ordered tree, after Remove(v), Search(v) is true exactly when v was stored at least twice |
| BstTree.SuccessorRemovalCutsLeftmost | bst.go:169-175 | removing the right subtree's minimum removes its leftmost node, which has no left child (the one-child case) |
| BstTree.IsBst | bst.go:181-202 | the local check, which compares each existing child with its own parent only, accepts every globally ordered tree |
| BstTree.OrderedPassesIsBst | bst.go:181-202 | every ordered tree passes the local isBst check |
| BstTree.LocalCheckMissesGrandchild | bst.go:181-202 | the converse fails: a left child's right child at or above the grandparent passes isBst though the tree is not ordered |
| BstTree.Size | bst.go:204-209 | Size is 0 exactly for the empty tree |
| BstTree.SizeCountsElems | bst.go:204-209 | Size is the number of stored values, counted with multiplicity |
| BstTree.Par | bst.go:211-221 | the count of even values is between 0 and Size |
| BstTree.ParCountsEvens | bst.go:211-221 | Par equals the number of even values in the pre-order walk |
| BstTree.Build | bst.go:225-231 | a tree built from a root by Add is a node holding that root value, with one node per value (the root and every added value) |
| BstTree.BuildOrdered | bst.go:225-231 | every tree built from one root by Add is ordered and passes isBst |
| BstTree.BuildElems | bst.go:225-231 | a tree built from one root by Add holds the root and exactly the added values |
| BstTree.DemoBuiltShape | bst.go:225-231 | the demo's ten Adds under root 50 give the expected three-level tree |
| BstTree.DemoRemovals | bst.go:261-282 | removing 10 (leaf), 20 (one child), 30 (two children) and 50 (root) leaves the tree 60[35[25, 40[-, 45]], 70[-, 80]] |
| BstTree.SetLeftRight | bst.go:295-297 | overwriting `root.left.right.value` sets that value when both nodes exist and keeps the size, the shape and every other value; the tree is unchanged otherwise |
| BstTree.SetLeftRightElems | bst.go:295-297 | the overwrite swaps one stored copy of the old value of `root.left.right` for the new value |
| BstTree.DemoCorruptionCaught | bst.go:291-298 | the demo's final tree passes isBst and the corrupted one (99 above its right child 45) does not |
| Sorting.SelectionSort | sorting.go:10-24 | the array ends sorted and a permutation of its old contents |
| Sorting.MinIndex | sorting.go:15-20 | the inner loop returns an index in [i, n) holding a smallest element of a[i..] |
| Sorting.SelectStep | sorting.go:13-23 | swapping the minimum to position i extends the sorted prefix of smallest elements to i + 1 |
| Sorting.BubbleSort | sorting.go:27-48 | the array ends sorted and a permutation of its old contents after at most n - 1 passes; an already sorted array is left unchanged and the early exit stops the sort after its first pass |
| Sorting.BubblePass | sorting.go:33-42 | a pass over a[..bound] permutes the array and moves the largest element to bound - 1 beside the sorted suffix; a pass that swaps nothing leaves a[..bound] sorted, and a pass over an already sorted a[..bound] swaps nothing and changes nothing |
| Sorting.BubbleStep | sorting.go:37-41 | a[j] and a[j + 1] are exchanged exactly when a[j] > a[j + 1] and every other cell keeps its value; the swapped flag becomes true exactly when this step swaps or an earlier one did; the running maximum moves to j + 1 |
| Sorting.InsertionSort | sorting.go:51-70 | the array ends sorted and a permutation of its old contents |
| Sorting.InsertKey | sorting.go:57-68 | shifting the greater elements right and dropping the key extends the sorted prefix by one, as a permutation, and leaves every cell after position i as it was |
| Sorting.Partition | sorting.go:135-159 | for any pivot index in [low, high]: p in [low, high] holds the old pivot value, a[low..p) <= a[p] < a(p..high], and only [low, high] is rearranged, as a permutation |
| Sorting.Swap | sorting.go:22 | the two cells trade values and every other cell keeps its value (the same tuple assignment as sorting.go:39, 140, 151 and 156) |
| Sorting.Sweep | sorting.go:144-153 | the loop leaves the elements not above the pivot in a[low..i], the greater ones in (i, high), and the rest untouched |
| Sorting.QuickSortRecursive | sorting.go:122-132 | a[low..high] ends sorted, a permutation of its old contents, with the rest of the array untouched |
| Sorting.QuickSortJoin | sorting.go:129-130 | sorted parts either side of a placed pivot make a sorted permutation of the range |
| Sorting.QuickSort | sorting.go:114-119 | the whole array ends sorted and a permutation of its old contents |
| Sorting.Merge | sorting.go:90-111 | the two-index loop computes exactly the reference merge `Merged` |
| SortSpec.MergedPermutation | sorting.go:90-111 | the merge has length equal to the sum of both lengths and holds both inputs' values |
| SortSpec.MergedSorted | sorting.go:90-111 | merging two sorted sequences gives a sorted sequence |
| SortSpec.TieGoesRight | sorting.go:97-103 | on equal heads the right head is taken first |
| Sorting.MergeSort | sorting.go:73-87 | the result is sorted and a permutation of the input; inputs of length at most one come back as they are |
| Sorting.CountingSort | sorting.go:162-202 | the result is sorted, a permutation of the input, and puts input element j at its stable rank; inputs of length at most one come back as they are |
| Sorting.MaxOf | sorting.go:169-174 | the first loop finds a stored value that bounds every element |
| Sorting.Tally | sorting.go:177-182 | count[v] becomes the number of occurrences of v |
| Sorting.RunningTotals | sorting.go:185-187 | count[v] becomes the number of elements at most v |
| Sorting.PlaceBackward | sorting.go:190-199 | the backward loop fills the output as the placement specification `OutputAfter` describes, and leaves count[v] at the number of elements smaller than v |
| Sorting.OutputSorted | sorting.go:190-199 | the filled output is sorted, a permutation, and holds every input element at its stable rank |
| SortSpec.RankInBlock | sorting.go:190-199 | an element's rank lies in its value's block [#smaller, #at most] |
| SortSpec.RankStable | sorting.go:190-199 | equal elements keep their input order: counting sort is stable |
| SortSpec.RankOrdered | sorting.go:190-199 | a smaller element gets a smaller rank |
| SortSpec.RankInjective | sorting.go:190-199 | no two input elements get the same output position |
| Seqs.SortedPermutationUnique | sorting.go:204-230 | two sorted permutations of the same values are equal, so all six sorts agree on every input |
| Sorting.DemoSorted | sorting.go:206 | any sorted arrangement of the demo's values [4, 2, 2, 8, 3, 3, 6, 6, 5, 1] is [1, 2, 2, 3, 3, 4, 5, 6, 6, 8] |

## Left out

- Printing: `fmt` output of the traversals and of both `main` functions is not modelled. The traversals are functions returning the emitted value sequence. `PrintLevels` returns the emitted sequence instead of printing it.
- Randomness and the clock: `rand.Seed(time.Now().UnixNano())` and `rand.Intn` are not modelled. `Partition` takes the pivot index as a parameter in [low, high]. `QuickSortRecursive` picks an arbitrary index in that range, so its contract holds for every choice the generator can make.
- The `ITree` interface (bst.go:5-16) is not modelled: it has one implementer and adds only indirection.
- Go slice aliasing is not modelled. `mergeSort` and `countingSort` return the input slice itself for length at most one, and the demo's `dataQuick := data` shares one backing array between the sorts. The model returns new sequences.
- Machine integers are not modelled: values, sizes and counts are unbounded integers, while Go's `int` is 64 bits wide (32 bits on 32-bit platforms) and wraps around. In particular, `make([]int, max+1)` in `countingSort` (sorting.go:177) wraps when `max` is the largest `int` and panics when `max` is too large to allocate; the model's `CountingSort` allocates `max + 1` cells for every non-negative `max`.
- Bst.BstNode.Min, Bst.BstNode.Max, BstTree.Min, BstTree.Max, BstTree.IsBst: a nil receiver dereferences nil and panics in Go, so these require a non-empty tree. `Add` on a nil receiver panics the same way, so it is a method of an existing node.
- Sorting.CountingSort: when there are at least two elements, it requires them all to be non-negative, because a negative value indexes the count array out of range (or makes its size negative) and panics in Go.
- The demo's printed results (heights, minimum, search answers, sizes) are not restated. The demo is modelled only through the tree it builds, its removals and its corruption check.
