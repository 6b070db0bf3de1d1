# Binary heaps, heapsort and priority queues in Dafny

This project models the core of a small Python heap library:

- the array-backed binary heap `Heap` with its two orderings `MinHeap` and `MaxHeap` (`heap.py`);
- the two priority queues built on it, `PriorityQueue` and `MaxPriorityQueue` (`priority_queue.py`);
- the two heapsorts, `heapsort` and `heapsort_inplace` with `_sift_down_inplace` (`heapsort.py`);
- the quicksort (Lomuto partition) and mergesort that the benchmark times beside heapsort (`analysis_heap.py`).

The model follows the shape of the source:

- `Heap` is a class whose Python list `self.heap` is a `seq` field that every swap reassigns.
- The priority queues are classes holding a `Heap` of `(priority, stamp, item)` entries and a counter.
- The in-place sorts work on an `array<int>`, swapping cells as the source does.
- `heapsort` and `build_heap` take their list by value (the source copies it), so they take a `seq`.

Python's duck-typed `<` is an explicit comparator `lt` paired with the heap's `is_min` flag (`Orders.Order`). `_compare` is `Order.Compare`. The heap lemmas assume that `lt` is a strict weak order, which holds for `<` on integers and for the lexicographic tuple comparison of queue entries. `IndexError` is the `Err` case of a `Result`, and a heap or queue that raised it is unchanged.

Files:

- `orders.dfy`: comparators, results, sortedness, reversal.
- `heap_theory.dfy`: the implicit tree (`_parent`, `_left_child`, `_right_child`) and the heap property on a live prefix. It also holds the step lemmas that the sift loops keep.
- `arrays.dfy`: the tuple swap `a[i], a[j] = a[j], a[i]` and facts about permutations.
- `heap.dfy`: `Heap`, with a `Drain` loop for the extract-until-empty pattern and the equivalence of `build_heap` with repeated `insert`.
- `priority_queue.dfy`: both priority queues and the worked priority-queue scenarios.
- `heapsort.dfy`: both heapsorts.
- `baseline_sorts.dfy`: quicksort, partition and mergesort.

## Model

| member | source | states |
|---|---|---|
| Orders.Order.Compare | heap.py:19-24 | `_compare`: `a` belongs above `b`, smaller in a min-heap and larger in a max-heap; what it means as an order is stated by `Orders.CompareIsStrictWeak` |
| Orders.CompareIsStrictWeak | heap.py:19-24 | over a strict weak `<`, nothing is above itself, "above" is transitive and never holds both ways, and the max-heap comparison is the min-heap one with its arguments swapped |
| Orders.SortedUnique | analysis_heap.py:155-166 | two ascending sequences holding the same elements are equal |
| Orders.Reverse | heapsort.py:34-35 | the result has the same length and holds the input back to front, so it is a permutation of the input |
| HeapTheory.Parent | heap.py:26-28 | the parent of a non-root node is an earlier index of which the node is the left or the right child |
| HeapTheory.LeftChild | heap.py:30-32 | the left child of a node is a later index, and an odd one |
| HeapTheory.RightChild | heap.py:34-36 | the right child of a node is a later index, and an even one |
| HeapTheory.ChildrenOfParent | heap.py:26-36 | both children of a node have it as parent, and only they do |
| HeapTheory.ParentForm | heap.py:154-177 | checking every node against its two children, as `is_valid_heap` does, is the same as checking every child against its parent |
| HeapTheory.RootIsExtreme | heap.py:208-217 | in a heap no element sits above the root: the root of a min-heap is a minimum, the root of a max-heap a maximum |
| HeapTheory.RootAboveAll | heap.py:116-129 | every element of a non-empty heap is not above its root |
| HeapTheory.MoreExtreme | heap.py:60-70 | the index chosen by the two comparisons of a sift-down round is the node itself or one of its children inside the live size |
| HeapTheory.MoreExtremeIsAbove | heap.py:60-74 | the chosen child sits above the node unless the node was chosen, and no child sits above the chosen element |
| HeapTheory.SubtreeChild | heap.py:30-36 | a child lies in the subtree rooted at `r` exactly when it is `r` or its parent lies there |
| HeapTheory.SwapInSubtree | heap.py:76-78 | swapping a node of the subtree with one of its children changes no cell outside the subtree |
| HeapTheory.SubtreeKeepsSuffix | heap.py:143-144 | when the subtree rooted at `r` has become a heap and nothing outside it moved, every node from `r` on is ordered if every node after `r` was, as the bottom-up loops need |
| HeapTheory.SiftDownStep | heap.py:76-78 | swapping a node with its most extreme child, when that child is above it, keeps every other node of the subtree rooted at the start index ordered and moves the only misplaced node down to the child |
| HeapTheory.SiftDownStop | heap.py:72-74 | when the node is ordered against its children, the whole subtree rooted at the start index is a heap |
| HeapTheory.SiftDownRound | heap.py:59-78 | one round of sift-down either stops with the subtree a heap or swaps with the winning child and keeps the round invariant there |
| HeapTheory.SiftDownDone | heap.py:52-78 | the end state of a sift-down that made the subtree a heap, without moving anything outside it, has every node from the start index on ordered when every node after it was |
| HeapTheory.SiftUpStep | heap.py:46-50 | swapping a node with its parent, when it sits above the parent, keeps every other node below its parent and moves the only misplaced node up |
| HeapTheory.SiftUpStop | heap.py:46 | when the node is at the root or not above its parent, the heap property holds |
| HeapTheory.AppendStartsSiftUp | heap.py:85 | appending to a heap leaves only the new last leaf possibly out of place |
| HeapTheory.LastToRoot | heap.py:106-109 | moving the last leaf to the root leaves every node but the root ordered, and removes exactly the old root from the contents |
| Heaps.Heap.constructor | heap.py:9-17 | a new heap is empty and keeps the comparison and the `is_min` flag it was given |
| Heaps.Heap.Min | heap.py:208-211 | `MinHeap()` is an empty heap with `is_min` set |
| Heaps.Heap.Max | heap.py:214-217 | `MaxHeap()` is an empty heap with `is_min` cleared |
| Heaps.Heap.SiftUp | heap.py:38-50 | only permutes the heap; when every node but `index` is below its parent and `index`'s children are below `index`'s parent (as after `append`, where `index` is a leaf), the heap property holds afterwards |
| Heaps.Heap.SiftDown | heap.py:52-78 | only permutes, and changes no cell outside the subtree rooted at `index`; when both child subtrees of `index` were heaps, the subtree rooted at `index` is a heap afterwards; when every node after `index` was ordered, every node from `index` on is |
| Heaps.Heap.Insert | heap.py:80-86 | the heap stays valid, grows by one and holds the old contents plus the new value |
| Heaps.Heap.Extract | heap.py:88-114 | on an empty heap, `IndexError` and no change; otherwise it returns the old root, which no element was above, and the heap stays valid holding the old contents minus that one element |
| Heaps.Heap.Peek | heap.py:116-129 | `IndexError` on an empty heap; otherwise the root, which no element is above |
| Heaps.Heap.BuildHeap | heap.py:131-144 | the result is a valid heap holding exactly the elements of the given list |
| Heaps.Heap.Size | heap.py:146-148 | the number of stored elements |
| Heaps.Heap.IsEmpty | heap.py:150-152 | true exactly when the size is zero |
| Heaps.Heap.IsValidHeap | heap.py:154-177 | true exactly when every node is ordered against its children |
| Heaps.Drain | analysis_heap.py:35-39 | extracting until empty yields all the heap's elements, each not above the one before it: ascending from a min-heap, descending from a max-heap |
| Heaps.BuildMatchesInserts | analysis_heap.py:155-166 | filling a min-heap by inserting the elements of a list one at a time and filling one with `build_heap` give heaps that drain to the same sequence, the list's elements in ascending order |
| PriorityQueues.EntryLess | priority_queue.py:25-27 | the tuple `<` on `(priority, counter, item)` that both queues store (the max queue stores `-counter`, priority_queue.py:96): a smaller priority always comes first, a larger one never does, and equal priorities are decided by the counter |
| PriorityQueues.StampsDecide | priority_queue.py:25-27 | with distinct counters, two different stored tuples are ordered one way or the other by `(priority, counter)`, so the tuple comparison never reaches the items |
| PriorityQueues.NextIsUnique | priority_queue.py:41-45 | at most one stored entry leaves first, so `dequeue` and `peek` depend only on the contents |
| PriorityQueues.RootIsNext | priority_queue.py:44 | the root of a heap of distinct-counter entries is the entry that leaves first |
| PriorityQueues.AddKeepsDistinct | priority_queue.py:27-28 | storing an entry with a fresh counter keeps the counters distinct |
| PriorityQueues.RemoveKeepsDistinct | priority_queue.py:44 | removing an entry keeps the counters distinct |
| PriorityQueues.PriorityQueue.constructor | priority_queue.py:11-14 | an empty queue whose counter is 0 |
| PriorityQueues.PriorityQueue.Enqueue | priority_queue.py:16-28 | the contents grow by exactly `(priority, counter, item)` and the counter advances by one |
| PriorityQueues.PriorityQueue.Dequeue | priority_queue.py:30-45 | `IndexError` on an empty queue, which stays unchanged; otherwise it removes the entry with the smallest priority, earliest among equals, and returns its item, the one `peek` showed |
| PriorityQueues.PriorityQueue.Peek | priority_queue.py:47-62 | `IndexError` on an empty queue; otherwise the item of the entry that leaves first |
| PriorityQueues.PriorityQueue.IsEmpty | priority_queue.py:64-66 | true exactly when the size is zero |
| PriorityQueues.PriorityQueue.Size | priority_queue.py:68-70 | the number of stored entries |
| PriorityQueues.MaxPriorityQueue.constructor | priority_queue.py:79-83 | an empty queue whose counter is 0 |
| PriorityQueues.MaxPriorityQueue.Enqueue | priority_queue.py:85-97 | the contents grow by exactly `(priority, -counter, item)` and the counter advances by one |
| PriorityQueues.MaxPriorityQueue.Dequeue | priority_queue.py:99-114 | `IndexError` on an empty queue, which stays unchanged; otherwise it removes the entry with the largest priority, earliest among equals, and returns its item, the one `peek` showed |
| PriorityQueues.MaxPriorityQueue.Peek | priority_queue.py:116-131 | `IndexError` on an empty queue; otherwise the item of the entry that leaves first |
| PriorityQueues.MaxPriorityQueue.IsEmpty | priority_queue.py:133-135 | true exactly when the size is zero |
| PriorityQueues.MaxPriorityQueue.Size | priority_queue.py:137-139 | the number of stored entries |
| PriorityQueues.TaskOrderExample | analysis_heap.py:109-135 | tasks A to E enqueued with priorities 5, 1, 3, 2, 4 are dequeued as B, D, C, E, A |
| PriorityQueues.EqualPriorityMinExample | priority_queue.py:25-28 | two items enqueued with the same priority leave the min queue in arrival order |
| PriorityQueues.EqualPriorityMaxExample | priority_queue.py:94-97 | two items enqueued with the same priority leave the max queue in arrival order too, which the negated counter achieves |
| HeapSort.HeapSort | heapsort.py:5-37 | the result is sorted ascending and is a permutation of the input; inputs of length at most one come back unchanged |
| HeapSort.RootIsMax | heapsort.py:65-68 | the root of a max-heap prefix is the largest element of the prefix |
| HeapSort.ShrinkAfterSwap | heapsort.py:67-71 | after the root is swapped behind the prefix, every node of the shorter prefix except the root is ordered |
| HeapSort.Largest | heapsort.py:84-93 | the index picked is the node itself or a child inside the heap prefix that is strictly larger than the node, and no child inside the prefix is larger than the element picked |
| HeapSort.SiftDownInPlace | heapsort.py:74-101 | permutes the first `heap_size` cells and touches no cell outside the subtree rooted at `index` or from `heap_size` on; when both child subtrees of `index` were max-heaps, the subtree rooted at `index` is a max-heap afterwards; when every node after `index` was ordered, every node from `index` on is |
| HeapSort.HeapSortInPlace | heapsort.py:40-71 | the array ends up sorted ascending as a permutation of what it held; arrays of length at most one are untouched |
| HeapSort.ExtractStep | heapsort.py:66-71 | one extraction round: the heap prefix shrinks by one and stays a heap, the sorted suffix grows by one, and every element in front of it is at most every element in it |
| HeapSort.ExtractRound | heapsort.py:66-71 | the same round, stated on values |
| BaselineSorts.Partition | analysis_heap.py:245-254 | returns the pivot's final index inside `[low, high]`; every cell in front of it is at most the pivot and every cell behind it is greater; the range is permuted and nothing outside it changes |
| BaselineSorts.PartitionRound | analysis_heap.py:248-251 | one round of the partition loop keeps the "at most" and "greater" blocks and the pivot at `high`, and still only permutes |
| BaselineSorts.PartitionTake | analysis_heap.py:249-251 | swapping a small cell to the end of the "at most" block extends both blocks by one |
| BaselineSorts.PartitionPlacePivot | analysis_heap.py:252-253 | the final swap puts the pivot between the two blocks |
| BaselineSorts.QuickSort | analysis_heap.py:237-242 | sorts `[low, high]` ascending as a permutation of what it held and leaves every cell outside the range alone |
| BaselineSorts.QuickSortJoin | analysis_heap.py:239-242 | a partition followed by sorting both sides sorts the whole range as a permutation of the original |
| BaselineSorts.MergeOf | analysis_heap.py:266-285 | the merge has as many elements as both inputs together |
| BaselineSorts.MergeOfPermutes | analysis_heap.py:266-285 | the merge holds exactly the elements of both inputs |
| BaselineSorts.MergeOfSorted | analysis_heap.py:266-285 | merging two sorted sequences gives a sorted sequence |
| BaselineSorts.Merge | analysis_heap.py:266-285 | the three merge loops write exactly the merge of `left` and `right` into the array |
| BaselineSorts.MergeSort | analysis_heap.py:257-285 | the array ends up sorted ascending as a permutation of what it held; arrays of length at most one are untouched |

## Left out

- `visualize` and `_visualize_helper` build a text picture of the tree for printing. They change nothing and are not modelled.
- The timing, random-input and printing harness of `analysis_heap.py` is not modelled. This includes `compare_build_methods`, the benchmark tables and `compare_heapsort_methods` in `heapsort.py`. The complexity claims in the docstrings are not modelled either.
- Python's `<` is an explicit comparator, assumed to be a strict weak order. Elements that Python cannot compare, and the `TypeError` that comparing them would raise, are outside the model.
- Queue entries compare by `(priority, counter)` only. The item, the third tuple field, is never reached because counters are distinct in a queue (`PriorityQueues.StampsDecide`).
- Priorities are integers. Floating-point priorities are not modelled.
- Heaps.Heap.constructor: `Heap()` defaults `is_min` to `True`; Dafny has no default arguments, so the default form is `Heaps.Heap.Min`.
- Heaps.Heap.SiftUp: requires `index < len(heap)` (or `index == 0`). The source only calls it with the last index. A call with `index >= len(heap)` and `index > 0` would raise `IndexError` in the source, and that path is not modelled.
- Heaps.Heap.SiftUp: the heap property afterwards is promised only when every node but `index` is below its parent and `index`'s children are below `index`'s parent (as after `append`, where `index` is a leaf), which is what `insert` establishes. Called on an arbitrary list, it only permutes.
- Orders.Reverse: a value-level reversal, where `result.reverse()` reverses the list in place. The list is local to `heapsort`, so nothing else observes the difference.
- PriorityQueues.TaskOrderExample, PriorityQueues.EqualPriorityMinExample and PriorityQueues.EqualPriorityMaxExample: the task names are generic items rather than the strings of the test.
- BaselineSorts.Merge: takes `left` and `right` as values. In the source they are fresh copies that the merge only reads, so no aliasing with `arr` is lost.
- BaselineSorts.MergeSort: `arr[:mid]` and `arr[mid:]` become fresh arrays made by a helper, `Slice`.
- The loop bodies of `partition` and of the merge loops are helper methods (`PartitionRound`, `PutLeft`, `PutRight`). Each does what one iteration of the source does.
- The extraction loop body of `heapsort_inplace` is likewise the helper method `HeapSort.ExtractStep`.
- Python's unbounded integers need no wrap-around. Python's negative-index behaviour is outside the model: every index the modelled code uses is proved in range.
