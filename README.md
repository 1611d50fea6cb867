# Max-priority queue on a binary max-heap

A Dafny model of `priority_queue_project.py`, an array-backed binary
max-heap used as a max-priority queue (the CLRS chapter 6 design). The heap
is a list together with a logical size `heap_size`. The slots
`[0, heap_size)` are the live heap. The slots beyond it are leftovers that
extract-max leaves behind.

The model has four modules:

- `HeapIndex` (`heap_index.dfy`): the index arithmetic `Left`, `Right` and
  `Parent`. It also holds the max-heap property `IsMaxHeap` over the live
  range, the subtree relation `InSubtree`, and `SubHeap`, which says that the
  live part of one subtree is a max-heap. Lemmas relate these notions.
- `PriorityQueue` (`priority_queue.dfy`): class `HeapCapable`, which holds
  the list (`a: seq<int>`) and `heapSize`. Its methods are `MaxHeapify`,
  `BuildMaxHeap`, `ExtractMax`, `IncreaseKey` and `HeapInsert`, and it has
  the read-only function `Maximum`. Class `MaxPriorityQueue` builds a heap
  from an initial list. Each method is proved against `IsMaxHeap` and
  against the multiset of live elements (`Live()`). Each method also states
  exactly what happens to the slots beyond the live range.
- `AsWritten` (`as_written.dfy`): `increase_key` and `heap_insert` as their
  code literally reads. Lemmas exhibit the inputs on which they break the
  heap (see Findings).
- `QueueScenarios` (`queue_scenarios.dfy`): callers that rely only on the
  contracts. Two extractions in a row come out in non-increasing order. A
  queue built from `[5, 4, 7, 1, 3]` has maximum 7.

The storage is a `seq<int>` field that the methods reassign. The source's
list grows on `append`, so it is not a fixed-size buffer. `HeapInsert` grows
the sequence by one slot exactly when the live range fills it. Errors are
values. `Maximum` and `ExtractMax` return `Err(EmptyQueue)` on an empty
heap. `IncreaseKey` returns `Fail(InvalidKeyUpdate)` when the new key is
smaller, and in that case it writes nothing.

Deviations from the code, each deliberate:

- At line 129 the loop condition `A[parent(index) < A[index]]` compares an
  index with a value, then indexes the list with the boolean result. The
  model compares `A[parent(index)] < A[index]`, which is what the docstring
  at lines 116-117 promises. The expected arrays in the tests at lines 190
  and 217 put a smaller key at the root. They reflect the line-129 behaviour
  and are not used as postconditions.
- `heap_insert` appends at the physical end of the list but raises the key
  at slot `heap_size - 1`. The model writes the new key into slot
  `heap_size`. It appends only when that slot does not exist yet. The model
  has no `-math.inf` placeholder: it places the key directly and sifts it up
  (`SiftUp`, the loop of lines 129-131, shared with `IncreaseKey`).
- `extract_max` on an empty heap logs an error (line 106) and then carries
  on. On an empty list, reading `A[0]` at line 107 raises `IndexError`
  before `heap_size` changes. On a list that still holds leftovers, line 108
  overwrites `A[0]` with `A[-1]`, the last physical slot, `heap_size` drops
  to -1, and the stale `A[0]` is returned as if it were the maximum.
  `maximum` returns `A[0]` even when the heap is empty. The model returns
  `EmptyQueue` and changes nothing.

## Model

| member | source | states |
|---|---|---|
| `HeapIndex.Left` | priority_queue_project.py:19-28 | the parent of `left(i)` is `i`, and `left(i)` lies after `i` |
| `HeapIndex.Right` | priority_queue_project.py:30-39 | the parent of `right(i)` is `i`, and `right(i)` is the slot just after `left(i)` |
| `HeapIndex.Parent` | priority_queue_project.py:41-50 | `i` is the left or the right child of `parent(i)`; for `i > 0` the parent lies in `[0, i)`; `parent(0)` is -1, as the floor of -1/2 |
| `HeapIndex.MaxHeapIffParentDominates` | priority_queue_project.py:129 | the per-node max-heap property the docstrings name (each node is at least its live children) holds exactly when no live node exceeds its parent, the comparison the loop at this line intends |
| `HeapIndex.SubHeapAtRootIffMaxHeap` | priority_queue_project.py:52-54 | the subtree rooted at slot 0 is a max-heap exactly when the whole live range is one |
| `HeapIndex.SubHeapFromChildren` | priority_queue_project.py:64-69 | a node that is at least its live children, with max-heaps below both children, roots a max-heap (the no-swap exit of `max_heapify`) |
| `HeapIndex.SubHeapRootIsMax` | priority_queue_project.py:52-54 | the root of a max-heap subtree is at least every live node of that subtree |
| `HeapIndex.HeapRootIsMax` | priority_queue_project.py:88-95 | in a non-empty max-heap, slot 0 is at least every live element |
| `HeapIndex.SwapKeepsLive` | priority_queue_project.py:70 | swapping two live slots keeps the multiset of live elements |
| `PriorityQueue.HeapCapable.constructor` | priority_queue_project.py:11-17 | the heap holds the given list, and all of it is live |
| `PriorityQueue.HeapCapable.MaxHeapify` | priority_queue_project.py:52-71 | if the subtrees of both children are max-heaps, the subtree at `i` is one afterwards. The live multiset, `heap_size`, every slot outside the live part of the subtree, and every slot at or beyond `heap_size` are unchanged. Slot `i` ends up holding the largest of the node and its live children. The list is unchanged when the node already dominates its children (a swap happens only on a strictly greater child) |
| `PriorityQueue.HeapCapable.BuildMaxHeap` | priority_queue_project.py:73-80 | the live range becomes a max-heap and a permutation of the old live range. Slots beyond `heap_size` and `heap_size` itself are unchanged. A heap of 0 or 1 elements is left exactly as it was |
| `PriorityQueue.HeapCapable.Maximum` | priority_queue_project.py:88-95 | on a non-empty heap it returns a live element that, in a max-heap, is at least every live element. On an empty heap it returns `EmptyQueue`. It reads nothing but the heap |
| `PriorityQueue.HeapCapable.ExtractMax` | priority_queue_project.py:98-111 | on a non-empty max-heap it returns the old `A[0]`, which is at least every old live element. It decrements `heap_size` by one, removes exactly one copy of the returned value from the live multiset, keeps the max-heap property, and leaves the vacated slot and those beyond it unchanged. On an empty heap it returns `EmptyQueue` and changes nothing |
| `PriorityQueue.HeapCapable.SiftUp` | priority_queue_project.py:129-131 | from a heap whose only faulty link is between slot `i` and its parent, swapping upward while the parent is smaller yields a max-heap with the same live multiset, `heap_size` and trailing slots |
| `PriorityQueue.HeapCapable.IncreaseKey` | priority_queue_project.py:115-131 | a key smaller than `A[index]` is refused with `InvalidKeyUpdate` and the list is untouched. Otherwise the live multiset has one `A[index]` replaced by the new key, the max-heap property holds, and `heap_size` and the trailing slots are unchanged |
| `PriorityQueue.HeapCapable.HeapInsert` | priority_queue_project.py:133-143 | `heap_size` grows by exactly one, the live multiset gains exactly one copy of the new key, the max-heap property holds, and storage grows by one slot only when it was full |
| `PriorityQueue.MaxPriorityQueue.constructor` | priority_queue_project.py:82-85 | the queue's heap is a fresh max-heap over all of the initial list, holding the same multiset, with storage exactly as long as the list |
| `PriorityQueue.SiftDownFrame` | priority_queue_project.py:69-71 | a swap with the largest child followed by the recursive sift-down changes nothing outside the subtree, and leaves that child's old value at `i` |
| `PriorityQueue.SiftDownOrdered` | priority_queue_project.py:69-71 | after the swap and the recursive sift-down, the subtree at `i` is a max-heap |
| `PriorityQueue.SwapDownKeepsGrandchildren` | priority_queue_project.py:69-71 | swapping a node with its largest child keeps the live multiset and leaves the subtrees below that child max-heaps, which is what the recursive call needs |
| `PriorityQueue.UntouchedBesideChild` | priority_queue_project.py:69-71 | a sift-down that swaps with one child leaves every live slot under the other child as it was |
| `PriorityQueue.KeptBesideSiftDown` | priority_queue_project.py:79-80 | if every subtree rooted after `i` was a max-heap, then after a sift-down at `i` every subtree rooted at `i` or later is one: the build loop's invariant |
| `PriorityQueue.MoveLastToRoot` | priority_queue_project.py:107-110 | moving the last live element to the root and shrinking the range removes one copy of the old root from the live multiset, and keeps both subtrees under the root max-heaps |
| `PriorityQueue.SwapUpStep` | priority_queue_project.py:129-131 | one upward swap moves the single faulty link one level up, and keeps the live multiset and the trailing slots |
| `PriorityQueue.RaisedKeyBreaksOnlyUpward` | priority_queue_project.py:128 | raising a key in a max-heap can break only the link from that slot to its parent |
| `PriorityQueue.PlaceAfterLive` | priority_queue_project.py:141-143 | writing a key into the slot just after a max-heap's live range, by appending or by overwriting a leftover, can break only the link from that slot to its parent. The live multiset gains exactly that key, and the slots after it are unchanged |
| `AsWritten.SiftUpAsWritten` | priority_queue_project.py:129-131 | the list keeps its length; while `index > 0` and `A[parent(index) < A[index]]` is non-zero, it swaps `A[index]` with its parent and moves up |
| `AsWritten.SiftUpAsWrittenPermutes` | priority_queue_project.py:129-131 | the loop as written only swaps, so it permutes the list whatever its condition tests |
| `AsWritten.IncreaseKeyAsWritten` | priority_queue_project.py:125-131 | as written, the list keeps its length, and a smaller key leaves it unchanged |
| `AsWritten.IncreaseKeyAsWrittenReplaces` | priority_queue_project.py:125-131 | as written, a key at least `A[index]` replaces exactly one copy of `A[index]` in the list |
| `AsWritten.HeapInsertAsWritten` | priority_queue_project.py:141-143 | as written, with a placeholder no larger than the new key, `heap_size` and the list length each grow by one |
| `AsWritten.HeapInsertAsWrittenWhenFull` | priority_queue_project.py:141-143 | as written, when `heap_size` equals the list length and the key is above the placeholder, the live multiset gains exactly the new key |
| `AsWritten.LoopConditionBreaksHeap` | priority_queue_project.py:129 | raising slot 1 of the max-heap `[5, 3]` to 4 yields `[4, 5]`, which is not a max-heap |
| `AsWritten.InsertAsWrittenRevivesLeftover` | priority_queue_project.py:141-143 | when `heap_size` is below the list length and the leftover at slot `heap_size` exceeds the new key, the leftover becomes live instead of the new key |
| `AsWritten.InsertAfterExtractLosesKey` | priority_queue_project.py:141-143 | inserting 3 into `[5, 5]` with heap size 1 (what extracting from `[9, 5]` leaves) gives a heap without 3 |
| `QueueScenarios.ExtractTwiceInOrder` | priority_queue_project.py:169-173 | two successive extractions from a max-heap of at least two elements come out in non-increasing order and remove exactly those two elements |
| `QueueScenarios.MaximumOfBuiltQueue` | priority_queue_project.py:149-157 | a queue built from `[5, 4, 7, 1, 3]` has maximum 7 |

## Findings

| source | as written | input that shows it | evidently intended | confidence | as-written member | corrected member |
|---|---|---|---|---|---|---|
| priority_queue_project.py:129 | `while index > 0 and A[ parent( index ) < A[ index ] ]` compares the parent's index with the child's value and tests whether `A[0]` or `A[1]` is non-zero | the max-heap `[5, 3]` with `increase_key(A, 1, 4)` ends as `[4, 5]` | compare `A[parent(index)] < A[index]` | high; not executed | `AsWritten.LoopConditionBreaksHeap` | `PriorityQueue.HeapCapable.IncreaseKey` |
| priority_queue_project.py:141-143 | appends the placeholder at the physical end of the list, then raises the key at slot `heap_size - 1` | `extract_max` on `[9, 5]` leaves `[5, 5]` with heap size 1. `heap_insert(A, 3)` then refuses to raise the stale 5 to 3, so the live heap is `[5, 5]` and 3 is lost | write the new key into slot `heap_size` | high; not executed | `AsWritten.InsertAfterExtractLosesKey` | `PriorityQueue.HeapCapable.HeapInsert` |

## Left out

- The `unittest` class and `main` (lines 145-312) are test harness code. Two
  of their scenarios are restated in `QueueScenarios`.
- The `logging.error` calls (lines 106 and 126) are output only. The model
  returns `EmptyQueue` or `InvalidKeyUpdate` instead.
- Keys are unbounded integers. The float `-math.inf` placeholder is replaced
  by direct placement. The float division inside `math.floor` at line 50 is
  exact integer division here. For indices beyond 2^53 a float would round,
  and the model does not reproduce that rounding.
- `HeapCapable` subclasses Python's `list`, so any list operation can reach
  the storage. The model exposes only the operations above. The
  `MaxPriorityQueue` wrapper is kept as a constructor only.
- `PriorityQueue.HeapCapable.IncreaseKey`: requires `index < heap_size`. The
  source does not check this. It reads and writes any index of the list,
  including leftover slots.
- `PriorityQueue.HeapCapable.IncreaseKey`, `ExtractMax` and `HeapInsert`:
  require a max-heap on entry, as their docstrings state. What the code does
  on a list that is not a heap is not modelled.
- `PriorityQueue.HeapCapable.Maximum`: on an empty heap the code returns
  `A[0]` (or raises `IndexError` on an empty list). The model returns
  `EmptyQueue`.
