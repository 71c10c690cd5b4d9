# parallel_sort: a verified sequential model

`parallel_sort(begin, end)` sorts a random-access range in place. It uses a
work list of pending sub-ranges that several threads drain together. A worker
pops a range from a mutex-guarded stack. A range of fewer than 10 elements is
sorted directly with `std::sort`. A larger range is split: `std::nth_element`
puts the sorted-order element at its midpoint `first + size / 2`, and the two
sides `[first, mid)` and `[mid + 1, last)` are pushed back. Every worker records
in a table keyed by thread id whether its last step found work. A worker stops
once `done()` sees every recorded flag set.

This project models that engine with a single worker, the calling thread.

- `synchronized_stack.dfy`: the stack, as a class over a sequence whose last
  element is the top.
- `std_algorithms.dfy`: verified stand-ins for `std::sort` (insertion sort) and
  `std::nth_element` (quickselect over a Lomuto partition), on an `array<int>`.
- `work_list.dfy`: ranges, the threshold, the effect of one chunk step on
  values (`ChunkStep`), and the invariant the worker loop keeps (`Inv`):
  - pending ranges lie inside the sequence and are pairwise disjoint;
  - sorting a pending range on its own yields the final elements of those
    positions;
  - every position outside all pending ranges already holds its final element.
- `sort_spec.dfy`: what "sorted" means, and the reference sort `SortSeq`. It is
  the unique sorted rearrangement of its input (`SortedUnique`), so it stands
  for the result of `std::sort` on that input. This is the comparison the test
  driver makes in `test.cpp`.
- `parallel_sort.dfy`: `ParallelSorter` with `process_chunk`, `do_sort`,
  `done` and `sort`, and the `parallel_sort` entry point.

Iterators are modelled as indices into the one array the sorter holds. Elements
are `int`, the element type `test.cpp` sorts. The thread id that keys the
liveness table becomes an explicit `WorkerId` parameter (`self`). The calling
thread uses `Caller`.

Two edge cases of the code shape the model:

- `sort` pushes `[begin, end)` even when it is empty (parallel_sort.h:48). The
  empty range is popped and sorted like any other, so the termination measure
  is lexicographic: popping an empty range still counts as progress.
- `done()` returns `true` on an empty table (parallel_sort.h:65-74), and `Done`
  does too.

## Model

| member | source | states |
|---|---|---|
| Stack.SynchronizedStack.constructor | parallel_sort.h:17-39 | a new stack is empty |
| Stack.SynchronizedStack.Push | parallel_sort.h:20-23 | the value becomes the new top; the rest of the stack is as before |
| Stack.SynchronizedStack.Pop | parallel_sort.h:25-34 | on an empty stack: reports false and leaves both the stack and the caller's value alone; otherwise: reports true, hands back the old top and removes exactly that element |
| Stack.PushThenPop | parallel_sort.h:20-34 | LIFO: a pop right after a push succeeds, returns the pushed value and restores the previous stack |
| StdAlgorithms.InsertionSort | parallel_sort.h:100 | stand-in for `std::sort`: the range becomes a sorted rearrangement of itself, equal to the reference sort of its old contents; positions outside it are unchanged; the array's multiset is kept |
| StdAlgorithms.InsertInto | parallel_sort.h:100 | one insertion step: a sorted prefix extended by one element stays sorted; the multiset is kept; nothing outside the prefix moves |
| StdAlgorithms.Partition | parallel_sort.h:106 | the pivot lands at `p`; nothing before it in the range is larger and nothing after it is smaller; only the range changes, by rearrangement |
| StdAlgorithms.NthElement | parallel_sort.h:106 | stand-in for `std::nth_element`: the range becomes a rearrangement of itself; the element at `nth` is the one the reference sort puts there; nothing before it is larger and nothing after it is smaller; positions outside the range are unchanged |
| StdAlgorithms.SelectedIsSorted | parallel_sort.h:106 | after selection, the element at the selected position equals the reference sort's element at that offset |
| ParallelSorting.ParallelSorter.constructor | parallel_sort.h:114-117 | a new sorter has an empty stack and an empty liveness table, so it is idle |
| ParallelSorting.ParallelSorter.ProcessChunk | parallel_sort.h:92-112 | on an empty stack: returns false and changes neither the stack nor the array. Otherwise it returns true and the top range is processed as `ChunkStep` states: only its positions change, by rearrangement; if it has fewer than 10 elements it ends sorted and nothing is pushed; if not, the midpoint bounds both sides and exactly `[first, mid)` then `[mid + 1, last)` are pushed. The array's multiset is kept and pending ranges stay in bounds |
| ParallelSorting.Done | parallel_sort.h:65-74 | true exactly when every recorded flag is true, including on an empty table |
| ParallelSorting.ParallelSorter.DoSort | parallel_sort.h:76-90 | single worker, every other recorded worker idle: the loop terminates with the stack empty and the array equal to the target the invariant names; the worker's own flag ends true and no other entry changes |
| ParallelSorting.ParallelSorter.Sort | parallel_sort.h:47-62 | after the seeding push of `[begin, end)` and the worker loop, `[begin, end)` holds the reference sort of its old contents, the rest of the array is untouched, the caller's flag is recorded as true with no other entry changed, and the sorter is idle again |
| ParallelSorting.ParallelSort | parallel_sort.h:122-126 | the range ends sorted, is a rearrangement of the input and equals the reference sort of it, which is the comparison with `std::sort` in test.cpp:30-33; nothing outside the range moves |
| WorkList.SplitHalves | parallel_sort.h:98-109 | splitting a range of at least 10 elements at `first + size / 2` gives two non-empty, disjoint halves inside the range that exclude the midpoint and hold one element fewer in total |
| WorkList.SplitShrinksWork | parallel_sort.h:104-109 | replacing the top range by its two halves reduces the total number of pending positions by exactly one |
| WorkList.StepShrinksWork | parallel_sort.h:92-112 | each successful chunk step leaves fewer pending positions, or as many in fewer ranges; this is the loop's termination measure |
| WorkList.InvStart | parallel_sort.h:48 | the stack seeded with `[begin, end)` satisfies the invariant, with the sequence sorted on that range as target |
| WorkList.InvSortStep | parallel_sort.h:98-101 | popping a range of fewer than 10 elements and sorting it keeps the invariant for the remaining ranges |
| WorkList.InvSplitStep | parallel_sort.h:104-109 | popping a larger range, selecting at its midpoint and pushing both sides keeps the invariant; the midpoint then holds its final element |
| WorkList.HalvesMatchTarget | parallel_sort.h:104-109 | after selection at the midpoint, the midpoint holds its final element and each side sorts to the final elements of its positions |
| WorkList.StepKeepsInv | parallel_sort.h:92-112 | every successful chunk step keeps the invariant |
| WorkList.InvFinish | parallel_sort.h:76-89 | when no range is pending, the sequence is its target |
| SortSpec.InsertionSorted | parallel_sort.h:100 | every sequence has a sorted rearrangement, so the reference sort exists |
| SortSpec.SortSeq | parallel_sort.h:100 | the reference sort: sorted, same elements, same length |
| SortSpec.SortedUnique | parallel_sort.h:100 | two sorted sequences with the same elements are equal, so any correct sort gives the result `std::sort` gives |
| SortSpec.SortSeqUnique | parallel_sort.h:100 | any sorted rearrangement of a sequence is its reference sort |
| SortSpec.SortSeqOfPermutation | parallel_sort.h:100-106 | rearranging the input does not change its sorted form |
| SortSpec.SortSeqIdempotent | parallel_sort.h:100 | sorting an already sorted sequence leaves it unchanged |
| SortSpec.PivotInSortedPosition | parallel_sort.h:106 | if nothing before position `k` is larger than the element at `k` and nothing after it is smaller, then any sorted rearrangement has that element at `k` and keeps the elements of each side on that side |

## Left out

- Threads, `std::thread::hardware_concurrency`, spawning `max(hw, 2)` workers and joining them (parallel_sort.h:50-61). These are concurrency and operating-system calls. `Sort` runs only the caller's `do_sort`.
- Mutexes and `lock_guard` (parallel_sort.h:21, 26, 66, 79, 82). Every push, pop, flag update and `done()` check is one atomic step here.
- The multi-worker termination protocol, and its race between one worker's pop and its later push while another worker sees every flag set. It concerns agreement between concurrent workers and has no sequential contract.
- ParallelSorting.ParallelSorter.DoSort: requires every other recorded worker to be idle (the single-worker reading). Under concurrency the source makes no such assumption.
- `std::this_thread::get_id()` as the table key (parallel_sort.h:80, 83). This runtime identity is the `self` parameter.
- The library bodies of `std::sort` and `std::nth_element`. The verified stand-ins `InsertionSort` and `NthElement` meet the same contracts, and only those contracts reach the rest of the model.
- The element type is `int`, compared with `<=`. The source allows any type with `operator<` and any random-access iterator.
- `test.cpp`'s random driver (`std::rand`, vectors of up to 500000 elements). Only its assertion appears, as the `ParallelSort` postcondition.
- ParallelSorting.ParallelSorter.ProcessChunk: its contract does not repeat that the midpoint holds the sorted-order element. That fact is proved for `NthElement` and, through the invariant, in `HalvesMatchTarget`.
- ParallelSorting.ParallelSorter.Sort: requires an idle sorter (empty stack, every recorded flag true). `sort` itself checks nothing, but `parallel_sort` only ever calls it on a freshly built sorter, and a fresh sorter is idle.
