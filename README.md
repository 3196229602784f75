# Parallel run-based sorter: a Dafny model of its sorting core

The sorter sorts an in-memory array of signed 32-bit integers in three
phases:

1. Run detection splits the array into consecutive runs (`run_t {start, len}`)
   and records them in a registry (`runs_array_t`).
2. A pool of workers claims the runs one index at a time and sorts each one
   in place (`sort_single_run`). It uses insertion sort for runs of at most
   32 elements and the C library's `qsort` otherwise.
3. `merge_all_runs` makes merge passes over the registry. In each pass,
   runs 2k and 2k+1 are merged through a scratch buffer (`merge_ranges`), and
   entry k of the registry becomes their joined descriptor. An odd last run
   is carried over, and the registry is cut to the entries written. The
   passes repeat until at most one run is left.

Afterwards, `verify_sorted` checks the result pair by pair.

The model keeps the source's form:

- The sorting context is a class `Context.SortContext`. Its `arr` and `temp`
  fields are arrays, and the registry is a sequence field that the merge
  pass overwrites entry by entry and then truncates.
- The array algorithms of `src/sort.c` are methods with loops over `array`:
  insertion sort and its inner shifting loop, and the three loops and the
  copy-back of `merge_ranges`.
- Each method is proved against a specification function or predicate:
  - `Sort.Merge` is the sequence a two-pointer merge produces, ties taken
    from the left.
  - `Registry.MergePass` is the registry after one pass.
  - `Sortedness.Sorted` is ascending order.
  - `Registry.Partitions` says that the registry tiles the array.

Proved, among other things:

- Insertion sort leaves its window ascending and permuted, with nothing
  outside it changed, and does nothing to windows of at most one element.
- `merge_ranges` writes exactly the merge to the buffer and copies it back.
  It keeps the array a permutation, and leaves the window ascending when
  both halves were.
- Each merge pass turns the registry into `MergePass` of the old one. That
  registry still tiles the array, its runs are still ascending, and it holds
  half as many runs, rounded up.
- Elements stay in their own run's window. Sorting the runs permutes each
  window within itself. A merge pass makes each joined window the merge of
  its pair's two old windows, and leaves a carried-over odd run's window
  as it was.
- The number of passes is the ceiling of log2 of the starting run count.
- At the end, the array is ascending, a permutation of the input, and the
  registry holds the single run [0, n).
- `verify_sorted` answers 1 exactly when the array is ascending, so on the
  sorter's output it answers 1.

`merge_all_runs` loops only while more than one run remains, so an empty
registry (that of an empty array) stays empty: the model ends with no run
rather than with the single run [0, 0).

## Model

| member | source | states |
|---|---|---|
| Sortedness.AdjacentSortedIffSorted | src/utils.c:21-29 | checking every adjacent pair decides ascending order, in both directions |
| Sortedness.SortedPermutationUnique | src/sort.c:70-102 | two ascending permutations of the same elements are equal, so the sorted output does not depend on how the runs were cut |
| Sortedness.WindowMultiset | src/sort.c:7-20 | a change confined to a window that keeps the whole multiset keeps the window's multiset |
| Sortedness.SpliceMultiset | src/sort.c:48 | replacing a window by a permutation of it keeps the whole array a permutation |
| Sort.InsertionSort | src/sort.c:7-20 | the window [left, right) ends ascending and permuted, nothing outside it changes, and a window of at most one element is left as it is |
| Sort.InsertRound | src/sort.c:9-19 | one outer round on an ascending a[left..i) leaves a[left..i] ascending, the array permuted, and only a[left..i] changed |
| Sort.InsertKey | src/sort.c:11-18 | the key a[i] moves to the returned index j, a[j..i) shifts up by one, every shifted element was greater than the key, and the element below j (if any) is not |
| Sort.InsertStepSorted | src/sort.c:13-18 | the shift-and-insert step extends the ascending prefix by one element |
| Sort.InsertStepPermutation | src/sort.c:11-18 | the shift-and-insert step only moves elements |
| Sort.CmpInt | src/sort.c:22-27 | the result is -1, 0 or 1: negative iff a < b, zero iff a == b, positive iff a > b; it is an int32, so nothing overflows |
| Sort.Merge | src/sort.c:33-46 | the length of the merge is the sum of the input lengths |
| Sort.MergePermutation | src/sort.c:33-46 | the merge's multiset is the sum of the inputs' multisets |
| Sort.MergeBounded | src/sort.c:35-46 | a lower bound of both inputs is a lower bound of every element of the merge |
| Sort.MergeSorted | src/sort.c:35-46 | merging two ascending sequences gives an ascending sequence |
| Sort.MergeFromIsMerge | src/sort.c:33-46 | the pointer-driven merge over indices i, j of the array equals the sequence merge of the two windows |
| Sort.TakeLeft | src/sort.c:37-38 | on a tie or a smaller left head, the next merged element is the left head, and the merge continues from i + 1 |
| Sort.TakeRight | src/sort.c:39-40 | on a smaller right head, the next merged element is the right head, and the merge continues from j + 1 |
| Sort.AssembleTails | src/sort.c:43-46 | once one window is exhausted, copying the rests of both windows completes the merge |
| Sort.MergeRanges | src/sort.c:31-49 | tmp[0..r-l) holds the merge of a[l..m) and a[m..r), a[l..r) then equals it, the array outside [l, r) and tmp beyond r-l are unchanged, the array stays a permutation, and the window is ascending when both halves were |
| Sort.MergeIntoBuffer | src/sort.c:33-46 | the three loops write exactly the merge to tmp[0..r-l) and nothing else of tmp |
| Sort.MergeHeads | src/sort.c:35-41 | the first loop stops with one window exhausted, k == (i-l) + (j-m), and tmp[0..k) is the first k elements of the merge |
| Sort.CopyTail | src/sort.c:43-46 | a trailing loop copies a[x..e) to tmp[k..) and advances k by e - x, leaving the rest of tmp alone |
| Sort.CopyBack | src/sort.c:48 | the memcpy makes a[l..l+n) equal to tmp[0..n) and changes nothing else of the array |
| Sort.MergedWindow | src/sort.c:31-49 | replacing a window by the merge of its halves keeps both the window and the array permutations, and yields an ascending window when both halves were ascending |
| Sort.QSort | src/sort.c:64 | the window [s, s+len) ends ascending and permuted, and nothing outside it changes |
| Registry.PartitionOrdered | src/timsort.h:11-23 | in a tiling registry, an earlier run ends at or before the start of a later one |
| Registry.PartitionBounded | src/timsort.h:11-23 | every run of a tiling registry lies inside the array |
| Registry.PartitionTotalLength | src/timsort.h:11-23 | the run lengths of a tiling registry add up to the array length |
| Registry.PrefixLength | src/timsort.h:11-23 | the first k runs of a tiling registry together cover [0, end of run k-1) |
| Registry.MergePass | src/sort.c:79-100 | one pass leaves (c+1)/2 entries for c runs, fewer than c whenever c > 1 |
| Registry.MergePassPartitions | src/sort.c:79-100 | a merge pass keeps the registry a tiling of the same array |
| Registry.PairReady | src/sort.c:81-86 | before a pair is merged, its two runs are adjacent, inside the array and each ascending |
| Registry.PairMerged | src/sort.c:86-90 | merging the pair's window in place, with the rest of the array untouched, keeps the earlier merged pairs and the unread runs ascending |
| Registry.EarlierPairsUntouched | src/sort.c:79-91 | windows merged earlier in the pass lie before the pair being merged and stay ascending |
| Registry.LaterRunsUntouched | src/sort.c:79-91 | runs not reached yet lie after the pair being merged and stay ascending |
| Registry.PassSortedEnd | src/sort.c:79-97 | when the pair loop ends, every entry of the pass result is ascending, the carried-over odd run included |
| Registry.WrittenStep | src/sort.c:88-90 | writing the joined pair to entry w keeps the written entries and leaves the entries not read yet alone |
| Registry.PassFinishEven | src/sort.c:94-100 | for an even count, cutting the registry after the written entries gives the pass result |
| Registry.PassFinishOdd | src/sort.c:94-100 | for an odd count, copying the last run to entry c/2 and then cutting gives the pass result |
| Registry.PassCountIsCeilLog2 | src/sort.c:74-101 | the number of passes p for c runs satisfies c <= 2^p and, for c >= 2, 2^(p-1) < c: p is the ceiling of log2 c |
| Registry.OutsideRunsSorted | src/thread_pool.c:34-50 | sorting one run leaves the already-sorted runs that lie before it ascending |
| Registry.SingleRunSorted | src/sort.c:74-101 | a tiling registry of at most one ascending run means the whole array is ascending |
| Placement.AllKept | src/sort.c:72-76 | before anything is sorted or merged, every window of a tiling registry is as it was |
| Placement.SortedRunStep | src/thread_pool.c:45-49 | sorting run i in place moves the sorting phase on by one run: runs 0..i hold their original elements, runs after i are untouched |
| Placement.MergedPairStep | src/sort.c:81-90 | merging pair w in place, with the rest of the array untouched, gives w+1 merged pairs and keeps the windows of the runs from 2w+2 on |
| Placement.EarlierPairsKept | src/sort.c:79-91 | windows merged earlier in the pass lie before the pair being merged and keep their merges |
| Placement.LaterRunsKept | src/sort.c:79-91 | windows of runs the pass has not reached lie after the pair being merged and stay as they were |
| Context.WorkerCount | src/thread_pool.c:63-67 | the worker count is the thread limit, cut to the number of runs, and at least 1 |
| Context.SortContext.constructor | src/main_new.c:13-20 | the context keeps the array, allocates a fresh buffer of the same length and an empty registry, and raises a thread count of 0 to 1 |
| Context.SortContext.SortSingleRun | src/sort.c:53-66 | the run's window ends ascending and permuted, and nothing outside it changes, whichever of the two sorts is used |
| Context.SortContext.SortAllRuns | src/thread_pool.c:29-53 | claiming every run index once and sorting it leaves every run of the registry ascending, and each run's window holds exactly the elements it held before (so the array is permuted) |
| Context.SortContext.MergeAdjacentPairs | src/sort.c:76-100 | one pass makes the registry `MergePass` of the old one, still tiling the array with ascending runs; each joined window holds the merge of its pair's two old windows, a carried-over odd run's window is unchanged, and the array is permuted |
| Context.SortContext.MergePairs | src/sort.c:79-91 | the pair loop writes c/2 joined entries, keeps the registry entries from 2·(c/2) on (the odd last entry, if any) as they were, and makes every pair's window the merge of its two old windows, ascending, leaving the odd last run's window unchanged |
| Context.SortContext.MergePair | src/sort.c:81-90 | one loop body makes the pair's joined window the merge of its two old windows, changes nothing of the array outside it, and writes the joined descriptor to entry w; the pairs merged before keep their merges and the unread runs keep their windows |
| Context.SortContext.MergeAllRuns | src/sort.c:70-102 | from a tiling registry of ascending runs, the array ends ascending and permuted, the registry holds the single run [0, n) (or stays empty), and the number of passes is the ceiling of log2 of the run count |
| Context.SortContext.SortDetectedRuns | src/main_new.c:52-66 | sorting every run and then merging leaves the array ascending and permuted, whatever tiling the run detection produced |
| Context.SortContext.SortAndVerify | src/main_new.c:152-168 | after the sort, verify_sorted answers 1, so the failure message is never printed |
| Utils.VerifySorted | src/utils.c:21-29 | the answer is 0 or 1: 1 exactly when every adjacent pair of array[0..size) is in order (equivalently, the prefix is ascending); for size <= 1 it is 1 |

## Left out

- Threads: `worker_thread`, `thread_pool_sort_runs`, `thread_pool_init` and `thread_pool_cleanup` create, join and lock POSIX threads. The model sorts runs in a sequential claim loop (`SortAllRuns`). Workers sort disjoint windows, so any interleaving gives the same array; this is argued, not proved. `WorkerCount` computes how many workers would be started, but nothing is spawned.
- `qsort` is a C library call. `Sort.QSort` stands in with the contract the sorter relies on, and its body is insertion sort. `CmpInt` is modelled and proved, but not wired into it.
- Run detection (`detect_runs`, `min_run_length`) and the registry helpers `runs_init`, `runs_push` and `runs_free` are defined in `src/runs.c`, which is not part of this model. A registry that tiles the array (`Registry.Partitions`) is a precondition instead.
- The registry's `data` pointer and `cap` capacity are not modelled, and neither is the context's `array_size` field. The registry is a sequence, and the array length is the length of `arr`.
- `size_t` arithmetic is modelled with unbounded naturals. Overflow of `left + 1`, `s + len` or `s2 + l2` cannot occur for arrays that fit in memory.
- A failed `malloc` in `sort_context_init` is not modelled: the constructor always allocates the buffer. `sort_context_cleanup` only frees memory.
- `parallel_timsort` is modelled without its timing (`gettimeofday`) and its debug output. `parse_args`, `main`'s allocation and output, `putstr`, `print_stats` and `generate_random_array` (which depends on `rand`) are left out.
- Utils.VerifySorted: the contract says whether a descent exists, not at which index the loop returns. The position is not observable in the result.
