// The sort context (sort_context_t of src/timsort.h) and the phases that run
// on it: sorting every run, then merging the runs pass by pass.

module Context {
  import opened Types
  import opened Sortedness
  import opened Registry
  import opened Placement
  import Sort
  import Utils

  /** Runs this short are sorted by insertion sort, longer ones by qsort. */
  const InsertionSortLimit: nat := 32

  /** The number of worker threads thread_pool_sort_runs starts: the configured
    * maximum, but never more than there are runs, and at least one. */
  function WorkerCount(maxThreads: nat, runCount: nat): (r: nat)
    ensures maxThreads >= 1 ==> 1 <= r <= maxThreads
    ensures r <= runCount || (runCount == 0 && r <= 1)
    ensures r == maxThreads || (runCount >= 1 && r == runCount) || (runCount == 0 && r == 1)
  {
    if maxThreads > runCount then (if runCount > 0 then runCount else 1) else maxThreads
  }

  /** The state shared by the sorting phases: the array being sorted, the
    * merge buffer, the run registry and the thread limit. */
  class SortContext {
    const arr: array<int32>
    const temp: array<int32>
    var runs: seq<Run>
    var maxThreads: nat

    /** The merge buffer is a separate array as long as the one being sorted,
      * and at least one worker is allowed. */
    ghost predicate Valid()
      reads this
    {
      arr != temp && temp.Length == arr.Length && maxThreads >= 1
    }

    /** sort_context_init: keeps the array, allocates a buffer of the same
      * length, starts with an empty registry and raises a thread count of 0 to 1. */
    constructor (values: array<int32>, threads: nat)
      ensures Valid()
      ensures arr == values && fresh(temp)
      ensures runs == []
      ensures maxThreads == (if threads > 0 then threads else 1)
    {
      arr := values;
      temp := new int32[values.Length];
      runs := [];
      maxThreads := if threads > 0 then threads else 1;
    }

    /** sort_single_run: sorts the window of run `runIndex` in place, by
      * insertion sort when it holds at most 32 elements and by qsort otherwise.
      * Only that window changes, and it keeps its elements. */
    method SortSingleRun(runIndex: nat)
      requires runIndex < |runs|
      requires runs[runIndex].End() <= arr.Length
      modifies arr
      ensures Sorted(arr[runs[runIndex].start..runs[runIndex].End()])
      ensures multiset(arr[runs[runIndex].start..runs[runIndex].End()])
           == multiset(old(arr[runs[runIndex].start..runs[runIndex].End()]))
      ensures multiset(arr[..]) == multiset(old(arr[..]))
      ensures arr[..runs[runIndex].start] == old(arr[..runs[runIndex].start])
      ensures arr[runs[runIndex].End()..] == old(arr[runs[runIndex].End()..])
    {
      var s := runs[runIndex].start;
      var len := runs[runIndex].len;
      if len <= InsertionSortLimit {
        Sort.InsertionSort(arr, s, s + len);
      } else {
        Sort.QSort(arr, s, len);
      }
    }

    /** The run-sorting phase (thread_pool_sort_runs with its workers): each
      * run index is claimed once, in increasing order, and its run sorted.
      * Afterwards every run of the tiling registry is ascending and holds the
      * elements its window held before, so the array holds the same elements. */
    method SortAllRuns()
      requires Partitions(runs, arr.Length)
      modifies arr
      ensures RunsSorted(arr[..], runs)
      ensures forall t {:trigger PermutedIn(old(arr[..]), arr[..], runs[t])} ::
                0 <= t < |runs| ==> PermutedIn(old(arr[..]), arr[..], runs[t])
      ensures multiset(arr[..]) == multiset(old(arr[..]))
    {
      AllKept(runs, arr[..]);
      var nextRunIndex := 0;
      while nextRunIndex < |runs|
        invariant nextRunIndex <= |runs|
        invariant RunsSorted(arr[..], runs[..nextRunIndex])
        invariant forall t {:trigger PermutedIn(old(arr[..]), arr[..], runs[t])} ::
                    0 <= t < nextRunIndex ==> PermutedIn(old(arr[..]), arr[..], runs[t])
        invariant forall t {:trigger KeptIn(old(arr[..]), arr[..], runs[t])} ::
                    nextRunIndex <= t < |runs| ==> KeptIn(old(arr[..]), arr[..], runs[t])
        invariant multiset(arr[..]) == multiset(old(arr[..]))
      {
        var i := nextRunIndex;
        nextRunIndex := nextRunIndex + 1;
        PartitionBounded(runs, arr.Length, i);
        ghost var before := arr[..];
        SortSingleRun(i);
        SortedRunStep(runs, i, old(arr[..]), before, arr[..]);
        forall t | 0 <= t < i
          ensures runs[..i][t].End() <= runs[i].start
        {
          PartitionOrdered(runs, arr.Length, t, i);
        }
        OutsideRunsSorted(before, arr[..], runs[..i], runs[i].start, runs[i].End());
        assert runs[..i + 1] == runs[..i] + [runs[i]];
      }
      assert runs[..|runs|] == runs;
    }

    /** One pass of merge_all_runs: runs 2w and 2w+1 are merged in the array
      * and their joined descriptor written to entry w, an odd last run is
      * copied to the next entry, and the registry is cut to the entries
      * written. The registry still tiles the array with ascending runs; the
      * window of each joined entry holds the merge of its two old windows,
      * and the window of a carried-over odd run is unchanged. */
    method MergeAdjacentPairs()
      requires Valid()
      requires Partitions(runs, arr.Length)
      requires RunsSorted(arr[..], runs)
      modifies this`runs, arr, temp
      ensures runs == MergePass(old(runs))
      ensures PassMerged(old(arr[..]), arr[..], old(runs), |old(runs)| / 2)
      ensures Partitions(runs, arr.Length)
      ensures RunsSorted(arr[..], runs)
      ensures multiset(arr[..]) == multiset(old(arr[..]))
    {
      ghost var r0 := runs;
      var currentRuns := |runs|;
      var writeIdx := MergePairs();
      var next;
      if currentRuns % 2 == 1 {
        PassFinishOdd(r0, runs, writeIdx);
        next := runs[writeIdx := runs[currentRuns - 1]][..writeIdx + 1];
      } else {
        PassFinishEven(r0, runs, writeIdx);
        next := runs[..writeIdx];
      }
      assert next == MergePass(r0);
      PassSortedEnd(r0, arr[..], writeIdx);
      MergePassPartitions(r0, arr.Length);
      runs := next;
    }

    /** The pair loop of merge_all_runs: for j = 0, 2, 4, ... while j + 1 is
      * a run, merges runs j and j+1 and writes their join to entry j / 2.
      * Returns the number of entries written; the registry entries from twice
      * that on are left as they were. The window of each pair holds the merge
      * of its two old windows, and the rest of the array is unchanged. */
    method MergePairs() returns (writeIdx: nat)
      requires Valid()
      requires Partitions(runs, arr.Length)
      requires RunsSorted(arr[..], runs)
      modifies this`runs, arr, temp
      ensures writeIdx == |old(runs)| / 2
      ensures Written(runs, old(runs), writeIdx)
      ensures PassSorted(arr[..], old(runs), writeIdx)
      ensures PassMerged(old(arr[..]), arr[..], old(runs), writeIdx)
      ensures multiset(arr[..]) == multiset(old(arr[..]))
    {
      ghost var r0 := runs;
      var currentRuns := |runs|;
      writeIdx := 0;
      var j := 0;
      AllKept(r0, arr[..]);
      while j + 1 < currentRuns
        invariant currentRuns == |r0|
        invariant j == 2 * writeIdx
        invariant Written(runs, r0, writeIdx)
        invariant Partitions(r0, arr.Length)
        invariant PassSorted(arr[..], r0, writeIdx)
        invariant PassMerged(old(arr[..]), arr[..], r0, writeIdx)
        invariant multiset(arr[..]) == multiset(old(arr[..]))
      {
        MergePair(r0, j, writeIdx, old(arr[..]));
        writeIdx := writeIdx + 1;
        j := j + 2;
      }
    }

    /** The body of the pair loop of merge_all_runs: merges the windows of
      * runs j = 2w and j+1 in the array and writes their joined descriptor
      * to entry w of the registry. The joined window then holds the merge of
      * the two old windows, and nothing else of the array changes. */
    method MergePair(ghost r0: seq<Run>, j: nat, w: nat, ghost orig: seq<int32>)
      requires Valid()
      requires j == 2 * w && j + 1 < |r0|
      requires Written(runs, r0, w)
      requires Partitions(r0, arr.Length)
      requires PassSorted(arr[..], r0, w)
      requires |orig| == arr.Length && PassMerged(orig, arr[..], r0, w)
      modifies this`runs, arr, temp
      ensures runs == old(runs)[w := Join(r0[j], r0[j + 1])]
      ensures arr[..r0[j].start] == old(arr[..r0[j].start])
      ensures arr[r0[j + 1].End()..] == old(arr[r0[j + 1].End()..])
      ensures arr[r0[j].start..r0[j + 1].End()]
           == Sort.Merge(old(arr[r0[j].start..r0[j + 1].start]),
                         old(arr[r0[j + 1].start..r0[j + 1].End()]))
      ensures Written(runs, r0, w + 1)
      ensures PassSorted(arr[..], r0, w + 1)
      ensures PassMerged(orig, arr[..], r0, w + 1)
      ensures multiset(arr[..]) == multiset(old(arr[..]))
    {
      WrittenStep(r0, runs, w);
      var s1, l1 := runs[j].start, runs[j].len;
      var s2, l2 := runs[j + 1].start, runs[j + 1].len;
      assert Run(s1, l1 + l2) == Join(r0[j], r0[j + 1]);
      PairReady(r0, arr[..], w);
      ghost var before := arr[..];
      Sort.MergeRanges(arr, s1, s2, s2 + l2, temp);
      runs := runs[w := Run(s1, l1 + l2)];
      PairMerged(r0, w, before, arr[..]);
      MergedPairStep(r0, w, orig, before, arr[..]);
    }

    /** merge_all_runs: merge passes until at most one run is left. Starting
      * from a tiling registry of ascending runs, the array ends ascending and
      * a permutation of what it was, the registry holds the single run [0, n)
      * (or nothing, for an empty registry), and the number of passes is the
      * ceiling of log2 of the starting run count. */
    method MergeAllRuns() returns (ghost passes: nat)
      requires Valid()
      requires Partitions(runs, arr.Length)
      requires RunsSorted(arr[..], runs)
      modifies this`runs, arr, temp
      ensures runs == (if |old(runs)| == 0 then [] else [Run(0, arr.Length)])
      ensures Sorted(arr[..])
      ensures multiset(arr[..]) == multiset(old(arr[..]))
      ensures passes == PassCount(|old(runs)|)
    {
      var currentRuns := |runs|;
      passes := 0;
      while currentRuns > 1
        invariant currentRuns == |runs|
        invariant Partitions(runs, arr.Length)
        invariant RunsSorted(arr[..], runs)
        invariant multiset(arr[..]) == multiset(old(arr[..]))
        invariant passes + PassCount(currentRuns) == PassCount(|old(runs)|)
        invariant (currentRuns == 0) == (|old(runs)| == 0)
      {
        MergeAdjacentPairs();
        currentRuns := |runs|;
        passes := passes + 1;
      }
      SingleRunSorted(arr[..], runs);
      if currentRuns == 1 {
        assert runs == [runs[0]];
      }
    }

    /** The sorting and merging phases of parallel_timsort, run on the
      * registry that run detection left: the array ends ascending and a
      * permutation of what it was. */
    method SortDetectedRuns() returns (ghost passes: nat)
      requires Valid()
      requires Partitions(runs, arr.Length)
      modifies this`runs, arr, temp
      ensures runs == (if |old(runs)| == 0 then [] else [Run(0, arr.Length)])
      ensures Sorted(arr[..])
      ensures multiset(arr[..]) == multiset(old(arr[..]))
      ensures passes == PassCount(|old(runs)|)
    {
      SortAllRuns();
      passes := MergeAllRuns();
    }

    /** The sort followed by the check main performs: verify_sorted on the
      * result answers 1, so the "not sorted" message is never printed. */
    method SortAndVerify() returns (verdict: int)
      requires Valid()
      requires Partitions(runs, arr.Length)
      modifies this`runs, arr, temp
      ensures verdict == 1
      ensures Sorted(arr[..])
      ensures multiset(arr[..]) == multiset(old(arr[..]))
    {
      ghost var passes := SortDetectedRuns();
      verdict := Utils.VerifySorted(arr, arr.Length);
    }
  }
}
