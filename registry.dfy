// The run registry (runs_array_t of src/timsort.h) and what one merge pass of
// merge_all_runs does to it.

module Registry {
  import opened Types
  import opened Sortedness

  /** The registry tiles [0, n) left to right: the first run starts at 0,
    * each run starts where the previous one ends, and the last one ends at n.
    * An empty registry tiles only the empty array. */
  ghost predicate Partitions(runs: seq<Run>, n: nat)
  {
    && (|runs| == 0 ==> n == 0)
    && (|runs| > 0 ==> runs[0].start == 0 && runs[|runs| - 1].End() == n)
    && (forall k :: 1 <= k < |runs| ==> runs[k].start == runs[k - 1].End())
  }

  /** The run lies inside `a` and is ascending there. */
  ghost predicate RunSortedIn(a: seq<int32>, run: Run)
  {
    run.End() <= |a| && Sorted(a[run.start..run.End()])
  }

  /** Every run of the registry lies inside `a` and is ascending there. */
  ghost predicate RunsSorted(a: seq<int32>, runs: seq<Run>)
  {
    forall t :: 0 <= t < |runs| ==> RunSortedIn(a, runs[t])
  }

  /** Sum of the run lengths. */
  function TotalLength(runs: seq<Run>): nat
  {
    if |runs| == 0 then 0 else TotalLength(runs[..|runs| - 1]) + runs[|runs| - 1].len
  }

  /** Runs of a tiling registry come in order and do not overlap. */
  lemma {:induction false} PartitionOrdered(runs: seq<Run>, n: nat, t: nat, u: nat)
    requires Partitions(runs, n)
    requires t < u < |runs|
    ensures runs[t].End() <= runs[u].start
    decreases u - t
  {
    if t + 1 < u {
      PartitionOrdered(runs, n, t + 1, u);
    }
  }

  /** Every run of a tiling registry lies inside [0, n). */
  lemma PartitionBounded(runs: seq<Run>, n: nat, t: nat)
    requires Partitions(runs, n)
    requires t < |runs|
    ensures runs[t].End() <= n
  {
    if t + 1 < |runs| {
      PartitionOrdered(runs, n, t, |runs| - 1);
    }
  }

  /** The lengths of a tiling registry add up to the array length. */
  lemma PartitionTotalLength(runs: seq<Run>, n: nat)
    requires Partitions(runs, n)
    ensures TotalLength(runs) == n
  {
    if |runs| > 0 {
      PrefixLength(runs, n, |runs|);
      assert runs[..|runs|] == runs;
    }
  }

  /** The first k runs of a tiling registry cover exactly [0, end of run k-1). */
  lemma {:induction false} PrefixLength(runs: seq<Run>, n: nat, k: nat)
    requires Partitions(runs, n)
    requires 0 < k <= |runs|
    ensures TotalLength(runs[..k]) == runs[k - 1].End()
  {
    assert runs[..k][..k - 1] == runs[..k - 1];
    if k > 1 {
      PrefixLength(runs, n, k - 1);
    }
  }

  /** The registry after one merge pass: entry t joins runs 2t and 2t+1
    * (it starts at the first and spans both), and an odd last run is
    * carried over unchanged. */
  function MergePass(runs: seq<Run>): (next: seq<Run>)
    ensures |next| == (|runs| + 1) / 2
    ensures |runs| > 1 ==> |next| < |runs|
  {
    seq((|runs| + 1) / 2, t requires 0 <= t < (|runs| + 1) / 2 =>
      if 2 * t + 1 < |runs| then Join(runs[2 * t], runs[2 * t + 1]) else runs[2 * t])
  }

  /** A merge pass keeps the registry a tiling of the same array. */
  lemma MergePassPartitions(runs: seq<Run>, n: nat)
    requires Partitions(runs, n)
    ensures Partitions(MergePass(runs), n)
  {
    var next := MergePass(runs);
    forall k | 1 <= k < |next|
      ensures next[k].start == next[k - 1].End()
    {
      assert next[k - 1] == Join(runs[2 * k - 2], runs[2 * k - 1]);
      assert next[k].start == runs[2 * k].start;
    }
    if |next| > 0 {
      var last := |next| - 1;
      if 2 * last + 1 < |runs| {
        assert 2 * last + 1 == |runs| - 1;
      }
    }
  }

  /** The array part-way through a merge pass over `runs`: each of the first
    * w pairs (2t, 2t+1) has been merged into one ascending window, and every
    * run from 2w on, not reached yet, is still ascending. */
  ghost predicate PassSorted(a: seq<int32>, runs: seq<Run>, w: nat)
    requires 2 * w <= |runs|
  {
    && (forall t :: 0 <= t < w ==> RunSortedIn(a, Join(runs[2 * t], runs[2 * t + 1])))
    && (forall t :: 2 * w <= t < |runs| ==> RunSortedIn(a, runs[t]))
  }

  /** Before entries j = 2w and j+1 are merged: the two runs are adjacent,
    * end inside the array, and are each ascending. */
  lemma PairReady(runs: seq<Run>, a: seq<int32>, w: nat)
    requires 2 * w + 1 < |runs|
    requires Partitions(runs, |a|)
    requires PassSorted(a, runs, w)
    ensures runs[2 * w + 1].start == runs[2 * w].End() && runs[2 * w + 1].End() <= |a|
    ensures Sorted(a[runs[2 * w].start..runs[2 * w + 1].start])
    ensures Sorted(a[runs[2 * w + 1].start..runs[2 * w + 1].End()])
  {
    assert RunSortedIn(a, runs[2 * w]) && RunSortedIn(a, runs[2 * w + 1]);
  }

  /** Merging the window of the pair (2w, 2w+1) into one ascending window,
    * with the array untouched outside it, moves the pass one pair on. */
  lemma PairMerged(runs: seq<Run>, w: nat, before: seq<int32>, after: seq<int32>)
    requires 2 * w + 1 < |runs|
    requires |before| == |after|
    requires Partitions(runs, |before|)
    requires PassSorted(before, runs, w)
    requires runs[2 * w + 1].start == runs[2 * w].End() && runs[2 * w + 1].End() <= |before|
    requires after[..runs[2 * w].start] == before[..runs[2 * w].start]
    requires after[runs[2 * w + 1].End()..] == before[runs[2 * w + 1].End()..]
    requires Sorted(after[runs[2 * w].start..runs[2 * w + 1].End()])
    ensures PassSorted(after, runs, w + 1)
  {
    EarlierPairsUntouched(runs, w, before, after);
    LaterRunsUntouched(runs, w, before, after);
  }

  /** The windows merged earlier in the pass lie before the pair being merged. */
  lemma EarlierPairsUntouched(runs: seq<Run>, w: nat, before: seq<int32>, after: seq<int32>)
    requires 2 * w + 1 < |runs|
    requires |before| == |after|
    requires Partitions(runs, |before|)
    requires PassSorted(before, runs, w)
    requires runs[2 * w + 1].End() <= |before|
    requires after[..runs[2 * w].start] == before[..runs[2 * w].start]
    requires after[runs[2 * w + 1].End()..] == before[runs[2 * w + 1].End()..]
    ensures forall t :: 0 <= t < w ==> RunSortedIn(after, Join(runs[2 * t], runs[2 * t + 1]))
  {
    var lo, hi := runs[2 * w].start, runs[2 * w + 1].End();
    forall t | 0 <= t < w
      ensures RunSortedIn(after, Join(runs[2 * t], runs[2 * t + 1]))
    {
      var merged := Join(runs[2 * t], runs[2 * t + 1]);
      assert RunSortedIn(before, merged);
      PartitionOrdered(runs, |before|, 2 * t + 1, 2 * w);
      UnchangedWindow(before, after, lo, hi, merged.start, merged.End());
    }
  }

  /** The runs the pass has not reached yet lie after the pair being merged. */
  lemma LaterRunsUntouched(runs: seq<Run>, w: nat, before: seq<int32>, after: seq<int32>)
    requires 2 * w + 1 < |runs|
    requires |before| == |after|
    requires Partitions(runs, |before|)
    requires PassSorted(before, runs, w)
    requires runs[2 * w + 1].End() <= |before|
    requires after[..runs[2 * w].start] == before[..runs[2 * w].start]
    requires after[runs[2 * w + 1].End()..] == before[runs[2 * w + 1].End()..]
    ensures forall t :: 2 * w + 2 <= t < |runs| ==> RunSortedIn(after, runs[t])
  {
    var lo, hi := runs[2 * w].start, runs[2 * w + 1].End();
    forall t | 2 * w + 2 <= t < |runs|
      ensures RunSortedIn(after, runs[t])
    {
      assert RunSortedIn(before, runs[t]);
      PartitionOrdered(runs, |before|, 2 * w + 1, t);
      UnchangedWindow(before, after, lo, hi, runs[t].start, runs[t].End());
    }
  }

  /** Once fewer than two runs are left unread, the windows of the finished
    * pass are all ascending. */
  lemma PassSortedEnd(runs: seq<Run>, a: seq<int32>, w: nat)
    requires 2 * w <= |runs| <= 2 * w + 1
    requires PassSorted(a, runs, w)
    ensures RunsSorted(a, MergePass(runs))
  {
    var next := MergePass(runs);
    forall t | 0 <= t < |next|
      ensures RunSortedIn(a, next[t])
    {
      if t == w {
        assert next[t] == runs[2 * w];
      }
    }
  }

  /** The registry part-way through a merge pass over `runs`: entry t < w
    * holds the join of runs 2t and 2t+1, and the entries from 2w on, not
    * reached yet, still hold the runs they held. */
  ghost predicate Written(written: seq<Run>, runs: seq<Run>, w: nat)
  {
    && |written| == |runs| && 2 * w <= |runs|
    && (forall t :: 0 <= t < w ==> written[t] == Join(runs[2 * t], runs[2 * t + 1]))
    && (forall t :: 2 * w <= t < |runs| ==> written[t] == runs[t])
  }

  /** Writing the join of the next pair to entry w moves the pass one pair on. */
  lemma WrittenStep(runs: seq<Run>, before: seq<Run>, w: nat)
    requires Written(before, runs, w) && 2 * w + 1 < |runs|
    ensures before[2 * w] == runs[2 * w] && before[2 * w + 1] == runs[2 * w + 1]
    ensures Written(before[w := Join(runs[2 * w], runs[2 * w + 1])], runs, w + 1)
  {
    var after := before[w := Join(runs[2 * w], runs[2 * w + 1])];
    forall t | 2 * w + 2 <= t < |runs|
      ensures after[t] == runs[t]
    {
      assert after[t] == before[t];
    }
  }

  /** At the end of the pair loop over an even number of runs, all pairs
    * are written, and cutting the registry after them gives the result of
    * the pass. */
  lemma PassFinishEven(runs: seq<Run>, written: seq<Run>, w: nat)
    requires Written(written, runs, w) && |runs| == 2 * w
    ensures written[..w] == MergePass(runs)
  {
    var next := MergePass(runs);
    assert |next| == w;
    forall t | 0 <= t < w
      ensures written[t] == next[t]
    {
      assert 2 * t + 1 < |runs|;
    }
  }

  /** At the end of the pair loop over an odd number of runs, copying the
    * last run to entry w and cutting the registry after it gives the result
    * of the pass. */
  lemma PassFinishOdd(runs: seq<Run>, written: seq<Run>, w: nat)
    requires Written(written, runs, w) && |runs| == 2 * w + 1
    ensures written[w := written[2 * w]][..w + 1] == MergePass(runs)
  {
    var next := MergePass(runs);
    var copied := written[w := written[2 * w]][..w + 1];
    assert |next| == w + 1 == |copied|;
    forall t | 0 <= t <= w
      ensures copied[t] == next[t]
    {
      if t < w {
        assert 2 * t + 1 < |runs|;
        assert copied[t] == written[t];
      } else {
        assert copied[t] == written[2 * w] == runs[2 * w];
      }
    }
  }

  /** How many merge passes take a registry of c runs down to at most one. */
  function PassCount(c: nat): nat
  {
    if c <= 1 then 0 else 1 + PassCount((c + 1) / 2)
  }

  /** 2 to the power k. */
  function Pow2(k: nat): (p: nat)
    ensures p >= 1
  {
    if k == 0 then 1 else 2 * Pow2(k - 1)
  }

  /** The number of passes is the ceiling of log2 of the run count:
    * 2^(p-1) < c <= 2^p. */
  lemma {:induction false} PassCountIsCeilLog2(c: nat)
    requires c >= 1
    ensures c <= Pow2(PassCount(c))
    ensures c >= 2 ==> Pow2(PassCount(c) - 1) < c
  {
    if c >= 2 {
      var h := (c + 1) / 2;
      PassCountIsCeilLog2(h);
      if h >= 2 {
        assert Pow2(PassCount(h)) == 2 * Pow2(PassCount(h) - 1);
      }
    }
  }

  /** A change confined to [lo, hi) leaves ascending every run that lies
    * outside that window. */
  lemma OutsideRunsSorted(a: seq<int32>, b: seq<int32>, runs: seq<Run>, lo: nat, hi: nat)
    requires lo <= hi <= |a| == |b|
    requires RunsSorted(a, runs)
    requires forall t :: 0 <= t < |runs| ==> runs[t].End() <= lo || hi <= runs[t].start
    requires b[..lo] == a[..lo] && b[hi..] == a[hi..]
    ensures RunsSorted(b, runs)
  {
    forall t | 0 <= t < |runs|
      ensures runs[t].End() <= |b| && Sorted(b[runs[t].start..runs[t].End()])
    {
      UnchangedWindow(a, b, lo, hi, runs[t].start, runs[t].End());
    }
  }

  /** A single run tiling [0, n) that is ascending makes the whole array ascending. */
  lemma SingleRunSorted(a: seq<int32>, runs: seq<Run>)
    requires Partitions(runs, |a|) && |runs| <= 1
    requires RunsSorted(a, runs)
    ensures Sorted(a)
  {
    if |runs| == 1 {
      assert a[runs[0].start..runs[0].End()] == a;
    }
  }
}
