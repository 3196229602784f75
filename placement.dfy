// Where the elements of each run end up: the windows the run-sorting phase
// permutes in place, and the windows a merge pass fills with the merge of
// two old runs or leaves alone.

module Placement {
  import opened Types
  import opened Sortedness
  import opened Registry
  import Sort

  /** The window of `run` lies inside both arrays and holds the same elements in each. */
  ghost predicate PermutedIn(before: seq<int32>, after: seq<int32>, run: Run)
  {
    && run.End() <= |before| && run.End() <= |after|
    && multiset(after[run.start..run.End()]) == multiset(before[run.start..run.End()])
  }

  /** The window of `run` lies inside both arrays and is the same in each. */
  ghost predicate KeptIn(before: seq<int32>, after: seq<int32>, run: Run)
  {
    && run.End() <= |before| && run.End() <= |after|
    && after[run.start..run.End()] == before[run.start..run.End()]
  }

  /** The windows of `first` and `second` are adjacent and lie inside both
    * arrays, and their joined window in `after` is the merge of the two
    * windows in `before`. */
  ghost predicate MergedIn(before: seq<int32>, after: seq<int32>, first: Run, second: Run)
  {
    && first.End() == second.start && second.End() <= |before| && second.End() <= |after|
    && after[first.start..second.End()]
       == Sort.Merge(before[first.start..second.start], before[second.start..second.End()])
  }

  /** The array part-way through a merge pass over `runs`, compared with the
    * array before the pass: the window of each of the first w pairs holds the
    * merge of the pair's two old windows, and the window of every run from 2w
    * on is as it was. */
  ghost predicate PassMerged(before: seq<int32>, after: seq<int32>, runs: seq<Run>, w: nat)
  {
    && (forall t {:trigger MergedIn(before, after, runs[2 * t], runs[2 * t + 1])} ::
          0 <= t < w && 2 * t + 1 < |runs| ==> MergedIn(before, after, runs[2 * t], runs[2 * t + 1]))
    && (forall t {:trigger KeptIn(before, after, runs[t])} ::
          2 * w <= t < |runs| ==> KeptIn(before, after, runs[t]))
  }

  /** Before anything changes, every window of a tiling registry is kept. */
  lemma AllKept(runs: seq<Run>, a: seq<int32>)
    requires Partitions(runs, |a|)
    ensures forall t {:trigger KeptIn(a, a, runs[t])} :: 0 <= t < |runs| ==> KeptIn(a, a, runs[t])
  {
    forall t | 0 <= t < |runs|
      ensures KeptIn(a, a, runs[t])
    {
      PartitionBounded(runs, |a|, t);
    }
  }

  /** Sorting run i in place, with the rest of the array untouched, moves the
    * run-sorting phase on by one run: the windows of runs 0..i hold their
    * original elements, and those after i are untouched. */
  lemma SortedRunStep(runs: seq<Run>, i: nat, orig: seq<int32>, before: seq<int32>, after: seq<int32>)
    requires i < |runs| && Partitions(runs, |orig|)
    requires |before| == |orig| && |after| == |orig|
    requires forall t {:trigger PermutedIn(orig, before, runs[t])} ::
               0 <= t < i ==> PermutedIn(orig, before, runs[t])
    requires forall t {:trigger KeptIn(orig, before, runs[t])} ::
               i <= t < |runs| ==> KeptIn(orig, before, runs[t])
    requires runs[i].End() <= |orig|
    requires after[..runs[i].start] == before[..runs[i].start]
    requires after[runs[i].End()..] == before[runs[i].End()..]
    requires multiset(after[runs[i].start..runs[i].End()])
          == multiset(before[runs[i].start..runs[i].End()])
    ensures forall t {:trigger PermutedIn(orig, after, runs[t])} ::
              0 <= t <= i ==> PermutedIn(orig, after, runs[t])
    ensures forall t {:trigger KeptIn(orig, after, runs[t])} ::
              i < t < |runs| ==> KeptIn(orig, after, runs[t])
  {
    var lo, hi := runs[i].start, runs[i].End();
    assert KeptIn(orig, before, runs[i]);
    forall t | 0 <= t < i
      ensures PermutedIn(orig, after, runs[t])
    {
      assert PermutedIn(orig, before, runs[t]);
      PartitionOrdered(runs, |orig|, t, i);
      UnchangedWindow(before, after, lo, hi, runs[t].start, runs[t].End());
    }
    forall t | i < t < |runs|
      ensures KeptIn(orig, after, runs[t])
    {
      assert KeptIn(orig, before, runs[t]);
      PartitionOrdered(runs, |orig|, i, t);
      UnchangedWindow(before, after, lo, hi, runs[t].start, runs[t].End());
    }
  }

  /** Merging the window of the pair (2w, 2w+1) in place, with the rest of
    * the array untouched, moves the pass on by one pair. */
  lemma MergedPairStep(runs: seq<Run>, w: nat, orig: seq<int32>, before: seq<int32>, after: seq<int32>)
    requires 2 * w + 1 < |runs| && Partitions(runs, |orig|)
    requires |before| == |orig| && |after| == |orig|
    requires PassMerged(orig, before, runs, w)
    requires runs[2 * w + 1].start == runs[2 * w].End() && runs[2 * w + 1].End() <= |orig|
    requires after[..runs[2 * w].start] == before[..runs[2 * w].start]
    requires after[runs[2 * w + 1].End()..] == before[runs[2 * w + 1].End()..]
    requires after[runs[2 * w].start..runs[2 * w + 1].End()]
          == Sort.Merge(before[runs[2 * w].start..runs[2 * w + 1].start],
                        before[runs[2 * w + 1].start..runs[2 * w + 1].End()])
    ensures PassMerged(orig, after, runs, w + 1)
  {
    assert KeptIn(orig, before, runs[2 * w]) && KeptIn(orig, before, runs[2 * w + 1]);
    assert MergedIn(orig, after, runs[2 * w], runs[2 * w + 1]);
    EarlierPairsKept(runs, w, orig, before, after);
    LaterRunsKept(runs, w, orig, before, after);
  }

  /** The pairs merged earlier in the pass lie before the pair being merged,
    * so their windows keep their merges. */
  lemma EarlierPairsKept(runs: seq<Run>, w: nat, orig: seq<int32>, before: seq<int32>, after: seq<int32>)
    requires 2 * w + 1 < |runs| && Partitions(runs, |orig|)
    requires |before| == |orig| && |after| == |orig|
    requires PassMerged(orig, before, runs, w)
    requires runs[2 * w + 1].End() <= |orig|
    requires after[..runs[2 * w].start] == before[..runs[2 * w].start]
    requires after[runs[2 * w + 1].End()..] == before[runs[2 * w + 1].End()..]
    ensures forall t {:trigger MergedIn(orig, after, runs[2 * t], runs[2 * t + 1])} ::
              0 <= t < w ==> MergedIn(orig, after, runs[2 * t], runs[2 * t + 1])
  {
    var lo, hi := runs[2 * w].start, runs[2 * w + 1].End();
    forall t | 0 <= t < w
      ensures MergedIn(orig, after, runs[2 * t], runs[2 * t + 1])
    {
      assert MergedIn(orig, before, runs[2 * t], runs[2 * t + 1]);
      PartitionOrdered(runs, |orig|, 2 * t + 1, 2 * w);
      UnchangedWindow(before, after, lo, hi, runs[2 * t].start, runs[2 * t + 1].End());
    }
  }

  /** The runs the pass has not reached yet lie after the pair being merged,
    * so their windows stay as they were. */
  lemma LaterRunsKept(runs: seq<Run>, w: nat, orig: seq<int32>, before: seq<int32>, after: seq<int32>)
    requires 2 * w + 1 < |runs| && Partitions(runs, |orig|)
    requires |before| == |orig| && |after| == |orig|
    requires PassMerged(orig, before, runs, w)
    requires runs[2 * w + 1].End() <= |orig|
    requires after[..runs[2 * w].start] == before[..runs[2 * w].start]
    requires after[runs[2 * w + 1].End()..] == before[runs[2 * w + 1].End()..]
    ensures forall t {:trigger KeptIn(orig, after, runs[t])} ::
              2 * w + 2 <= t < |runs| ==> KeptIn(orig, after, runs[t])
  {
    var lo, hi := runs[2 * w].start, runs[2 * w + 1].End();
    forall t | 2 * w + 2 <= t < |runs|
      ensures KeptIn(orig, after, runs[t])
    {
      assert KeptIn(orig, before, runs[t]);
      PartitionOrdered(runs, |orig|, 2 * w + 1, t);
      UnchangedWindow(before, after, lo, hi, runs[t].start, runs[t].End());
    }
  }
}
