// What "sorted" means, and the facts about sorted sequences that the sorter relies on.

module Sortedness {
  import opened Types

  /** Ascending order: every element is at most every element after it. */
  ghost predicate Sorted(s: seq<int32>)
  {
    forall p, q :: 0 <= p < q < |s| ==> s[p] <= s[q]
  }

  /** The adjacent-pairs form of ascending order, the one verify_sorted checks. */
  ghost predicate AdjacentSorted(s: seq<int32>)
  {
    forall k :: 1 <= k < |s| ==> s[k - 1] <= s[k]
  }

  /** In an adjacent-sorted sequence, order carries over any distance. */
  lemma {:induction false} AdjacentChain(s: seq<int32>, p: nat, q: nat)
    requires AdjacentSorted(s)
    requires p <= q < |s|
    ensures s[p] <= s[q]
    decreases q - p
  {
    if p < q {
      AdjacentChain(s, p, q - 1);
    }
  }

  /** Checking adjacent pairs decides ascending order, in both directions. */
  lemma AdjacentSortedIffSorted(s: seq<int32>)
    ensures AdjacentSorted(s) <==> Sorted(s)
  {
    if AdjacentSorted(s) {
      forall p, q | 0 <= p < q < |s|
        ensures s[p] <= s[q]
      {
        AdjacentChain(s, p, q);
      }
    }
  }

  /** A sorted sequence is determined by its multiset of elements: two sorted
    * permutations of the same values are equal. */
  lemma {:induction false} SortedPermutationUnique(x: seq<int32>, y: seq<int32>)
    requires Sorted(x) && Sorted(y)
    requires multiset(x) == multiset(y)
    ensures x == y
    decreases |x|
  {
    assert |x| == |multiset(x)| == |multiset(y)| == |y|;
    if |x| > 0 {
      SortedHeadIsLeast(x, y[0]);
      SortedHeadIsLeast(y, x[0]);
      TailMultiset(x, y);
      SortedPermutationUnique(x[1..], y[1..]);
      assert x == [x[0]] + x[1..];
      assert y == [y[0]] + y[1..];
    }
  }

  /** The first element of a sorted sequence is at most each of its elements. */
  lemma SortedHeadIsLeast(x: seq<int32>, e: int32)
    requires Sorted(x) && e in multiset(x)
    ensures x[0] <= e
  {
    var i :| 0 <= i < |x| && x[i] == e;
  }

  /** Removing equal first elements from two permutations leaves permutations. */
  lemma TailMultiset(x: seq<int32>, y: seq<int32>)
    requires |x| > 0 && |y| > 0 && x[0] == y[0]
    requires multiset(x) == multiset(y)
    ensures multiset(x[1..]) == multiset(y[1..])
  {
    assert x == [x[0]] + x[1..];
    assert y == [y[0]] + y[1..];
    forall e
      ensures multiset(x[1..])[e] == multiset(y[1..])[e]
    {
      assert multiset(x)[e] == multiset{x[0]}[e] + multiset(x[1..])[e];
      assert multiset(y)[e] == multiset{x[0]}[e] + multiset(y[1..])[e];
    }
  }

  /** Two sequences that agree before `lo` and from `hi` on, and have the same
    * multiset overall, have the same multiset on the window [lo, hi). */
  lemma WindowMultiset(s: seq<int32>, t: seq<int32>, lo: nat, hi: nat)
    requires lo <= hi <= |s| == |t|
    requires s[..lo] == t[..lo] && s[hi..] == t[hi..]
    requires multiset(s) == multiset(t)
    ensures multiset(s[lo..hi]) == multiset(t[lo..hi])
  {
    ThreeParts(s, lo, hi);
    ThreeParts(t, lo, hi);
    MultisetCancel(multiset(s[..lo]), multiset(s[lo..hi]), multiset(t[lo..hi]), multiset(s[hi..]));
  }

  /** The multiset of a sequence split at lo and hi is the sum of its three parts. */
  lemma ThreeParts(s: seq<int32>, lo: nat, hi: nat)
    requires lo <= hi <= |s|
    ensures multiset(s) == multiset(s[..lo]) + multiset(s[lo..hi]) + multiset(s[hi..])
  {
    assert s == s[..lo] + s[lo..hi] + s[hi..];
  }

  /** Equal sums with equal outer parts have equal middle parts. */
  lemma MultisetCancel(x: multiset<int32>, u: multiset<int32>, v: multiset<int32>, y: multiset<int32>)
    requires x + u + y == x + v + y
    ensures u == v
  {
    forall e
      ensures u[e] == v[e]
    {
      assert (x + u + y)[e] == (x + v + y)[e];
    }
  }

  /** Two sequences that agree before `lo` and from `hi` on, and are
    * permutations of each other on the window [lo, hi), are permutations of
    * each other. */
  lemma SpliceMultiset(s: seq<int32>, t: seq<int32>, lo: nat, hi: nat)
    requires lo <= hi <= |s| == |t|
    requires s[..lo] == t[..lo] && s[hi..] == t[hi..]
    requires multiset(s[lo..hi]) == multiset(t[lo..hi])
    ensures multiset(s) == multiset(t)
  {
    assert s == s[..lo] + s[lo..hi] + s[hi..];
    assert t == t[..lo] + t[lo..hi] + t[hi..];
  }

  /** Two sequences that agree at every index outside [lo, hi) have equal
    * prefixes up to lo and equal suffixes from hi. */
  lemma FrameSlices(s: seq<int32>, t: seq<int32>, lo: nat, hi: nat)
    requires lo <= hi <= |s| == |t|
    requires forall k :: 0 <= k < |s| && !(lo <= k < hi) ==> t[k] == s[k]
    ensures s[..lo] == t[..lo] && s[hi..] == t[hi..]
  {
    assert forall k :: 0 <= k < lo ==> s[..lo][k] == t[..lo][k];
    assert forall k :: 0 <= k < |s| - hi ==> s[hi..][k] == t[hi..][k];
  }

  /** A window that lies entirely outside [lo, hi) is untouched by a change confined to [lo, hi). */
  lemma UnchangedWindow(s: seq<int32>, t: seq<int32>, lo: nat, hi: nat, start: nat, end: nat)
    requires lo <= hi <= |s| == |t|
    requires start <= end <= |s|
    requires end <= lo || hi <= start
    requires s[..lo] == t[..lo] && s[hi..] == t[hi..]
    ensures s[start..end] == t[start..end]
  {
    forall i | start <= i < end
      ensures s[i] == t[i]
    {
      if end <= lo {
        assert s[i] == s[..lo][i] && t[i] == t[..lo][i];
      } else {
        assert s[i] == s[hi..][i - hi] && t[i] == t[hi..][i - hi];
      }
    }
  }
}
