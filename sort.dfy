// The sorting and merging primitives of src/sort.c that work on a plain array.

module Sort {
  import opened Types
  import opened Sortedness

  /** insertion_sort: sorts the window a[left..right) in place. Each step takes
    * the next element as the key, shifts the larger elements of the sorted
    * prefix one cell to the right and drops the key into the gap. A window of
    * at most one element, or an empty or inverted range, is left as it is. */
  method InsertionSort(a: array<int32>, left: nat, right: nat)
    requires right <= a.Length
    modifies a
    ensures left <= right ==> Sorted(a[left..right])
    ensures left <= right ==> multiset(a[left..right]) == multiset(old(a[left..right]))
    ensures multiset(a[..]) == multiset(old(a[..]))
    ensures forall k :: 0 <= k < a.Length && !(left <= k < right) ==> a[k] == old(a[k])
    ensures left <= right ==> a[..left] == old(a[..left]) && a[right..] == old(a[right..])
    ensures right <= left + 1 ==> a[..] == old(a[..])
  {
    var i := left + 1;
    while i < right
      invariant left + 1 <= i
      invariant i <= right || i == left + 1
      invariant forall p, q :: left <= p < q < i && q < right ==> a[p] <= a[q]
      invariant forall k :: 0 <= k < a.Length && !(left <= k < right) ==> a[k] == old(a[k])
      invariant multiset(a[..]) == multiset(old(a[..]))
      invariant right <= left + 1 ==> a[..] == old(a[..])
    {
      InsertRound(a, left, i);
      i := i + 1;
    }
    if left <= right {
      FrameSlices(old(a[..]), a[..], left, right);
      WindowMultiset(a[..], old(a[..]), left, right);
    }
  }

  /** The body of insertion_sort's outer loop, run on an ascending a[left..i):
    * moves a[i] down into place. Afterwards a[left..i] is ascending, the
    * array holds the same elements, and only a[left..i] has changed. */
  method InsertRound(a: array<int32>, left: nat, i: nat)
    requires left <= i < a.Length
    requires forall p, q :: left <= p < q < i ==> a[p] <= a[q]
    modifies a
    ensures forall p, q :: left <= p < q <= i ==> a[p] <= a[q]
    ensures forall k :: 0 <= k < a.Length && !(left <= k <= i) ==> a[k] == old(a[k])
    ensures multiset(a[..]) == multiset(old(a[..]))
  {
    var j := InsertKey(a, left, i);
    InsertStepSorted(old(a[..]), a[..], left, i, j);
    InsertStepPermutation(old(a[..]), a[..], i, j);
  }

  /** The inner loop of insertion_sort and the store after it: saves a[i] as
    * the key, shifts the elements of a[left..i) that are greater than the
    * key one cell to the right, scanning down from i, and stores the key
    * where the shifting stopped, which is returned. */
  method InsertKey(a: array<int32>, left: nat, i: nat) returns (j: nat)
    requires left <= i < a.Length
    modifies a
    ensures left <= j <= i
    ensures Inserted(old(a[..]), a[..], i, j)
    ensures forall k :: j <= k < i ==> old(a[i]) < old(a[k])
    ensures j == left || old(a[j - 1]) <= old(a[i])
  {
    var key := a[i];
    j := i;
    while j > left && a[j - 1] > key
      invariant left <= j <= i
      invariant forall k :: 0 <= k < a.Length && !(j < k <= i) ==> a[k] == old(a[k])
      invariant forall k :: j <= k < i ==> a[k + 1] == old(a[k]) && key < old(a[k])
    {
      a[j] := a[j - 1];
      j := j - 1;
    }
    a[j] := key;
  }

  /** One round of insertion_sort: `c` is `b` with b[i] moved down to index j
    * and b[j..i) shifted one cell up. */
  ghost predicate Inserted(b: seq<int32>, c: seq<int32>, i: nat, j: nat)
    requires j <= i < |b| == |c|
  {
    && (forall k :: 0 <= k < |c| && !(j <= k <= i) ==> c[k] == b[k])
    && c[j] == b[i]
    && (forall k :: j <= k < i ==> c[k + 1] == b[k])
  }

  /** When b[left..i) is ascending and the shifting stopped at j, the round
    * leaves c[left..i] ascending. */
  lemma InsertStepSorted(b: seq<int32>, c: seq<int32>, left: nat, i: nat, j: nat)
    requires left <= j <= i < |b| == |c|
    requires Inserted(b, c, i, j)
    requires forall k :: j <= k < i ==> b[i] < b[k]
    requires j == left || b[j - 1] <= b[i]
    requires forall p, q :: left <= p < q < i ==> b[p] <= b[q]
    ensures forall p, q :: left <= p < q <= i ==> c[p] <= c[q]
  {
    forall p, q | left <= p < q <= i
      ensures c[p] <= c[q]
    {
      if q < j {
      } else if q == j {
        assert b[p] <= b[j - 1];
      } else if p < j {
        assert c[q] == b[q - 1];
        assert b[p] <= b[j - 1] <= b[i] < b[q - 1];
      } else if p == j {
        assert c[q] == b[q - 1];
      } else {
        assert c[p] == b[p - 1] && c[q] == b[q - 1];
      }
    }
  }

  /** A round of insertion_sort only moves elements around. */
  lemma InsertStepPermutation(b: seq<int32>, c: seq<int32>, i: nat, j: nat)
    requires j <= i < |b| == |c|
    requires Inserted(b, c, i, j)
    ensures multiset(c) == multiset(b)
  {
    InsertedShape(b, c, i, j);
    RotatedMultiset(b, i, j);
  }

  /** The result of a round, written as pieces of the sequence before it. */
  lemma InsertedShape(b: seq<int32>, c: seq<int32>, i: nat, j: nat)
    requires j <= i < |b| == |c|
    requires Inserted(b, c, i, j)
    ensures c == b[..j] + [b[i]] + b[j..i] + b[i + 1..]
  {
    var d := b[..j] + [b[i]] + b[j..i] + b[i + 1..];
    assert |d| == |c|;
    forall k | 0 <= k < |c|
      ensures c[k] == d[k]
    {
      if k < j {
      } else if k == j {
      } else if k <= i {
        assert c[k] == b[k - 1];
      }
    }
  }

  /** Moving b[i] in front of b[j..i) keeps the multiset. */
  lemma RotatedMultiset(b: seq<int32>, i: nat, j: nat)
    requires j <= i < |b|
    ensures multiset(b[..j] + [b[i]] + b[j..i] + b[i + 1..]) == multiset(b)
  {
    assert b == b[..j] + b[j..i] + [b[i]] + b[i + 1..];
  }

  /** cmp_int: three-way comparison for qsort. It subtracts two truth values
    * instead of the operands, so the result is always -1, 0 or 1 and the
    * computation stays within 32 bits for every pair of inputs. */
  function CmpInt(va: int32, vb: int32): (r: int32)
    ensures r == -1 || r == 0 || r == 1
    ensures r < 0 <==> va < vb
    ensures r == 0 <==> va == vb
    ensures r > 0 <==> va > vb
  {
    (if va > vb then 1 else 0) - (if va < vb then 1 else 0)
  }

  /** The sequence a two-pointer merge produces: repeatedly take the smaller
    * head, the left one on a tie, until one side is exhausted, then the rest
    * of the other side. */
  function Merge(x: seq<int32>, y: seq<int32>): (r: seq<int32>)
    ensures |r| == |x| + |y|
    decreases |x| + |y|
  {
    if |x| == 0 then y
    else if |y| == 0 then x
    else if x[0] <= y[0] then [x[0]] + Merge(x[1..], y)
    else [y[0]] + Merge(x, y[1..])
  }

  /** Merging neither drops nor duplicates an element. */
  lemma {:induction false} MergePermutation(x: seq<int32>, y: seq<int32>)
    ensures multiset(Merge(x, y)) == multiset(x) + multiset(y)
    decreases |x| + |y|
  {
    if |x| == 0 || |y| == 0 {
    } else if x[0] <= y[0] {
      MergePermutation(x[1..], y);
      assert x == [x[0]] + x[1..];
    } else {
      MergePermutation(x, y[1..]);
      assert y == [y[0]] + y[1..];
    }
  }

  /** A lower bound of both inputs is a lower bound of their merge. */
  lemma {:induction false} MergeBounded(x: seq<int32>, y: seq<int32>, e: int32)
    requires forall p :: 0 <= p < |x| ==> e <= x[p]
    requires forall p :: 0 <= p < |y| ==> e <= y[p]
    ensures forall q :: 0 <= q < |Merge(x, y)| ==> e <= Merge(x, y)[q]
    decreases |x| + |y|
  {
    if |x| == 0 || |y| == 0 {
    } else if x[0] <= y[0] {
      MergeBounded(x[1..], y, e);
      ConsBounded(x[0], Merge(x[1..], y), e);
    } else {
      MergeBounded(x, y[1..], e);
      ConsBounded(y[0], Merge(x, y[1..]), e);
    }
  }

  /** A bound of a head and of a rest is a bound of the sequence they make. */
  lemma ConsBounded(h: int32, rest: seq<int32>, e: int32)
    requires e <= h && forall q :: 0 <= q < |rest| ==> e <= rest[q]
    ensures forall q :: 0 <= q < |[h] + rest| ==> e <= ([h] + rest)[q]
  {
  }

  /** A head at most every element of an ascending rest makes an ascending sequence. */
  lemma ConsSorted(h: int32, rest: seq<int32>)
    requires Sorted(rest) && forall q :: 0 <= q < |rest| ==> h <= rest[q]
    ensures Sorted([h] + rest)
  {
    var c := [h] + rest;
    forall p, q | 0 <= p < q < |c|
      ensures c[p] <= c[q]
    {
      assert c[q] == rest[q - 1];
      if p > 0 {
        assert c[p] == rest[p - 1];
      }
    }
  }

  /** Merging two ascending sequences yields an ascending sequence. */
  lemma {:induction false} MergeSorted(x: seq<int32>, y: seq<int32>)
    requires Sorted(x) && Sorted(y)
    ensures Sorted(Merge(x, y))
    decreases |x| + |y|
  {
    if |x| == 0 || |y| == 0 {
    } else if x[0] <= y[0] {
      MergeSorted(x[1..], y);
      MergeBounded(x[1..], y, x[0]);
      ConsSorted(x[0], Merge(x[1..], y));
    } else {
      MergeSorted(x, y[1..]);
      MergeBounded(x, y[1..], y[0]);
      ConsSorted(y[0], Merge(x, y[1..]));
    }
  }

  /** Merge(s[i..m], s[j..r]) computed on indices into s: the form the
    * pointers of merge_ranges follow. */
  ghost function MergeFrom(s: seq<int32>, i: nat, m: nat, j: nat, r: nat): (merged: seq<int32>)
    requires i <= m <= j <= r <= |s|
    ensures |merged| == (m - i) + (r - j)
    decreases (m - i) + (r - j)
  {
    if i == m then s[j..r]
    else if j == r then s[i..m]
    else if s[i] <= s[j] then [s[i]] + MergeFrom(s, i + 1, m, j, r)
    else [s[j]] + MergeFrom(s, i, m, j + 1, r)
  }

  /** The index form and the sequence form of the merge agree. */
  lemma {:induction false} MergeFromIsMerge(s: seq<int32>, i: nat, m: nat, j: nat, r: nat)
    requires i <= m <= j <= r <= |s|
    ensures MergeFrom(s, i, m, j, r) == Merge(s[i..m], s[j..r])
    decreases (m - i) + (r - j)
  {
    if i < m && j < r {
      assert s[i..m][0] == s[i] && s[i..m][1..] == s[i + 1..m];
      assert s[j..r][0] == s[j] && s[j..r][1..] == s[j + 1..r];
      if s[i] <= s[j] {
        MergeFromIsMerge(s, i + 1, m, j, r);
      } else {
        MergeFromIsMerge(s, i, m, j + 1, r);
      }
    }
  }

  /** The merge of s[i..m) and s[j..r) is what is left of `whole` from index k on. */
  ghost predicate MergeRest(whole: seq<int32>, k: nat, s: seq<int32>, i: nat, m: nat, j: nat, r: nat)
  {
    i <= m <= j <= r <= |s| && k <= |whole| && whole[k..] == MergeFrom(s, i, m, j, r)
  }

  /** Taking the left head: it is whole[k], and the rest moves on by one. */
  lemma TakeLeft(whole: seq<int32>, k: nat, s: seq<int32>, i: nat, m: nat, j: nat, r: nat)
    requires MergeRest(whole, k, s, i, m, j, r)
    requires i < m && (j == r || s[i] <= s[j])
    ensures k < |whole| && whole[k] == s[i]
    ensures MergeRest(whole, k + 1, s, i + 1, m, j, r)
  {
    assert whole[k + 1..] == whole[k..][1..];
    if j == r {
      assert s[i..m] == [s[i]] + s[i + 1..m];
    }
  }

  /** Taking the right head: it is whole[k], and the rest moves on by one. */
  lemma TakeRight(whole: seq<int32>, k: nat, s: seq<int32>, i: nat, m: nat, j: nat, r: nat)
    requires MergeRest(whole, k, s, i, m, j, r)
    requires j < r && (i == m || s[i] > s[j])
    ensures k < |whole| && whole[k] == s[j]
    ensures MergeRest(whole, k + 1, s, i, m, j + 1, r)
  {
    assert whole[k + 1..] == whole[k..][1..];
    if i == m {
      assert s[j..r] == [s[j]] + s[j + 1..r];
    }
  }

  /** Once one window is exhausted the merge continues with the other one, so
    * an output that agrees with `whole` up to k and then holds the rests of
    * both windows, one after the other, is `whole`. */
  lemma AssembleTails(whole: seq<int32>, k: nat, s: seq<int32>, i: nat, m: nat, j: nat, r: nat,
                      out: seq<int32>)
    requires MergeRest(whole, k, s, i, m, j, r) && (i == m || j == r)
    requires |out| == |whole|
    requires forall t :: 0 <= t < k ==> out[t] == whole[t]
    requires forall t :: k <= t < k + (m - i) ==> out[t] == s[i + (t - k)]
    requires forall t :: k + (m - i) <= t < |out| ==> out[t] == s[j + (t - k - (m - i))]
    ensures out == whole
  {
    assert whole[k..] == s[i..m] + s[j..r];
    forall t | k <= t < |out|
      ensures out[t] == whole[t]
    {
      assert whole[t] == whole[k..][t - k];
    }
  }

  /** merge_ranges: merges the adjacent windows a[l..m) and a[m..r) through
    * the scratch buffer tmp, then copies the result back over a[l..r). */
  method MergeRanges(a: array<int32>, l: nat, m: nat, r: nat, tmp: array<int32>)
    requires l <= m <= r <= a.Length
    requires r - l <= tmp.Length
    requires a != tmp
    modifies a, tmp
    ensures tmp[..r - l] == Merge(old(a[l..m]), old(a[m..r]))
    ensures forall t :: r - l <= t < tmp.Length ==> tmp[t] == old(tmp[t])
    ensures a[l..r] == tmp[..r - l]
    ensures a[..l] == old(a[..l]) && a[r..] == old(a[r..])
    ensures multiset(a[l..r]) == multiset(old(a[l..r]))
    ensures multiset(a[..]) == multiset(old(a[..]))
    ensures Sorted(old(a[l..m])) && Sorted(old(a[m..r])) ==> Sorted(a[l..r])
  {
    MergeIntoBuffer(a, l, m, r, tmp);
    ghost var before := a[..];
    CopyBack(a, l, tmp, r - l);
    MergedWindow(before, a[..], l, m, r);
  }

  /** The three loops of merge_ranges: the pointers i and j walk the two
    * windows and k the buffer; while both windows have elements the smaller
    * head is taken, the left one on a tie, then the rest of whichever window
    * remains. Exactly r - l cells of tmp are written, and they hold the merge. */
  method MergeIntoBuffer(a: array<int32>, l: nat, m: nat, r: nat, tmp: array<int32>)
    requires l <= m <= r <= a.Length
    requires r - l <= tmp.Length
    requires a != tmp
    modifies tmp
    ensures tmp[..r - l] == Merge(a[l..m], a[m..r])
    ensures forall t :: r - l <= t < tmp.Length ==> tmp[t] == old(tmp[t])
  {
    ghost var s := a[..];
    ghost var whole := MergeFrom(s, l, m, m, r);
    assert whole[0..] == whole;
    var i, j, k := MergeHeads(a, l, m, r, tmp, whole);
    ghost var k0 := k;
    k := CopyTail(a, i, m, tmp, k);
    k := CopyTail(a, j, r, tmp, k);
    AssembleTails(whole, k0, s, i, m, j, r, tmp[..r - l]);
    MergeFromIsMerge(s, l, m, m, r);
    assert tmp[..r - l] == whole;
  }

  /** The first loop of merge_ranges: while both windows have elements,
    * copies the smaller head, the left one on a tie, to tmp[k]. It stops with
    * one window exhausted, having written the first k cells of the merge. */
  method MergeHeads(a: array<int32>, l: nat, m: nat, r: nat, tmp: array<int32>, ghost whole: seq<int32>)
    returns (i: nat, j: nat, k: nat)
    requires l <= m <= r <= a.Length
    requires r - l <= tmp.Length
    requires a != tmp
    requires MergeRest(whole, 0, a[..], l, m, m, r)
    modifies tmp
    ensures l <= i <= m <= j <= r && (i == m || j == r)
    ensures k == (i - l) + (j - m)
    ensures MergeRest(whole, k, a[..], i, m, j, r)
    ensures forall t :: 0 <= t < k ==> tmp[t] == whole[t]
    ensures forall t :: r - l <= t < tmp.Length ==> tmp[t] == old(tmp[t])
  {
    i, j, k := l, m, 0;
    while i < m && j < r
      invariant l <= i <= m <= j <= r
      invariant k == (i - l) + (j - m)
      invariant MergeRest(whole, k, a[..], i, m, j, r)
      invariant forall t :: 0 <= t < k ==> tmp[t] == whole[t]
      invariant forall t :: r - l <= t < tmp.Length ==> tmp[t] == old(tmp[t])
    {
      if a[i] <= a[j] {
        TakeLeft(whole, k, a[..], i, m, j, r);
        tmp[k] := a[i];
        k, i := k + 1, i + 1;
      } else {
        TakeRight(whole, k, a[..], i, m, j, r);
        tmp[k] := a[j];
        k, j := k + 1, j + 1;
      }
    }
  }

  /** One of the two trailing loops of merge_ranges: copies a[x..e) to
    * tmp[k..) and returns the advanced buffer index. */
  method CopyTail(a: array<int32>, x: nat, e: nat, tmp: array<int32>, k: nat) returns (k': nat)
    requires x <= e <= a.Length && k + (e - x) <= tmp.Length
    requires a != tmp
    modifies tmp
    ensures k' == k + (e - x)
    ensures forall t :: k <= t < k' ==> tmp[t] == a[x + (t - k)]
    ensures forall t :: 0 <= t < tmp.Length && !(k <= t < k') ==> tmp[t] == old(tmp[t])
  {
    var i := x;
    k' := k;
    while i < e
      invariant x <= i <= e && k' == k + (i - x)
      invariant forall t :: k <= t < k' ==> tmp[t] == a[x + (t - k)]
      invariant forall t :: 0 <= t < tmp.Length && !(k <= t < k') ==> tmp[t] == old(tmp[t])
    {
      tmp[k'] := a[i];
      k', i := k' + 1, i + 1;
    }
  }

  /** The memcpy at the end of merge_ranges: copies tmp[0..n) over a[l..l+n). */
  method CopyBack(a: array<int32>, l: nat, tmp: array<int32>, n: nat)
    requires l + n <= a.Length && n <= tmp.Length
    requires a != tmp
    modifies a
    ensures a[l..l + n] == tmp[..n]
    ensures a[..l] == old(a[..l]) && a[l + n..] == old(a[l + n..])
  {
    forall t | 0 <= t < n {
      a[l + t] := tmp[t];
    }
  }

  /** Replacing the window s[l..r) by the merge of its two halves keeps the
    * whole sequence a permutation, and makes the window ascending when both
    * halves were. */
  lemma MergedWindow(s: seq<int32>, t: seq<int32>, l: nat, m: nat, r: nat)
    requires l <= m <= r <= |s| == |t|
    requires t[l..r] == Merge(s[l..m], s[m..r])
    requires s[..l] == t[..l] && s[r..] == t[r..]
    ensures multiset(t[l..r]) == multiset(s[l..r])
    ensures multiset(t) == multiset(s)
    ensures Sorted(s[l..m]) && Sorted(s[m..r]) ==> Sorted(t[l..r])
  {
    var x, y := s[l..m], s[m..r];
    MergePermutation(x, y);
    WindowSplitMultiset(s, l, m, r);
    assert multiset(t[l..r]) == multiset(s[l..r]);
    SpliceMultiset(s, t, l, r);
    if Sorted(x) && Sorted(y) {
      MergeSorted(x, y);
    }
  }

  /** The multiset of a window is the sum of those of its two halves. */
  lemma WindowSplitMultiset(s: seq<int32>, l: nat, m: nat, r: nat)
    requires l <= m <= r <= |s|
    ensures multiset(s[l..r]) == multiset(s[l..m]) + multiset(s[m..r])
  {
    assert s[l..r] == s[l..m] + s[m..r];
  }

  /** Stands in for the C library's qsort called with cmp_int on the window
    * a[s..s+len): only its contract is relied upon, so any in-place sort that
    * meets it will do. */
  method QSort(a: array<int32>, s: nat, len: nat)
    requires s + len <= a.Length
    modifies a
    ensures Sorted(a[s..s + len])
    ensures multiset(a[s..s + len]) == multiset(old(a[s..s + len]))
    ensures multiset(a[..]) == multiset(old(a[..]))
    ensures forall k :: 0 <= k < a.Length && !(s <= k < s + len) ==> a[k] == old(a[k])
    ensures a[..s] == old(a[..s]) && a[s + len..] == old(a[s + len..])
  {
    InsertionSort(a, s, s + len);
  }
}
