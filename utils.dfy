// The post-sort check of src/utils.c.

module Utils {
  import opened Types
  import opened Sortedness

  /** verify_sorted: scans adjacent pairs of array[0..size) and answers 0 at the
    * first descent, 1 if there is none. It only reads the array. */
  method VerifySorted(a: array<int32>, size: nat) returns (r: int)
    requires size <= a.Length
    ensures r == 0 || r == 1
    ensures r == 1 <==> AdjacentSorted(a[..size])
    ensures r == 1 <==> Sorted(a[..size])
    ensures size <= 1 ==> r == 1
  {
    AdjacentSortedIffSorted(a[..size]);
    var k := 1;
    while k < size
      invariant 1 <= k
      invariant k <= size || size == 0
      invariant forall t :: 1 <= t < k && t < size ==> a[t - 1] <= a[t]
    {
      if a[k - 1] > a[k] {
        return 0;
      }
      k := k + 1;
    }
    return 1;
  }
}
