/**
 * The searching algorithms: linear search, iterative and recursive binary
 * search over a sorted list, and the leftmost occurrence in a sorted list
 * with duplicates. Every search answers with an index, or -1 when the
 * target does not occur. The lists are read, never changed, so they are
 * sequences.
 */
module Searching {
  import Sorting
  import Recursion

  /** i is the smallest index holding target. */
  predicate FirstIndex(arr: seq<int>, target: int, i: int)
  {
    0 <= i < |arr| && arr[i] == target && forall k :: 0 <= k < i ==> arr[k] != target
  }

  /** Scans from the left and stops at the first element equal to target. */
  method LinearSearch(arr: seq<int>, target: int) returns (i: int)
    ensures i == -1 <==> target !in arr
    ensures i != -1 ==> FirstIndex(arr, target, i)
  {
    var k := 0;
    while k < |arr|
      invariant 0 <= k <= |arr|
      invariant forall j :: 0 <= j < k ==> arr[j] != target
    {
      if arr[k] == target {
        return k;
      }
      k := k + 1;
    }
    return -1;
  }

  /** Steps of 2 * next <= size keep the bound p * 2 * next <= n that p * size <= n gives. */
  lemma HalvingStep(p: int, size: int, next: int, n: int)
    requires p >= 1 && size >= 1 && 0 <= next && 2 * next <= size && p * size <= n
    ensures p <= n && 2 * p * next <= n
  {
    assert p * size >= p * 1;
    assert 2 * p * next == p * (2 * next) <= p * size;
  }

  /**
   * Iterative binary search on lo..hi. `probes` counts the elements the
   * search compares with target: every probe at least halves the interval,
   * so there are at most floor(log2 n) + 1 of them.
   */
  method BinarySearch(arr: seq<int>, target: int) returns (i: int, ghost probes: nat)
    requires Sorting.Sorted(arr)
    ensures i == -1 <==> target !in arr
    ensures i != -1 ==> 0 <= i < |arr| && arr[i] == target
    ensures probes == 0 || Recursion.Power(2, probes - 1) <= |arr|
  {
    var lo, hi := 0, |arr| - 1;
    probes := 0;
    while lo <= hi
      invariant 0 <= lo <= hi + 1 <= |arr|
      invariant forall k :: 0 <= k < |arr| && !(lo <= k <= hi) ==> arr[k] != target
      invariant probes == 0 || Recursion.Power(2, probes - 1) <= |arr|
      invariant Recursion.Power(2, probes) * (hi - lo + 1) <= |arr|
      decreases hi - lo
    {
      var mid := (lo + hi) / 2;
      Recursion.PowerPositive(2, probes);
      ghost var p := Recursion.Power(2, probes);
      ghost var size := hi - lo + 1;
      probes := probes + 1;
      if arr[mid] == target {
        HalvingStep(p, size, 0, |arr|);
        return mid, probes;
      } else if arr[mid] < target {
        lo := mid + 1;
      } else {
        hi := mid - 1;
      }
      HalvingStep(p, size, hi - lo + 1, |arr|);
    }
    return -1, probes;
  }

  /**
   * Recursive binary search of arr[left..right] (both ends included):
   * -1 exactly when target is not in that range.
   */
  function BinarySearchRange(arr: seq<int>, target: int, left: int, right: int): (r: int)
    requires Sorting.Sorted(arr) && 0 <= left && right < |arr|
    ensures r == -1 <==> forall k :: left <= k <= right ==> arr[k] != target
    ensures r != -1 ==> left <= r <= right && arr[r] == target
    decreases right - left
  {
    if left > right then -1
    else
      var mid := (left + right) / 2;
      if arr[mid] == target then mid
      else if arr[mid] < target then BinarySearchRange(arr, target, mid + 1, right)
      else BinarySearchRange(arr, target, left, mid - 1)
  }

  /** The recursive search with its default bounds 0 and len(arr) - 1. */
  function BinarySearchRecursive(arr: seq<int>, target: int): (r: int)
    requires Sorting.Sorted(arr)
    ensures r == -1 <==> target !in arr
    ensures r != -1 ==> 0 <= r < |arr| && arr[r] == target
  {
    BinarySearchRange(arr, target, 0, |arr| - 1)
  }

  /**
   * Binary search that keeps going left after a hit, so that on a sorted
   * list it ends on the leftmost occurrence.
   */
  method FindFirstOccurrence(arr: seq<int>, target: int) returns (result: int)
    requires Sorting.Sorted(arr)
    ensures result == -1 <==> target !in arr
    ensures result != -1 ==> FirstIndex(arr, target, result)
  {
    var lo, hi := 0, |arr| - 1;
    result := -1;
    while lo <= hi
      invariant 0 <= lo <= hi + 1 <= |arr|
      invariant forall k :: 0 <= k < lo ==> arr[k] != target
      invariant result == -1 ==> forall k :: hi < k < |arr| ==> arr[k] != target
      invariant result != -1 ==> result == hi + 1 < |arr| && arr[result] == target
      decreases hi - lo
    {
      var mid := (lo + hi) / 2;
      if arr[mid] == target {
        result := mid;
        hi := mid - 1;
      } else if arr[mid] < target {
        lo := mid + 1;
      } else {
        hi := mid - 1;
      }
    }
  }

  /** The smallest index holding target is unique, so any two searches meeting FirstIndex agree. */
  lemma FirstIndexUnique(arr: seq<int>, target: int, i: int, j: int)
    requires FirstIndex(arr, target, i) && FirstIndex(arr, target, j)
    ensures i == j
  {
  }

  /** The recursive search on the examples of the source's documentation. */
  lemma BinarySearchRecursiveExamples()
    ensures BinarySearchRecursive([1, 2, 4, 5, 7, 9], 7) == 4
    ensures BinarySearchRecursive([1, 2, 4, 5, 7, 9], 10) == -1
  {
    var a := [1, 2, 4, 5, 7, 9];
    assert forall k :: 0 <= k < |a| - 1 ==> a[k] <= a[k + 1];
    Sorting.SortedFromAdjacent(a);
    assert BinarySearchRange(a, 7, 0, 5) == BinarySearchRange(a, 7, 3, 5);
    assert BinarySearchRange(a, 7, 3, 5) == 4;
    assert 10 !in a;
  }
}
