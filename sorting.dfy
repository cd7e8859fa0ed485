/**
 * The four sorting exercises. Each sorts a list of integers into ascending
 * order and returns a permutation of its input. Bubble sort and insertion
 * sort work in place on an array by swapping neighbours; merge sort and
 * quick sort are divide-and-conquer functions on sequences.
 */
module Sorting {

  /** Ascending (non-decreasing) order. */
  predicate Sorted(s: seq<int>)
  {
    forall i, j :: 0 <= i < j < |s| ==> s[i] <= s[j]
  }

  /** Adding the same element to two multisets keeps them apart or equal. */
  lemma MultisetCancel(m: multiset<int>, n: multiset<int>, x: int)
    requires multiset{x} + m == multiset{x} + n
    ensures m == n
  {
    forall y
      ensures m[y] == n[y]
    {
      assert (multiset{x} + m)[y] == (multiset{x} + n)[y];
    }
  }

  /** There is only one sorted arrangement of a multiset of integers. */
  lemma {:induction false} SortedUnique(a: seq<int>, b: seq<int>)
    requires Sorted(a) && Sorted(b) && multiset(a) == multiset(b)
    ensures a == b
    decreases |a|
  {
    if a != [] {
      assert |b| == |multiset(b)| == |multiset(a)| == |a|;
      assert a[0] in multiset(b) && b[0] in multiset(a);
      LeastFirst(b, a[0]);
      LeastFirst(a, b[0]);
      assert a[0] == b[0];
      assert multiset(a[1..]) == multiset(b[1..]) by {
        SortedHead(a);
        SortedHead(b);
        MultisetCancel(multiset(a[1..]), multiset(b[1..]), a[0]);
      }
      SortedUnique(a[1..], b[1..]);
    } else {
      assert |b| == |multiset(b)| == 0;
    }
  }

  /** A sequence whose neighbours are in order is sorted. */
  lemma {:induction false} SortedFromAdjacent(s: seq<int>)
    requires forall k :: 0 <= k < |s| - 1 ==> s[k] <= s[k + 1]
    ensures Sorted(s)
  {
    if |s| > 1 {
      SortedFromAdjacent(s[1..]);
      assert s[0] <= s[1];
      assert forall k :: 1 <= k < |s| ==> s[k] == s[1..][k - 1];
    }
  }

  /** Every element of a sorted non-empty sequence is at least its first element. */
  lemma LeastFirst(s: seq<int>, x: int)
    requires Sorted(s) && x in multiset(s)
    ensures |s| > 0 && s[0] <= x
  {
    var i :| 0 <= i < |s| && s[i] == x;
  }

  // ---------------------------------------------------------------------
  // bubble_sort

  /** Exchanges a[i] and a[j]. */
  method Swap(a: array<int>, i: int, j: int)
    requires 0 <= i < a.Length && 0 <= j < a.Length
    modifies a
    ensures a[..] == old(a[..])[i := old(a[j])][j := old(a[i])]
    ensures multiset(a[..]) == old(multiset(a[..]))
  {
    a[i], a[j] := a[j], a[i];
  }

  /** The elements of s from index lo on are in order and none is below an element before lo. */
  ghost predicate SortedSuffix(s: seq<int>, lo: int)
    requires 0 <= lo <= |s|
  {
    (forall k, l :: lo <= k < l < |s| ==> s[k] <= s[l]) &&
    (forall k, l :: 0 <= k < lo <= l < |s| ==> s[k] <= s[l])
  }

  /** Compares s[j] with s[j + 1] and exchanges them when they are out of order. */
  function CompareSwap(s: seq<int>, j: int): (r: seq<int>)
    requires 0 <= j < |s| - 1
    ensures |r| == |s|
  {
    if s[j] > s[j + 1] then s[j := s[j + 1]][j + 1 := s[j]] else s
  }

  /** The rest of a bubble pass: compare-and-swap at positions j, j + 1, ..., last - 1. */
  function Pass(s: seq<int>, j: int, last: int): (r: seq<int>)
    requires 0 <= j && last < |s|
    ensures |r| == |s|
    decreases last - j
  {
    if j >= last then s else Pass(CompareSwap(s, j), j + 1, last)
  }

  /** The sequence after the first i passes of bubble sort; pass number p stops at index |s| - 1 - p. */
  function Passes(s: seq<int>, i: int): (r: seq<int>)
    requires 0 <= i <= |s|
    ensures |r| == |s|
  {
    if i == 0 then s else Pass(Passes(s, i - 1), 0, |s| - i)
  }

  /**
   * Bubble sort: each pass walks left to right and swaps every adjacent
   * pair that is out of order, carrying the largest remaining element to
   * the end; after k passes the last k positions hold their final values.
   */
  method BubbleSort(a: array<int>)
    modifies a
    ensures a[..] == Passes(old(a[..]), a.Length)
    ensures Sorted(a[..])
    ensures multiset(a[..]) == old(multiset(a[..]))
  {
    var n := a.Length;
    var i := 0;
    while i < n
      invariant 0 <= i <= n
      invariant a[..] == Passes(old(a[..]), i)
    {
      ghost var start := a[..];
      var j := 0;
      while j < n - 1 - i
        invariant 0 <= j <= n - 1 - i
        invariant Pass(a[..], j, n - 1 - i) == Pass(start, 0, n - 1 - i)
      {
        if a[j] > a[j + 1] {
          a[j], a[j + 1] := a[j + 1], a[j];
        }
        j := j + 1;
      }
      i := i + 1;
    }
    BubbleSortSorts(old(a[..]));
  }

  /** A compare-and-swap only exchanges two elements. */
  lemma CompareSwapPermutes(s: seq<int>, j: int)
    requires 0 <= j < |s| - 1
    ensures multiset(CompareSwap(s, j)) == multiset(s)
  {
    if s[j] > s[j + 1] {
      var t := s[j := s[j + 1]][j + 1 := s[j]];
      assert s == s[..j] + [s[j], s[j + 1]] + s[j + 2..];
      assert t == s[..j] + [s[j + 1], s[j]] + s[j + 2..];
    }
  }

  /** A pass rearranges its input. */
  lemma {:induction false} PassPermutes(s: seq<int>, j: int, last: int)
    requires 0 <= j && last < |s|
    ensures multiset(Pass(s, j, last)) == multiset(s)
    decreases last - j
  {
    if j < last {
      CompareSwapPermutes(s, j);
      PassPermutes(CompareSwap(s, j), j + 1, last);
    }
  }

  /**
   * A pass that starts with the largest element of s[..j + 1] at j carries
   * the largest element of s[..last + 1] to last, so the sorted suffix
   * grows by one position.
   */
  lemma {:induction false} PassCarriesLargest(s: seq<int>, j: int, last: int)
    requires 0 <= j <= last < |s|
    requires SortedSuffix(s, last + 1)
    requires forall k :: 0 <= k < j ==> s[k] <= s[j]
    ensures SortedSuffix(Pass(s, j, last), last)
    decreases last - j
  {
    if j < last {
      var t := CompareSwap(s, j);
      BubbleStep(s, t, j, last + 1);
      PassCarriesLargest(t, j + 1, last);
    } else {
      SortedSuffixGrows(s, last);
    }
  }

  /** An element no smaller than everything before it extends a sorted suffix by one place. */
  lemma SortedSuffixGrows(s: seq<int>, last: int)
    requires 0 <= last < |s| && SortedSuffix(s, last + 1)
    requires forall k :: 0 <= k < last ==> s[k] <= s[last]
    ensures SortedSuffix(s, last)
  {
  }

  /** One comparison of a pass: the larger of s[j], s[j + 1] moves to j + 1, and the sorted suffix is untouched. */
  lemma BubbleStep(s: seq<int>, t: seq<int>, j: int, lo: int)
    requires 0 <= j && j + 1 < lo <= |s|
    requires SortedSuffix(s, lo)
    requires forall k :: 0 <= k < j ==> s[k] <= s[j]
    requires t == CompareSwap(s, j)
    ensures SortedSuffix(t, lo)
    ensures forall k :: 0 <= k < j + 1 ==> t[k] <= t[j + 1]
  {
  }

  /** After i passes the last i positions are sorted and hold the i largest elements, and nothing is lost. */
  lemma {:induction false} PassesInvariant(s: seq<int>, i: int)
    requires 0 <= i <= |s|
    ensures SortedSuffix(Passes(s, i), |s| - i)
    ensures multiset(Passes(s, i)) == multiset(s)
  {
    if i > 0 {
      PassesInvariant(s, i - 1);
      PassCarriesLargest(Passes(s, i - 1), 0, |s| - i);
      PassPermutes(Passes(s, i - 1), 0, |s| - i);
    }
  }

  /** |s| passes sort s. */
  lemma BubbleSortSorts(s: seq<int>)
    ensures Sorted(Passes(s, |s|))
    ensures multiset(Passes(s, |s|)) == multiset(s)
  {
    PassesInvariant(s, |s|);
  }

  // ---------------------------------------------------------------------
  // insertion_sort

  /**
   * Insertion sort: the prefix a[..i] is kept sorted, and a[i] is inserted
   * into it by swapping it leftwards past every larger neighbour.
   */
  method InsertionSort(a: array<int>)
    modifies a
    ensures Sorted(a[..])
    ensures multiset(a[..]) == old(multiset(a[..]))
  {
    if a.Length == 0 {
      return;
    }
    var i := 1;
    while i < a.Length
      invariant 1 <= i <= a.Length
      invariant Sorted(a[..i])
      invariant multiset(a[..]) == old(multiset(a[..]))
    {
      Sink(a, i);
      i := i + 1;
    }
  }

  /** Moves a[i] left past every larger element, extending the sorted prefix a[..i] to a[..i + 1]. */
  method Sink(a: array<int>, i: int)
    requires 0 < i < a.Length && Sorted(a[..i])
    modifies a
    ensures Sorted(a[..i + 1])
    ensures multiset(a[..i + 1]) == old(multiset(a[..i + 1]))
    ensures a[i + 1..] == old(a[i + 1..])
    ensures multiset(a[..]) == old(multiset(a[..]))
  {
    ghost var orig := a[..];
    var j := i;
    while j > 0 && a[j - 1] > a[j]
      invariant Sinking(a[..], orig, i, j)
    {
      ghost var before := a[..];
      Swap(a, j - 1, j);
      SinkingStep(before, a[..], orig, i, j);
      j := j - 1;
    }
    SinkingDone(a[..], orig, i, j);
  }

  /**
   * The state of Sink while element i travels left: it sits at j, every other
   * pair in s[..i + 1] is in order, it is below everything after it up to i,
   * and s is a permutation of orig that agrees with it after i.
   */
  ghost predicate Sinking(s: seq<int>, orig: seq<int>, i: int, j: int)
  {
    0 <= j <= i < |s| == |orig|
    && (forall k, l :: 0 <= k < l <= i && k != j && l != j ==> s[k] <= s[l])
    && (forall l :: j < l <= i ==> s[j] < s[l])
    && multiset(s) == multiset(orig)
    && (forall k :: i < k < |s| ==> s[k] == orig[k])
  }

  /** One swap of a larger left neighbour moves the travelling element from j to j - 1. */
  lemma SinkingStep(s: seq<int>, t: seq<int>, orig: seq<int>, i: int, j: int)
    requires Sinking(s, orig, i, j) && j > 0 && s[j - 1] > s[j]
    requires |t| == |s| && t[j - 1] == s[j] && t[j] == s[j - 1]
    requires forall k :: 0 <= k < |s| && k != j - 1 && k != j ==> t[k] == s[k]
    requires multiset(t) == multiset(s)
    ensures Sinking(t, orig, i, j - 1)
  {
  }

  /** When the travelling element meets no larger left neighbour, s[..i + 1] is sorted and is a permutation of orig[..i + 1]. */
  lemma SinkingDone(s: seq<int>, orig: seq<int>, i: int, j: int)
    requires Sinking(s, orig, i, j) && (j == 0 || s[j - 1] <= s[j])
    ensures Sorted(s[..i + 1])
    ensures multiset(s[..i + 1]) == multiset(orig[..i + 1])
    ensures s[i + 1..] == orig[i + 1..]
    ensures multiset(s) == multiset(orig)
  {
    PrefixMultiset(s, orig, i);
  }

  /** Two sequences with the same elements that agree from index i + 1 on have the same elements before it. */
  lemma PrefixMultiset(s: seq<int>, t: seq<int>, i: int)
    requires 0 <= i < |s| == |t| && multiset(s) == multiset(t)
    requires forall k :: i < k < |s| ==> s[k] == t[k]
    ensures multiset(s[..i + 1]) == multiset(t[..i + 1])
    ensures s[i + 1..] == t[i + 1..]
  {
    assert s[i + 1..] == t[i + 1..];
    assert s == s[..i + 1] + s[i + 1..];
    assert t == t[..i + 1] + t[i + 1..];
    calc {
      multiset(s[..i + 1]);
      multiset(s) - multiset(s[i + 1..]);
      multiset(t) - multiset(t[i + 1..]);
      multiset(t[..i + 1]);
    }
  }

  // ---------------------------------------------------------------------
  // merge_sort

  /** Merges two sorted sequences into one sorted sequence holding the elements of both. */
  function Merge(left: seq<int>, right: seq<int>): (r: seq<int>)
    requires Sorted(left) && Sorted(right)
    ensures Sorted(r)
    ensures multiset(r) == multiset(left) + multiset(right)
    decreases |left| + |right|
  {
    if left == [] then right
    else if right == [] then left
    else if left[0] <= right[0] then
      var rest := Merge(left[1..], right);
      SortedHead(left);
      SortedHead(right);
      MergeHead(left[0], left[1..], right, rest);
      [left[0]] + rest
    else
      var rest := Merge(left, right[1..]);
      SortedHead(left);
      SortedHead(right);
      MergeHead(right[0], left, right[1..], rest);
      [right[0]] + rest
  }

  /** The head of a sorted sequence bounds every element, and the sequence splits as head and tail. */
  lemma SortedHead(s: seq<int>)
    requires Sorted(s) && s != []
    ensures forall k :: 0 <= k < |s| ==> s[0] <= s[k]
    ensures Sorted(s[1..]) && multiset(s) == multiset{s[0]} + multiset(s[1..])
  {
    assert s == [s[0]] + s[1..];
  }

  /** A value no larger than any element of two sequences can head a sorted sequence of their elements. */
  lemma MergeHead(x: int, left: seq<int>, right: seq<int>, rest: seq<int>)
    requires Sorted(rest) && multiset(rest) == multiset(left) + multiset(right)
    requires forall k :: 0 <= k < |left| ==> x <= left[k]
    requires forall k :: 0 <= k < |right| ==> x <= right[k]
    ensures Sorted([x] + rest)
    ensures multiset([x] + rest) == multiset{x} + multiset(left) + multiset(right)
  {
    forall k | 0 <= k < |rest| ensures x <= rest[k] {
      assert rest[k] in multiset(rest);
      if rest[k] in multiset(left) {
        var i :| 0 <= i < |left| && left[i] == rest[k];
      } else {
        var i :| 0 <= i < |right| && right[i] == rest[k];
      }
    }
  }

  /** Merge sort: sort both halves, then merge them. */
  function MergeSort(s: seq<int>): (r: seq<int>)
    ensures Sorted(r)
    ensures multiset(r) == multiset(s)
    decreases |s|
  {
    if |s| <= 1 then s
    else
      var mid := |s| / 2;
      assert s == s[..mid] + s[mid..];
      Merge(MergeSort(s[..mid]), MergeSort(s[mid..]))
  }

  // ---------------------------------------------------------------------
  // quick_sort

  /** The elements of s below the pivot, in their original order. */
  function Below(s: seq<int>, pivot: int): (r: seq<int>)
    ensures forall k :: 0 <= k < |r| ==> r[k] < pivot
  {
    if s == [] then [] else if s[0] < pivot then [s[0]] + Below(s[1..], pivot) else Below(s[1..], pivot)
  }

  /** The elements of s equal to the pivot. */
  function Equal(s: seq<int>, pivot: int): (r: seq<int>)
    ensures forall k :: 0 <= k < |r| ==> r[k] == pivot
  {
    if s == [] then [] else if s[0] == pivot then [s[0]] + Equal(s[1..], pivot) else Equal(s[1..], pivot)
  }

  /** The elements of s above the pivot, in their original order. */
  function Above(s: seq<int>, pivot: int): (r: seq<int>)
    ensures forall k :: 0 <= k < |r| ==> r[k] > pivot
  {
    if s == [] then [] else if s[0] > pivot then [s[0]] + Above(s[1..], pivot) else Above(s[1..], pivot)
  }

  /** The three parts together hold exactly the elements of s. */
  lemma {:induction false} PartitionPermutes(s: seq<int>, pivot: int)
    ensures multiset(Below(s, pivot)) + multiset(Equal(s, pivot)) + multiset(Above(s, pivot)) == multiset(s)
  {
    if s != [] {
      PartitionPermutes(s[1..], pivot);
      assert s == [s[0]] + s[1..];
      assert multiset(s) == multiset{s[0]} + multiset(s[1..]);
    }
  }

  /**
   * Splits s around the pivot into the elements below it, those equal to
   * it and those above it; when the pivot is taken from s, the outer parts
   * are strictly shorter than s.
   */
  function Partition(s: seq<int>, pivot: int): (r: (seq<int>, seq<int>, seq<int>))
    ensures forall k :: 0 <= k < |r.0| ==> r.0[k] < pivot
    ensures forall k :: 0 <= k < |r.1| ==> r.1[k] == pivot
    ensures forall k :: 0 <= k < |r.2| ==> r.2[k] > pivot
    ensures multiset(r.0) + multiset(r.1) + multiset(r.2) == multiset(s)
    ensures pivot in s ==> |r.0| < |s| && |r.2| < |s|
  {
    var below, equal, above := Below(s, pivot), Equal(s, pivot), Above(s, pivot);
    PartitionPermutes(s, pivot);
    assert |multiset(below)| + |multiset(equal)| + |multiset(above)| == |multiset(s)|;
    assert pivot in s ==> pivot in multiset(equal) by {
      if pivot in s {
        assert pivot in multiset(s);
        assert pivot !in multiset(below) && pivot !in multiset(above);
      }
    }
    (below, equal, above)
  }

  /** Quick sort: partition around the middle element and sort the two outer parts. */
  function QuickSort(s: seq<int>): (r: seq<int>)
    ensures Sorted(r)
    ensures multiset(r) == multiset(s)
    decreases |s|
  {
    if |s| <= 1 then s
    else
      var pivot := s[|s| / 2];
      var parts := Partition(s, pivot);
      var below, above := QuickSort(parts.0), QuickSort(parts.2);
      QuickSortJoin(below, parts.1, above, pivot);
      below + parts.1 + above
  }

  /** Sorted elements below the pivot, then copies of the pivot, then sorted elements above it, are in order. */
  lemma QuickSortJoin(below: seq<int>, equal: seq<int>, above: seq<int>, pivot: int)
    requires Sorted(below) && Sorted(above)
    requires forall x :: x in multiset(below) ==> x < pivot
    requires forall k :: 0 <= k < |equal| ==> equal[k] == pivot
    requires forall x :: x in multiset(above) ==> x > pivot
    ensures Sorted(below + equal + above)
  {
    forall k | 0 <= k < |below| ensures below[k] < pivot {
      assert below[k] in multiset(below);
    }
    forall k | 0 <= k < |above| ensures above[k] > pivot {
      assert above[k] in multiset(above);
    }
  }

  // ---------------------------------------------------------------------
  // Properties shared by the four sorts

  /**
   * Any sorted permutation of s is the merge sort of s: the four sorts all
   * compute the same list.
   */
  lemma SortedPermutationIsMergeSort(s: seq<int>, r: seq<int>)
    requires Sorted(r) && multiset(r) == multiset(s)
    ensures r == MergeSort(s)
  {
    SortedUnique(r, MergeSort(s));
  }

  /** Bubble sort and merge sort agree. */
  lemma BubbleSortIsMergeSort(s: seq<int>)
    ensures Passes(s, |s|) == MergeSort(s)
  {
    BubbleSortSorts(s);
    SortedUnique(Passes(s, |s|), MergeSort(s));
  }

  /** Quick sort and merge sort agree. */
  lemma QuickSortIsMergeSort(s: seq<int>)
    ensures QuickSort(s) == MergeSort(s)
  {
    SortedUnique(QuickSort(s), MergeSort(s));
  }

  /** A list that is already sorted (the empty list and every singleton among them) is returned unchanged. */
  lemma SortingSortedIsIdentity(s: seq<int>)
    requires Sorted(s)
    ensures MergeSort(s) == s && QuickSort(s) == s
  {
    SortedUnique(MergeSort(s), s);
    SortedUnique(QuickSort(s), s);
  }

  /** Sorting twice is sorting once. */
  lemma MergeSortIdempotent(s: seq<int>)
    ensures MergeSort(MergeSort(s)) == MergeSort(s)
  {
    SortingSortedIsIdentity(MergeSort(s));
  }

  /** s with the elements at i and j exchanged, which has the same multiset. */
  lemma Exchange(s: seq<int>, i: int, j: int) returns (t: seq<int>)
    requires 0 <= i < |s| && 0 <= j < |s| && i != j
    ensures |t| == |s| && t[i] == s[j] && t[j] == s[i]
    ensures forall k :: 0 <= k < |s| && k != i && k != j ==> t[k] == s[k]
    ensures multiset(t) == multiset(s)
  {
    t := s[i := s[j]][j := s[i]];
  }

  /** Every sort of s returns r when r is sorted and holds the elements of s. */
  lemma SortsAgreeOn(s: seq<int>, r: seq<int>)
    requires Sorted(r) && multiset(r) == multiset(s)
    ensures Passes(s, |s|) == r && MergeSort(s) == r && QuickSort(s) == r
  {
    SortedPermutationIsMergeSort(s, r);
    BubbleSortIsMergeSort(s);
    QuickSortIsMergeSort(s);
  }

  /** The seven-element list of the exercise's documentation and tests, sorted by each sort. */
  lemma SortExample(s: seq<int>)
    requires s == [64, 34, 25, 12, 22, 11, 90]
    ensures Passes(s, |s|) == [11, 12, 22, 25, 34, 64, 90]
    ensures MergeSort(s) == [11, 12, 22, 25, 34, 64, 90]
    ensures QuickSort(s) == [11, 12, 22, 25, 34, 64, 90]
  {
    SortSeven(s);
  }

  /** SortExample, stated element by element. */
  lemma SortSeven(s: seq<int>)
    requires |s| == 7 && s[0] == 64 && s[1] == 34 && s[2] == 25 && s[3] == 12 && s[4] == 22 && s[5] == 11 && s[6] == 90
    ensures Passes(s, |s|) == [11, 12, 22, 25, 34, 64, 90]
    ensures MergeSort(s) == [11, 12, 22, 25, 34, 64, 90]
    ensures QuickSort(s) == [11, 12, 22, 25, 34, 64, 90]
  {
    var r := SevenSwaps(s);
    assert Sorted(r) by {
      SortedFromAdjacent(r);
    }
    assert r == [11, 12, 22, 25, 34, 64, 90];
    SortsAgreeOn(s, r);
  }

  /** Four exchanges put the seven elements of SortExample in order. */
  lemma SevenSwaps(s: seq<int>) returns (r: seq<int>)
    requires |s| == 7 && s[0] == 64 && s[1] == 34 && s[2] == 25 && s[3] == 12 && s[4] == 22 && s[5] == 11 && s[6] == 90
    ensures |r| == 7 && r[0] == 11 && r[1] == 12 && r[2] == 22 && r[3] == 25 && r[4] == 34 && r[5] == 64 && r[6] == 90
    ensures multiset(r) == multiset(s)
  {
    var s1 := Exchange(s, 0, 5);
    assert s1[0] == 11 && s1[1] == 34 && s1[2] == 25 && s1[3] == 12 && s1[4] == 22 && s1[5] == 64 && s1[6] == 90;
    var s2 := Exchange(s1, 1, 3);
    assert s2[0] == 11 && s2[1] == 12 && s2[2] == 25 && s2[3] == 34 && s2[4] == 22 && s2[5] == 64 && s2[6] == 90;
    var s3 := Exchange(s2, 2, 4);
    assert s3[0] == 11 && s3[1] == 12 && s3[2] == 22 && s3[3] == 34 && s3[4] == 25 && s3[5] == 64 && s3[6] == 90;
    r := Exchange(s3, 3, 4);
  }

  /** The five-element list of the exercise's tests, sorted by each sort. */
  lemma SortFiveExample(s: seq<int>)
    requires s == [5, 2, 8, 1, 9]
    ensures Passes(s, |s|) == [1, 2, 5, 8, 9]
    ensures MergeSort(s) == [1, 2, 5, 8, 9]
    ensures QuickSort(s) == [1, 2, 5, 8, 9]
  {
    SortFive(s);
  }

  /** SortFiveExample, stated element by element: two exchanges put the list in order. */
  lemma SortFive(s: seq<int>)
    requires |s| == 5 && s[0] == 5 && s[1] == 2 && s[2] == 8 && s[3] == 1 && s[4] == 9
    ensures Passes(s, |s|) == [1, 2, 5, 8, 9]
    ensures MergeSort(s) == [1, 2, 5, 8, 9]
    ensures QuickSort(s) == [1, 2, 5, 8, 9]
  {
    var s1 := Exchange(s, 0, 3);
    assert s1[0] == 1 && s1[1] == 2 && s1[2] == 8 && s1[3] == 5 && s1[4] == 9;
    var r := Exchange(s1, 2, 3);
    assert r[0] == 1 && r[1] == 2 && r[2] == 5 && r[3] == 8 && r[4] == 9;
    assert Sorted(r) by {
      SortedFromAdjacent(r);
    }
    assert r == [1, 2, 5, 8, 9];
    SortsAgreeOn(s, r);
  }
}
