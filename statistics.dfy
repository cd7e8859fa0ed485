/**
 * The descriptive statistics of a non-empty list of numbers: mean, median,
 * mode, population variance and interpolated percentile. Inputs are
 * integers and results are exact reals, so no floating-point rounding
 * enters the model; `sorted(...)` is merge sort.
 */
module Statistics {
  import Sorting
  import Divisibility

  /** The sum of the elements, added from the left. */
  function Sum(xs: seq<int>): int
  {
    if xs == [] then 0 else xs[0] + Sum(xs[1..])
  }

  /** The smallest element. */
  function Min(xs: seq<int>): (r: int)
    requires |xs| > 0
    ensures r in xs && forall k :: 0 <= k < |xs| ==> r <= xs[k]
  {
    if |xs| == 1 then xs[0] else var m := Min(xs[1..]); if xs[0] <= m then xs[0] else m
  }

  /** The largest element. */
  function Max(xs: seq<int>): (r: int)
    requires |xs| > 0
    ensures r in xs && forall k :: 0 <= k < |xs| ==> xs[k] <= r
  {
    if |xs| == 1 then xs[0] else var m := Max(xs[1..]); if xs[0] >= m then xs[0] else m
  }

  /** The sorted copy that median and percentile read from; the input itself is left alone. */
  function SortedCopy(xs: seq<int>): (s: seq<int>)
    ensures Sorting.Sorted(s) && multiset(s) == multiset(xs) && |s| == |xs|
  {
    var s := Sorting.MergeSort(xs);
    assert |s| == |multiset(s)| == |multiset(xs)| == |xs|;
    s
  }

  /** The first element of the sorted copy is the minimum and the last is the maximum. */
  lemma SortedCopyEnds(xs: seq<int>)
    requires |xs| > 0
    ensures SortedCopy(xs)[0] == Min(xs)
    ensures SortedCopy(xs)[|xs| - 1] == Max(xs)
  {
    SortedEnds(SortedCopy(xs), xs);
  }

  /** A sorted arrangement of xs starts with its minimum and ends with its maximum. */
  lemma SortedEnds(s: seq<int>, xs: seq<int>)
    requires Sorting.Sorted(s) && multiset(s) == multiset(xs) && |s| == |xs| > 0
    ensures s[0] == Min(xs) && s[|s| - 1] == Max(xs)
  {
    var n := |xs|;
    var lo, hi := Min(xs), Max(xs);
    assert s[0] in multiset(xs) && s[n - 1] in multiset(xs);
    var i :| 0 <= i < n && xs[i] == s[0];
    var i' :| 0 <= i' < n && xs[i'] == s[n - 1];
    assert lo in multiset(s) && hi in multiset(s);
    var j :| 0 <= j < n && s[j] == lo;
    var j' :| 0 <= j' < n && s[j'] == hi;
    assert s[0] <= s[j] && s[j'] <= s[n - 1];
  }

  /** Every element of the sorted copy lies between the minimum and the maximum. */
  lemma SortedCopyBounds(xs: seq<int>, k: int)
    requires 0 <= k < |xs|
    ensures Min(xs) <= SortedCopy(xs)[k] <= Max(xs)
  {
    SortedBetween(SortedCopy(xs), xs, k);
  }

  /** Every element of a sorted arrangement of xs lies between its minimum and maximum. */
  lemma SortedBetween(s: seq<int>, xs: seq<int>, k: int)
    requires Sorting.Sorted(s) && multiset(s) == multiset(xs) && |s| == |xs|
    requires 0 <= k < |xs|
    ensures Min(xs) <= s[k] <= Max(xs)
  {
    SortedEnds(s, xs);
    BetweenEnds(s, k);
  }

  /** Every element of a sorted list lies between its first and its last. */
  lemma BetweenEnds(s: seq<int>, k: int)
    requires Sorting.Sorted(s) && 0 <= k < |s|
    ensures s[0] <= s[k] <= s[|s| - 1]
  {
  }

  /** A sorted input is its own sorted copy. */
  lemma SortedCopyOfSorted(xs: seq<int>)
    requires Sorting.Sorted(xs)
    ensures SortedCopy(xs) == xs
  {
    Sorting.SortedUnique(SortedCopy(xs), xs);
  }

  /** Permuting the input does not change the sorted copy. */
  lemma SortedCopyPermutation(xs: seq<int>, ys: seq<int>)
    requires multiset(xs) == multiset(ys)
    ensures SortedCopy(xs) == SortedCopy(ys)
  {
    Sorting.SortedUnique(SortedCopy(xs), SortedCopy(ys));
  }

  // ---------------------------------------------------------------------
  // mean

  /** The arithmetic mean, sum / length. */
  function Mean(xs: seq<int>): real
    requires |xs| > 0
  {
    Sum(xs) as real / |xs| as real
  }

  /** A sum of |xs| elements, each between lo and hi, lies between |xs| * lo and |xs| * hi. */
  lemma {:induction false} SumBounds(xs: seq<int>, lo: int, hi: int)
    requires forall k :: 0 <= k < |xs| ==> lo <= xs[k] <= hi
    ensures |xs| * lo <= Sum(xs) <= |xs| * hi
  {
    if xs != [] {
      SumBounds(xs[1..], lo, hi);
    }
  }

  /** The mean lies between the minimum and the maximum. */
  lemma MeanBounds(xs: seq<int>)
    requires |xs| > 0
    ensures Min(xs) as real <= Mean(xs) <= Max(xs) as real
  {
    SumBounds(xs, Min(xs), Max(xs));
    RatioBounds(Sum(xs), |xs|, Min(xs), Max(xs));
  }

  /** Dividing n * lo <= s <= n * hi by a positive n. */
  lemma RatioBounds(s: int, n: int, lo: int, hi: int)
    requires n > 0 && n * lo <= s <= n * hi
    ensures lo as real <= s as real / n as real <= hi as real
  {
    assert (n * lo) as real == n as real * lo as real;
    assert (n * hi) as real == n as real * hi as real;
  }

  /** The sum only depends on the multiset of elements. */
  lemma {:induction false} SumPermutation(xs: seq<int>, ys: seq<int>)
    requires multiset(xs) == multiset(ys)
    ensures Sum(xs) == Sum(ys)
    decreases |xs|
  {
    if xs != [] {
      var k := RemovedIndex(xs, ys);
      SumPermutation(xs[1..], ys[..k] + ys[k + 1..]);
      SumRemove(ys, k);
    }
  }

  /** A position of ys holding xs[0]; removing it leaves a permutation of xs[1..]. */
  lemma RemovedIndex(xs: seq<int>, ys: seq<int>) returns (k: int)
    requires xs != [] && multiset(xs) == multiset(ys)
    ensures 0 <= k < |ys| && ys[k] == xs[0]
    ensures multiset(xs[1..]) == multiset(ys[..k] + ys[k + 1..])
  {
    assert xs[0] in multiset(ys);
    k :| 0 <= k < |ys| && ys[k] == xs[0];
    var front, back := ys[..k], ys[k + 1..];
    assert xs == [xs[0]] + xs[1..];
    assert ys == front + [ys[k]] + back;
    assert multiset(xs) == multiset{xs[0]} + multiset(xs[1..]);
    assert multiset(ys) == multiset{xs[0]} + multiset(front + back);
    Sorting.MultisetCancel(multiset(xs[1..]), multiset(front + back), xs[0]);
  }

  /** Removing the element at k subtracts it from the sum. */
  lemma {:induction false} SumRemove(ys: seq<int>, k: int)
    requires 0 <= k < |ys|
    ensures Sum(ys) == ys[k] + Sum(ys[..k] + ys[k + 1..])
  {
    if k > 0 {
      SumRemove(ys[1..], k - 1);
      assert ys[1..][..k - 1] + ys[1..][k..] == (ys[..k] + ys[k + 1..])[1..];
    } else {
      assert ys[..k] + ys[k + 1..] == ys[1..];
    }
  }

  /** The mean does not depend on the order of the elements. */
  lemma MeanPermutation(xs: seq<int>, ys: seq<int>)
    requires |xs| > 0 && multiset(xs) == multiset(ys)
    ensures |ys| == |xs| && Mean(xs) == Mean(ys)
  {
    assert |xs| == |multiset(xs)| == |multiset(ys)| == |ys|;
    SumPermutation(xs, ys);
  }

  // ---------------------------------------------------------------------
  // median

  /** The median of xs: the middle of its sorted copy. */
  function Median(xs: seq<int>): real
    requires |xs| > 0
  {
    Middle(SortedCopy(xs))
  }

  /** The middle element, or the mean of the two middle elements for an even length. */
  function Middle(s: seq<int>): real
    requires |s| > 0
  {
    var n := |s|;
    if n % 2 == 1 then s[n / 2] as real else Midpoint(s[n / 2 - 1], s[n / 2])
  }

  /** The mean of two numbers. */
  function Midpoint(a: int, b: int): real
  {
    (a + b) as real / 2.0
  }

  /** The mean of two numbers between lo and hi is between lo and hi, and lies between them. */
  lemma MidpointBetween(a: int, b: int, lo: int, hi: int)
    requires lo <= a <= hi && lo <= b <= hi
    ensures lo as real <= Midpoint(a, b) <= hi as real
    ensures a <= b ==> a as real <= Midpoint(a, b) <= b as real
  {
  }

  /** The median lies between the minimum and the maximum. */
  lemma MedianBounds(xs: seq<int>)
    requires |xs| > 0
    ensures Min(xs) as real <= Median(xs) <= Max(xs) as real
  {
    SortedCopyEnds(xs);
    MiddleBounds(SortedCopy(xs));
  }

  /** In a sorted sequence the middle lies between the first and the last element. */
  lemma MiddleBounds(s: seq<int>)
    requires |s| > 0 && Sorting.Sorted(s)
    ensures s[0] as real <= Middle(s) <= s[|s| - 1] as real
  {
    var n := |s|;
    if n % 2 == 0 {
      MidpointBetween(s[n / 2 - 1], s[n / 2], s[0], s[n - 1]);
    }
  }

  /** The median does not depend on the order of the elements. */
  lemma MedianPermutation(xs: seq<int>, ys: seq<int>)
    requires |xs| > 0 && multiset(xs) == multiset(ys)
    ensures |ys| > 0 && Median(xs) == Median(ys)
  {
    SortedCopyPermutation(xs, ys);
  }

  /** In a sorted sequence, the first half is at most the middle and the second half at least it. */
  lemma MiddleSplits(s: seq<int>)
    requires |s| > 0 && Sorting.Sorted(s)
    ensures forall k :: 0 <= k < (|s| + 1) / 2 ==> s[k] as real <= Middle(s)
    ensures forall k :: |s| / 2 <= k < |s| ==> Middle(s) <= s[k] as real
  {
    var n := |s|;
    if n % 2 == 0 {
      MidpointBetween(s[n / 2 - 1], s[n / 2], s[n / 2 - 1], s[n / 2]);
    }
  }

  /** At least half of the sorted copy is at most the median, and at least half is at least it. */
  lemma MedianSplits(xs: seq<int>)
    requires |xs| > 0
    ensures forall k :: 0 <= k < (|xs| + 1) / 2 ==> SortedCopy(xs)[k] as real <= Median(xs)
    ensures forall k :: |xs| / 2 <= k < |xs| ==> Median(xs) <= SortedCopy(xs)[k] as real
  {
    MiddleSplits(SortedCopy(xs));
  }

  // ---------------------------------------------------------------------
  // mode

  /** How often v occurs in xs. */
  function Count(xs: seq<int>, v: int): nat
  {
    multiset(xs)[v]
  }

  /** The elements of ys that occur in xs exactly c times, in order. */
  function WithCount(xs: seq<int>, ys: seq<int>, c: nat): (r: seq<int>)
    ensures forall y :: y in r <==> y in ys && Count(xs, y) == c
  {
    if ys == [] then [] else
      var rest := WithCount(xs, ys[1..], c);
      assert ys == [ys[0]] + ys[1..];
      if Count(xs, ys[0]) == c then [ys[0]] + rest else rest
  }

  /** The largest number of occurrences of any element of ys in xs. */
  function MaxCount(xs: seq<int>, ys: seq<int>): (r: nat)
    requires |ys| > 0
    ensures forall y :: y in ys ==> Count(xs, y) <= r
    ensures exists y :: y in ys && Count(xs, y) == r
  {
    if |ys| == 1 then Count(xs, ys[0]) else
      var m := MaxCount(xs, ys[1..]);
      assert ys == [ys[0]] + ys[1..];
      if Count(xs, ys[0]) >= m then Count(xs, ys[0]) else m
  }

  /**
   * The mode: among the values of highest count, the smallest. It occurs
   * in xs, no value occurs more often, and every other value that occurs
   * as often is larger.
   */
  function Mode(xs: seq<int>): (r: int)
    requires |xs| > 0
    ensures r in xs
    ensures forall y :: y in xs ==> Count(xs, y) <= Count(xs, r)
    ensures forall y :: y in xs && Count(xs, y) == Count(xs, r) ==> r <= y
  {
    var top := MaxCount(xs, xs);
    var modes := WithCount(xs, xs, top);
    var y :| y in xs && Count(xs, y) == top;
    assert y in modes;
    Min(modes)
  }

  // ---------------------------------------------------------------------
  // variance

  /**
   * The squared deviations from the mean, summed, with every deviation scaled
   * by n: x deviates from the mean s / n by (n * x - s) / n, so this is
   * n * n times the sum of the squared deviations, computed exactly on
   * integers.
   */
  function ScaledSquares(xs: seq<int>, s: int, n: int): int
  {
    if xs == [] then 0 else (n * xs[0] - s) * (n * xs[0] - s) + ScaledSquares(xs[1..], s, n)
  }

  /**
   * The population variance: the mean squared deviation from the mean. The
   * n * n of the scaled deviations is divided out together with the n of the
   * mean.
   */
  function Variance(xs: seq<int>): real
    requires |xs| > 0
  {
    var n := |xs|;
    ScaledSquares(xs, Sum(xs), n) as real / (n * n * n) as real
  }

  /** The squared deviations of the elements from m, summed over the reals. */
  function SquaredDeviations(xs: seq<int>, m: real): real
  {
    if xs == [] then 0.0 else (xs[0] as real - m) * (xs[0] as real - m) + SquaredDeviations(xs[1..], m)
  }

  /**
   * Variance is the population variance as the source writes it: the
   * squared deviations from the mean, summed, divided by n.
   */
  lemma VarianceIsMeanSquaredDeviation(xs: seq<int>)
    requires |xs| > 0
    ensures Variance(xs) == SquaredDeviations(xs, Mean(xs)) / |xs| as real
  {
    var n := |xs|;
    var size := n as real;
    ScaledIsSquaredDeviations(xs, Sum(xs), n);
    CubeAsReal(n);
    SquarePositiveReal(size);
    VarianceChain(Variance(xs), ScaledSquares(xs, Sum(xs), n) as real, (n * n * n) as real,
                  size * size, size, SquaredDeviations(xs, Mean(xs)));
  }

  /** v = q / c with c = k * b and q = k * d gives v = d / b. */
  lemma VarianceChain(v: real, q: real, c: real, k: real, b: real, d: real)
    requires k > 0.0 && b > 0.0 && c == k * b && q == k * d && v == q / c
    ensures v == d / b
  {
    CancelScale(q, d, k, b);
  }

  /** n^3 as a real is the cube of n as a real. */
  lemma CubeAsReal(n: int)
    ensures (n * n * n) as real == (n as real * n as real) * n as real
  {
    assert (n * n) as real == n as real * n as real;
  }

  /** A positive real has a positive square. */
  lemma SquarePositiveReal(r: real)
    requires r > 0.0
    ensures r * r > 0.0
  {
  }

  /** q = k * d over k * b is d over b. */
  lemma CancelScale(q: real, d: real, k: real, b: real)
    requires k > 0.0 && b > 0.0 && q == k * d
    ensures q / (k * b) == d / b
  {
    calc {
      q / (k * b);
      (k * d) / (k * b);
      d / b;
    }
  }

  /** The scaled squares are n * n times the squared deviations from s / n. */
  lemma {:induction false} ScaledIsSquaredDeviations(xs: seq<int>, s: int, n: int)
    requires n > 0
    ensures ScaledSquares(xs, s, n) as real == (n as real * n as real) * SquaredDeviations(xs, s as real / n as real)
  {
    if xs != [] {
      var k := n as real * n as real;
      var m := s as real / n as real;
      var head := (n * xs[0] - s) * (n * xs[0] - s);
      var rest := ScaledSquares(xs[1..], s, n);
      ScaledIsSquaredDeviations(xs[1..], s, n);
      ScaledTerm(xs[0], s, n);
      SumChain(ScaledSquares(xs, s, n), head, rest, k, (xs[0] as real - m) * (xs[0] as real - m),
               SquaredDeviations(xs[1..], m), SquaredDeviations(xs, m));
    }
  }

  /** total = h + r with h = k * a and r = k * b, as reals, gives total = k * (a + b). */
  lemma SumChain(total: int, h: int, r: int, k: real, a: real, b: real, sum: real)
    requires total == h + r && h as real == k * a && r as real == k * b && sum == a + b
    ensures total as real == k * sum
  {
    assert k * a + k * b == k * (a + b);
  }

  /** In scaled form one squared deviation is (n * x - s)^2 = n^2 (x - s / n)^2. */
  lemma ScaledTerm(x: int, s: int, n: int)
    requires n > 0
    ensures ((n * x - s) * (n * x - s)) as real
         == (n as real * n as real) * ((x as real - s as real / n as real) * (x as real - s as real / n as real))
  {
    var size, d := n as real, x as real - s as real / n as real;
    assert size * d == size * x as real - s as real;
    calc {
      ((n * x - s) * (n * x - s)) as real;
      (size * x as real - s as real) * (size * x as real - s as real);
      (size * d) * (size * d);
      (size * size) * (d * d);
    }
  }

  /** A sum of squares is non-negative, and zero only when every term is zero. */
  lemma {:induction false} ScaledSquaresZero(xs: seq<int>, s: int, n: int)
    ensures ScaledSquares(xs, s, n) >= 0
    ensures ScaledSquares(xs, s, n) == 0 <==> forall k :: 0 <= k < |xs| ==> n * xs[k] == s
  {
    if xs != [] {
      ScaledSquaresZero(xs[1..], s, n);
      SquareSign(n * xs[0] - s);
      assert forall j :: 0 <= j < |xs| - 1 ==> xs[1..][j] == xs[j + 1];
    }
  }

  /** A square is non-negative, and positive away from zero. */
  lemma SquareSign(d: int)
    ensures d * d >= 0
    ensures d != 0 ==> d * d > 0
  {
  }

  /** Multiplying by a positive n is one-to-one. */
  lemma MulCancel(n: int, a: int, b: int)
    requires n > 0 && n * a == n * b
    ensures a == b
  {
  }

  /** An integer over a positive integer, as a real, keeps its sign. */
  lemma RatioSign(q: int, d: int)
    requires d > 0
    ensures q >= 0 ==> q as real / d as real >= 0.0
    ensures q as real / d as real == 0.0 <==> q == 0
  {
  }

  /** All elements equal to x. */
  predicate Constant(xs: seq<int>, x: int)
  {
    forall k :: 0 <= k < |xs| ==> xs[k] == x
  }

  /** The sum of n copies of x is n * x. */
  lemma {:induction false} SumConstant(xs: seq<int>, x: int)
    requires Constant(xs, x)
    ensures Sum(xs) == |xs| * x
  {
    if xs != [] {
      SumConstant(xs[1..], x);
    }
  }

  /** The variance is never negative. */
  lemma VarianceNonNegative(xs: seq<int>)
    requires |xs| > 0
    ensures Variance(xs) >= 0.0
  {
    var n := |xs|;
    ScaledSquaresZero(xs, Sum(xs), n);
    CubePositive(n);
    RatioSign(ScaledSquares(xs, Sum(xs), n), n * n * n);
  }

  /** The cube of a positive integer is positive. */
  lemma CubePositive(n: int)
    requires n > 0
    ensures n * n * n > 0
  {
    Divisibility.MulSign(n, n);
    Divisibility.MulSign(n * n, n);
  }

  /** The variance is zero exactly when all elements are equal. */
  lemma VarianceZero(xs: seq<int>)
    requires |xs| > 0
    ensures Variance(xs) == 0.0 <==> Constant(xs, xs[0])
  {
    var n := |xs|;
    var s := Sum(xs);
    ScaledSquaresZero(xs, s, n);
    CubePositive(n);
    RatioSign(ScaledSquares(xs, s, n), n * n * n);
    if Constant(xs, xs[0]) {
      SumConstant(xs, xs[0]);
    } else if ScaledSquares(xs, s, n) == 0 {
      var k :| 0 <= k < n && xs[k] != xs[0];
      assert n * xs[k] == s && n * xs[0] == s;
      MulCancel(n, xs[k], xs[0]);
    }
  }

  // ---------------------------------------------------------------------
  // percentile

  /** The p-th percentile of xs, for 0 <= p <= 100, read from its sorted copy. */
  function Percentile(xs: seq<int>, p: real): real
    requires |xs| > 0 && 0.0 <= p <= 100.0
  {
    PercentileOfSorted(SortedCopy(xs), p)
  }

  /**
   * p = 100 gives the last element; otherwise the position p / 100 * (n - 1)
   * is split into its integer part and fraction, and the two neighbouring
   * elements are interpolated linearly (the element alone when there is no
   * upper neighbour).
   */
  function PercentileOfSorted(s: seq<int>, p: real): real
    requires |s| > 0 && 0.0 <= p <= 100.0
  {
    var n := |s|;
    if p == 100.0 then s[n - 1] as real
    else
      var index := Position(p, n);
      PositionInRange(p, n);
      var lower := index.Floor;
      var upper := lower + 1;
      if upper >= n then s[lower] as real
      else Interpolate(s[lower], s[upper], index - lower as real)
  }

  /** The fractional position p / 100 * (n - 1). */
  function Position(p: real, n: int): real
  {
    (p / 100.0) * (n - 1) as real
  }

  /** The value a fraction w of the way from a to b. */
  function Interpolate(a: int, b: int, w: real): real
  {
    a as real * (1.0 - w) + b as real * w
  }

  /** For p < 100 the position lies in [0, n - 1), so its integer part indexes a sequence of length n. */
  lemma PositionInRange(p: real, n: int)
    requires n >= 1 && 0.0 <= p < 100.0
    ensures 0.0 <= Position(p, n)
    ensures n > 1 ==> Position(p, n) < (n - 1) as real
    ensures 0 <= Position(p, n).Floor <= n - 1
    ensures 0.0 <= Position(p, n) - Position(p, n).Floor as real < 1.0
  {
    var f := p / 100.0;
    assert 0.0 <= f < 1.0;
    var m := (n - 1) as real;
    assert 0.0 <= f * m;
    if n > 1 {
      assert f * m < 1.0 * m;
    }
  }

  /** An interpolation between a <= b that stays below the upper end lies between them. */
  lemma InterpolationBetween(a: int, b: int, w: real)
    requires a <= b && 0.0 <= w < 1.0
    ensures a as real <= Interpolate(a, b, w) <= b as real
  {
    var d := (b - a) as real;
    assert Interpolate(a, b, w) == a as real + d * w;
    assert d * w <= d * 1.0;
    assert 0.0 <= d * w;
  }

  /** The 100th percentile is the maximum. */
  lemma PercentileHundred(xs: seq<int>)
    requires |xs| > 0
    ensures Percentile(xs, 100.0) == Max(xs) as real
  {
    SortedCopyEnds(xs);
  }

  /** The 0th percentile is the minimum. */
  lemma PercentileZero(xs: seq<int>)
    requires |xs| > 0
    ensures Percentile(xs, 0.0) == Min(xs) as real
  {
    SortedCopyEnds(xs);
    assert Position(0.0, |xs|) == 0.0;
    assert Interpolate(SortedCopy(xs)[0], SortedCopy(xs)[|xs| - 1], 0.0) == SortedCopy(xs)[0] as real by {
      if |xs| > 1 {
        assert Interpolate(SortedCopy(xs)[0], SortedCopy(xs)[1], 0.0) == SortedCopy(xs)[0] as real;
      }
    }
  }

  /** On a sorted sequence, every percentile lies between the first and the last element. */
  lemma PercentileOfSortedBounds(s: seq<int>, p: real)
    requires |s| > 0 && 0.0 <= p <= 100.0 && Sorting.Sorted(s)
    ensures s[0] as real <= PercentileOfSorted(s, p) <= s[|s| - 1] as real
  {
    var n := |s|;
    if p < 100.0 {
      PositionInRange(p, n);
      var index := Position(p, n);
      var lower := index.Floor;
      if lower + 1 < n {
        InterpolationBetween(s[lower], s[lower + 1], index - lower as real);
      }
    }
  }

  /** Every percentile lies between the minimum and the maximum. */
  lemma PercentileBounds(xs: seq<int>, p: real)
    requires |xs| > 0 && 0.0 <= p <= 100.0
    ensures Min(xs) as real <= Percentile(xs, p) <= Max(xs) as real
  {
    SortedCopyEnds(xs);
    PercentileOfSortedBounds(SortedCopy(xs), p);
  }

  /** The position of the 50th percentile: the middle index for odd n, halfway between the two middle ones for even n. */
  lemma HalfPosition(n: int)
    requires n >= 1
    ensures n % 2 == 1 ==> Position(50.0, n) == (n / 2) as real && Position(50.0, n).Floor == n / 2
    ensures n % 2 == 0 ==> Position(50.0, n) == (n / 2 - 1) as real + 0.5 && Position(50.0, n).Floor == n / 2 - 1
  {
    var h := n / 2;
    if n % 2 == 1 {
      assert n - 1 == 2 * h;
      assert ((n - 1) as real) == 2.0 * h as real;
    } else {
      assert n - 1 == 2 * (h - 1) + 1;
      assert ((n - 1) as real) == 2.0 * (h - 1) as real + 1.0;
    }
  }

  /** On a sorted sequence, the 50th percentile is the middle. */
  lemma PercentileFiftyIsMiddle(s: seq<int>)
    requires |s| > 0
    ensures PercentileOfSorted(s, 50.0) == Middle(s)
  {
    var n := |s|;
    HalfPosition(n);
    if n % 2 == 1 {
      if n / 2 + 1 < n {
        assert Interpolate(s[n / 2], s[n / 2 + 1], 0.0) == s[n / 2] as real;
      }
    } else {
      assert Interpolate(s[n / 2 - 1], s[n / 2], 0.5) == Midpoint(s[n / 2 - 1], s[n / 2]);
    }
  }

  /** A sorted input is read as it is. */
  lemma PercentileOfSortedInput(xs: seq<int>, p: real)
    requires |xs| > 0 && 0.0 <= p <= 100.0 && Sorting.Sorted(xs)
    ensures Percentile(xs, p) == PercentileOfSorted(xs, p)
  {
    SortedCopyOfSorted(xs);
  }

  /** The 50th percentile is the median. */
  lemma PercentileFiftyIsMedian(xs: seq<int>)
    requires |xs| > 0
    ensures Percentile(xs, 50.0) == Median(xs)
  {
    PercentileFiftyIsMiddle(SortedCopy(xs));
  }

  // ---------------------------------------------------------------------
  // Worked examples

  /** The exercise's examples: the mean of 1, ..., 5 is 3 and of 10, 20, 30 is 20. */
  lemma MeanExample()
    ensures Mean([1, 2, 3, 4, 5]) == 3.0
    ensures Mean([10, 20, 30]) == 20.0
  {
    var a := [1, 2, 3, 4, 5];
    assert Sum(a[4..]) == 5;
    assert Sum(a[3..]) == 9;
    assert Sum(a[2..]) == 12;
    assert Sum(a[1..]) == 14;
    var b := [10, 20, 30];
    assert Sum(b[2..]) == 30;
    assert Sum(b[1..]) == 50;
  }


  /** The median of a sorted input is its middle. */
  lemma MedianOfSorted(xs: seq<int>)
    requires |xs| > 0 && Sorting.Sorted(xs)
    ensures Median(xs) == Middle(xs)
  {
    SortedCopyOfSorted(xs);
  }

  /** The exercise's first median example: 1, ..., 5 has median 3. */
  lemma MedianOddExample(xs: seq<int>)
    requires xs == [1, 2, 3, 4, 5]
    ensures Median(xs) == 3.0
  {
    assert forall k :: 0 <= k < |xs| - 1 ==> xs[k] <= xs[k + 1];
    Sorting.SortedFromAdjacent(xs);
    MedianOfSorted(xs);
  }

  /** The exercise's second median example: 1, ..., 4 has median 2.5. */
  lemma MedianEvenExample(xs: seq<int>)
    requires xs == [1, 2, 3, 4]
    ensures Median(xs) == 2.5
  {
    assert forall k :: 0 <= k < |xs| - 1 ==> xs[k] <= xs[k + 1];
    Sorting.SortedFromAdjacent(xs);
    MedianOfSorted(xs);
    assert Middle(xs) == Midpoint(2, 3);
  }



  /** A value that no other element outcounts, and that is the smallest among those it ties with, is the mode. */
  lemma ModeIs(xs: seq<int>, v: int)
    requires v in xs
    requires forall y :: y in xs ==> Count(xs, y) < Count(xs, v) || (Count(xs, y) == Count(xs, v) && v <= y)
    ensures Mode(xs) == v
  {
  }

  /** The exercise's first mode example: 2 is the most frequent element of [1, 2, 2, 3, 4]. */
  lemma ModeExample(xs: seq<int>)
    requires xs == [1, 2, 2, 3, 4]
    ensures Mode(xs) == 2
  {
    assert multiset(xs) == multiset{1, 2, 2, 3, 4};
    ModeIs(xs, 2);
  }

  /** The exercise's second mode example: 1 and 2 tie in [1, 1, 2, 2, 3] and the smaller wins. */
  lemma ModeTieExample(xs: seq<int>)
    requires xs == [1, 1, 2, 2, 3]
    ensures Mode(xs) == 1
  {
    assert multiset(xs) == multiset{1, 1, 2, 2, 3};
    ModeIs(xs, 1);
  }




  /** The population variance of [2, 4, 4, 4, 5, 5, 7, 9] is 4. */
  lemma VarianceExample()
    ensures Variance([2, 4, 4, 4, 5, 5, 7, 9]) == 4.0
  {
    var v := [2, 4, 4, 4, 5, 5, 7, 9];
    assert Sum(v[7..]) == 9;
    assert Sum(v[5..]) == 21;
    assert Sum(v[3..]) == 30;
    assert Sum(v[1..]) == 38;
    assert Sum(v) == 40;
    assert ScaledSquares(v[7..], 40, 8) == 1024;
    assert ScaledSquares(v[6..], 40, 8) == 1280;
    assert ScaledSquares(v[4..], 40, 8) == 1280;
    assert ScaledSquares(v[2..], 40, 8) == 1408;
    assert ScaledSquares(v[1..], 40, 8) == 1472;
    assert ScaledSquares(v, 40, 8) == 2048;
  }

  /** The 50th percentile of 1..10 is 5.5. */
  lemma PercentileExample(xs: seq<int>)
    requires xs == [1, 2, 3, 4, 5, 6, 7, 8, 9, 10]
    ensures Percentile(xs, 50.0) == 5.5
  {
    TenSorted(xs);
    PercentileOfSortedInput(xs, 50.0);
    PercentileFiftyIsMiddle(xs);
    TenMiddle(xs);
  }

  /** The middle of 1, ..., 10 is halfway between 5 and 6. */
  lemma TenMiddle(xs: seq<int>)
    requires xs == [1, 2, 3, 4, 5, 6, 7, 8, 9, 10]
    ensures Middle(xs) == 5.5
  {
    assert xs[4] == 5 && xs[5] == 6;
    assert Middle(xs) == Midpoint(5, 6) == 11.0 / 2.0;
  }

  /** The list 1..10 is its own sorted copy. */
  lemma TenSorted(xs: seq<int>)
    requires xs == [1, 2, 3, 4, 5, 6, 7, 8, 9, 10]
    ensures SortedCopy(xs) == xs
  {
    assert forall k :: 0 <= k < |xs| - 1 ==> xs[k] <= xs[k + 1];
    Sorting.SortedFromAdjacent(xs);
    SortedCopyOfSorted(xs);
  }
}
