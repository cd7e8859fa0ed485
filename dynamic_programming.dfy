/**
 * The dynamic-programming exercises: Fibonacci by tabulation, 0/1 knapsack,
 * longest common subsequence, coin change, longest increasing subsequence
 * and edit distance. Each algorithm fills a table in loops and is proved
 * equal to a recursive specification function; lemmas then prove that the
 * specification is the optimum the exercise asks for, against an explicit
 * description of the candidates (item selections, common subsequences,
 * coin lists, index lists, edit scripts).
 */
module DynamicProgramming {
  import Recursion

  // ---------------------------------------------------------------------
  // fibonacci_dp

  /** Bottom-up Fibonacci over a table of the first n + 1 numbers. */
  method FibonacciDp(n: int) returns (r: int)
    ensures r == Recursion.Fibonacci(n)
  {
    if n <= 1 {
      return n;
    }
    var dp := new int[n + 1];
    dp[0], dp[1] := 0, 1;
    var i := 2;
    while i <= n
      invariant 2 <= i <= n + 1
      invariant forall k :: 0 <= k < i ==> dp[k] == Recursion.Fibonacci(k)
    {
      StoreFibonacci(dp, i);
      i := i + 1;
    }
    return dp[n];
  }

  /** Fills entry i of the table from the two entries before it. */
  method StoreFibonacci(dp: array<int>, i: int)
    requires 2 <= i < dp.Length
    requires forall k :: 0 <= k < i ==> dp[k] == Recursion.Fibonacci(k)
    modifies dp
    ensures forall k :: 0 <= k <= i ==> dp[k] == Recursion.Fibonacci(k)
    ensures forall k :: i < k < dp.Length ==> dp[k] == old(dp[k])
  {
    dp[i] := FibonacciNext(dp[i - 1], dp[i - 2], i);
  }

  /** The next table entry from the two before it. */
  function FibonacciNext(previous: int, beforePrevious: int, i: int): (r: int)
    requires i >= 2 && previous == Recursion.Fibonacci(i - 1) && beforePrevious == Recursion.Fibonacci(i - 2)
    ensures r == Recursion.Fibonacci(i)
  {
    previous + beforePrevious
  }

  /** The values the exercise expects: F(10) = 55 and F(50) = 12586269025. */
  lemma FibonacciExamples()
    ensures Recursion.Fibonacci(10) == 55
    ensures Recursion.Fibonacci(50) == 12586269025
  {
    assert Recursion.Fibonacci(20) == 6765 && Recursion.Fibonacci(21) == 10946;
    assert Recursion.Fibonacci(30) == 832040 && Recursion.Fibonacci(31) == 1346269;
    assert Recursion.Fibonacci(40) == 102334155 && Recursion.Fibonacci(41) == 165580141;
  }

  // ---------------------------------------------------------------------
  // knapsack_01

  /** Item weights are never negative and every item has a value. */
  predicate Items(weights: seq<int>, values: seq<int>)
  {
    |weights| == |values| && forall k :: 0 <= k < |weights| ==> weights[k] >= 0
  }

  /**
   * The best value reachable with the first i items and room c: item i - 1
   * is either left out or, when it fits, packed.
   */
  function Best(weights: seq<int>, values: seq<int>, i: int, c: int): int
    requires Items(weights, values) && 0 <= i <= |weights|
    decreases i
  {
    if i == 0 then 0
    else
      var skip := Best(weights, values, i - 1, c);
      if weights[i - 1] <= c then Max(skip, Best(weights, values, i - 1, c - weights[i - 1]) + values[i - 1])
      else skip
  }

  function Max(a: int, b: int): int
  {
    if a >= b then a else b
  }

  /** The total of xs[k] over the k that the selection picks. */
  function Picked(xs: seq<int>, selection: seq<bool>): int
    requires |selection| <= |xs|
  {
    if selection == [] then 0
    else
      var k := |selection| - 1;
      Picked(xs, selection[..k]) + (if selection[k] then xs[k] else 0)
  }

  /** A selection of non-negative weights weighs at least nothing. */
  lemma {:induction false} PickedWeightNonNegative(weights: seq<int>, values: seq<int>, selection: seq<bool>)
    requires Items(weights, values) && |selection| <= |weights|
    ensures Picked(weights, selection) >= 0
  {
    if selection != [] {
      PickedWeightNonNegative(weights, values, selection[..|selection| - 1]);
    }
  }

  /** No selection of the first i items that fits in c is worth more than Best. */
  lemma {:induction false} BestIsUpperBound(weights: seq<int>, values: seq<int>, selection: seq<bool>, c: int)
    requires Items(weights, values) && |selection| <= |weights|
    requires Picked(weights, selection) <= c
    ensures Picked(values, selection) <= Best(weights, values, |selection|, c)
  {
    if selection != [] {
      var i := |selection|;
      var rest := selection[..i - 1];
      if selection[i - 1] {
        PickedWeightNonNegative(weights, values, rest);
        BestIsUpperBound(weights, values, rest, c - weights[i - 1]);
      } else {
        BestIsUpperBound(weights, values, rest, c);
      }
    }
  }

  /** A selection of the first i items that fits in c and is worth exactly Best. */
  ghost function BestSelection(weights: seq<int>, values: seq<int>, i: int, c: int): (selection: seq<bool>)
    requires Items(weights, values) && 0 <= i <= |weights|
    ensures |selection| == i
    ensures c >= 0 ==> Picked(weights, selection) <= c
    ensures Picked(values, selection) == Best(weights, values, i, c)
    decreases i
  {
    if i == 0 then []
    else
      var skip := Best(weights, values, i - 1, c);
      var take := weights[i - 1] <= c && Best(weights, values, i - 1, c - weights[i - 1]) + values[i - 1] > skip;
      var rest := BestSelection(weights, values, i - 1, if take then c - weights[i - 1] else c);
      BestSelectionStep(weights, values, i, c, rest, take);
      rest + [take]
  }

  /** Extending the best selection of the first i - 1 items by the choice for item i - 1. */
  lemma BestSelectionStep(weights: seq<int>, values: seq<int>, i: int, c: int, rest: seq<bool>, take: bool)
    requires Items(weights, values) && 1 <= i <= |weights| && |rest| == i - 1
    requires take == (weights[i - 1] <= c && Best(weights, values, i - 1, c - weights[i - 1]) + values[i - 1] > Best(weights, values, i - 1, c))
    requires var room := if take then c - weights[i - 1] else c;
      (room >= 0 ==> Picked(weights, rest) <= room) && Picked(values, rest) == Best(weights, values, i - 1, room)
    ensures c >= 0 ==> Picked(weights, rest + [take]) <= c
    ensures Picked(values, rest + [take]) == Best(weights, values, i, c)
  {
    PickedAppend(weights, rest, take);
    PickedAppend(values, rest, take);
  }

  /** Picking one more item adds its entry to the total. */
  lemma PickedAppend(xs: seq<int>, selection: seq<bool>, b: bool)
    requires |selection| < |xs|
    ensures Picked(xs, selection + [b]) == Picked(xs, selection) + (if b then xs[|selection|] else 0)
  {
    assert (selection + [b])[..|selection|] == selection;
  }

  /** Best is the maximum value over the selections of the first i items that fit in c. */
  lemma BestIsMaximum(weights: seq<int>, values: seq<int>, i: int, c: int)
    requires Items(weights, values) && 0 <= i <= |weights| && c >= 0
    ensures exists selection :: |selection| == i && Picked(weights, selection) <= c
                                && Picked(values, selection) == Best(weights, values, i, c)
    ensures forall selection :: |selection| == i && Picked(weights, selection) <= c
                                ==> Picked(values, selection) <= Best(weights, values, i, c)
  {
    var chosen := BestSelection(weights, values, i, c);
    assert |chosen| == i && Picked(weights, chosen) <= c;
    forall selection | |selection| == i && Picked(weights, selection) <= c
      ensures Picked(values, selection) <= Best(weights, values, i, c)
    {
      BestIsUpperBound(weights, values, selection, c);
    }
  }

  /**
   * The table row i holds the best value of the first i items for every
   * room 0..capacity.
   */
  method Knapsack01(weights: seq<int>, values: seq<int>, capacity: int) returns (best: int)
    requires Items(weights, values) && capacity >= 0
    ensures best == Best(weights, values, |weights|, capacity)
  {
    var n := |weights|;
    var dp := new int[n + 1, capacity + 1]((_, _) => 0);
    var i := 1;
    while i <= n
      invariant 1 <= i <= n + 1
      invariant forall k, c :: 0 <= k < i && 0 <= c <= capacity ==> dp[k, c] == Best(weights, values, k, c)
    {
      FillKnapsackRow(weights, values, dp, i);
      i := i + 1;
    }
    return dp[n, capacity];
  }

  /** Fills row i of the knapsack table from row i - 1. */
  method FillKnapsackRow(weights: seq<int>, values: seq<int>, dp: array2<int>, i: int)
    requires Items(weights, values) && 1 <= i < dp.Length0 == |weights| + 1
    requires forall k, c :: 0 <= k < i && 0 <= c < dp.Length1 ==> dp[k, c] == Best(weights, values, k, c)
    modifies dp
    ensures forall k, c :: 0 <= k <= i && 0 <= c < dp.Length1 ==> dp[k, c] == Best(weights, values, k, c)
    ensures forall k, c :: 0 <= k < dp.Length0 && k != i && 0 <= c < dp.Length1 ==> dp[k, c] == old(dp[k, c])
  {
    var c := 0;
    while c < dp.Length1
      invariant 0 <= c <= dp.Length1
      invariant forall k, e :: 0 <= k < dp.Length0 && k != i && 0 <= e < dp.Length1 ==> dp[k, e] == old(dp[k, e])
      invariant forall e :: 0 <= e < c ==> dp[i, e] == Best(weights, values, i, e)
    {
      var w := weights[i - 1];
      if w <= c {
        dp[i, c] := Max(dp[i - 1, c], dp[i - 1, c - w] + values[i - 1]);
      } else {
        dp[i, c] := dp[i - 1, c];
      }
      c := c + 1;
    }
  }

  /** The exercise's examples: 55 from ([1, 2, 3], [10, 15, 40], 5) and 7 from ([2, 3, 4, 5], [3, 4, 5, 6], 5). */
  lemma KnapsackExamples()
    ensures Best([1, 2, 3], [10, 15, 40], 3, 5) == 55
    ensures Best([2, 3, 4, 5], [3, 4, 5, 6], 4, 5) == 7
  {
  }

  // ---------------------------------------------------------------------
  // longest_common_subsequence

  /** w can be read off a left to right, skipping characters. */
  predicate Subsequence(w: string, a: string)
    decreases |a|
  {
    if w == [] then true
    else if a == [] then false
    else (w[0] == a[0] && Subsequence(w[1..], a[1..])) || Subsequence(w, a[1..])
  }

  /** Length of a longest common subsequence, matching or skipping the first characters. */
  function Lcs(a: string, b: string): int
    decreases |a| + |b|
  {
    if a == [] || b == [] then 0
    else if a[0] == b[0] then 1 + Lcs(a[1..], b[1..])
    else Max(Lcs(a[1..], b), Lcs(a, b[1..]))
  }

  /** A common subsequence is no longer than either string. */
  lemma {:induction false} LcsBounds(a: string, b: string)
    ensures 0 <= Lcs(a, b) <= |a| && Lcs(a, b) <= |b|
    decreases |a| + |b|
  {
    if a != [] && b != [] {
      LcsBounds(a[1..], b[1..]);
      LcsBounds(a[1..], b);
      LcsBounds(a, b[1..]);
    }
  }

  /** A string is its own longest common subsequence with itself. */
  lemma {:induction false} LcsSelf(s: string)
    ensures Lcs(s, s) == |s|
    decreases |s|
  {
    if s != [] {
      LcsSelf(s[1..]);
    }
  }

  /** Dropping the first character of either string shortens the LCS by 0 or 1. */
  lemma {:induction false} LcsShrink(a: string, b: string)
    ensures a != [] ==> Lcs(a[1..], b) <= Lcs(a, b) <= Lcs(a[1..], b) + 1
    ensures b != [] ==> Lcs(a, b[1..]) <= Lcs(a, b) <= Lcs(a, b[1..]) + 1
    decreases |a| + |b|
  {
    if a != [] && b != [] {
      LcsShrink(a[1..], b);
      LcsShrink(a, b[1..]);
      LcsShrink(a[1..], b[1..]);
      LcsBounds(a[1..], b);
      LcsBounds(a, b[1..]);
    }
  }

  /** A common subsequence as long as Lcs. */
  ghost function LcsWitness(a: string, b: string): (w: string)
    ensures Subsequence(w, a) && Subsequence(w, b) && |w| == Lcs(a, b)
    decreases |a| + |b|
  {
    if a == [] || b == [] then []
    else if a[0] == b[0] then
      var w := [a[0]] + LcsWitness(a[1..], b[1..]);
      assert w[1..] == LcsWitness(a[1..], b[1..]);
      w
    else if Lcs(a[1..], b) >= Lcs(a, b[1..]) then LcsWitness(a[1..], b)
    else LcsWitness(a, b[1..])
  }

  /** No common subsequence is longer than Lcs. */
  lemma {:induction false} LcsLongest(w: string, a: string, b: string)
    requires Subsequence(w, a) && Subsequence(w, b)
    ensures |w| <= Lcs(a, b)
    decreases |a| + |b|
  {
    LcsBounds(a, b);
    if w != [] {
      assert a != [] && b != [];
      LcsShrink(a, b);
      if Subsequence(w, a[1..]) {
        LcsLongest(w, a[1..], b);
      } else if Subsequence(w, b[1..]) {
        LcsLongest(w, a, b[1..]);
      } else {
        assert w[0] == a[0] && Subsequence(w[1..], a[1..]);
        assert w[0] == b[0] && Subsequence(w[1..], b[1..]);
        LcsLongest(w[1..], a[1..], b[1..]);
      }
    }
  }

  /** Lcs is the length of a longest common subsequence. */
  lemma LcsIsLongest(a: string, b: string)
    ensures exists w :: Subsequence(w, a) && Subsequence(w, b) && |w| == Lcs(a, b)
    ensures forall w :: Subsequence(w, a) && Subsequence(w, b) ==> |w| <= Lcs(a, b)
  {
    var w := LcsWitness(a, b);
    assert Subsequence(w, a) && Subsequence(w, b);
    forall w | Subsequence(w, a) && Subsequence(w, b)
      ensures |w| <= Lcs(a, b)
    {
      LcsLongest(w, a, b);
    }
  }

  /**
   * dp[i, j] holds the LCS length of the suffixes a[i..] and b[j..]; rows
   * are filled from the last one up.
   */
  method LongestCommonSubsequence(a: string, b: string) returns (r: int)
    ensures r == Lcs(a, b)
  {
    var dp := new int[|a| + 1, |b| + 1]((_, _) => 0);
    var i := |a|;
    while i >= 0
      invariant -1 <= i <= |a|
      invariant forall k, e :: i < k <= |a| && 0 <= e <= |b| ==> dp[k, e] == Lcs(a[k..], b[e..])
    {
      FillLcsRow(a, b, dp, i);
      i := i - 1;
    }
    assert a[0..] == a && b[0..] == b;
    return dp[0, 0];
  }

  /** Fills row i of the LCS table from row i + 1. */
  method FillLcsRow(a: string, b: string, dp: array2<int>, i: int)
    requires dp.Length0 == |a| + 1 && dp.Length1 == |b| + 1 && 0 <= i <= |a|
    requires forall k, e :: i < k <= |a| && 0 <= e <= |b| ==> dp[k, e] == Lcs(a[k..], b[e..])
    modifies dp
    ensures forall k, e :: i <= k <= |a| && 0 <= e <= |b| ==> dp[k, e] == Lcs(a[k..], b[e..])
    ensures forall k, e :: 0 <= k < i && 0 <= e <= |b| ==> dp[k, e] == old(dp[k, e])
  {
    var j := |b|;
    while j >= 0
      invariant -1 <= j <= |b|
      invariant forall k, e :: 0 <= k < i && 0 <= e <= |b| ==> dp[k, e] == old(dp[k, e])
      invariant forall k, e :: i < k <= |a| && 0 <= e <= |b| ==> dp[k, e] == Lcs(a[k..], b[e..])
      invariant forall e :: j < e <= |b| ==> dp[i, e] == Lcs(a[i..], b[e..])
    {
      var v;
      if i == |a| || j == |b| {
        LcsSuffixBase(a, b, i, j);
        v := 0;
      } else {
        v := LcsCell(a, b, dp, i, j);
      }
      dp[i, j] := v;
      j := j - 1;
    }
  }

  /** One inner cell of the LCS table, from its three neighbours below and to the right. */
  method LcsCell(a: string, b: string, dp: array2<int>, i: int, j: int) returns (v: int)
    requires dp.Length0 == |a| + 1 && dp.Length1 == |b| + 1 && 0 <= i < |a| && 0 <= j < |b|
    requires dp[i + 1, j + 1] == Lcs(a[i + 1..], b[j + 1..])
    requires dp[i + 1, j] == Lcs(a[i + 1..], b[j..])
    requires dp[i, j + 1] == Lcs(a[i..], b[j + 1..])
    ensures v == Lcs(a[i..], b[j..])
  {
    LcsSuffixStep(a, b, i, j);
    if a[i] == b[j] {
      v := 1 + dp[i + 1, j + 1];
    } else {
      v := Max(dp[i + 1, j], dp[i, j + 1]);
    }
  }

  /** An empty suffix on either side leaves nothing in common. */
  lemma LcsSuffixBase(a: string, b: string, i: int, j: int)
    requires 0 <= i <= |a| && 0 <= j <= |b|
    ensures Lcs(a[i..], b[|b|..]) == 0 && Lcs(a[|a|..], b[j..]) == 0
  {
    assert a[|a|..] == [] && b[|b|..] == [];
  }

  /** The recurrence of Lcs read on suffixes. */
  lemma LcsSuffixStep(a: string, b: string, i: int, j: int)
    requires 0 <= i < |a| && 0 <= j < |b|
    ensures a[i] == b[j] ==> Lcs(a[i..], b[j..]) == 1 + Lcs(a[i + 1..], b[j + 1..])
    ensures a[i] != b[j] ==> Lcs(a[i..], b[j..]) == Max(Lcs(a[i + 1..], b[j..]), Lcs(a[i..], b[j + 1..]))
  {
    assert a[i..][1..] == a[i + 1..] && b[j..][1..] == b[j + 1..];
  }

  /** The exercise's example "ABC" with itself: 3. */
  lemma LcsExample()
    ensures Lcs("ABC", "ABC") == 3
  {
    LcsSelf("ABC");
  }

  /** Row 5 of the suffix table for "AGGTAB" against "GXTXAYB". */
  lemma AggtabBack(a: string, b: string)
    requires |a| == 6 && |b| == 7
    requires forall k :: 0 <= k < 6 ==> a[k] == "AGGTAB"[k]
    requires forall k :: 0 <= k < 7 ==> b[k] == "GXTXAYB"[k]
    ensures Lcs(a[5..], b[0..]) == 1
    ensures Lcs(a[5..], b[1..]) == 1
    ensures Lcs(a[5..], b[2..]) == 1
    ensures Lcs(a[5..], b[3..]) == 1
    ensures Lcs(a[5..], b[4..]) == 1
    ensures Lcs(a[5..], b[5..]) == 1
    ensures Lcs(a[5..], b[6..]) == 1
    ensures Lcs(a[5..], b[7..]) == 0
  {
    LcsSuffixBase(a, b, 6, 0);
    LcsSuffixBase(a, b, 6, 1);
    LcsSuffixBase(a, b, 6, 2);
    LcsSuffixBase(a, b, 6, 3);
    LcsSuffixBase(a, b, 6, 4);
    LcsSuffixBase(a, b, 6, 5);
    LcsSuffixBase(a, b, 6, 6);
    LcsSuffixBase(a, b, 6, 7);
    LcsSuffixBase(a, b, 5, 7);
    assert Lcs(a[5..], b[6..]) == 1 by { LcsSuffixStep(a, b, 5, 6); }
    assert Lcs(a[5..], b[5..]) == 1 by { LcsSuffixStep(a, b, 5, 5); }
    assert Lcs(a[5..], b[4..]) == 1 by { LcsSuffixStep(a, b, 5, 4); }
    assert Lcs(a[5..], b[3..]) == 1 by { LcsSuffixStep(a, b, 5, 3); }
    assert Lcs(a[5..], b[2..]) == 1 by { LcsSuffixStep(a, b, 5, 2); }
    assert Lcs(a[5..], b[1..]) == 1 by { LcsSuffixStep(a, b, 5, 1); }
    assert Lcs(a[5..], b[0..]) == 1 by { LcsSuffixStep(a, b, 5, 0); }
  }

  /** Rows 3 and 4 of the suffix table for "AGGTAB" against "GXTXAYB". */
  lemma AggtabMiddle(a: string, b: string)
    requires |a| == 6 && |b| == 7
    requires forall k :: 0 <= k < 6 ==> a[k] == "AGGTAB"[k]
    requires forall k :: 0 <= k < 7 ==> b[k] == "GXTXAYB"[k]
    ensures Lcs(a[3..], b[0..]) == 3
    ensures Lcs(a[3..], b[1..]) == 3
    ensures Lcs(a[3..], b[2..]) == 3
    ensures Lcs(a[3..], b[3..]) == 2
    ensures Lcs(a[3..], b[4..]) == 2
    ensures Lcs(a[3..], b[5..]) == 1
    ensures Lcs(a[3..], b[6..]) == 1
    ensures Lcs(a[3..], b[7..]) == 0
  {
    AggtabBack(a, b);
    LcsSuffixBase(a, b, 4, 7);
    assert Lcs(a[4..], b[6..]) == 1 by { LcsSuffixStep(a, b, 4, 6); }
    assert Lcs(a[4..], b[5..]) == 1 by { LcsSuffixStep(a, b, 4, 5); }
    assert Lcs(a[4..], b[4..]) == 2 by { LcsSuffixStep(a, b, 4, 4); }
    assert Lcs(a[4..], b[3..]) == 2 by { LcsSuffixStep(a, b, 4, 3); }
    assert Lcs(a[4..], b[2..]) == 2 by { LcsSuffixStep(a, b, 4, 2); }
    assert Lcs(a[4..], b[1..]) == 2 by { LcsSuffixStep(a, b, 4, 1); }
    assert Lcs(a[4..], b[0..]) == 2 by { LcsSuffixStep(a, b, 4, 0); }
    LcsSuffixBase(a, b, 3, 7);
    assert Lcs(a[3..], b[6..]) == 1 by { LcsSuffixStep(a, b, 3, 6); }
    assert Lcs(a[3..], b[5..]) == 1 by { LcsSuffixStep(a, b, 3, 5); }
    assert Lcs(a[3..], b[4..]) == 2 by { LcsSuffixStep(a, b, 3, 4); }
    assert Lcs(a[3..], b[3..]) == 2 by { LcsSuffixStep(a, b, 3, 3); }
    assert Lcs(a[3..], b[2..]) == 3 by { LcsSuffixStep(a, b, 3, 2); }
    assert Lcs(a[3..], b[1..]) == 3 by { LcsSuffixStep(a, b, 3, 1); }
    assert Lcs(a[3..], b[0..]) == 3 by { LcsSuffixStep(a, b, 3, 0); }
  }

  /** Rows 0 to 2 of the suffix table for "AGGTAB" against "GXTXAYB". */
  lemma AggtabFront(a: string, b: string)
    requires |a| == 6 && |b| == 7
    requires forall k :: 0 <= k < 6 ==> a[k] == "AGGTAB"[k]
    requires forall k :: 0 <= k < 7 ==> b[k] == "GXTXAYB"[k]
    ensures Lcs(a[0..], b[0..]) == 4
  {
    AggtabMiddle(a, b);
    LcsSuffixBase(a, b, 2, 7);
    assert Lcs(a[2..], b[6..]) == 1 by { LcsSuffixStep(a, b, 2, 6); }
    assert Lcs(a[2..], b[5..]) == 1 by { LcsSuffixStep(a, b, 2, 5); }
    assert Lcs(a[2..], b[4..]) == 2 by { LcsSuffixStep(a, b, 2, 4); }
    assert Lcs(a[2..], b[3..]) == 2 by { LcsSuffixStep(a, b, 2, 3); }
    assert Lcs(a[2..], b[2..]) == 3 by { LcsSuffixStep(a, b, 2, 2); }
    assert Lcs(a[2..], b[1..]) == 3 by { LcsSuffixStep(a, b, 2, 1); }
    assert Lcs(a[2..], b[0..]) == 4 by { LcsSuffixStep(a, b, 2, 0); }
    LcsSuffixBase(a, b, 1, 7);
    assert Lcs(a[1..], b[6..]) == 1 by { LcsSuffixStep(a, b, 1, 6); }
    assert Lcs(a[1..], b[5..]) == 1 by { LcsSuffixStep(a, b, 1, 5); }
    assert Lcs(a[1..], b[4..]) == 2 by { LcsSuffixStep(a, b, 1, 4); }
    assert Lcs(a[1..], b[3..]) == 2 by { LcsSuffixStep(a, b, 1, 3); }
    assert Lcs(a[1..], b[2..]) == 3 by { LcsSuffixStep(a, b, 1, 2); }
    assert Lcs(a[1..], b[1..]) == 3 by { LcsSuffixStep(a, b, 1, 1); }
    assert Lcs(a[1..], b[0..]) == 4 by { LcsSuffixStep(a, b, 1, 0); }
    LcsSuffixBase(a, b, 0, 7);
    assert Lcs(a[0..], b[6..]) == 1 by { LcsSuffixStep(a, b, 0, 6); }
    assert Lcs(a[0..], b[5..]) == 1 by { LcsSuffixStep(a, b, 0, 5); }
    assert Lcs(a[0..], b[4..]) == 2 by { LcsSuffixStep(a, b, 0, 4); }
    assert Lcs(a[0..], b[3..]) == 2 by { LcsSuffixStep(a, b, 0, 3); }
    assert Lcs(a[0..], b[2..]) == 3 by { LcsSuffixStep(a, b, 0, 2); }
    assert Lcs(a[0..], b[1..]) == 3 by { LcsSuffixStep(a, b, 0, 1); }
    assert Lcs(a[0..], b[0..]) == 4 by { LcsSuffixStep(a, b, 0, 0); }
  }

  /** The exercise's example: "AGGTAB" and "GXTXAYB" share "GTAB" and nothing longer. */
  lemma AggtabExample(a: string, b: string)
    requires a == "AGGTAB" && b == "GXTXAYB"
    ensures Lcs(a, b) == 4
  {
    AggtabFront(a, b);
    assert a[0..] == a && b[0..] == b;
  }

  // ---------------------------------------------------------------------
  // coin_change

  /** Every denomination is a positive amount. */
  predicate Denominations(coins: seq<int>)
  {
    forall k :: 0 <= k < |coins| ==> coins[k] > 0
  }

  /** combo is a list of coins, each of a given denomination, adding up to amount. */
  predicate MakesAmount(coins: seq<int>, combo: seq<int>, amount: int)
  {
    (forall k :: 0 <= k < |combo| ==> combo[k] in coins) && Recursion.SeqSum(combo) == amount
  }

  /**
   * The fewest coins adding up to a when the first coin is one of
   * coins[..k] (and the others are any denominations), or -1 when there is
   * no such list.
   */
  function Fewest(coins: seq<int>, a: int, k: int): (r: int)
    requires Denominations(coins) && 0 <= k <= |coins| && a >= 0
    ensures -1 <= r <= a
    ensures a == 0 ==> r == 0
    decreases a, k
  {
    if a == 0 then 0
    else if k == 0 then -1
    else
      var rest := Fewest(coins, a, k - 1);
      var coin := coins[k - 1];
      var sub := if coin <= a then Fewest(coins, a - coin, |coins|) else -1;
      if sub == -1 then rest
      else if rest == -1 || sub + 1 < rest then sub + 1
      else rest
  }

  /** The fewest coins of the given denominations adding up to a, or -1. */
  function MinCoins(coins: seq<int>, a: int): int
    requires Denominations(coins) && a >= 0
  {
    Fewest(coins, a, |coins|)
  }

  /** A list of coins realising Fewest. */
  ghost function FewestCombo(coins: seq<int>, a: int, k: int): (combo: seq<int>)
    requires Denominations(coins) && 0 <= k <= |coins| && a >= 0 && Fewest(coins, a, k) >= 0
    ensures MakesAmount(coins, combo, a) && |combo| == Fewest(coins, a, k)
    decreases a, k
  {
    if a == 0 then []
    else
      var rest := Fewest(coins, a, k - 1);
      var coin := coins[k - 1];
      var sub := if coin <= a then Fewest(coins, a - coin, |coins|) else -1;
      if sub != -1 && (rest == -1 || sub + 1 < rest) then
        var tail := FewestCombo(coins, a - coin, |coins|);
        AddCoin(coins, k - 1, tail, a - coin);
        [coin] + tail
      else FewestCombo(coins, a, k - 1)
  }

  /** One more coin of denomination coins[j] in front of a list for a makes coins[j] + a. */
  lemma AddCoin(coins: seq<int>, j: int, tail: seq<int>, a: int)
    requires 0 <= j < |coins| && MakesAmount(coins, tail, a)
    ensures MakesAmount(coins, [coins[j]] + tail, coins[j] + a) && |[coins[j]] + tail| == |tail| + 1
  {
    assert ([coins[j]] + tail)[1..] == tail;
  }

  /** Any coin among coins[..k] that fits gives Fewest a solution at most one longer than the remainder's. */
  lemma {:induction false} FewestBound(coins: seq<int>, a: int, k: int, j: int)
    requires Denominations(coins) && 0 <= j < k <= |coins| && 0 < coins[j] <= a
    requires MinCoins(coins, a - coins[j]) >= 0
    ensures 0 <= Fewest(coins, a, k) <= MinCoins(coins, a - coins[j]) + 1
    decreases k
  {
    if j < k - 1 {
      FewestBound(coins, a, k - 1, j);
    }
  }

  /** Coin lists add up to non-negative amounts. */
  lemma {:induction false} ComboSumNonNegative(coins: seq<int>, combo: seq<int>)
    requires Denominations(coins) && forall k :: 0 <= k < |combo| ==> combo[k] in coins
    ensures Recursion.SeqSum(combo) >= 0
  {
    if combo != [] {
      ComboSumNonNegative(coins, combo[1..]);
      var j :| 0 <= j < |coins| && coins[j] == combo[0];
    }
  }

  /** Every list of coins adding up to a has at least MinCoins coins. */
  lemma {:induction false} MinCoinsIsLowerBound(coins: seq<int>, combo: seq<int>, a: int)
    requires Denominations(coins) && MakesAmount(coins, combo, a)
    ensures a >= 0 && 0 <= MinCoins(coins, a) <= |combo|
  {
    ComboSumNonNegative(coins, combo);
    if combo != [] && a != 0 {
      var rest := combo[1..];
      var j :| 0 <= j < |coins| && coins[j] == combo[0];
      assert forall k :: 0 <= k < |rest| ==> rest[k] == combo[k + 1];
      MinCoinsIsLowerBound(coins, rest, a - coins[j]);
      FewestBound(coins, a, |coins|, j);
    }
  }

  /**
   * MinCoins is the fewest coins adding up to a, and it is -1 exactly when
   * no list of coins adds up to a.
   */
  lemma MinCoinsIsFewest(coins: seq<int>, a: int)
    requires Denominations(coins) && a >= 0
    ensures MinCoins(coins, a) == -1 <==> forall combo :: !MakesAmount(coins, combo, a)
    ensures MinCoins(coins, a) != -1 ==> exists combo :: MakesAmount(coins, combo, a) && |combo| == MinCoins(coins, a)
    ensures forall combo :: MakesAmount(coins, combo, a) ==> MinCoins(coins, a) <= |combo|
    ensures a == 0 ==> MinCoins(coins, a) == 0
  {
    if MinCoins(coins, a) != -1 {
      var combo := FewestCombo(coins, a, |coins|);
      assert MakesAmount(coins, combo, a);
    }
    forall combo | MakesAmount(coins, combo, a)
      ensures 0 <= MinCoins(coins, a) <= |combo|
    {
      MinCoinsIsLowerBound(coins, combo, a);
    }
  }

  /**
   * dp[i] holds the fewest coins for amount i, with amount + 1 standing for
   * "impossible"; each denomination that fits is tried on top of dp[i - coin].
   */
  method CoinChange(coins: seq<int>, amount: int) returns (r: int)
    requires Denominations(coins) && amount >= 0
    ensures r == MinCoins(coins, amount)
  {
    var none := amount + 1;
    var dp := new int[amount + 1];
    dp[0] := 0;
    var i := 1;
    while i <= amount
      invariant 1 <= i <= amount + 1
      invariant forall j :: 0 <= j < i ==> dp[j] == Encoded(MinCoins(coins, j), none)
    {
      dp[i] := none;
      var k := 0;
      while k < |coins|
        invariant 0 <= k <= |coins|
        invariant forall j :: 0 <= j < i ==> dp[j] == Encoded(MinCoins(coins, j), none)
        invariant dp[i] == Encoded(Fewest(coins, i, k), none)
      {
        var coin := coins[k];
        if coin <= i && dp[i - coin] + 1 < dp[i] {
          dp[i] := dp[i - coin] + 1;
        }
        k := k + 1;
      }
      i := i + 1;
    }
    if dp[amount] == none {
      return -1;
    }
    return dp[amount];
  }

  /** The table's encoding of "impossible" (-1) as none. */
  function Encoded(count: int, none: int): int
  {
    if count == -1 then none else count
  }

  /** The exercise's examples: 11 = 5 + 5 + 1 needs three coins, no list of 2s adds up to 3, and 0 needs no coin. */
  lemma CoinChangeExamples(c: seq<int>)
    requires c == [1, 2, 5]
    ensures MinCoins(c, 11) == 3
    ensures MinCoins([2], 3) == -1
    ensures MinCoins([1], 0) == 0
  {
    CoinsTenToEleven(c);
  }

  /** Fewest coins from [1, 2, 5] for the amounts 1 to 3. */
  lemma CoinsOneToThree(c: seq<int>)
    requires c == [1, 2, 5]
    ensures Fewest(c, 1, 3) == 1
    ensures Fewest(c, 2, 3) == 1
    ensures Fewest(c, 3, 3) == 2
  {
    assert Fewest(c, 1, 1) == 1 && Fewest(c, 1, 2) == 1;
    assert Fewest(c, 2, 1) == 2 && Fewest(c, 2, 2) == 1;
    assert Fewest(c, 3, 1) == 2 && Fewest(c, 3, 2) == 2;
  }

  /** Fewest coins from [1, 2, 5] for the amounts 4 to 6. */
  lemma CoinsFourToSix(c: seq<int>)
    requires c == [1, 2, 5]
    ensures Fewest(c, 4, 3) == 2
    ensures Fewest(c, 5, 3) == 1
    ensures Fewest(c, 6, 3) == 2
  {
    CoinsOneToThree(c);
    assert Fewest(c, 4, 1) == 3 && Fewest(c, 4, 2) == 2;
    assert Fewest(c, 5, 1) == 3 && Fewest(c, 5, 2) == 3;
    assert Fewest(c, 6, 1) == 2 && Fewest(c, 6, 2) == 2;
  }

  /** Fewest coins from [1, 2, 5] for the amounts 7 to 9. */
  lemma CoinsSevenToNine(c: seq<int>)
    requires c == [1, 2, 5]
    ensures Fewest(c, 7, 3) == 2
    ensures Fewest(c, 8, 3) == 3
    ensures Fewest(c, 9, 3) == 3
  {
    CoinsFourToSix(c);
    CoinsOneToThree(c);
    assert Fewest(c, 7, 1) == 3 && Fewest(c, 7, 2) == 2;
    assert Fewest(c, 8, 1) == 3 && Fewest(c, 8, 2) == 3;
    assert Fewest(c, 9, 1) == 4 && Fewest(c, 9, 2) == 3;
  }

  /** Fewest coins from [1, 2, 5] for the amounts 10 to 11. */
  lemma CoinsTenToEleven(c: seq<int>)
    requires c == [1, 2, 5]
    ensures Fewest(c, 10, 3) == 2
    ensures Fewest(c, 11, 3) == 3
  {
    CoinsSevenToNine(c);
    CoinsFourToSix(c);
    assert Fewest(c, 10, 1) == 4 && Fewest(c, 10, 2) == 4;
    assert Fewest(c, 11, 1) == 3 && Fewest(c, 11, 2) == 3;
  }

  // ---------------------------------------------------------------------
  // longest_increasing_subsequence

  /**
   * idx lists positions of arr in increasing order whose elements strictly
   * increase: an increasing subsequence of arr.
   */
  predicate IncreasingIndices(arr: seq<int>, idx: seq<int>)
  {
    (forall k :: 0 <= k < |idx| ==> 0 <= idx[k] < |arr|) &&
    (forall k :: 0 <= k < |idx| - 1 ==> idx[k] < idx[k + 1] && arr[idx[k]] < arr[idx[k + 1]])
  }

  /**
   * The longest increasing subsequence that ends before position j with an
   * element below arr[i] (0 when there is none).
   */
  function BestBefore(arr: seq<int>, i: int, j: int): (r: int)
    requires 0 <= j <= i < |arr|
    ensures r >= 0
    decreases j
  {
    if j == 0 then 0
    else
      var extend := if arr[j - 1] < arr[i] then 1 + BestBefore(arr, j - 1, j - 1) else 0;
      Max(BestBefore(arr, i, j - 1), extend)
  }

  /** The longest increasing subsequence ending at position i. */
  function EndingAt(arr: seq<int>, i: int): int
    requires 0 <= i < |arr|
  {
    1 + BestBefore(arr, i, i)
  }

  /** The longest increasing subsequence within the first n elements. */
  function LongestUpTo(arr: seq<int>, n: int): (r: int)
    requires 0 <= n <= |arr|
    ensures r >= 0
  {
    if n == 0 then 0 else Max(LongestUpTo(arr, n - 1), EndingAt(arr, n - 1))
  }

  /** The length of a longest increasing subsequence of arr. */
  function Lis(arr: seq<int>): int
  {
    LongestUpTo(arr, |arr|)
  }

  /** Every subsequence ending at a position p before j below arr[i] is counted by BestBefore. */
  lemma {:induction false} BestBeforeCovers(arr: seq<int>, i: int, j: int, p: int)
    requires 0 <= p < j <= i < |arr| && arr[p] < arr[i]
    ensures BestBefore(arr, i, j) >= EndingAt(arr, p)
    decreases j
  {
    if p < j - 1 {
      BestBeforeCovers(arr, i, j - 1, p);
    }
  }

  /** No increasing subsequence ending at position e is longer than EndingAt(arr, e). */
  lemma {:induction false} EndingAtIsUpperBound(arr: seq<int>, idx: seq<int>)
    requires IncreasingIndices(arr, idx) && idx != []
    ensures |idx| <= EndingAt(arr, idx[|idx| - 1])
  {
    var n := |idx|;
    if n > 1 {
      var front := idx[..n - 1];
      assert IncreasingIndices(arr, front);
      EndingAtIsUpperBound(arr, front);
      BestBeforeCovers(arr, idx[n - 1], idx[n - 1], idx[n - 2]);
    }
  }

  /** LongestUpTo(arr, n) is at least every EndingAt(arr, e) with e < n. */
  lemma {:induction false} LongestUpToCovers(arr: seq<int>, n: int, e: int)
    requires 0 <= e < n <= |arr|
    ensures LongestUpTo(arr, n) >= EndingAt(arr, e)
    decreases n
  {
    if e < n - 1 {
      LongestUpToCovers(arr, n - 1, e);
    }
  }

  /**
   * An increasing subsequence as long as BestBefore(arr, i, j): its positions
   * are below j and its last element is below arr[i].
   */
  ghost function BeforeWitness(arr: seq<int>, i: int, j: int): (idx: seq<int>)
    requires 0 <= j <= i < |arr|
    ensures IncreasingIndices(arr, idx) && |idx| == BestBefore(arr, i, j)
    ensures forall k :: 0 <= k < |idx| ==> idx[k] < j
    ensures idx != [] ==> arr[idx[|idx| - 1]] < arr[i]
    decreases j
  {
    if j == 0 then []
    else
      var extend := if arr[j - 1] < arr[i] then 1 + BestBefore(arr, j - 1, j - 1) else 0;
      if extend > BestBefore(arr, i, j - 1) then
        var front := BeforeWitness(arr, j - 1, j - 1);
        AppendIncreasing(arr, front, j - 1);
        front + [j - 1]
      else BeforeWitness(arr, i, j - 1)
  }

  /** An increasing subsequence as long as LongestUpTo(arr, n), within the first n positions. */
  ghost function UpToWitness(arr: seq<int>, n: int): (idx: seq<int>)
    requires 0 <= n <= |arr|
    ensures IncreasingIndices(arr, idx) && |idx| == LongestUpTo(arr, n)
    decreases n
  {
    if n == 0 then []
    else if LongestUpTo(arr, n - 1) >= EndingAt(arr, n - 1) then UpToWitness(arr, n - 1)
    else
      var front := BeforeWitness(arr, n - 1, n - 1);
      AppendIncreasing(arr, front, n - 1);
      front + [n - 1]
  }

  /** An increasing subsequence extended by a later, larger element is still increasing. */
  lemma AppendIncreasing(arr: seq<int>, idx: seq<int>, e: int)
    requires IncreasingIndices(arr, idx) && 0 <= e < |arr|
    requires forall k :: 0 <= k < |idx| ==> idx[k] < e
    requires idx != [] ==> arr[idx[|idx| - 1]] < arr[e]
    ensures IncreasingIndices(arr, idx + [e])
  {
    var ext := idx + [e];
    forall k | 0 <= k < |ext| - 1
      ensures ext[k] < ext[k + 1] && arr[ext[k]] < arr[ext[k + 1]]
    {
      if k < |idx| - 1 {
        assert ext[k] == idx[k] && ext[k + 1] == idx[k + 1];
      }
    }
  }

  /** Lis is the length of a longest increasing subsequence. */
  lemma LisIsLongest(arr: seq<int>)
    ensures exists idx :: IncreasingIndices(arr, idx) && |idx| == Lis(arr)
    ensures forall idx :: IncreasingIndices(arr, idx) ==> |idx| <= Lis(arr)
  {
    var longest := UpToWitness(arr, |arr|);
    assert IncreasingIndices(arr, longest);
    forall idx | IncreasingIndices(arr, idx)
      ensures |idx| <= Lis(arr)
    {
      if idx != [] {
        EndingAtIsUpperBound(arr, idx);
        LongestUpToCovers(arr, |arr|, idx[|idx| - 1]);
      }
    }
  }

  /**
   * dp[i] holds the longest increasing subsequence ending at i, found by
   * extending every earlier dp[j] with a smaller element; the answer is the
   * largest dp[i].
   */
  method LongestIncreasingSubsequence(arr: seq<int>) returns (r: int)
    ensures r == Lis(arr)
  {
    if |arr| == 0 {
      return 0;
    }
    var n := |arr|;
    var dp := new int[n](_ => 1);
    var i := 0;
    while i < n
      invariant 0 <= i <= n
      invariant forall k :: 0 <= k < i ==> dp[k] == EndingAt(arr, k)
      invariant forall k :: i <= k < n ==> dp[k] == 1
    {
      var j := 0;
      while j < i
        invariant 0 <= j <= i
        invariant forall k :: 0 <= k < i ==> dp[k] == EndingAt(arr, k)
        invariant forall k :: i < k < n ==> dp[k] == 1
        invariant dp[i] == 1 + BestBefore(arr, i, j)
      {
        if arr[j] < arr[i] {
          dp[i] := Max(dp[i], dp[j] + 1);
        }
        j := j + 1;
      }
      i := i + 1;
    }
    r := 0;
    var k := 0;
    while k < n
      invariant 0 <= k <= n
      invariant r == LongestUpTo(arr, k)
    {
      r := Max(r, dp[k]);
      k := k + 1;
    }
  }

  /** The lengths ending at the first five positions of the exercise's example. */
  lemma LisExampleFront(arr: seq<int>)
    requires arr == [10, 9, 2, 5, 3, 7, 101, 18]
    ensures EndingAt(arr, 0) == 1 && EndingAt(arr, 1) == 1 && EndingAt(arr, 2) == 1
    ensures EndingAt(arr, 3) == 2 && EndingAt(arr, 4) == 2
  {
    assert BestBefore(arr, 1, 1) == 0;
    assert BestBefore(arr, 2, 1) == 0;
    assert BestBefore(arr, 2, 2) == 0;
    assert BestBefore(arr, 3, 1) == 0;
    assert BestBefore(arr, 3, 2) == 0;
    assert BestBefore(arr, 3, 3) == 1;
    assert BestBefore(arr, 4, 1) == 0;
    assert BestBefore(arr, 4, 2) == 0;
    assert BestBefore(arr, 4, 3) == 1;
    assert BestBefore(arr, 4, 4) == 1;
  }

  /** The exercise's example: [10, 9, 2, 5, 3, 7, 101, 18] has the increasing subsequence 2, 3, 7, 18 and none longer. */
  lemma LisExample(arr: seq<int>)
    requires arr == [10, 9, 2, 5, 3, 7, 101, 18]
    ensures Lis(arr) == 4
  {
    LisExampleFront(arr);
    assert BestBefore(arr, 5, 1) == 0;
    assert BestBefore(arr, 5, 2) == 0;
    assert BestBefore(arr, 5, 3) == 1;
    assert BestBefore(arr, 5, 4) == 2;
    assert BestBefore(arr, 5, 5) == 2;
    assert BestBefore(arr, 6, 1) == 1;
    assert BestBefore(arr, 6, 2) == 1;
    assert BestBefore(arr, 6, 3) == 1;
    assert BestBefore(arr, 6, 4) == 2;
    assert BestBefore(arr, 6, 5) == 2;
    assert BestBefore(arr, 6, 6) == 3;
    assert BestBefore(arr, 7, 1) == 1;
    assert BestBefore(arr, 7, 2) == 1;
    assert BestBefore(arr, 7, 3) == 1;
    assert BestBefore(arr, 7, 4) == 2;
    assert BestBefore(arr, 7, 5) == 2;
    assert BestBefore(arr, 7, 6) == 3;
    assert BestBefore(arr, 7, 7) == 3;
    assert EndingAt(arr, 5) == 3 && EndingAt(arr, 6) == 4 && EndingAt(arr, 7) == 4;
    assert LongestUpTo(arr, 1) == 1;
    assert LongestUpTo(arr, 2) == 1;
    assert LongestUpTo(arr, 3) == 1;
    assert LongestUpTo(arr, 4) == 2;
    assert LongestUpTo(arr, 5) == 2;
    assert LongestUpTo(arr, 6) == 3;
    assert LongestUpTo(arr, 7) == 4;
  }

  // ---------------------------------------------------------------------
  // edit_distance

  /** One step of an edit script; each step except Keep costs one operation. */
  datatype Edit = Keep | Insert(c: char) | Delete | Replace(c: char)

  /**
   * ops rewrites a into b, reading both from the left: Keep copies a
   * matching character, Insert(c) writes c, Delete skips a character of a,
   * Replace(c) skips one and writes c in its place.
   */
  predicate Transforms(ops: seq<Edit>, a: string, b: string)
    decreases |ops|
  {
    if ops == [] then a == b
    else match ops[0]
      case Keep => a != [] && b != [] && a[0] == b[0] && Transforms(ops[1..], a[1..], b[1..])
      case Insert(c) => b != [] && b[0] == c && Transforms(ops[1..], a, b[1..])
      case Delete => a != [] && Transforms(ops[1..], a[1..], b)
      case Replace(c) => a != [] && b != [] && b[0] == c && Transforms(ops[1..], a[1..], b[1..])
  }

  /** The number of insertions, deletions and replacements in ops. */
  function Cost(ops: seq<Edit>): (r: nat)
    ensures r <= |ops|
  {
    if ops == [] then 0 else (if ops[0].Keep? then 0 else 1) + Cost(ops[1..])
  }

  function Min3(x: int, y: int, z: int): int
  {
    if x <= y && x <= z then x else if y <= z then y else z
  }

  /**
   * The edit distance: copy a matching first character for free, otherwise
   * pay one for deleting, inserting or replacing it.
   */
  function EditDistance(a: string, b: string): int
    decreases |a| + |b|
  {
    if a == [] then |b|
    else if b == [] then |a|
    else if a[0] == b[0] then EditDistance(a[1..], b[1..])
    else 1 + Min3(EditDistance(a[1..], b), EditDistance(a, b[1..]), EditDistance(a[1..], b[1..]))
  }

  /** Dropping the first character of either string changes the distance by at most one. */
  lemma {:induction false} EditShrink(a: string, b: string)
    ensures a != [] ==> EditDistance(a, b) <= EditDistance(a[1..], b) + 1
    ensures a != [] ==> EditDistance(a[1..], b) <= EditDistance(a, b) + 1
    ensures b != [] ==> EditDistance(a, b) <= EditDistance(a, b[1..]) + 1
    ensures b != [] ==> EditDistance(a, b[1..]) <= EditDistance(a, b) + 1
    decreases |a| + |b|
  {
    if a != [] && b != [] {
      EditShrink(a[1..], b);
      EditShrink(a, b[1..]);
      EditShrink(a[1..], b[1..]);
    }
  }

  /** Every script that rewrites a into b costs at least the edit distance. */
  lemma {:induction false} EditDistanceIsLowerBound(ops: seq<Edit>, a: string, b: string)
    requires Transforms(ops, a, b)
    ensures Cost(ops) >= EditDistance(a, b)
    decreases |ops|
  {
    if ops == [] {
      assert a == b;
      EditSelf(a);
    } else {
      EditShrink(a, b);
      EditDistanceIsLowerBound(ops[1..], ExpectedFrom(ops[0], a), ExpectedTo(ops[0], b));
    }
  }

  /** The rest of a after the first step of a script. */
  function ExpectedFrom(op: Edit, a: string): string
  {
    if (op.Keep? || op.Delete? || op.Replace?) && a != [] then a[1..] else a
  }

  /** The rest of b after the first step of a script. */
  function ExpectedTo(op: Edit, b: string): string
  {
    if (op.Keep? || op.Insert? || op.Replace?) && b != [] then b[1..] else b
  }

  /** A string is at distance zero from itself. */
  lemma {:induction false} EditSelf(s: string)
    ensures EditDistance(s, s) == 0
    decreases |s|
  {
    if s != [] {
      EditSelf(s[1..]);
    }
  }

  /** A script of exactly EditDistance(a, b) operations. */
  ghost function EditScript(a: string, b: string): (ops: seq<Edit>)
    ensures Transforms(ops, a, b) && Cost(ops) == EditDistance(a, b)
    decreases |a| + |b|
  {
    if a == [] && b == [] then []
    else if a == [] then Prepend(Insert(b[0]), EditScript(a, b[1..]))
    else if b == [] then Prepend(Delete, EditScript(a[1..], b))
    else if a[0] == b[0] then Prepend(Keep, EditScript(a[1..], b[1..]))
    else
      var del, ins, rep := EditDistance(a[1..], b), EditDistance(a, b[1..]), EditDistance(a[1..], b[1..]);
      if del <= ins && del <= rep then Prepend(Delete, EditScript(a[1..], b))
      else if ins <= rep then Prepend(Insert(b[0]), EditScript(a, b[1..]))
      else Prepend(Replace(b[0]), EditScript(a[1..], b[1..]))
  }

  function Prepend(op: Edit, ops: seq<Edit>): (r: seq<Edit>)
    ensures r != [] && r[0] == op && r[1..] == ops
  {
    [op] + ops
  }

  /** EditDistance is the fewest unit-cost operations rewriting a into b. */
  lemma EditDistanceIsFewest(a: string, b: string)
    ensures exists ops :: Transforms(ops, a, b) && Cost(ops) == EditDistance(a, b)
    ensures forall ops :: Transforms(ops, a, b) ==> Cost(ops) >= EditDistance(a, b)
  {
    var ops := EditScript(a, b);
    assert Transforms(ops, a, b);
    forall ops | Transforms(ops, a, b)
      ensures Cost(ops) >= EditDistance(a, b)
    {
      EditDistanceIsLowerBound(ops, a, b);
    }
  }

  /**
   * dp[i, j] holds the distance between the suffixes a[i..] and b[j..]; rows
   * are filled from the last one up.
   */
  method EditDistanceDp(a: string, b: string) returns (r: int)
    ensures r == EditDistance(a, b)
  {
    var dp := new int[|a| + 1, |b| + 1]((_, _) => 0);
    var i := |a|;
    while i >= 0
      invariant -1 <= i <= |a|
      invariant forall k, e :: i < k <= |a| && 0 <= e <= |b| ==> dp[k, e] == EditDistance(a[k..], b[e..])
    {
      FillEditRow(a, b, dp, i);
      i := i - 1;
    }
    assert a[0..] == a && b[0..] == b;
    return dp[0, 0];
  }

  /** Fills row i of the edit distance table from row i + 1. */
  method FillEditRow(a: string, b: string, dp: array2<int>, i: int)
    requires dp.Length0 == |a| + 1 && dp.Length1 == |b| + 1 && 0 <= i <= |a|
    requires forall k, e :: i < k <= |a| && 0 <= e <= |b| ==> dp[k, e] == EditDistance(a[k..], b[e..])
    modifies dp
    ensures forall k, e :: i <= k <= |a| && 0 <= e <= |b| ==> dp[k, e] == EditDistance(a[k..], b[e..])
    ensures forall k, e :: 0 <= k < i && 0 <= e <= |b| ==> dp[k, e] == old(dp[k, e])
  {
    var j := |b|;
    while j >= 0
      invariant -1 <= j <= |b|
      invariant forall k, e :: 0 <= k < i && 0 <= e <= |b| ==> dp[k, e] == old(dp[k, e])
      invariant forall k, e :: i < k <= |a| && 0 <= e <= |b| ==> dp[k, e] == EditDistance(a[k..], b[e..])
      invariant forall e :: j < e <= |b| ==> dp[i, e] == EditDistance(a[i..], b[e..])
    {
      var v;
      if i == |a| || j == |b| {
        EditSuffixBase(a, b, i, j);
        v := if i == |a| then |b| - j else |a| - i;
      } else {
        v := EditCell(a, b, dp, i, j);
      }
      dp[i, j] := v;
      j := j - 1;
    }
  }

  /** One inner cell of the edit distance table, from its three neighbours below and to the right. */
  method EditCell(a: string, b: string, dp: array2<int>, i: int, j: int) returns (v: int)
    requires dp.Length0 == |a| + 1 && dp.Length1 == |b| + 1 && 0 <= i < |a| && 0 <= j < |b|
    requires dp[i + 1, j + 1] == EditDistance(a[i + 1..], b[j + 1..])
    requires dp[i + 1, j] == EditDistance(a[i + 1..], b[j..])
    requires dp[i, j + 1] == EditDistance(a[i..], b[j + 1..])
    ensures v == EditDistance(a[i..], b[j..])
  {
    EditSuffixStep(a, b, i, j);
    if a[i] == b[j] {
      v := dp[i + 1, j + 1];
    } else {
      v := 1 + Min3(dp[i + 1, j], dp[i, j + 1], dp[i + 1, j + 1]);
    }
  }

  /** An empty suffix on either side leaves only insertions or deletions. */
  lemma EditSuffixBase(a: string, b: string, i: int, j: int)
    requires 0 <= i <= |a| && 0 <= j <= |b|
    ensures EditDistance(a[i..], b[|b|..]) == |a| - i
    ensures EditDistance(a[|a|..], b[j..]) == |b| - j
  {
    assert a[|a|..] == [] && b[|b|..] == [];
  }

  /** The recurrence of EditDistance read on suffixes. */
  lemma EditSuffixStep(a: string, b: string, i: int, j: int)
    requires 0 <= i < |a| && 0 <= j < |b|
    ensures a[i] == b[j] ==> EditDistance(a[i..], b[j..]) == EditDistance(a[i + 1..], b[j + 1..])
    ensures a[i] != b[j] ==>
      (EditDistance(a[i..], b[j..]) ==
       1 + Min3(EditDistance(a[i + 1..], b[j..]), EditDistance(a[i..], b[j + 1..]), EditDistance(a[i + 1..], b[j + 1..])))
  {
    assert a[i..][1..] == a[i + 1..] && b[j..][1..] == b[j + 1..];
  }

  /** The exercise's second example: the empty string is three insertions from "abc". */
  lemma EditDistanceExample()
    ensures EditDistance("", "abc") == 3
  {
  }

  /** Rows 4 and 5 of the suffix table for "kitten" against "sitting". */
  lemma KittenSittingBack(a: string, b: string)
    requires |a| == 6 && |b| == 7
    requires forall k :: 0 <= k < 6 ==> a[k] == "kitten"[k]
    requires forall k :: 0 <= k < 7 ==> b[k] == "sitting"[k]
    ensures EditDistance(a[4..], b[0..]) == 6
    ensures EditDistance(a[4..], b[1..]) == 5
    ensures EditDistance(a[4..], b[2..]) == 4
    ensures EditDistance(a[4..], b[3..]) == 3
    ensures EditDistance(a[4..], b[4..]) == 2
    ensures EditDistance(a[4..], b[5..]) == 2
    ensures EditDistance(a[4..], b[6..]) == 2
    ensures EditDistance(a[4..], b[7..]) == 2
  {
    EditSuffixBase(a, b, 6, 0);
    EditSuffixBase(a, b, 6, 1);
    EditSuffixBase(a, b, 6, 2);
    EditSuffixBase(a, b, 6, 3);
    EditSuffixBase(a, b, 6, 4);
    EditSuffixBase(a, b, 6, 5);
    EditSuffixBase(a, b, 6, 6);
    EditSuffixBase(a, b, 6, 7);
    EditSuffixBase(a, b, 5, 7);
    assert EditDistance(a[5..], b[6..]) == 1 by { EditSuffixStep(a, b, 5, 6); }
    assert EditDistance(a[5..], b[5..]) == 1 by { EditSuffixStep(a, b, 5, 5); }
    assert EditDistance(a[5..], b[4..]) == 2 by { EditSuffixStep(a, b, 5, 4); }
    assert EditDistance(a[5..], b[3..]) == 3 by { EditSuffixStep(a, b, 5, 3); }
    assert EditDistance(a[5..], b[2..]) == 4 by { EditSuffixStep(a, b, 5, 2); }
    assert EditDistance(a[5..], b[1..]) == 5 by { EditSuffixStep(a, b, 5, 1); }
    assert EditDistance(a[5..], b[0..]) == 6 by { EditSuffixStep(a, b, 5, 0); }
    EditSuffixBase(a, b, 4, 7);
    assert EditDistance(a[4..], b[6..]) == 2 by { EditSuffixStep(a, b, 4, 6); }
    assert EditDistance(a[4..], b[5..]) == 2 by { EditSuffixStep(a, b, 4, 5); }
    assert EditDistance(a[4..], b[4..]) == 2 by { EditSuffixStep(a, b, 4, 4); }
    assert EditDistance(a[4..], b[3..]) == 3 by { EditSuffixStep(a, b, 4, 3); }
    assert EditDistance(a[4..], b[2..]) == 4 by { EditSuffixStep(a, b, 4, 2); }
    assert EditDistance(a[4..], b[1..]) == 5 by { EditSuffixStep(a, b, 4, 1); }
    assert EditDistance(a[4..], b[0..]) == 6 by { EditSuffixStep(a, b, 4, 0); }
  }

  /** Rows 2 and 3 of the suffix table for "kitten" against "sitting". */
  lemma KittenSittingMiddle(a: string, b: string)
    requires |a| == 6 && |b| == 7
    requires forall k :: 0 <= k < 6 ==> a[k] == "kitten"[k]
    requires forall k :: 0 <= k < 7 ==> b[k] == "sitting"[k]
    ensures EditDistance(a[2..], b[0..]) == 4
    ensures EditDistance(a[2..], b[1..]) == 3
    ensures EditDistance(a[2..], b[2..]) == 2
    ensures EditDistance(a[2..], b[3..]) == 3
    ensures EditDistance(a[2..], b[4..]) == 4
    ensures EditDistance(a[2..], b[5..]) == 4
    ensures EditDistance(a[2..], b[6..]) == 4
    ensures EditDistance(a[2..], b[7..]) == 4
  {
    KittenSittingBack(a, b);
    EditSuffixBase(a, b, 3, 7);
    assert EditDistance(a[3..], b[6..]) == 3 by { EditSuffixStep(a, b, 3, 6); }
    assert EditDistance(a[3..], b[5..]) == 3 by { EditSuffixStep(a, b, 3, 5); }
    assert EditDistance(a[3..], b[4..]) == 3 by { EditSuffixStep(a, b, 3, 4); }
    assert EditDistance(a[3..], b[3..]) == 2 by { EditSuffixStep(a, b, 3, 3); }
    assert EditDistance(a[3..], b[2..]) == 3 by { EditSuffixStep(a, b, 3, 2); }
    assert EditDistance(a[3..], b[1..]) == 4 by { EditSuffixStep(a, b, 3, 1); }
    assert EditDistance(a[3..], b[0..]) == 5 by { EditSuffixStep(a, b, 3, 0); }
    EditSuffixBase(a, b, 2, 7);
    assert EditDistance(a[2..], b[6..]) == 4 by { EditSuffixStep(a, b, 2, 6); }
    assert EditDistance(a[2..], b[5..]) == 4 by { EditSuffixStep(a, b, 2, 5); }
    assert EditDistance(a[2..], b[4..]) == 4 by { EditSuffixStep(a, b, 2, 4); }
    assert EditDistance(a[2..], b[3..]) == 3 by { EditSuffixStep(a, b, 2, 3); }
    assert EditDistance(a[2..], b[2..]) == 2 by { EditSuffixStep(a, b, 2, 2); }
    assert EditDistance(a[2..], b[1..]) == 3 by { EditSuffixStep(a, b, 2, 1); }
    assert EditDistance(a[2..], b[0..]) == 4 by { EditSuffixStep(a, b, 2, 0); }
  }

  /** Rows 0 and 1 of the suffix table for "kitten" against "sitting". */
  lemma KittenSittingFront(a: string, b: string)
    requires |a| == 6 && |b| == 7
    requires forall k :: 0 <= k < 6 ==> a[k] == "kitten"[k]
    requires forall k :: 0 <= k < 7 ==> b[k] == "sitting"[k]
    ensures EditDistance(a[0..], b[0..]) == 3
  {
    KittenSittingMiddle(a, b);
    EditSuffixBase(a, b, 1, 7);
    assert EditDistance(a[1..], b[6..]) == 5 by { EditSuffixStep(a, b, 1, 6); }
    assert EditDistance(a[1..], b[5..]) == 5 by { EditSuffixStep(a, b, 1, 5); }
    assert EditDistance(a[1..], b[4..]) == 4 by { EditSuffixStep(a, b, 1, 4); }
    assert EditDistance(a[1..], b[3..]) == 4 by { EditSuffixStep(a, b, 1, 3); }
    assert EditDistance(a[1..], b[2..]) == 3 by { EditSuffixStep(a, b, 1, 2); }
    assert EditDistance(a[1..], b[1..]) == 2 by { EditSuffixStep(a, b, 1, 1); }
    assert EditDistance(a[1..], b[0..]) == 3 by { EditSuffixStep(a, b, 1, 0); }
    EditSuffixBase(a, b, 0, 7);
    assert EditDistance(a[0..], b[6..]) == 6 by { EditSuffixStep(a, b, 0, 6); }
    assert EditDistance(a[0..], b[5..]) == 6 by { EditSuffixStep(a, b, 0, 5); }
    assert EditDistance(a[0..], b[4..]) == 5 by { EditSuffixStep(a, b, 0, 4); }
    assert EditDistance(a[0..], b[3..]) == 5 by { EditSuffixStep(a, b, 0, 3); }
    assert EditDistance(a[0..], b[2..]) == 4 by { EditSuffixStep(a, b, 0, 2); }
    assert EditDistance(a[0..], b[1..]) == 3 by { EditSuffixStep(a, b, 0, 1); }
    assert EditDistance(a[0..], b[0..]) == 3 by { EditSuffixStep(a, b, 0, 0); }
  }

  /** The exercise's first example: "kitten" becomes "sitting" in three operations. */
  lemma KittenSitting(a: string, b: string)
    requires a == "kitten" && b == "sitting"
    ensures EditDistance(a, b) == 3
  {
    KittenSittingFront(a, b);
    assert a[0..] == a && b[0..] == b;
  }
}
