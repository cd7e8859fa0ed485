/**
 * The recursion exercises: Fibonacci, factorial, power, decimal digit sum,
 * string reversal and the Tower of Hanoi, each as the recursive definition
 * the reference solution uses, with the properties it is expected to have.
 */
module Recursion {
  import Divisibility

  // ---------------------------------------------------------------------
  // fibonacci

  /** Recursive Fibonacci. As in the source, any n <= 1 is returned as is. */
  function Fibonacci(n: int): int
    decreases n
  {
    if n <= 1 then n else Fibonacci(n - 1) + Fibonacci(n - 2)
  }

  /** Fibonacci numbers of non-negative indices are non-negative, and positive from index 1. */
  lemma {:induction false} FibonacciPositive(n: int)
    requires n >= 0
    ensures Fibonacci(n) >= 0
    ensures n >= 1 ==> Fibonacci(n) >= 1
    decreases n
  {
    if n >= 2 {
      FibonacciPositive(n - 1);
      FibonacciPositive(n - 2);
    }
  }

  /** From index 1 on, the Fibonacci numbers never decrease. */
  lemma {:induction false} FibonacciMonotone(m: int, n: int)
    requires 1 <= m <= n
    ensures Fibonacci(m) <= Fibonacci(n)
    decreases n - m
  {
    if m < n {
      FibonacciMonotone(m, n - 1);
      FibonacciPositive(n - 2);
    }
  }

  /** The addition formula F(m + n + 1) = F(m + 1) * F(n + 1) + F(m) * F(n). */
  lemma {:induction false} FibonacciAddition(m: nat, n: nat)
    ensures Fibonacci(m + n + 1) == Fibonacci(m + 1) * Fibonacci(n + 1) + Fibonacci(m) * Fibonacci(n)
    decreases n
  {
    if n <= 1 {
      FibonacciAdditionBase(m, n);
    } else {
      FibonacciAddition(m, n - 1);
      FibonacciAddition(m, n - 2);
      FibonacciAdditionStep(m, n);
    }
  }

  /** The addition formula for n = 0 and n = 1. */
  lemma FibonacciAdditionBase(m: nat, n: nat)
    requires n <= 1
    ensures Fibonacci(m + n + 1) == Fibonacci(m + 1) * Fibonacci(n + 1) + Fibonacci(m) * Fibonacci(n)
  {
    assert Fibonacci(0) == 0 && Fibonacci(1) == 1 && Fibonacci(2) == 1;
    if n == 1 {
      assert Fibonacci(m + 2) == Fibonacci(m + 1) + Fibonacci(m);
    }
  }

  /** The inductive step of the addition formula. */
  lemma FibonacciAdditionStep(m: nat, n: nat)
    requires n >= 2
    requires Fibonacci(m + n) == Fibonacci(m + 1) * Fibonacci(n) + Fibonacci(m) * Fibonacci(n - 1)
    requires Fibonacci(m + n - 1) == Fibonacci(m + 1) * Fibonacci(n - 1) + Fibonacci(m) * Fibonacci(n - 2)
    ensures Fibonacci(m + n + 1) == Fibonacci(m + 1) * Fibonacci(n + 1) + Fibonacci(m) * Fibonacci(n)
  {
    var a, b := Fibonacci(m + 1), Fibonacci(m);
    var x, y, z := Fibonacci(n), Fibonacci(n - 1), Fibonacci(n - 2);
    Regroup(a, b, x, y, z, Fibonacci(m + n), Fibonacci(m + n - 1));
  }

  /** The step of the addition formula, with the Fibonacci numbers named. */
  lemma Regroup(a: int, b: int, x: int, y: int, z: int, p: int, q: int)
    requires p == a * x + b * y && q == a * y + b * z
    ensures p + q == a * (x + y) + b * (y + z)
  {
  }

  // ---------------------------------------------------------------------
  // factorial

  /** Recursive factorial. As in the source, any n <= 1 gives 1. */
  function Factorial(n: int): (r: int)
    ensures r >= 1
    decreases n
  {
    if n <= 1 then 1 else n * Factorial(n - 1)
  }

  /** The product of a sequence of integers, taken from the left. */
  function Product(s: seq<int>): int
  {
    if s == [] then 1 else Product(s[..|s| - 1]) * s[|s| - 1]
  }

  /** The integers 1, 2, ..., n. */
  function UpTo(n: nat): (s: seq<int>)
    ensures |s| == n && forall i :: 0 <= i < n ==> s[i] == i + 1
  {
    seq(n, i => i + 1)
  }

  /** factorial(n) is the product 1 * 2 * ... * n (the empty product for n = 0). */
  lemma {:induction false} FactorialIsProduct(n: nat)
    ensures Factorial(n) == Product(UpTo(n))
  {
    if n > 0 {
      FactorialIsProduct(n - 1);
      assert UpTo(n)[..n - 1] == UpTo(n - 1);
    }
  }

  /** Every k with 1 <= k <= n divides factorial(n). */
  lemma {:induction false} FactorialDivisible(n: int, k: int)
    requires 1 <= k <= n
    ensures Factorial(n) % k == 0
    decreases n
  {
    if k == n {
      Divisibility.MultipleMod(n, Factorial(n - 1));
    } else {
      FactorialDivisible(n - 1, k);
      Divisibility.DivisorOfProduct(k, Factorial(n - 1), n);
      assert Factorial(n) == Factorial(n - 1) * n;
    }
  }

  // ---------------------------------------------------------------------
  // power

  /**
   * Recursive power base^exponent. The source recurses forever on a
   * negative exponent, so the exponent must be non-negative.
   */
  function Power(base: int, exponent: int): int
    requires exponent >= 0
    decreases exponent
  {
    if exponent == 0 then 1 else base * Power(base, exponent - 1)
  }

  /** base^(m + n) == base^m * base^n. */
  lemma {:induction false} PowerAdd(base: int, m: nat, n: nat)
    ensures Power(base, m + n) == Power(base, m) * Power(base, n)
    decreases m
  {
    if m > 0 {
      PowerAdd(base, m - 1, n);
      calc {
        Power(base, m + n);
        base * Power(base, m - 1 + n);
        base * (Power(base, m - 1) * Power(base, n));
        (base * Power(base, m - 1)) * Power(base, n);
      }
    }
  }

  /** A positive base has a positive power. */
  lemma {:induction false} PowerPositive(base: int, n: nat)
    requires base > 0
    ensures Power(base, n) > 0
  {
    if n > 0 {
      PowerPositive(base, n - 1);
      assert base * Power(base, n - 1) > 0;
    }
  }

  // ---------------------------------------------------------------------
  // sum_digits

  /**
   * Recursive digit sum. As in the source, any n < 10 (negative numbers
   * included) is returned as is.
   */
  function SumDigits(n: int): (r: int)
    ensures n >= 0 ==> 0 <= r <= n
    ensures n >= 0 ==> (r == n <==> n < 10)
    decreases n
  {
    if n < 10 then n else n % 10 + SumDigits(n / 10)
  }

  /** The decimal digits of n >= 0, least significant first. */
  function Digits(n: nat): (ds: seq<int>)
    ensures |ds| >= 1
    ensures forall i :: 0 <= i < |ds| ==> 0 <= ds[i] <= 9
    ensures n > 0 ==> ds[|ds| - 1] != 0
  {
    if n < 10 then [n] else [n % 10] + Digits(n / 10)
  }

  /** The number whose digits, least significant first, are ds. */
  function FromDigits(ds: seq<int>): int
  {
    if ds == [] then 0 else ds[0] + 10 * FromDigits(ds[1..])
  }

  /** The sum of a sequence of integers. */
  function SeqSum(s: seq<int>): int
  {
    if s == [] then 0 else s[0] + SeqSum(s[1..])
  }

  /** Digits(n) is the decimal representation of n ... */
  lemma {:induction false} DigitsRoundTrip(n: nat)
    ensures FromDigits(Digits(n)) == n
  {
    if n >= 10 {
      DigitsRoundTrip(n / 10);
      assert Digits(n)[1..] == Digits(n / 10);
    }
  }

  /** ... and sum_digits(n) is the sum of those digits. */
  lemma {:induction false} SumDigitsIsSumOfDigits(n: nat)
    ensures SumDigits(n) == SeqSum(Digits(n))
  {
    if n >= 10 {
      SumDigitsIsSumOfDigits(n / 10);
      assert Digits(n)[1..] == Digits(n / 10);
    }
  }

  /** Casting out nines: a number and its digit sum agree modulo 9. */
  lemma {:induction false} SumDigitsModNine(n: nat)
    ensures SumDigits(n) % 9 == n % 9
  {
    if n >= 10 {
      SumDigitsModNine(n / 10);
      NinesStep(n, n / 10, n % 10, SumDigits(n / 10));
    }
  }

  /** If s agrees with q modulo 9, then d + s agrees with 10 * q + d modulo 9. */
  lemma NinesStep(n: int, q: int, d: int, s: int)
    requires n == 10 * q + d && s % 9 == q % 9
    ensures (d + s) % 9 == n % 9
  {
    Divisibility.MultipleMod(9, q);
    Divisibility.ModSum(9 * q, q + d, 9);
    Divisibility.ModSum(d, s, 9);
    Divisibility.ModSum(d, q, 9);
    assert n == 9 * q + (q + d);
  }

  // ---------------------------------------------------------------------
  // reverse_string

  /** Recursive string reversal: the last character, then the rest reversed. */
  function ReverseString(s: string): (r: string)
    ensures |r| == |s|
    ensures forall i :: 0 <= i < |s| ==> r[i] == s[|s| - 1 - i]
    decreases |s|
  {
    if |s| <= 1 then s else [s[|s| - 1]] + ReverseString(s[..|s| - 1])
  }

  /** Reversing twice gives the string back. */
  lemma ReverseStringInvolution(s: string)
    ensures ReverseString(ReverseString(s)) == s
  {
  }

  /** Reversal keeps the characters and their counts. */
  lemma {:induction false} ReverseStringPermutes(s: string)
    ensures multiset(ReverseString(s)) == multiset(s)
    decreases |s|
  {
    if |s| > 1 {
      ReverseStringPermutes(s[..|s| - 1]);
      assert s == s[..|s| - 1] + [s[|s| - 1]];
    }
  }

  // ---------------------------------------------------------------------
  // tower_of_hanoi

  /**
   * The moves (from_rod, to_rod) that carry n disks from source to
   * destination. The source never reaches its base case for n < 1.
   */
  function Hanoi<Rod>(n: int, source: Rod, destination: Rod, auxiliary: Rod): seq<(Rod, Rod)>
    requires n >= 1
    decreases n
  {
    if n == 1 then
      [(source, destination)]
    else
      Hanoi(n - 1, source, auxiliary, destination)
      + [(source, destination)]
      + Hanoi(n - 1, auxiliary, destination, source)
  }

  /** For n >= 1 disks there are exactly 2^n - 1 moves. */
  lemma {:induction false} HanoiLength<Rod>(n: int, source: Rod, destination: Rod, auxiliary: Rod)
    requires n >= 1
    ensures |Hanoi(n, source, destination, auxiliary)| == Power(2, n) - 1
    decreases n
  {
    if n > 1 {
      HanoiLength(n - 1, source, auxiliary, destination);
      HanoiLength(n - 1, auxiliary, destination, source);
    }
  }

  /** Every move takes a disk from one rod of the set to another one of it. */
  predicate MovesWithin<Rod>(moves: seq<(Rod, Rod)>, rods: set<Rod>)
  {
    forall k :: 0 <= k < |moves| ==> moves[k].0 in rods && moves[k].1 in rods && moves[k].0 != moves[k].1
  }

  /**
   * With three distinct rod names, every move goes from one of the three
   * named rods to a different one of them.
   */
  lemma {:induction false} HanoiMovesBetweenRods<Rod>(n: int, source: Rod, destination: Rod, auxiliary: Rod)
    requires n >= 1
    requires source != destination && destination != auxiliary && auxiliary != source
    ensures MovesWithin(Hanoi(n, source, destination, auxiliary), {source, destination, auxiliary})
    decreases n
  {
    if n > 1 {
      var rods := {source, destination, auxiliary};
      var first := Hanoi(n - 1, source, auxiliary, destination);
      var second := Hanoi(n - 1, auxiliary, destination, source);
      HanoiMovesBetweenRods(n - 1, source, auxiliary, destination);
      HanoiMovesBetweenRods(n - 1, auxiliary, destination, source);
      assert {source, auxiliary, destination} == rods && {auxiliary, destination, source} == rods;
      var moves := first + [(source, destination)] + second;
      assert Hanoi(n, source, destination, auxiliary) == moves;
      forall k | 0 <= k < |moves|
        ensures moves[k].0 in rods && moves[k].1 in rods && moves[k].0 != moves[k].1
      {
        if k < |first| {
          assert moves[k] == first[k];
        } else if k > |first| {
          assert moves[k] == second[k - |first| - 1];
        }
      }
    }
  }

  /** The disks n, n - 1, ..., 1 as a stack listed from bottom to top. */
  function Tower(n: nat): (s: seq<int>)
    ensures |s| == n && forall i :: 0 <= i < n ==> s[i] == n - i
  {
    seq(n, i => n - i)
  }

  /** Three (or more) rods, each a stack of disks listed from bottom to top. */
  type Rods<Rod> = map<Rod, seq<int>>

  /** A move is legal when it takes the top disk of a non-empty rod to an empty rod or onto a larger disk. */
  predicate Legal<Rod>(rods: Rods<Rod>, move: (Rod, Rod))
  {
    move.0 in rods && move.1 in rods && |rods[move.0]| > 0 &&
    (|rods[move.1]| == 0 || rods[move.0][|rods[move.0]| - 1] < rods[move.1][|rods[move.1]| - 1])
  }

  /** The rods after a legal move. */
  function Step<Rod>(rods: Rods<Rod>, move: (Rod, Rod)): Rods<Rod>
    requires Legal(rods, move)
  {
    var from := rods[move.0];
    rods[move.0 := from[..|from| - 1]][move.1 := rods[move.1] + [from[|from| - 1]]]
  }

  /** Plays the moves in order; None as soon as one of them is illegal. */
  function Replay<Rod>(rods: Rods<Rod>, moves: seq<(Rod, Rod)>): Option<Rods<Rod>>
    decreases |moves|
  {
    if moves == [] then Some(rods)
    else if Legal(rods, moves[0]) then Replay(Step(rods, moves[0]), moves[1..])
    else None
  }

  datatype Option<T> = None | Some(value: T)

  /** Playing two move lists one after the other: when the first one is legal throughout, the second continues from where it ends. */
  lemma {:induction false} ReplayAppend<Rod>(rods: Rods<Rod>, first: seq<(Rod, Rod)>, mid: Rods<Rod>, second: seq<(Rod, Rod)>)
    requires Replay(rods, first) == Some(mid)
    ensures Replay(rods, first + second) == Replay(mid, second)
    decreases |first|
  {
    if first != [] {
      assert (first + second)[0] == first[0];
      assert (first + second)[1..] == first[1..] + second;
      ReplayAppend(Step(rods, first[0]), first[1..], mid, second);
    } else {
      assert first + second == second;
    }
  }

  /** Every disk of the stack is larger than n. */
  predicate AllLarger(s: seq<int>, n: int)
  {
    forall i :: 0 <= i < |s| ==> s[i] > n
  }

  /**
   * The general replay property: the top n disks 1..n of source travel to
   * the top of destination by legal moves, provided everything else on the
   * three rods is larger than n; nothing else changes.
   */
  lemma {:induction false} HanoiReplays<Rod>(n: int, source: Rod, destination: Rod, auxiliary: Rod,
                                              rods: Rods<Rod>, below: seq<int>)
    requires n >= 1
    requires source != destination && destination != auxiliary && auxiliary != source
    requires source in rods && destination in rods && auxiliary in rods
    requires rods[source] == below + Tower(n)
    requires AllLarger(below, n) && AllLarger(rods[destination], n) && AllLarger(rods[auxiliary], n)
    ensures Replay(rods, Hanoi(n, source, destination, auxiliary))
         == Some(rods[source := below][destination := rods[destination] + Tower(n)])
    decreases n, 1
  {
    if n == 1 {
      HanoiOneDisk(source, destination, auxiliary, rods, below);
    } else {
      var firstHalf := Hanoi(n - 1, source, auxiliary, destination);
      var secondHalf := Hanoi(n - 1, auxiliary, destination, source);
      var rest := [(source, destination)] + secondHalf;
      var mid := rods[source := below + [n]][auxiliary := rods[auxiliary] + Tower(n - 1)];
      var rods2 := rods[source := below][auxiliary := rods[auxiliary] + Tower(n - 1)][destination := rods[destination] + [n]];
      calc {
        Replay(rods, Hanoi(n, source, destination, auxiliary));
        { assert Hanoi(n, source, destination, auxiliary) == firstHalf + rest; }
        Replay(rods, firstHalf + rest);
        { HanoiFirstPhase(n, source, destination, auxiliary, rods, below);
          ReplayAppend(rods, firstHalf, mid, rest); }
        Replay(mid, rest);
        { HanoiMiddleMove(n, source, destination, auxiliary, rods, below); }
        Replay(rods2, secondHalf);
        { HanoiLastPhase(n, source, destination, auxiliary, rods, below); }
        Some(rods[source := below][destination := rods[destination] + Tower(n)]);
      }
    }
  }

  /** HanoiReplays for a single disk: one legal move. */
  lemma HanoiOneDisk<Rod>(source: Rod, destination: Rod, auxiliary: Rod, rods: Rods<Rod>, below: seq<int>)
    requires source != destination && destination != auxiliary && auxiliary != source
    requires source in rods && destination in rods && auxiliary in rods
    requires rods[source] == below + Tower(1)
    requires AllLarger(rods[destination], 1)
    ensures Replay(rods, Hanoi(1, source, destination, auxiliary))
         == Some(rods[source := below][destination := rods[destination] + Tower(1)])
  {
    var move := (source, destination);
    assert Tower(1) == [1];
    assert rods[source][..|rods[source]| - 1] == below;
    assert Legal(rods, move);
    assert [move][1..] == [];
    assert Replay(rods, [move]) == Replay(Step(rods, move), []);
  }

  /** The middle of HanoiReplays: disk n goes from source onto destination. */
  lemma HanoiMiddleMove<Rod>(n: int, source: Rod, destination: Rod, auxiliary: Rod, rods: Rods<Rod>, below: seq<int>)
    requires n >= 2
    requires source != destination && destination != auxiliary && auxiliary != source
    requires source in rods && destination in rods && auxiliary in rods
    requires AllLarger(rods[destination], n)
    ensures var rest := Hanoi(n - 1, auxiliary, destination, source);
      Replay(rods[source := below + [n]][auxiliary := rods[auxiliary] + Tower(n - 1)], [(source, destination)] + rest)
      == Replay(rods[source := below][auxiliary := rods[auxiliary] + Tower(n - 1)][destination := rods[destination] + [n]], rest)
  {
    var rest := Hanoi(n - 1, auxiliary, destination, source);
    var move := (source, destination);
    var rods1 := rods[source := below + [n]][auxiliary := rods[auxiliary] + Tower(n - 1)];
    LargestDiskMoves(rods1, source, destination, below, n);
    assert ([move] + rest)[1..] == rest;
    assert rods1[source := below][destination := rods[destination] + [n]]
        == rods[source := below][auxiliary := rods[auxiliary] + Tower(n - 1)][destination := rods[destination] + [n]];
  }

  /** The first phase of HanoiReplays: the n - 1 smaller disks go from source to auxiliary. */
  lemma {:induction false} HanoiFirstPhase<Rod>(n: int, source: Rod, destination: Rod, auxiliary: Rod,
                                                rods: Rods<Rod>, below: seq<int>)
    requires n >= 2
    requires source != destination && destination != auxiliary && auxiliary != source
    requires source in rods && destination in rods && auxiliary in rods
    requires rods[source] == below + Tower(n)
    requires AllLarger(below, n) && AllLarger(rods[destination], n) && AllLarger(rods[auxiliary], n)
    ensures Replay(rods, Hanoi(n - 1, source, auxiliary, destination))
         == Some(rods[source := below + [n]][auxiliary := rods[auxiliary] + Tower(n - 1)])
    decreases n, 0
  {
    StackTower(below, n);
    HanoiReplays(n - 1, source, auxiliary, destination, rods, below + [n]);
  }

  /** A tower of n disks is disk n with the tower of n - 1 on top. */
  lemma StackTower(below: seq<int>, n: int)
    requires n >= 1
    ensures (below + [n]) + Tower(n - 1) == below + Tower(n)
  {
    assert Tower(n) == [n] + Tower(n - 1);
  }

  /** The last phase of HanoiReplays: the n - 1 smaller disks go from auxiliary onto disk n on destination. */
  lemma {:induction false} HanoiLastPhase<Rod>(n: int, source: Rod, destination: Rod, auxiliary: Rod,
                                               rods: Rods<Rod>, below: seq<int>)
    requires n >= 2
    requires source != destination && destination != auxiliary && auxiliary != source
    requires source in rods && destination in rods && auxiliary in rods
    requires AllLarger(below, n) && AllLarger(rods[destination], n) && AllLarger(rods[auxiliary], n)
    ensures Replay(rods[source := below][auxiliary := rods[auxiliary] + Tower(n - 1)][destination := rods[destination] + [n]],
                   Hanoi(n - 1, auxiliary, destination, source))
         == Some(rods[source := below][destination := rods[destination] + Tower(n)])
    decreases n, 0
  {
    var rods2 := rods[source := below][auxiliary := rods[auxiliary] + Tower(n - 1)][destination := rods[destination] + [n]];
    assert AllLarger(rods2[destination], n - 1);
    HanoiReplays(n - 1, auxiliary, destination, source, rods2, rods[auxiliary]);
    var after := rods2[auxiliary := rods[auxiliary]][destination := rods2[destination] + Tower(n - 1)];
    var target := rods[source := below][destination := rods[destination] + Tower(n)];
    assert after == target by {
      StackTower(rods[destination], n);
      assert after.Keys == target.Keys;
      assert forall k | k in target :: after[k] == target[k];
    }
  }

  /** Moving disk n from source to destination is legal when source holds it on top and destination holds only larger disks. */
  lemma LargestDiskMoves<Rod>(rods: Rods<Rod>, source: Rod, destination: Rod, below: seq<int>, n: int)
    requires source != destination && source in rods && destination in rods
    requires rods[source] == below + [n] && AllLarger(rods[destination], n)
    ensures Legal(rods, (source, destination))
    ensures Step(rods, (source, destination)) == rods[source := below][destination := rods[destination] + [n]]
  {
    assert rods[source][..|rods[source]| - 1] == below;
  }

  /**
   * With distinct rods and disks 1..n stacked on source, the moves are all
   * legal (no disk ever lands on a smaller one) and end with every disk on
   * destination.
   */
  lemma HanoiSolves<Rod>(n: int, source: Rod, destination: Rod, auxiliary: Rod)
    requires n >= 1
    requires source != destination && destination != auxiliary && auxiliary != source
    ensures Replay(map[source := Tower(n), destination := [], auxiliary := []],
                   Hanoi(n, source, destination, auxiliary))
         == Some(map[source := [], destination := Tower(n), auxiliary := []])
  {
    var rods := map[source := Tower(n), destination := [], auxiliary := []];
    assert rods[source] == [] + Tower(n);
    HanoiReplays(n, source, destination, auxiliary, rods, []);
    assert rods[source := []][destination := [] + Tower(n)]
        == map[source := [], destination := Tower(n), auxiliary := []];
  }

  /** The expected outputs of the exercise's own examples. */
  lemma RecursionExamples()
    ensures Hanoi(2, 'A', 'C', 'B') == [('A', 'B'), ('A', 'C'), ('B', 'C')]
    ensures |Hanoi(3, 'A', 'C', 'B')| == 7
    ensures ReverseString("hello") == "olleh"
    ensures Factorial(5) == 120 && Power(3, 4) == 81
  {
  }
}
