# LearningSpace algorithms and mathematics, modelled in Dafny

LearningSpace is a collection of programming exercises. Its algorithmic core falls into two groups:

- Reference solutions for number theory, recursion and descriptive statistics, under `solutions/`.
- Documented stubs for sorting, searching and dynamic programming, under `tasks/algorithms/`. Their contracts are fixed by the docstrings and by the expected values in `tests/`.

This project models that core in Dafny and proves the promised properties about the model.

There is one module per source file:

| module | file | models |
|---|---|---|
| `NumberTheory` | `numbertheory.dfy` | `solutions/mathematics/number_theory.py` |
| `Recursion` | `recursion.dfy` | `solutions/algorithms/recursion.py` |
| `Statistics` | `statistics.dfy` | `solutions/mathematics/statistics.py` |
| `Sorting` | `sorting.dfy` | `tasks/algorithms/sorting.py` |
| `Searching` | `searching.dfy` | `tasks/algorithms/searching.py` |
| `DynamicProgramming` | `dynamic_programming.dfy` | `tasks/algorithms/dynamic_programming.py` |

`Divisibility` (`divisibility.dfy`) is a small helper module of facts about `%` and `/`. It models no source file.

Each model takes the form its source has:

- **Loops become methods.** The number-theory functions loop and update local state, so they are methods with loops and invariants. The sieve's flag list is an `array<bool>`.
- **Recursion becomes functions.** The recursion exercises are functions.
- **Expressions over a sorted copy become functions.** That covers the statistics functions; the sorted copy is merge sort.
- **Sorting.**
  - Bubble sort and insertion sort work in place on an `array<int>`.
  - Bubble sort is proved equal to a function that performs the same passes on a sequence.
  - Merge sort and quick sort are recursive functions on sequences.
- **Searching.** Linear, iterative binary and first-occurrence search are loops over an index range. The recursive binary search is a function on its `left`/`right` bounds.
- **Dynamic programming.** Each algorithm fills a 1-D or 2-D table in nested loops. It is proved equal to a recursive specification function. Separate lemmas prove that specification optimal against an explicit set of candidates:
  - item selections for knapsack;
  - common subsequences for longest common subsequence;
  - coin lists for coin change;
  - index lists for longest increasing subsequence;
  - edit scripts for edit distance.

Integers are unbounded, as in Python. Statistics results are exact `real`s over `int` inputs.

## Model

| member | source | states |
|---|---|---|
| NumberTheory.IsPrime | solutions/mathematics/number_theory.py:6-18 | Returns true exactly when n >= 2 and no d with 2 <= d < n divides n. |
| NumberTheory.PrimeBySquareRoot | solutions/mathematics/number_theory.py:15-18 | Trial division only has to reach the first i with i * i > n: if no d in [2, i) divides n, then n is prime. |
| NumberTheory.EvenNotPrime | solutions/mathematics/number_theory.py:12-13 | An even n > 2 is not prime. |
| NumberTheory.SieveOfEratosthenes | solutions/mathematics/number_theory.py:21-34 | The result holds exactly the primes <= n, in strictly ascending order, so it is empty for n < 2. |
| NumberTheory.CrossOffMultiples | solutions/mathematics/number_theory.py:29-32 | Crossing off the multiples i*i, i*i + i, ... moves every flag from state i to state i + 1 of the sieve. A flag k stays set only while no d < i + 1 with d * d <= k divides k. |
| NumberTheory.UnmarkedIsPrime | solutions/mathematics/number_theory.py:29-34 | Once i * i > k, the flag of k survives exactly when k is prime. |
| NumberTheory.Flagged | solutions/mathematics/number_theory.py:34 | Collects exactly the indices whose flag is set, in ascending order. |
| NumberTheory.EuclidStep | solutions/mathematics/number_theory.py:39-40 | For b > 0, (a, b) and (b, a % b) have the same positive common divisors. |
| NumberTheory.Gcd | solutions/mathematics/number_theory.py:37-41 | For a, b >= 0 the result is a common divisor of a and b, and every common divisor divides it. It is 0 only for gcd(0, 0), and gcd(a, 0) = a. It equals EuclidGcd(a, b), the recursion the loop unrolls. |
| NumberTheory.EuclidGcdDivides | solutions/mathematics/number_theory.py:37-41 | For a, b >= 0, not both 0, Euclid's recursion yields a positive common divisor of a and b. |
| NumberTheory.EuclidGcdGreatest | solutions/mathematics/number_theory.py:37-41 | Every common divisor of a and b divides the gcd Euclid's recursion yields. |
| NumberTheory.EuclidGcdScale | solutions/mathematics/number_theory.py:39-40 | gcd(k * a, k * b) = k * gcd(a, b) for k > 0: scaling both inputs scales each remainder by k. |
| NumberTheory.Lcm | solutions/mathematics/number_theory.py:44-46 | For a, b >= 0, not both 0, the result is a non-negative multiple of each non-zero argument. It is 0 exactly when a or b is 0, and at most a * b. For a, b > 0 it divides every positive common multiple, so it is the least common multiple. |
| NumberTheory.LcmLeast | solutions/mathematics/number_theory.py:46 | For a, b > 0, a * b // gcd(a, b) is positive and divides every positive common multiple of a and b. |
| NumberTheory.LcmFacts | solutions/mathematics/number_theory.py:46 | The same facts for a * b // g, where g is any positive common divisor. |
| NumberTheory.PrimeFactorization | solutions/mathematics/number_theory.py:49-60 | For n >= 1 the factors multiply to n. Every factor is prime, and the list is non-decreasing. For n <= 1 the list is empty. |
| NumberTheory.SmallestDivisorIsPrime | solutions/mathematics/number_theory.py:53-56 | The smallest divisor d >= 2 of m is prime. This is why every factor the loop appends is prime. |
| NumberTheory.DivideOut | solutions/mathematics/number_theory.py:54-56 | Dividing m by such a d keeps the product of the factors times the rest equal to n. The quotient is smaller than m and has no divisor in [2, d) either. |
| NumberTheory.IsPerfectNumber | solutions/mathematics/number_theory.py:63-75 | Returns true exactly when n >= 2 and the divisors of n below n sum to n. |
| NumberTheory.PairedDivisorsStep | solutions/mathematics/number_theory.py:69-73 | The candidate i adds i and n / i to the divisors summed so far when i divides n. It adds n / i only when it differs from i. |
| NumberTheory.PairedDivisorsComplete | solutions/mathematics/number_theory.py:69-75 | When the loop stops at the first i with i * i > n, the divisors summed are exactly the proper divisors of n. |
| NumberTheory.GcdExamples | tests/test_mathematics.py:29-31 | gcd(48, 18) = 6, gcd(100, 35) = 5 and gcd(17, 19) = 1. |
| NumberTheory.LcmExamples | tests/test_mathematics.py:35-36 | Any value meeting Lcm's contract for (12, 18) is 36, and for (4, 5) is 20: lcm(12, 18) = 36 and lcm(4, 5) = 20. |
| NumberTheory.SixIsPerfect | tests/test_mathematics.py:44 | The proper divisors of 6 are {1, 2, 3}, and they sum to 6. |
| NumberTheory.TwelveIsNotPerfect | tests/test_mathematics.py:46 | The proper divisors of 12 sum to 16, not 12. |
| NumberTheory.NthFibonacciModulo | solutions/mathematics/number_theory.py:78-87 | Returns n unreduced for n <= 1, and Fibonacci(n) mod m for n >= 2 and m > 0. |
| NumberTheory.FibonacciModStep | solutions/mathematics/number_theory.py:85 | Reducing a + b modulo m after each step keeps b congruent to the current Fibonacci number. |
| Recursion.Fibonacci | solutions/algorithms/recursion.py:6-10 | fibonacci(n): n itself for n <= 1, negative n included, and otherwise the sum of the two previous values. FibonacciPositive, FibonacciMonotone and FibonacciAddition state its properties; NumberTheory.NthFibonacciModulo relates the iterative version to it. |
| Recursion.FibonacciPositive | solutions/algorithms/recursion.py:6-10 | F(n) >= 0 for n >= 0, and F(n) >= 1 for n >= 1. |
| Recursion.FibonacciMonotone | solutions/algorithms/recursion.py:6-10 | F is non-decreasing from index 1 on. |
| Recursion.FibonacciAddition | solutions/algorithms/recursion.py:6-10 | The addition law F(m + n + 1) = F(m + 1) F(n + 1) + F(m) F(n). |
| Recursion.Factorial | solutions/algorithms/recursion.py:13-17 | The factorial is at least 1 for every n, including n <= 1. |
| Recursion.FactorialIsProduct | solutions/algorithms/recursion.py:13-17 | factorial(n) is the product 1 * 2 * ... * n, and the empty product for n = 0. |
| Recursion.FactorialDivisible | solutions/algorithms/recursion.py:13-17 | Every k with 1 <= k <= n divides factorial(n). |
| Recursion.Power | solutions/algorithms/recursion.py:20-24 | power(base, exponent) for exponent >= 0: 1 at exponent 0, otherwise base times the next lower power. PowerAdd and PowerPositive state its properties, and Recursion.HanoiLength measures moves with it. |
| Recursion.PowerAdd | solutions/algorithms/recursion.py:20-24 | base^(m + n) = base^m * base^n. |
| Recursion.PowerPositive | solutions/algorithms/recursion.py:20-24 | A positive base has positive powers. |
| Recursion.SumDigits | solutions/algorithms/recursion.py:27-31 | For n >= 0 the result lies between 0 and n. It equals n exactly when n < 10. |
| Recursion.Digits | solutions/algorithms/recursion.py:29-31 | The decimal digits of n, least significant first: every digit is in 0..9, and the last one is non-zero for n > 0. |
| Recursion.DigitsRoundTrip | solutions/algorithms/recursion.py:29-31 | Reading the digits back gives n. |
| Recursion.SumDigitsIsSumOfDigits | solutions/algorithms/recursion.py:27-31 | sum_digits(n) is the sum of the decimal digits of n. |
| Recursion.SumDigitsModNine | solutions/algorithms/recursion.py:27-31 | sum_digits(n) is congruent to n modulo 9. |
| Recursion.ReverseString | solutions/algorithms/recursion.py:34-38 | The result has the length of s, and its character i is s[len(s) - 1 - i]. |
| Recursion.ReverseStringInvolution | solutions/algorithms/recursion.py:34-38 | Reversing twice gives s back. |
| Recursion.ReverseStringPermutes | solutions/algorithms/recursion.py:34-38 | The reversal has the same characters with the same multiplicities. |
| Recursion.Hanoi | solutions/algorithms/recursion.py:41-54 | The move list of tower_of_hanoi, as (from, to) pairs: n - 1 disks to auxiliary, the largest disk to destination, n - 1 disks onto it. HanoiLength, HanoiMovesBetweenRods, HanoiReplays and HanoiSolves state what the list does. |
| Recursion.HanoiLength | solutions/algorithms/recursion.py:41-54 | n >= 1 disks take exactly 2^n - 1 moves. |
| Recursion.HanoiMovesBetweenRods | solutions/algorithms/recursion.py:43-52 | With three distinct rod names, every move goes from one named rod to a different named rod. |
| Recursion.ReplayAppend | solutions/algorithms/recursion.py:48-52 | Playing two move lists one after the other is playing their concatenation. |
| Recursion.HanoiReplays | solutions/algorithms/recursion.py:41-54 | Take any three rods where the top n disks of source are n, ..., 1 and every other disk is larger. Then every move is legal, the n disks end on top of destination, and nothing else changes. |
| Recursion.LargestDiskMoves | solutions/algorithms/recursion.py:50 | The middle move, of disk n onto a rod of larger disks, is legal and moves only disk n. |
| Recursion.HanoiSolves | solutions/algorithms/recursion.py:41-54 | From all n disks on source and two empty rods, the moves are all legal and end with all n disks on destination. |
| Recursion.RecursionExamples | tests/test_algorithms.py:72-95 | Checks these test values: `tower_of_hanoi(2, 'A', 'C', 'B')` is [(A,B), (A,C), (B,C)], three disks take 7 moves, "hello" reversed is "olleh", 5! = 120 and 3^4 = 81. |
| Statistics.SortedCopy | solutions/mathematics/statistics.py:16 | `sorted(numbers)`: a sorted list with the same elements as the input. The input is left alone. |
| Statistics.SortedCopyEnds | solutions/mathematics/statistics.py:16 | The sorted copy starts with the minimum and ends with the maximum. |
| Statistics.SortedCopyPermutation | solutions/mathematics/statistics.py:16 | Lists with the same elements have the same sorted copy. |
| Statistics.Mean | solutions/mathematics/statistics.py:9-11 | sum(numbers) / len(numbers), exact over the reals. MeanBounds, MeanPermutation and MeanExample state its properties. |
| Statistics.MeanBounds | solutions/mathematics/statistics.py:9-11 | The mean of a non-empty list lies between its minimum and its maximum. |
| Statistics.MeanPermutation | solutions/mathematics/statistics.py:9-11 | The mean does not depend on the order of the elements. |
| Statistics.SumPermutation | solutions/mathematics/statistics.py:11 | The sum does not depend on the order of the elements. |
| Statistics.Median | solutions/mathematics/statistics.py:14-24 | Middle of the sorted copy. MedianBounds, MedianPermutation, MedianSplits, MedianOfSorted and PercentileFiftyIsMedian state its properties. |
| Statistics.Middle | solutions/mathematics/statistics.py:17-24 | The element at n // 2 for an odd length, the mean of the elements at n // 2 - 1 and n // 2 for an even one. MiddleBounds and MiddleSplits state its properties on a sorted list. |
| Statistics.MiddleBounds | solutions/mathematics/statistics.py:19-24 | On a sorted list the middle value lies between the first and the last element. |
| Statistics.MiddleSplits | solutions/mathematics/statistics.py:19-24 | On a sorted list the elements up to the middle are <= the middle value, and those from the middle on are >= it. |
| Statistics.MedianBounds | solutions/mathematics/statistics.py:14-24 | The median lies between the minimum and the maximum. |
| Statistics.MedianPermutation | solutions/mathematics/statistics.py:14-24 | The median does not depend on the order of the elements. |
| Statistics.MedianSplits | solutions/mathematics/statistics.py:14-24 | The first half of the sorted copy, up to and including the middle, is <= the median. The second half, from the middle on, is >= the median. |
| Statistics.MedianOfSorted | solutions/mathematics/statistics.py:19-24 | On a list that is already sorted, the median is its middle element, or the mean of its two middle elements. |
| Statistics.Mode | solutions/mathematics/statistics.py:27-32 | The mode is an element of the list and no element occurs more often. Every other element that occurs as often is larger. |
| Statistics.ModeIs | solutions/mathematics/statistics.py:27-32 | Those three properties pin the mode down: a value with them is the mode. |
| Statistics.ScaledSquares | solutions/mathematics/statistics.py:38 | The sum of (n * x - s)^2 over the list, in integers. ScaledSquaresZero states that it is >= 0 and is 0 exactly when every n * x equals s. ScaledIsSquaredDeviations relates it to the squared deviations from s / n. |
| Statistics.ScaledSquaresZero | solutions/mathematics/statistics.py:38 | The scaled squares are >= 0, and they are 0 exactly when n * x = s for every element x. |
| Statistics.ScaledIsSquaredDeviations | solutions/mathematics/statistics.py:38 | Over the reals, the scaled squares are n^2 times the sum of (x - s / n)^2. |
| Statistics.Variance | solutions/mathematics/statistics.py:35-38 | The population variance. VarianceIsMeanSquaredDeviation proves it equal to the source's formula; VarianceNonNegative, VarianceZero and VarianceExample state its properties. |
| Statistics.VarianceIsMeanSquaredDeviation | solutions/mathematics/statistics.py:37-38 | The variance is the sum of (x - mean(numbers))^2 over the list, divided by len(numbers). |
| Statistics.VarianceNonNegative | solutions/mathematics/statistics.py:35-38 | The population variance, sum((x - avg)^2) / len, is >= 0. |
| Statistics.VarianceZero | solutions/mathematics/statistics.py:35-38 | The population variance, sum((x - avg)^2) / len, is 0 exactly when all elements are equal. |
| Statistics.Percentile | solutions/mathematics/statistics.py:76-92 | PercentileOfSorted of the sorted copy, for 0 <= p <= 100. PercentileHundred, PercentileZero, PercentileBounds and PercentileFiftyIsMedian state its properties. |
| Statistics.PercentileOfSorted | solutions/mathematics/statistics.py:79-92 | The last element for p = 100. Otherwise the position p / 100 * (n - 1) is split into its integer part and its fraction: the element at the integer part when there is no next element, else the linear interpolation between the two. PercentileOfSortedBounds, PercentileFiftyIsMiddle and PercentileOfSortedInput state its properties. |
| Statistics.PercentileOfSortedBounds | solutions/mathematics/statistics.py:79-92 | On a sorted list every percentile with 0 <= p <= 100 lies between the first and the last element. |
| Statistics.PercentileFiftyIsMiddle | solutions/mathematics/statistics.py:84-92 | The 50th percentile of a non-empty list is its middle value, as median computes it. |
| Statistics.PercentileOfSortedInput | solutions/mathematics/statistics.py:78 | On a sorted input, sorting first changes nothing: percentile reads the list as it is. |
| Statistics.HalfPosition | solutions/mathematics/statistics.py:84-85 | For p = 50 the position is n // 2 for an odd n, and n // 2 - 1 plus one half for an even n. |
| Statistics.PercentileHundred | solutions/mathematics/statistics.py:81-82 | The 100th percentile is the maximum. |
| Statistics.PercentileZero | solutions/mathematics/statistics.py:84-92 | The 0th percentile is the minimum. |
| Statistics.PositionInRange | solutions/mathematics/statistics.py:84-86 | For 0 <= p < 100 the position p / 100 * (n - 1) lies in [0, n - 1), so its integer part indexes the sorted list. |
| Statistics.InterpolationBetween | solutions/mathematics/statistics.py:91-92 | Interpolating from a to b with weight in [0, 1) stays between a and b. |
| Statistics.PercentileBounds | solutions/mathematics/statistics.py:76-92 | Every percentile with 0 <= p <= 100 lies between the minimum and the maximum. |
| Statistics.PercentileFiftyIsMedian | solutions/mathematics/statistics.py:14-24 | The 50th percentile equals the median. |
| Statistics.MeanExample | tests/test_mathematics.py:92-94 | mean([1, 2, 3, 4, 5]) = 3.0 and mean([10, 20, 30]) = 20.0. |
| Statistics.MedianOddExample | tests/test_mathematics.py:97 | median([1, 2, 3, 4, 5]) = 3. |
| Statistics.MedianEvenExample | tests/test_mathematics.py:98 | median([1, 2, 3, 4]) = 2.5. |
| Statistics.ModeExample | tests/test_mathematics.py:101 | mode([1, 2, 2, 3, 4]) = 2. |
| Statistics.ModeTieExample | tests/test_mathematics.py:102 | mode([1, 1, 2, 2, 3]) = 1: with a tie, the smallest value wins. |
| Statistics.VarianceExample | tests/test_mathematics.py:104-105 | variance([2, 4, 4, 4, 5, 5, 7, 9]) = 4.0. |
| Statistics.PercentileExample | tests/test_mathematics.py:118-119 | The 50th percentile of 1..10 is 5.5. |
| Sorting.SortedUnique | tasks/algorithms/sorting.py:19-20 | Two sorted lists with the same elements are equal, so a sorted output is determined by its input's elements. |
| Sorting.Swap | tasks/algorithms/sorting.py:72-90 | Exchanges two array entries and changes nothing else. |
| Sorting.BubbleSort | tasks/algorithms/sorting.py:9-27 | Leaves the array sorted and a permutation of its old contents. The result is exactly the sequence function Passes applied to them. |
| Sorting.PassCarriesLargest | tasks/algorithms/sorting.py:13-14 | One pass of adjacent compare-and-swaps carries the largest element of the unsorted prefix to its end. The sorted suffix grows by one. |
| Sorting.PassesInvariant | tasks/algorithms/sorting.py:13-14 | After i passes the last i positions are sorted and no smaller than any element before them. The list is still a permutation of the input. |
| Sorting.BubbleSortSorts | tasks/algorithms/sorting.py:9-27 | len(arr) passes give a sorted permutation of the input. |
| Sorting.InsertionSort | tasks/algorithms/sorting.py:72-90 | Leaves the array sorted and a permutation of its old contents. |
| Sorting.Sink | tasks/algorithms/sorting.py:76-77 | Inserting element i into the sorted prefix a[..i] leaves a[..i + 1] sorted, holding the same elements as before, and leaves a[i + 1..] unchanged. |
| Sorting.Merge | tasks/algorithms/sorting.py:34-35 | Merging two sorted lists gives a sorted list holding the elements of both. |
| Sorting.MergeSort | tasks/algorithms/sorting.py:30-48 | The result is sorted and a permutation of the input. |
| Sorting.Partition | tasks/algorithms/sorting.py:55-56 | Splits the list around the pivot into elements below, equal to and above it. Together the parts keep the list's multiset. When the pivot occurs, both outer parts are shorter than the list. |
| Sorting.QuickSortJoin | tasks/algorithms/sorting.py:55-56 | Sorted parts below the pivot, then the pivot copies, then sorted parts above it, make a sorted list. |
| Sorting.QuickSort | tasks/algorithms/sorting.py:51-69 | The result is sorted and a permutation of the input. |
| Sorting.BubbleSortIsMergeSort | tasks/algorithms/sorting.py:9-48 | Bubble sort and merge sort return the same list on every input. |
| Sorting.QuickSortIsMergeSort | tasks/algorithms/sorting.py:30-69 | Quick sort and merge sort return the same list on every input. |
| Sorting.SortingSortedIsIdentity | tests/test_algorithms.py:21-22 | Merge sort and quick sort return an already-sorted list unchanged, among them the empty list and every singleton. |
| Sorting.MergeSortIdempotent | tasks/algorithms/sorting.py:30-48 | Sorting a sorted result again changes nothing. |
| Sorting.SortExample | tests/test_algorithms.py:19 | Bubble, merge and quick sort all turn [64, 34, 25, 12, 22, 11, 90] into [11, 12, 22, 25, 34, 64, 90]. |
| Sorting.SortFiveExample | tests/test_algorithms.py:20 | Bubble, merge and quick sort all turn [5, 2, 8, 1, 9] into [1, 2, 5, 8, 9]. |
| Searching.LinearSearch | tasks/algorithms/searching.py:8-29 | Returns -1 exactly when target is not in arr. Otherwise it returns the smallest index holding target. |
| Searching.BinarySearch | tasks/algorithms/searching.py:32-53 | On a sorted list, returns -1 exactly when target is absent, and otherwise an index holding target. The comparison count p satisfies 2^(p - 1) <= len(arr), since each probe halves the interval. |
| Searching.BinarySearchRange | tasks/algorithms/searching.py:56-74 | Returns -1 exactly when target is absent from arr[left..right], and otherwise an index in that range holding it. |
| Searching.BinarySearchRecursive | tasks/algorithms/searching.py:56-74 | With the default bounds 0 and len(arr) - 1 it has the contract of binary_search. |
| Searching.FindFirstOccurrence | tasks/algorithms/searching.py:77-93 | On a sorted list with duplicates, returns -1 exactly when target is absent. Otherwise it returns the smallest index holding target. |
| Searching.FirstIndexUnique | tasks/algorithms/searching.py:85-86 | The first occurrence is unique, so linear_search and find_first_occurrence agree on sorted input. |
| Searching.BinarySearchRecursiveExamples | tests/test_algorithms.py:54-56 | binary_search_recursive([1, 2, 4, 5, 7, 9], 7) = 4, and -1 for the target 10. |
| DynamicProgramming.FibonacciDp | tasks/algorithms/dynamic_programming.py:8-27 | The tabulated result equals the recursive Fibonacci(n). |
| DynamicProgramming.FibonacciExamples | tests/test_algorithms.py:101-103 | F(10) = 55 and F(50) = 12586269025. |
| DynamicProgramming.BestIsUpperBound | tasks/algorithms/dynamic_programming.py:30-50 | No selection of the first i items whose weight fits in c is worth more than Best(i, c). |
| DynamicProgramming.BestSelection | tasks/algorithms/dynamic_programming.py:30-50 | For every c >= 0, some selection of the first i items fits in c and is worth exactly Best(i, c). |
| DynamicProgramming.BestIsMaximum | tasks/algorithms/dynamic_programming.py:34-35 | Best(i, c) is the maximum value over all item selections, each item at most once, that fit in c. The maximum is attained. |
| DynamicProgramming.Knapsack01 | tasks/algorithms/dynamic_programming.py:30-50 | The table method returns Best over all items and the capacity, so its result is that optimum. |
| DynamicProgramming.KnapsackExamples | tests/test_algorithms.py:105-107 | The optimum is 55 for weights [1, 2, 3], values [10, 15, 40] and capacity 5, and 7 for the second test case. |
| DynamicProgramming.LcsBounds | tasks/algorithms/dynamic_programming.py:53-72 | The longest common subsequence length is at most the length of either string. |
| DynamicProgramming.LcsSelf | tasks/algorithms/dynamic_programming.py:53-72 | A string's longest common subsequence with itself is the whole string. |
| DynamicProgramming.LcsShrink | tasks/algorithms/dynamic_programming.py:53-72 | Dropping the first character of either string lowers the length by at most one, and never raises it. |
| DynamicProgramming.LcsIsLongest | tasks/algorithms/dynamic_programming.py:57-58 | Some common subsequence has length Lcs(a, b), and no common subsequence is longer. |
| DynamicProgramming.LongestCommonSubsequence | tasks/algorithms/dynamic_programming.py:53-72 | The table method returns Lcs(a, b). |
| DynamicProgramming.LcsSuffixStep | tasks/algorithms/dynamic_programming.py:53-72 | The recurrence the table uses on suffixes: 1 + the next diagonal entry on equal characters, otherwise the larger of the two neighbours. |
| DynamicProgramming.LcsExample | tests/test_algorithms.py:111 | LCS("ABC", "ABC") = 3. |
| DynamicProgramming.AggtabExample | tests/test_algorithms.py:110 | LCS("AGGTAB", "GXTXAYB") = 4. |
| DynamicProgramming.Fewest | tasks/algorithms/dynamic_programming.py:75-96 | The coin count is -1 or lies between 0 and the amount, and it is 0 for amount 0. |
| DynamicProgramming.FewestCombo | tasks/algorithms/dynamic_programming.py:75-96 | Whenever the count is not -1, an actual list of coins of that length makes the amount. |
| DynamicProgramming.MinCoinsIsLowerBound | tasks/algorithms/dynamic_programming.py:75-96 | Every list of coins making the amount has at least MinCoins coins. |
| DynamicProgramming.MinCoinsIsFewest | tasks/algorithms/dynamic_programming.py:77-80 | MinCoins is -1 exactly when no coin list makes the amount. Otherwise it is the length of a shortest such list, and it is 0 for amount 0. |
| DynamicProgramming.CoinChange | tasks/algorithms/dynamic_programming.py:75-96 | The table method returns MinCoins(coins, amount). |
| DynamicProgramming.CoinChangeExamples | tests/test_algorithms.py:113-116 | coin_change([1, 2, 5], 11) = 3, coin_change([2], 3) = -1 and coin_change([1], 0) = 0. |
| DynamicProgramming.EndingAtIsUpperBound | tasks/algorithms/dynamic_programming.py:99-114 | No increasing subsequence ending at index e is longer than the table entry for e. |
| DynamicProgramming.LongestUpToCovers | tasks/algorithms/dynamic_programming.py:99-114 | The best over the first n positions is at least the entry of every position below n. |
| DynamicProgramming.UpToWitness | tasks/algorithms/dynamic_programming.py:99-114 | An increasing subsequence of exactly that best length exists. |
| DynamicProgramming.LisIsLongest | tasks/algorithms/dynamic_programming.py:99-114 | Some strictly increasing subsequence has length Lis(arr), and none is longer. |
| DynamicProgramming.LongestIncreasingSubsequence | tasks/algorithms/dynamic_programming.py:99-114 | The table method returns Lis(arr). |
| DynamicProgramming.LisExample | tests/test_algorithms.py:118-119 | The longest increasing subsequence of [10, 9, 2, 5, 3, 7, 101, 18] has length 4. |
| DynamicProgramming.Cost | tasks/algorithms/dynamic_programming.py:117-135 | An edit script costs one per insert, delete or replace, so at most its length. |
| DynamicProgramming.EditShrink | tasks/algorithms/dynamic_programming.py:117-135 | Dropping the first character of either string changes the distance by at most one. |
| DynamicProgramming.EditDistanceIsLowerBound | tasks/algorithms/dynamic_programming.py:119-121 | Every edit script turning str1 into str2 costs at least EditDistance. |
| DynamicProgramming.EditScript | tasks/algorithms/dynamic_programming.py:119-121 | Some edit script turning str1 into str2 costs exactly EditDistance. |
| DynamicProgramming.EditDistanceIsFewest | tasks/algorithms/dynamic_programming.py:117-135 | EditDistance is the minimum cost over all edit scripts, and the minimum is attained. |
| DynamicProgramming.EditSelf | tasks/algorithms/dynamic_programming.py:117-135 | A string is at distance 0 from itself. |
| DynamicProgramming.EditDistanceDp | tasks/algorithms/dynamic_programming.py:117-135 | The table method returns EditDistance(str1, str2). |
| DynamicProgramming.EditSuffixBase | tasks/algorithms/dynamic_programming.py:117-135 | A suffix is at distance equal to its length from the empty string, in both directions. |
| DynamicProgramming.EditSuffixStep | tasks/algorithms/dynamic_programming.py:117-135 | The recurrence the table uses on suffixes: the next diagonal entry on equal characters, otherwise 1 + the smallest of the three neighbours. |
| DynamicProgramming.EditDistanceExample | tests/test_algorithms.py:123 | edit_distance("", "abc") = 3. |
| DynamicProgramming.KittenSitting | tests/test_algorithms.py:122 | edit_distance("kitten", "sitting") = 3. |

## Left out

- Floating point: the statistics functions compute in exact reals. Python float rounding, and float inputs, are not modelled; inputs are integers.
- `int(n ** 0.5)`: every float square-root loop bound in `number_theory.py` is the exact integer condition i * i <= n.
- `standard_deviation`, `correlation` and `z_score` are not modelled. They need `math.sqrt`, which has no exact counterpart here.
- Everything else in the repository is out of scope: the devops walkthroughs, the numpy/pandas/plotting wrappers, geometry and `run_example.py`.
- NumberTheory.Gcd: requires a, b >= 0. Python's floor-division `%` on negative arguments is not modelled.
- NumberTheory.Lcm: requires a, b >= 0, not both 0. For gcd(0, 0) the source divides by zero; `abs` of negative products is not modelled.
- NumberTheory.NthFibonacciModulo: requires m > 0 when n >= 2. A zero modulus makes the source divide by zero, and a negative one follows Python's floor `%`; neither is modelled.
- NumberTheory.PrimeFactorization: for n <= 1 the result is the empty list, as in the source. Negative n is not treated separately: for n <= 1 the factor loop never runs.
- Recursion.Power: requires exponent >= 0. For a negative exponent the source never reaches `exponent == 0` (recursion.py:22-24) and recurses until Python's recursion limit.
- Recursion.Hanoi: requires n >= 1. For n <= 0 the source never reaches `n == 1` and recurses until Python's recursion limit.
- Recursion.HanoiLength: requires n >= 1. For n <= 0 the source never reaches its base case and recurses until Python's recursion limit.
- Recursion.SumDigits: the bounds hold for n >= 0 only. A negative n is returned as is, like the source's `n < 10` branch does.
- Statistics.PercentileBounds: requires 0 <= p <= 100. Outside that range the source extrapolates below the minimum, reads through Python's negative indexing, or indexes past the end.
- Statistics: every function requires a non-empty list. On the empty list the source raises an exception, which is not modelled: ZeroDivisionError in mean and variance (statistics.py:11, 38), ValueError from `max` of no counts in mode (statistics.py:30), and IndexError in median, which reads `sorted_nums[-1]` (statistics.py:22), and in percentile, which reads index -1 or 0 (statistics.py:82, 89).
- Statistics.Percentile: requires 0 <= p <= 100, for the reasons given under PercentileBounds.
- Sorting and searching work on integer lists. The stubs accept any comparable elements.
- The sorting, searching and dynamic-programming algorithms are chosen by this model, since the source's bodies are `pass`. Where the docstring allows memoization or tabulation, the model uses tabulation.
- DynamicProgramming.Knapsack01: requires non-negative weights and weights and values of equal length. Negative capacities are excluded.
- DynamicProgramming.CoinChange: requires positive denominations and a non-negative amount.
- DynamicProgramming.LongestCommonSubsequence and DynamicProgramming.EditDistanceDp fill their tables over suffixes, from the back, rather than over prefixes. The values computed are the same.
- DynamicProgramming.EditDistanceIsFewest: optimality is stated over edit scripts that process str1 from left to right, one operation per position (keep, insert, delete, replace). Scripts that edit the same position several times are not considered.
- Searching: the lists are `seq`s. Searches read them and never write them.
- Sorting.InsertionSort: each insertion is done by adjacent swaps rather than by shifting and writing once.
