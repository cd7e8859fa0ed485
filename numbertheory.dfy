/**
 * The number-theory solutions: trial-division primality, the Sieve of
 * Eratosthenes, Euclid's gcd and the lcm built on it, prime factorisation
 * by repeated division, the perfect-number test that pairs each small
 * divisor with its cofactor, and Fibonacci numbers modulo m.
 *
 * Every loop bound `int(n ** 0.5)` of the source is modelled as the exact
 * integer condition i * i <= n.
 */
module NumberTheory {
  import opened Divisibility
  import Recursion
  import Sorting

  /** A prime has no divisor strictly between 1 and itself. */
  predicate Prime(n: int)
  {
    n >= 2 && forall d :: 2 <= d < n ==> n % d != 0
  }

  // ---------------------------------------------------------------------
  // Arithmetic helpers

  /** Squaring is monotone on the non-negative integers. */
  lemma SquareMonotone(a: int, b: int)
    requires 0 <= a <= b
    ensures a * a <= b * b
  {
    assert a * a <= a * b <= b * b;
  }

  /** A non-negative number whose square is below b * b is below b. */
  lemma SquareBelow(a: int, b: int)
    requires a >= 0 && b >= 0 && a * a < b * b
    ensures a < b
  {
    if a >= b {
      SquareMonotone(b, a);
    }
  }

  /** A composite n has a divisor e >= 2 with e * e <= n, no larger than any given non-trivial divisor. */
  lemma SmallDivisor(n: int, d: int) returns (e: int)
    requires 2 <= d < n && n % d == 0
    ensures 2 <= e <= d && e * e <= n && n % e == 0
  {
    var q := n / d;
    assert n == d * q;
    assert q >= 2 by {
      if q <= 0 {
        MulSign(d, 1 - q);
      }
    }
    if d * d <= n {
      e := d;
    } else {
      assert q < d by {
        if q >= d {
          MulMonotone(d, d, d, q);
        }
      }
      assert q * q <= n by {
        MulMonotone(q, q, q, d);
      }
      assert n % q == 0 by {
        MultipleMod(q, d);
      }
      e := q;
    }
  }


  /** A number with no divisor below i, where i * i > n, is prime. */
  lemma PrimeBySquareRoot(n: int, i: int)
    requires n >= 2 && i >= 2 && i * i > n
    requires forall d :: 2 <= d < i ==> n % d != 0
    ensures Prime(n)
  {
    forall d | 2 <= d < n
      ensures n % d != 0
    {
      if n % d == 0 {
        var e := SmallDivisor(n, d);
        SquareBelow(e, i);
        assert false;
      }
    }
  }

  /** An even number does not divide an odd one. */
  lemma EvenDoesNotDivideOdd(n: int, e: int)
    requires n % 2 == 1 && e > 0 && e % 2 == 0
    ensures n % e != 0
  {
    if n % e == 0 {
      DivisorTransitive(2, e, n);
    }
  }

  // ---------------------------------------------------------------------
  // is_prime

  /**
   * Trial division: rule out n < 2 and even n > 2, then try the odd
   * candidates 3, 5, 7, ... while their square is at most n.
   */
  method IsPrime(n: int) returns (r: bool)
    ensures r <==> Prime(n)
  {
    if n < 2 {
      return false;
    }
    if n == 2 {
      return true;
    }
    if n % 2 == 0 {
      return false;
    }
    var i := 3;
    while i * i <= n
      invariant 3 <= i && i % 2 == 1
      invariant forall d :: 2 <= d < i ==> n % d != 0
    {
      if n % i == 0 {
        MulStrict(1, i, i);
        return false;
      }
      EvenDoesNotDivideOdd(n, i + 1);
      i := i + 2;
    }
    PrimeBySquareRoot(n, i);
    return true;
  }

  /** No even number above 2 is prime. */
  lemma EvenNotPrime(n: int)
    requires n > 2 && n % 2 == 0
    ensures !Prime(n)
  {
  }

  // ---------------------------------------------------------------------
  // sieve_of_eratosthenes

  /** Strictly ascending order. */
  predicate StrictlyIncreasing(s: seq<int>)
  {
    forall a, b :: 0 <= a < b < |s| ==> s[a] < s[b]
  }

  /**
   * What the sieve's flag for k says once every base below i has been
   * processed: k >= 2 and no d in [2, i) with d * d <= k divides k.
   */
  ghost predicate Unmarked(k: int, i: int)
  {
    k >= 2 && forall d :: 2 <= d < i && d * d <= k ==> k % d != 0
  }

  /** Once i * i exceeds k, the flag for k is set exactly when k is prime. */
  lemma UnmarkedIsPrime(k: int, i: int)
    requires i >= 2 && i * i > k
    ensures Unmarked(k, i) <==> Prime(k)
  {
    if Prime(k) {
      forall d | 2 <= d < i && d * d <= k
        ensures k % d != 0
      {
        MulSign(d, d - 1);
      }
    }
    if Unmarked(k, i) {
      forall d | 2 <= d < k
        ensures k % d != 0
      {
        if k % d == 0 {
          var e := SmallDivisor(k, d);
          SquareBelow(e, i);
          assert false;
        }
      }
    }
  }

  /** Multiples of a flagged-off base i are already flagged off by a smaller base. */
  lemma CompositeMultiple(i: int, k: int)
    requires i >= 2 && !Unmarked(i, i) && i * i <= k && k % i == 0
    ensures !Unmarked(k, i)
  {
    var d :| 2 <= d < i && d * d <= i && i % d == 0;
    DivisorTransitive(d, i, k);
    MulSign(i, i);
  }

  /** Between two consecutive multiples of i there is no multiple of i. */
  lemma NextMultiple(i: int, j: int, k: int)
    requires i > 0 && j % i == 0 && j < k < j + i
    ensures k % i != 0
  {
    DivModUnique(k, i, j / i, k - j);
  }

  /**
   * The Sieve of Eratosthenes: a flag per number up to n, cleared for 0
   * and 1; for every base i with i * i <= n whose flag is still set, the
   * flags of i * i, i * i + i, ... are cleared. The numbers whose flags
   * survive are the primes up to n, collected in ascending order.
   */
  method SieveOfEratosthenes(n: int) returns (primes: seq<int>)
    ensures forall p :: p in primes <==> p <= n && Prime(p)
    ensures StrictlyIncreasing(primes)
  {
    if n < 2 {
      return [];
    }
    var flags := new bool[n + 1](_ => true);
    flags[0], flags[1] := false, false;
    var i := 2;
    while i * i <= n
      invariant 2 <= i
      invariant forall k :: 0 <= k <= n ==> (flags[k] <==> Unmarked(k, i))
    {
      MulSign(i, i);
      if flags[i] {
        CrossOffMultiples(flags, i);
      } else {
        forall k | 0 <= k <= n && i * i <= k && k % i == 0
          ensures !Unmarked(k, i)
        {
          CompositeMultiple(i, k);
        }
      }
      i := i + 1;
    }
    forall k | 0 <= k <= n
      ensures flags[k] <==> Prime(k)
    {
      UnmarkedIsPrime(k, i);
    }
    primes := Flagged(flags);
  }

  /** Clears the flags of i * i, i * i + i, i * i + 2 * i, ... up to the end of the array. */
  method CrossOffMultiples(flags: array<bool>, i: int)
    requires 2 <= i && i * i < flags.Length
    requires forall k :: 0 <= k < flags.Length ==> (flags[k] <==> Unmarked(k, i))
    modifies flags
    ensures forall k :: 0 <= k < flags.Length ==> (flags[k] <==> Unmarked(k, i + 1))
  {
    var j := i * i;
    MultipleMod(i, i);
    while j < flags.Length
      invariant i * i <= j && j % i == 0
      invariant forall k :: 0 <= k < flags.Length ==> flags[k] == (old(flags[k]) && !(i * i <= k < j && k % i == 0))
      decreases flags.Length - j
    {
      flags[j] := false;
      forall k | j < k < j + i
        ensures k % i != 0
      {
        NextMultiple(i, j, k);
      }
      DivisorOfSum(i, j, i);
      j := j + i;
    }
    forall k | 0 <= k < flags.Length
      ensures flags[k] <==> Unmarked(k, i + 1)
    {
      UnmarkedStep(k, i);
    }
  }

  /** Processing base i rules out exactly its multiples from i * i on. */
  lemma UnmarkedStep(k: int, i: int)
    requires i >= 2
    ensures Unmarked(k, i + 1) <==> Unmarked(k, i) && !(i * i <= k && k % i == 0)
  {
    if Unmarked(k, i) && !(i * i <= k && k % i == 0) {
      forall d | 2 <= d < i + 1 && d * d <= k
        ensures k % d != 0
      {
        if d == i {
          assert !(i * i <= k && k % i == 0);
        }
      }
    }
  }

  /** The indices whose flag is set, in ascending order. */
  method Flagged(flags: array<bool>) returns (indices: seq<int>)
    ensures forall p :: p in indices <==> 0 <= p < flags.Length && flags[p]
    ensures StrictlyIncreasing(indices)
  {
    indices := [];
    var k := 0;
    while k < flags.Length
      invariant 0 <= k <= flags.Length
      invariant forall p :: p in indices <==> 0 <= p < k && flags[p]
      invariant forall t :: 0 <= t < |indices| ==> indices[t] < k
      invariant StrictlyIncreasing(indices)
    {
      if flags[k] {
        indices := indices + [k];
      }
      k := k + 1;
    }
  }

  // ---------------------------------------------------------------------
  // gcd and lcm

  /** d is a positive common divisor of a and b. */
  predicate CommonDivisor(d: int, a: int, b: int)
  {
    d > 0 && a % d == 0 && b % d == 0
  }

  /** The pair (b, a % b) has the same common divisors as (a, b). */
  lemma EuclidStep(a: int, b: int, d: int)
    requires b > 0 && d > 0
    ensures CommonDivisor(d, a, b) <==> CommonDivisor(d, b, a % b)
  {
    assert a == b * (a / b) + a % b;
    if CommonDivisor(d, a, b) {
      DivisorOfProduct(d, b, a / b);
      DivisorOfSum(d, a, b * (a / b));
    }
    if CommonDivisor(d, b, a % b) {
      DivisorOfProduct(d, b, a / b);
      DivisorOfSum(d, b * (a / b), a % b);
    }
  }

  /** Euclid's recursion gcd(x, 0) = x, gcd(x, y) = gcd(y, x % y), on non-negative arguments. */
  function EuclidGcd(x: int, y: int): int
    requires x >= 0 && y >= 0
    decreases y
  {
    if y == 0 then x else EuclidGcd(y, x % y)
  }

  /** Every common divisor of x and y divides EuclidGcd(x, y). */
  lemma {:induction false} EuclidGcdGreatest(x: int, y: int, d: int)
    requires x >= 0 && y >= 0 && CommonDivisor(d, x, y)
    ensures EuclidGcd(x, y) % d == 0
    decreases y
  {
    if y > 0 {
      EuclidStep(x, y, d);
      EuclidGcdGreatest(y, x % y, d);
    }
  }

  /** For x, y >= 0, not both 0, EuclidGcd(x, y) is a positive common divisor of x and y. */
  lemma {:induction false} EuclidGcdDivides(x: int, y: int)
    requires x >= 0 && y >= 0 && (x > 0 || y > 0)
    ensures CommonDivisor(EuclidGcd(x, y), x, y)
    decreases y
  {
    if y > 0 {
      EuclidGcdDivides(y, x % y);
      EuclidStep(x, y, EuclidGcd(x, y));
    } else {
      MultipleMod(x, 1);
    }
  }

  /** Scaling both arguments by k > 0 scales their gcd by k. */
  lemma {:induction false} EuclidGcdScale(k: int, x: int, y: int)
    requires k > 0 && x >= 0 && y >= 0
    ensures k * x >= 0 && k * y >= 0
    ensures EuclidGcd(k * x, k * y) == k * EuclidGcd(x, y)
    decreases y
  {
    ProductFacts(k, x);
    ProductFacts(k, y);
    if y > 0 {
      ScaledMod(k, x, y);
      EuclidGcdScale(k, y, x % y);
    }
  }

  /** (k * x) % (k * y) = k * (x % y) for k > 0 and y > 0. */
  lemma ScaledMod(k: int, x: int, y: int)
    requires k > 0 && x >= 0 && y > 0
    ensures k * y > 0 && (k * x) % (k * y) == k * (x % y)
  {
    var q, r := x / y, x % y;
    assert k * x == (k * y) * q + k * r by {
      assert x == y * q + r;
    }
    ProductFacts(k, r);
    MulSign(k, y - r);
    assert k * (y - r) == k * y - k * r;
    DivModUnique(k * x, k * y, q, k * r);
  }

  /**
   * Euclid's algorithm on non-negative inputs: repeatedly replace (a, b)
   * by (b, a % b) until b is 0. The result divides both inputs and every
   * common divisor divides it; it is 0 only for gcd(0, 0).
   */
  method Gcd(a: int, b: int) returns (g: int)
    requires a >= 0 && b >= 0
    ensures g >= 0
    ensures g == 0 <==> a == 0 && b == 0
    ensures g > 0 ==> CommonDivisor(g, a, b)
    ensures forall d :: CommonDivisor(d, a, b) ==> g % d == 0
    ensures b == 0 ==> g == a
    ensures g == EuclidGcd(a, b)
  {
    var x, y := a, b;
    while y != 0
      invariant x >= 0 && y >= 0
      invariant EuclidGcd(x, y) == EuclidGcd(a, b)
      invariant x == 0 && y == 0 <==> a == 0 && b == 0
      invariant forall d :: CommonDivisor(d, x, y) <==> CommonDivisor(d, a, b)
      invariant b == 0 ==> x == a && y == 0
      decreases y
    {
      forall d | d > 0
        ensures CommonDivisor(d, x, y) <==> CommonDivisor(d, y, x % y)
      {
        EuclidStep(x, y, d);
      }
      x, y := y, x % y;
    }
    g := x;
    if g > 0 {
      assert CommonDivisor(g, x, y);
    }
  }

  /**
   * lcm(a, b) = |a * b| / gcd(a, b), for non-negative a and b that are not
   * both 0 (gcd(0, 0) = 0 would make the division fail). The result is a
   * common multiple of a and b, 0 exactly when one of them is 0, and no
   * larger than a * b.
   */
  method Lcm(a: int, b: int) returns (l: int)
    requires a >= 0 && b >= 0 && (a != 0 || b != 0)
    ensures l >= 0
    ensures a > 0 ==> l % a == 0
    ensures b > 0 ==> l % b == 0
    ensures l == 0 <==> a == 0 || b == 0
    ensures l <= a * b
    ensures a > 0 && b > 0 ==> forall m :: m > 0 && m % a == 0 && m % b == 0 ==> m % l == 0
  {
    var g := Gcd(a, b);
    var product := if a * b < 0 then -(a * b) else a * b;
    l := product / g;
    LcmFacts(a, b, g, l);
    if a > 0 && b > 0 {
      forall m | m > 0 && m % a == 0 && m % b == 0
        ensures m % l == 0
      {
        LcmLeast(a, b, g, l, m);
      }
    }
  }

  /** Arithmetic behind Lcm: with g a positive common divisor, a * b / g is a common multiple. */
  lemma LcmFacts(a: int, b: int, g: int, l: int)
    requires a >= 0 && b >= 0 && CommonDivisor(g, a, b) && l == (a * b) / g
    ensures l >= 0
    ensures a > 0 ==> l % a == 0
    ensures b > 0 ==> l % b == 0
    ensures l == 0 <==> a == 0 || b == 0
    ensures l <= a * b
  {
    var x, y := Cofactors(a, b, g, l);
    if a > 0 {
      MultipleMod(a, y);
    }
    if b > 0 {
      MultipleMod(b, x);
    }
    ProductFacts(x, b);
    ProductFacts(a, y);
    if a > 0 {
      MulMonotone(a, a, y, b);
    }
  }

  /**
   * a * b / gcd(a, b) divides every positive common multiple m of a and b:
   * a * b divides both m * a and m * b, so it divides their gcd, which is
   * m * gcd(a, b).
   */
  lemma LcmLeast(a: int, b: int, g: int, l: int, m: int)
    requires a > 0 && b > 0 && g == EuclidGcd(a, b) && CommonDivisor(g, a, b) && l == (a * b) / g
    requires m > 0 && m % a == 0 && m % b == 0
    ensures l > 0 && m % l == 0
  {
    var x, y := Cofactors(a, b, g, l);
    ProductFacts(a, b);
    DivisorOfProduct(g, a, b);
    QuotientTimesDivisor(a * b, g);
    ScaledCommonMultiple(a, b, m);
    EuclidGcdScale(m, a, b);
    EuclidGcdGreatest(m * a, m * b, a * b);
    DivideOutFactor(m, g, l, a * b);
  }

  /** (n / d) * d = n when d > 0 divides n. */
  lemma QuotientTimesDivisor(n: int, d: int)
    requires d > 0 && n % d == 0
    ensures (n / d) * d == n
  {
  }

  /** a * b divides m * a and m * b when m is a common multiple of a and b. */
  lemma ScaledCommonMultiple(a: int, b: int, m: int)
    requires a > 0 && b > 0 && m % a == 0 && m % b == 0
    ensures CommonDivisor(a * b, m * a, m * b)
  {
    ProductFacts(a, b);
    assert m * b == (a * b) * (m / a) by {
      assert m == a * (m / a);
    }
    assert m * a == (a * b) * (m / b) by {
      assert m == b * (m / b);
    }
    MultipleMod(a * b, m / a);
    MultipleMod(a * b, m / b);
  }

  /** l * g = n with n dividing m * g gives that l divides m. */
  lemma DivideOutFactor(m: int, g: int, l: int, n: int)
    requires g > 0 && l > 0 && l * g == n && (m * g) % n == 0
    ensures m % l == 0
  {
    var k := (m * g) / n;
    assert g * m == g * (l * k) by {
      assert m * g == n * k;
    }
    CancelFactor(g, m, l * k);
    MultipleMod(l, k);
  }

  /** g * u = g * v with g > 0 gives u = v. */
  lemma CancelFactor(g: int, u: int, v: int)
    requires g > 0 && g * u == g * v
    ensures u == v
  {
    assert g * (u - v) == g * u - g * v;
    MulSign(g, u - v);
  }

  /** (a * b) / g is a / g copies of b and b / g copies of a. */
  lemma Cofactors(a: int, b: int, g: int, l: int) returns (x: int, y: int)
    requires a >= 0 && b >= 0 && CommonDivisor(g, a, b) && l == (a * b) / g
    ensures l == x * b && l == a * y
    ensures 0 <= x && (x == 0 <==> a == 0)
    ensures 0 <= y <= b && (y == 0 <==> b == 0)
  {
    x, y := a / g, b / g;
    assert a == g * x && b == g * y;
    assert a * b == g * (x * b) && a * b == g * (a * y);
    DivModUnique(a * b, g, x * b, 0);
    if y > 0 {
      MulSign(y, g);
    }
  }

  /** A product of two non-negative numbers is non-negative, and zero exactly when a factor is. */
  lemma ProductFacts(p: int, q: int)
    requires p >= 0 && q >= 0
    ensures p * q >= 0 && (p * q == 0 <==> p == 0 || q == 0)
  {
    if p > 0 && q > 0 {
      MulSign(p, q);
    }
  }

  // ---------------------------------------------------------------------
  // prime_factorization

  /** A divisor d >= 2 of m that no smaller number >= 2 divides m by is prime. */
  lemma SmallestDivisorIsPrime(m: int, d: int)
    requires m >= 1 && d >= 2 && m % d == 0
    requires forall p :: 2 <= p < d ==> m % p != 0
    ensures Prime(d)
  {
    forall p | 2 <= p < d
      ensures d % p != 0
    {
      if d % p == 0 {
        DivisorTransitive(p, d, m);
      }
    }
  }

  /** Dividing out a factor d >= 2: the quotient is smaller, keeps the product, and has no new small divisors. */
  lemma DivideOut(m: int, d: int, product: int, n: int)
    requires m >= 1 && d >= 2 && m % d == 0 && product * m == n
    requires forall p :: 2 <= p < d ==> m % p != 0
    ensures 1 <= m / d < m
    ensures (product * d) * (m / d) == n
    ensures forall p :: 2 <= p < d ==> (m / d) % p != 0
  {
    var q := m / d;
    assert m == d * q;
    assert 1 <= q < m by {
      MulSign(d, q);
      MulSign(q, d - 1);
    }
    assert (product * d) * q == n by {
      assert (product * d) * q == product * (d * q);
    }
    QuotientDivisors(m, d, q);
  }

  /** A divisor of m / d divides m, so m / d has no divisor that m lacks. */
  lemma QuotientDivisors(m: int, d: int, q: int)
    requires d >= 2 && m == d * q
    requires forall p :: 2 <= p < d ==> m % p != 0
    ensures forall p :: 2 <= p < d ==> q % p != 0
  {
    forall p | 2 <= p < d
      ensures q % p != 0
    {
      FactorDivisor(p, q, d, m);
    }
  }

  /** A divisor of the factor q of m = d * q divides m. */
  lemma FactorDivisor(p: int, q: int, d: int, m: int)
    requires p > 0 && m == d * q
    ensures q % p == 0 ==> m % p == 0
  {
    if q % p == 0 {
      DivisorOfProduct(p, q, d);
      assert m == q * d;
    }
  }



  /**
   * Factorisation by trial division: divide out each d = 2, 3, 4, ... as
   * often as it divides, while d * d is at most what remains; a remainder
   * above 1 is the last prime factor. For n >= 1 the factors are primes
   * in ascending order whose product is n; for n <= 1 there are none.
   */
  method PrimeFactorization(n: int) returns (factors: seq<int>)
    ensures n >= 1 ==> Recursion.Product(factors) == n
    ensures n <= 1 ==> factors == []
    ensures forall k :: 0 <= k < |factors| ==> Prime(factors[k])
    ensures Sorting.Sorted(factors)
  {
    factors := [];
    var m := n;
    var d := 2;
    while d * d <= m
      invariant d >= 2
      invariant n <= 1 ==> factors == [] && m == n
      invariant n > 1 ==> m >= 1
      invariant Recursion.Product(factors) * m == n
      invariant forall k :: 0 <= k < |factors| ==> Prime(factors[k]) && factors[k] < d
      invariant Sorting.Sorted(factors)
      invariant forall p :: 2 <= p < d ==> m % p != 0
      decreases m - d
    {
      MulSign(d, d);
      while m % d == 0
        invariant 1 <= m
        invariant n > 1
        invariant Recursion.Product(factors) * m == n
        invariant forall k :: 0 <= k < |factors| ==> Prime(factors[k]) && factors[k] <= d
        invariant Sorting.Sorted(factors)
        invariant forall p :: 2 <= p < d ==> m % p != 0
        decreases m
      {
        SmallestDivisorIsPrime(m, d);
        DivideOut(m, d, Recursion.Product(factors), n);
        AppendProduct(factors, d);
        factors := factors + [d];
        m := m / d;
      }
      d := d + 1;
    }
    if m > 1 {
      PrimeBySquareRoot(m, d);
      MultipleMod(m, 1);
      AppendProduct(factors, m);
      factors := factors + [m];
    }
  }

  /** Appending x multiplies the product by x. */
  lemma AppendProduct(s: seq<int>, x: int)
    ensures Recursion.Product(s + [x]) == Recursion.Product(s) * x
  {
    assert (s + [x])[..|s|] == s;
  }

  // ---------------------------------------------------------------------
  // is_perfect_number

  /** The divisors of n below n. */
  function ProperDivisors(n: int): set<int>
  {
    set d | 1 <= d < n && n % d == 0
  }

  /** The sum of the members of s in [0, hi). */
  function SumBelow(s: set<int>, hi: int): int
    decreases hi
  {
    if hi <= 0 then 0 else SumBelow(s, hi - 1) + (if hi - 1 in s then hi - 1 else 0)
  }

  /** The sum of the proper divisors of n. */
  function ProperDivisorSum(n: int): int
  {
    SumBelow(ProperDivisors(n), n)
  }

  /** The empty set sums to 0. */
  lemma {:induction false} SumBelowEmpty(hi: int)
    ensures SumBelow({}, hi) == 0
    decreases hi
  {
    if hi > 0 {
      SumBelowEmpty(hi - 1);
    }
  }

  /** Adding a new member in range adds it to the sum. */
  lemma {:induction false} SumBelowInsert(s: set<int>, x: int, hi: int)
    requires x !in s && 0 <= x < hi
    ensures SumBelow(s + {x}, hi) == SumBelow(s, hi) + x
    decreases hi
  {
    if x < hi - 1 {
      SumBelowInsert(s, x, hi - 1);
    } else {
      SumBelowSame(s, s + {x}, hi - 1);
    }
  }

  /** Sets that agree below hi have the same sum below hi. */
  lemma {:induction false} SumBelowSame(s: set<int>, t: set<int>, hi: int)
    requires forall k :: 0 <= k < hi ==> (k in s <==> k in t)
    ensures SumBelow(s, hi) == SumBelow(t, hi)
    decreases hi
  {
    if hi > 0 {
      SumBelowSame(s, t, hi - 1);
    }
  }

  /**
   * e is one of the divisors the perfect-number loop has summed before
   * candidate i: 1, a divisor in [2, i), or the cofactor n / d of such a
   * divisor d that differs from d.
   */
  ghost predicate Summed(n: int, i: int, e: int)
  {
    e == 1 || (2 <= e < i && n % e == 0) || (e >= 1 && n % e == 0 && 2 <= n / e < i && n / e != e)
  }

  /** The set of divisors summed before candidate i. */
  ghost function PairedDivisors(n: int, i: int): set<int>
  {
    set e | 1 <= e <= n && Summed(n, i, e)
  }

  /**
   * The perfect-number test: start from the divisor 1 and, for every
   * divisor i with i * i <= n, add i and its cofactor n / i, the latter
   * only when it differs from i. n is perfect when the sum is n itself.
   */
  method IsPerfectNumber(n: int) returns (r: bool)
    ensures r <==> n >= 2 && ProperDivisorSum(n) == n
  {
    if n < 2 {
      return false;
    }
    var sum := 1;
    ghost var found: set<int> := {1};
    SumBelowEmpty(n);
    SumBelowInsert({}, 1, n);
    assert {} + {1} == found;
    assert found == PairedDivisors(n, 2);
    var i := 2;
    while i * i <= n
      invariant 2 <= i && (i - 1) * (i - 1) <= n
      invariant found == PairedDivisors(n, i)
      invariant sum == SumBelow(found, n)
    {
      PairedDivisorsStep(n, i);
      if n % i == 0 {
        var q := n / i;
        PairFresh(n, i);
        SumBelowInsert(found, i, n);
        sum, found := sum + i, found + {i};
        if i != q {
          SumBelowInsert(found, q, n);
          sum, found := sum + q, found + {q};
        }
      }
      i := i + 1;
    }
    PairedDivisorsComplete(n, i);
    return sum == n;
  }

  /** a < b scales to a * c < b * c for positive c. */
  lemma MulStrict(a: int, b: int, c: int)
    requires a < b && c > 0
    ensures a * c < b * c
  {
    MulSign(c, b - a);
  }

  /** Products of non-negative numbers are monotone in both factors. */
  lemma MulMonotone(a: int, b: int, c: int, d: int)
    requires 0 <= a <= b && 0 <= c <= d
    ensures a * c <= b * d
  {
    assert a * c <= b * c <= b * d;
  }

  /** For a divisor i with i * i <= n, the cofactor n / i is at least i and is a divisor below n. */
  lemma CofactorOfCandidate(n: int, i: int)
    requires 2 <= i && i * i <= n && n % i == 0
    ensures i <= n / i < n && n % (n / i) == 0 && n / (n / i) == i
  {
    var q := n / i;
    assert n == i * q;
    if q < i {
      MulSign(i, q);
      MulStrict(q, i, i);
    }
    MulSign(q, i - 1);
    MultipleMod(q, i);
    DivModUnique(n, q, i, 0);
  }

  /** Candidate i and, when it differs, its cofactor n / i have not been summed yet. */
  lemma PairFresh(n: int, i: int)
    requires 2 <= i && i * i <= n && n % i == 0
    ensures i < n && i !in PairedDivisors(n, i)
    ensures 0 <= n / i < n && (i != n / i ==> n / i !in PairedDivisors(n, i) + {i})
  {
    CofactorOfCandidate(n, i);
  }

  /** Summing candidate i adds i, and its cofactor when that differs from i. */
  lemma SummedStep(n: int, i: int, e: int)
    requires 2 <= i && i * i <= n
    ensures Summed(n, i + 1, e) <==>
      Summed(n, i, e) || (n % i == 0 && (e == i || (i != n / i && e == n / i)))
  {
    if e >= 1 && n % e == 0 && n / e == i {
      var q := n / e;
      assert n == e * q;
      MultipleMod(i, e);
      DivModUnique(n, i, e, 0);
    }
    if n % i == 0 && e == n / i {
      CofactorOfCandidate(n, i);
    }
  }

  /** Processing candidate i extends the summed divisors by i and its cofactor when i divides n. */
  lemma PairedDivisorsStep(n: int, i: int)
    requires 2 <= i && i * i <= n
    ensures PairedDivisors(n, i + 1) ==
      PairedDivisors(n, i) + (if n % i == 0 then {i} + (if i != n / i then {n / i} else {}) else {})
  {
    forall e
      ensures Summed(n, i + 1, e) <==>
        Summed(n, i, e) || (n % i == 0 && (e == i || (i != n / i && e == n / i)))
    {
      SummedStep(n, i, e);
    }
    if n % i == 0 {
      CofactorOfCandidate(n, i);
      MulSign(i, i - 1);
    }
  }

  /** A divisor summed as a small candidate is a proper divisor. */
  lemma SmallIsProper(n: int, i: int, e: int)
    requires 2 <= e < i && (i - 1) * (i - 1) <= n
    ensures e < n
  {
    SquareMonotone(e, i - 1);
    MulSign(e, e - 1);
  }

  /** A divisor e whose cofactor is at least 2 is below n. */
  lemma CofactorIsProper(n: int, e: int)
    requires e >= 1 && n % e == 0 && n / e >= 2
    ensures e < n
  {
    var q := n / e;
    assert n == e * q;
    MulSign(e, q - 1);
  }

  /** A proper divisor e >= i, where i * i > n, is the cofactor of a small divisor that differs from it. */
  lemma LargeIsCofactor(n: int, i: int, e: int)
    requires 2 <= i <= e < n && n % e == 0 && n < i * i
    ensures 2 <= n / e < i && n / e != e
  {
    var q := n / e;
    assert n == e * q;
    MulSign(e, q);
    if q >= i {
      MulMonotone(i, e, i, q);
    }
    if q == e {
      MulMonotone(i, e, i, e);
    }
  }

  /** Once i * i exceeds n, the summed divisors are exactly the proper divisors. */
  lemma PairedDivisorsComplete(n: int, i: int)
    requires n >= 2 && i >= 2 && (i - 1) * (i - 1) <= n < i * i
    ensures PairedDivisors(n, i) == ProperDivisors(n)
  {
    forall e | e in PairedDivisors(n, i)
      ensures e in ProperDivisors(n)
    {
      if 2 <= e < i && n % e == 0 {
        SmallIsProper(n, i, e);
      } else if e != 1 {
        CofactorIsProper(n, e);
      }
    }
    forall e | e in ProperDivisors(n)
      ensures e in PairedDivisors(n, i)
    {
      if e >= i {
        LargeIsCofactor(n, i, e);
      }
    }
  }

  // ---------------------------------------------------------------------
  // nth_fibonacci_modulo

  /**
   * Fibonacci modulo m by iterating the pair (F(k - 1) mod m, F(k) mod m).
   * Indices 0 and 1 return n itself without reduction, as the source does.
   */
  method NthFibonacciModulo(n: int, m: int) returns (r: int)
    requires n <= 1 || m > 0
    ensures n <= 1 ==> r == n
    ensures n >= 2 ==> r == Recursion.Fibonacci(n) % m
  {
    if n <= 1 {
      return n;
    }
    var a, b := 0, 1;
    var k := 2;
    while k <= n
      invariant 2 <= k <= n + 1
      invariant a % m == Recursion.Fibonacci(k - 2) % m
      invariant b % m == Recursion.Fibonacci(k - 1) % m
      invariant k > 2 ==> 0 <= b < m
    {
      FibonacciModStep(a, b, m, k);
      a, b := b, (a + b) % m;
      k := k + 1;
    }
    DivModUnique(b, m, 0, b);
    r := b;
  }

  /** The residues of F(k - 2) and F(k - 1) determine the residue of F(k). */
  lemma FibonacciModStep(a: int, b: int, m: int, k: int)
    requires m > 0 && k >= 2
    requires a % m == Recursion.Fibonacci(k - 2) % m
    requires b % m == Recursion.Fibonacci(k - 1) % m
    ensures ((a + b) % m) % m == Recursion.Fibonacci(k) % m
  {
    var x, y := Recursion.Fibonacci(k - 2), Recursion.Fibonacci(k - 1);
    assert Recursion.Fibonacci(k) == x + y;
    ModCongruentSum(a, b, x, y, m);
    ModIdempotent(a + b, m);
  }

  // ---------------------------------------------------------------------
  // Worked examples

  /** The exercise's gcd examples, which Gcd returns since its result is EuclidGcd. */
  lemma GcdExamples()
    ensures EuclidGcd(48, 18) == 6 && EuclidGcd(100, 35) == 5 && EuclidGcd(17, 19) == 1
  {
  }

  /**
   * The exercise's lcm examples: a value meeting Lcm's contract for (12, 18)
   * is 36, and one meeting it for (4, 5) is 20.
   */
  lemma LcmExamples(l: int, k: int)
    requires l > 0 && l % 12 == 0 && l % 18 == 0
    requires forall m :: m > 0 && m % 12 == 0 && m % 18 == 0 ==> m % l == 0
    requires k > 0 && k % 4 == 0 && k % 5 == 0
    requires forall m :: m > 0 && m % 4 == 0 && m % 5 == 0 ==> m % k == 0
    ensures l == 36 && k == 20
  {
    assert 36 % l == 0;
    DivisorBound(l, 36);
    LcmLeast(12, 18, 6, 36, l);
    DivisorBound(36, l);
    assert 20 % k == 0;
    DivisorBound(k, 20);
    LcmLeast(4, 5, 1, 20, k);
    DivisorBound(20, k);
  }

  /** 6 is perfect: its proper divisors 1, 2 and 3 sum to 6. */
  lemma SixIsPerfect()
    ensures ProperDivisors(6) == {1, 2, 3}
    ensures ProperDivisorSum(6) == 6
  {
    var s := {1, 2, 3};
    assert SumBelow(s, 0) == 0;
    assert SumBelow(s, 2) == 1;
    assert SumBelow(s, 4) == 6;
    assert SumBelow(s, 6) == 6;
  }

  /** 12 is not perfect: its proper divisors sum to 16. */
  lemma TwelveIsNotPerfect()
    ensures ProperDivisorSum(12) == 16
  {
    var s := {1, 2, 3, 4, 6};
    assert ProperDivisors(12) == s;
    assert SumBelow(s, 0) == 0;
    assert SumBelow(s, 2) == 1;
    assert SumBelow(s, 4) == 6;
    assert SumBelow(s, 6) == 10;
    assert SumBelow(s, 8) == 16;
    assert SumBelow(s, 10) == 16;
    assert SumBelow(s, 12) == 16;
  }
}
