/** Facts about integer division and divisibility shared by the number-theory models. */
module Divisibility {
  lemma DivModUnique(x: int, d: int, q: int, r: int)
    requires d > 0 && x == d * q + r && 0 <= r < d
    ensures x / d == q && x % d == r
  {
    MulSign(d, x / d - q);
  }

  lemma MulSign(d: int, k: int)
    requires d > 0
    ensures k >= 1 ==> d * k >= d
    ensures k <= -1 ==> d * k <= -d
  {
  }
  lemma MultipleMod(d: int, k: int)
    requires d > 0
    ensures (d * k) % d == 0
  {
    DivModUnique(d * k, d, k, 0);
  }
  lemma DivisorOfSum(d: int, x: int, y: int)
    requires d > 0 && x % d == 0 && y % d == 0
    ensures (x + y) % d == 0 && (x - y) % d == 0
  {
    DivModUnique(x + y, d, x / d + y / d, 0);
    DivModUnique(x - y, d, x / d - y / d, 0);
  }
  lemma DivisorOfProduct(d: int, n: int, k: int)
    requires d > 0 && n % d == 0
    ensures (n * k) % d == 0
  {
    assert n * k == d * ((n / d) * k);
    DivModUnique(n * k, d, (n / d) * k, 0);
  }
  lemma DivisorTransitive(d: int, e: int, n: int)
    requires d > 0 && e > 0 && e % d == 0 && n % e == 0
    ensures n % d == 0
  {
    assert n == e * (n / e);
    DivisorOfProduct(d, e, n / e);
  }
  lemma DivisorBound(d: int, n: int)
    requires d > 0 && n > 0 && n % d == 0
    ensures d <= n
  {
    assert n == d * (n / d);
    assert n / d >= 1;
  }
  lemma ModSum(x: int, y: int, m: int)
    requires m > 0
    ensures (x % m + y % m) % m == (x + y) % m
  {
    var s := x % m + y % m;
    assert x + y == m * (x / m + y / m) + s;
    DivModUnique(x + y, m, x / m + y / m + s / m, s % m);
  }

  lemma ModIdempotent(x: int, m: int)
    requires m > 0
    ensures (x % m) % m == x % m
  {
    DivModUnique(x % m, m, 0, x % m);
  }

  lemma ModCongruentSum(a: int, b: int, x: int, y: int, m: int)
    requires m > 0 && a % m == x % m && b % m == y % m
    ensures (a + b) % m == (x + y) % m
  {
    ModSum(a, b, m);
    ModSum(x, y, m);
  }
}
