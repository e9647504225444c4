/** Division, remainders and powers over the unbounded integers, as Python computes them for
    non-negative operands. Everything rests on two facts: a quotient and remainder are unique,
    and a remainder does not see multiples of the modulus. */
module Arithmetic {

  lemma QuotientUnique(n: int, d: int, q: int, r: int)
    requires 0 <= r < d
    requires n == q * d + r
    ensures n / d == q && n % d == r
  {
    var gap := q - n / d;
    assert gap * d == n % d - r;
    MultipleReaches(gap, d);
  }

  lemma MultipleReaches(k: int, d: int)
    requires d > 0
    ensures k >= 1 ==> k * d >= d
    ensures k <= -1 ==> k * d <= -d
  {
  }

  lemma ModDropsMultiple(x: int, k: int, n: int)
    requires n > 0
    ensures (x + k * n) % n == x % n
  {
    assert x + k * n == (x / n + k) * n + x % n;
    QuotientUnique(x + k * n, n, x / n + k, x % n);
  }

  /** Equal remainders, given the multiple of the modulus by which the numbers differ. */
  lemma ModEqual(x: int, y: int, k: int, n: int)
    requires n > 0 && x == y + k * n
    ensures x % n == y % n
  {
    ModDropsMultiple(y, k, n);
  }

  lemma MultipleModZero(k: int, n: int)
    requires n > 0
    ensures (k * n) % n == 0
  {
    QuotientUnique(k * n, n, k, 0);
  }

  /** Equal remainders mean that the difference is a multiple, with the multiple named. */
  lemma ModDifference(x: int, y: int, n: int)
    requires n > 0 && x % n == y % n
    ensures x - y == (x / n - y / n) * n
    ensures (x - y) % n == 0
  {
    assert (x / n - y / n) * n == (x / n) * n - (y / n) * n;
    MultipleModZero(x / n - y / n, n);
  }

  lemma ModMultiply(x: int, y: int, n: int)
    requires n > 0
    ensures ((x % n) * y) % n == (x * y) % n
    ensures ((x % n) * (y % n)) % n == (x * y) % n
  {
    var q := x / n;
    assert x * y == (x % n) * y + (q * y) * n by {
      assert x == q * n + x % n;
    }
    ModEqual(x * y, (x % n) * y, q * y, n);
    var r, p := x % n, y / n;
    assert r * y == r * (y % n) + (r * p) * n by {
      assert y == p * n + y % n;
    }
    ModEqual(r * y, r * (y % n), r * p, n);
  }

  /** Divisibility survives multiplication and passes through intermediate divisors. */
  lemma DividesMultiple(d: int, n: int, k: int)
    requires d > 0 && n % d == 0
    ensures (n * k) % d == 0
    ensures (k * n) % d == 0
  {
    assert n * k == ((n / d) * k) * d by {
      assert n == (n / d) * d;
    }
    MultipleModZero((n / d) * k, d);
  }

  lemma DividesTransitive(a: int, b: int, c: int)
    requires a > 0 && b > 0 && b % a == 0 && c % b == 0
    ensures c % a == 0
  {
    DividesMultiple(a, b, c / b);
    assert c == b * (c / b);
  }

  lemma DividesAtMost(d: int, n: int)
    requires d > 0 && n > 0 && n % d == 0
    ensures d <= n && 1 <= n / d
  {
    if n < d {
      QuotientUnique(n, d, 0, n);
    }
  }

  function Pow(b: int, e: nat): int {
    if e == 0 then 1 else b * Pow(b, e - 1)
  }

  lemma {:induction false} PowAdd(b: int, e: nat, f: nat)
    ensures Pow(b, e + f) == Pow(b, e) * Pow(b, f)
  {
    if e > 0 {
      PowAdd(b, e - 1, f);
      assert Pow(b, e + f) == b * Pow(b, e - 1 + f);
      assert b * (Pow(b, e - 1) * Pow(b, f)) == (b * Pow(b, e - 1)) * Pow(b, f);
    }
  }

  lemma PowDouble(b: int, e: nat)
    ensures Pow(b, 2 * e) == Pow(b, e) * Pow(b, e)
  {
    PowAdd(b, e, e);
  }

  lemma {:induction false} PowPositive(b: int, e: nat)
    requires b >= 1
    ensures Pow(b, e) >= 1
    ensures e >= 1 ==> Pow(b, e) >= b
  {
    if e > 0 {
      PowPositive(b, e - 1);
      assert b * Pow(b, e - 1) >= b * 1;
    }
  }
}
