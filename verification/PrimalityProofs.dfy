/** Short proofs that large numbers are prime: a number is prime if it has an element of prime order
    not much smaller than its square root. */
module PrimalityProofs {
  import opened Arithmetic
  import opened Primes

  // ---- Powers modulo a number ----

  lemma {:induction false} PowTimes(b: int, e: nat, f: nat)
    ensures Pow(b, e * f) == Pow(Pow(b, e), f)
  {
    if f > 0 {
      PowTimes(b, e, f - 1);
      assert e * f == e + e * (f - 1);
      PowAdd(b, e, e * (f - 1));
    } else {
      assert e * 0 == 0;
    }
  }

  lemma {:induction false} PowMod(x: int, y: int, e: nat, n: int)
    requires n > 0 && x % n == y % n
    ensures Pow(x, e) % n == Pow(y, e) % n
  {
    if e > 0 {
      PowMod(x, y, e - 1, n);
      ModMultiply(x, Pow(x, e - 1), n);
      ModMultiply(y, Pow(y, e - 1), n);
    }
  }

  lemma {:induction false} OnePow(e: nat)
    ensures Pow(1, e) == 1
  {
    if e > 0 {
      OnePow(e - 1);
    }
  }

  /** A power that is 1 modulo n stays 1 when raised further. */
  lemma PowOfOne(b: int, e: nat, f: nat, n: int)
    requires n > 1 && Pow(b, e) % n == 1
    ensures Pow(b, e * f) % n == 1
  {
    PowTimes(b, e, f);
    QuotientUnique(1, n, 0, 1);
    PowMod(Pow(b, e), 1, f, n);
    OnePow(f);
  }

  /** What holds modulo n holds modulo a divisor of n. */
  lemma ModDivisor(x: int, y: int, n: int, d: int)
    requires n > 0 && d > 0 && n % d == 0 && x % n == y % n
    ensures x % d == y % d
  {
    ModDifference(x, y, n);
    var k := x / n - y / n;
    assert n == n / d * d;
    assert k * (n / d * d) == (k * (n / d)) * d;
    ModEqual(x, y, k * (n / d), d);
  }

  // ---- The criterion ----

  /** If c^u and c^v are 1 and a multiple of u is one more than a multiple of v, then c is 1. */
  lemma CommonOrder(c: int, u: nat, i: nat, v: nat, j: nat, n: int)
    requires n > 1 && Pow(c, u) % n == 1 && Pow(c, v) % n == 1 && u * i == v * j + 1
    ensures c % n == 1
  {
    PowOfOne(c, u, i, n);
    PowOfOne(c, v, j, n);
    PowAdd(c, v * j, 1);
    assert Pow(c, 1) == c * Pow(c, 0);
    ModMultiply(Pow(c, v * j), c, n);
    assert 1 * c == c;
  }

  lemma SumSigns(a: int, x: int, b: int, y: int)
    requires a >= 1 && b >= 1
    ensures x >= 1 && y >= 1 ==> a * x + b * y >= a + b
    ensures x <= 0 && y <= 0 ==> a * x + b * y <= 0
  {
    MultipleReaches(x, a);
    MultipleReaches(y, b);
  }

  lemma GcdIsOne(f: int, m: int, g: int)
    requires Prime(f) && g > 0 && f % g == 0 && m % g == 0 && m % f != 0
    ensures g == 1
  {
    DividesAtMost(g, f);
  }

  /** Fermat makes c^(q-1) be 1; if c^f is 1 as well and f does not divide q - 1, so is c. */
  lemma CoprimeExponents(q: int, c: int, f: int)
    requires Prime(q) && Prime(f) && c >= 0 && c % q != 0
    requires Pow(c, f) % q == 1 && (q - 1) % f != 0
    ensures c % q == 1
  {
    FermatLittle(q, c);
    var g, x, y := Bezout(f, q - 1);
    GcdIsOne(f, q - 1, g);
    SumSigns(f, x, q - 1, y);
    hide Prime, Pow;
    if x >= 1 {
      assert f * x == (q - 1) * (-y) + 1 by {
        assert (q - 1) * (-y) == -((q - 1) * y);
      }
      CommonOrder(c, f, x, q - 1, -y, q);
    } else {
      assert (q - 1) * y == f * (-x) + 1 by {
        assert f * (-x) == -(f * x);
      }
      CommonOrder(c, q - 1, y, f, -x, q);
    }
  }

  lemma ZeroPow(q: int, c: int, f: nat)
    requires q > 1 && f >= 1
    ensures c % q == 0 ==> Pow(c, f) % q == 0
  {
    ModMultiply(c, Pow(c, f - 1), q);
    QuotientUnique(0, q, 0, 0);
  }

  /** Modulo a divisor of n, c keeps its power and its difference from 1. */
  lemma NotOneModDivisor(n: int, q: int, c: int, s: int)
    requires n > 1 && q > 1 && n % q == 0 && ((c - 1) * s) % n == 1
    ensures c % q != 1
  {
    QuotientUnique(1, n, 0, 1);
    QuotientUnique(1, q, 0, 1);
    ModDivisor((c - 1) * s, 1, n, q);
    OneGivesZero(q, c, s);
  }

  lemma OneGivesZero(q: int, c: int, s: int)
    requires q > 1
    ensures c % q == 1 ==> ((c - 1) * s) % q == 0
  {
    if c % q == 1 {
      QuotientUnique(1, q, 0, 1);
      ModDifference(c, 1, q);
      DividesMultiple(q, c - 1, s);
    }
  }

  lemma OneModDivisor(n: int, q: int, x: int)
    requires n > 1 && q > 1 && n % q == 0 && x % n == 1
    ensures x % q == 1
  {
    QuotientUnique(1, n, 0, 1);
    QuotientUnique(1, q, 0, 1);
    ModDivisor(x, 1, n, q);
  }

  lemma LargerSquare(x: int, y: int)
    requires x >= y >= 0
    ensures x * x >= y * y
  {
    assert x * x >= x * y >= y * y;
  }

  /** A number n is prime if f is prime, f + 1 squared exceeds n, and some c has c^f equal to 1 and
      c - 1 invertible modulo n: f then divides q - 1 for the least divisor q of n. */
  lemma PrimeByOrder(n: int, f: int, c: int, s: int)
    requires n >= 2 && Prime(f) && (f + 1) * (f + 1) > n && c >= 1
    requires Pow(c, f) % n == 1 && ((c - 1) * s) % n == 1
    ensures Prime(n)
  {
    var q := LeastDivisor(n);
    OneModDivisor(n, q, Pow(c, f));
    NotOneModDivisor(n, q, c, s);
    ZeroPow(q, c, f);
    hide Pow;
    if (q - 1) % f != 0 {
      CoprimeExponents(q, c, f);
    }
    DividesAtMost(f, q - 1);
    LargerSquare(q, f + 1);
  }

  // ---- Working a power out, two binary digits of the exponent at a time ----

  /** c to the power e is x modulo n. */
  ghost predicate PowerIs(n: int, c: int, e: nat, x: int)
    requires n > 0
  {
    Pow(c, e) % n == x % n
  }

  lemma PowerZero(n: int, c: int)
    requires n > 0
    ensures PowerIs(n, c, 0, 1)
  {
  }

  lemma PowersMultiply(n: int, c: int, e: nat, x: int, f: nat, y: int)
    requires n > 0 && PowerIs(n, c, e, x) && PowerIs(n, c, f, y)
    ensures PowerIs(n, c, e + f, x * y)
  {
    PowAdd(c, e, f);
    ModMultiply(Pow(c, e), Pow(c, f), n);
    ModMultiply(x, y, n);
  }

  /** Pow(c, w) for a base-4 digit w. */
  function DigitPower(c: int, w: nat): int {
    if w == 0 then 1 else if w == 1 then c else if w == 2 then c * c else c * c * c
  }

  lemma DigitPowerIs(n: int, c: int, w: nat)
    requires n > 0 && w < 4
    ensures PowerIs(n, c, w, DigitPower(c, w))
  {
    assert Pow(c, 0) == 1;
    assert Pow(c, 1) == c * Pow(c, 0);
    assert Pow(c, 2) == c * Pow(c, 1);
    assert Pow(c, 3) == c * Pow(c, 2);
    assert c * c * c == c * (c * c);
  }

  /** Reads the next base-4 digit w of the exponent; k is the quotient that goes with the residue y. */
  lemma NextDigit(n: int, c: int, e: nat, x: int, w: nat, k: int, f: nat, y: int)
    requires n > 0 && w < 4 && PowerIs(n, c, e, x)
    requires f == 4 * e + w && x * x * x * x * DigitPower(c, w) == k * n + y
    ensures PowerIs(n, c, f, y)
  {
    PowersMultiply(n, c, e, x, e, x);
    PowersMultiply(n, c, 2 * e, x * x, e, x);
    PowersMultiply(n, c, 3 * e, x * x * x, e, x);
    DigitPowerIs(n, c, w);
    PowersMultiply(n, c, 4 * e, x * x * x * x, w, DigitPower(c, w));
    ModEqual(x * x * x * x * DigitPower(c, w), y, k, n);
  }

  lemma PrimeByPower(n: int, f: int, c: int, s: int)
    requires n >= 2 && Prime(f) && (f + 1) * (f + 1) > n && c >= 1
    requires PowerIs(n, c, f, 1) && ((c - 1) * s) % n == 1
    ensures Prime(n)
  {
    QuotientUnique(1, n, 0, 1);
    PrimeByOrder(n, f, c, s);
  }

  lemma SquareMod(n: int, u: int, v: int)
    requires n > 0 && u % n == v % n
    ensures (u * u) % n == (v * v) % n
  {
    ModMultiply(u, u, n);
    ModMultiply(v, v, n);
  }
}
