/** Prime numbers: Euclid's lemma, Fermat's little theorem, and the two square roots of 1. */
module Primes {
  import opened Arithmetic

  ghost predicate Prime(n: int) {
    n >= 2 && forall d {:trigger n % d} :: 2 <= d < n ==> n % d != 0
  }

  // ---- Euclid's lemma, by Bezout's identity ----

  lemma {:induction false} Bezout(a: nat, b: nat) returns (g: nat, x: int, y: int)
    requires a > 0
    ensures g > 0 && a % g == 0 && b % g == 0
    ensures a * x + b * y == g
    decreases b
  {
    if b == 0 {
      g, x, y := a, 1, 0;
      MultipleModZero(1, a);
    } else {
      var h, u, v := Bezout(b, a % b);
      var q := a / b;
      g, x, y := h, v, u - q * v;
      DividesMultiple(g, b, q);
      assert a == q * b + a % b;
      assert a == (q * b / g + (a % b) / g) * g;
      MultipleModZero(q * b / g + (a % b) / g, g);
      assert a * x + b * y == b * u + (a - q * b) * v;
    }
  }

  lemma EuclidsLemma(p: int, a: int, b: int)
    requires Prime(p) && a >= 0
    requires (a * b) % p == 0
    ensures a % p == 0 || b % p == 0
  {
    if a % p != 0 {
      var g, x, y := Bezout(p, a);
      DividesAtMost(g, p);
      if g == p {
        assert false;
      }
      assert g == 1;
      // b == p*x*b + (a*b)*y, and both terms are multiples of p.
      var k := (a * b) / p;
      assert a * b == k * p;
      assert b == (p * x + a * y) * b;
      assert (p * x + a * y) * b == (x * b) * p + (a * b) * y;
      assert b == (x * b + k * y) * p;
      MultipleModZero(x * b + k * y, p);
    }
  }

  lemma {:induction false} PrimeDividesPower(p: int, b: int, e: nat)
    requires Prime(p) && b >= 0
    requires Pow(b, e) % p == 0
    ensures b % p == 0
  {
    if e == 0 {
      QuotientUnique(1, p, 0, 1);
    } else {
      EuclidsLemma(p, b, Pow(b, e - 1));
      if b % p != 0 {
        PrimeDividesPower(p, b, e - 1);
      }
    }
  }

  /** Every number above 1 has a prime divisor; the least divisor is one. */
  lemma LeastDivisor(n: int) returns (q: int)
    requires n >= 2
    ensures Prime(q) && n % q == 0
    ensures forall d {:trigger n % d} :: 2 <= d < q ==> n % d != 0
    ensures q == n || q * q <= n
  {
    q := 2;
    while n % q != 0
      invariant 2 <= q <= n
      invariant forall d {:trigger n % d} :: 2 <= d < q ==> n % d != 0
      decreases n - q
    {
      if q == n {
        MultipleModZero(1, n);
      }
      q := q + 1;
    }
    LeastDivisorIsPrime(n, q);
    LeastDivisorBelowRoot(n, q);
  }

  ghost predicate IsLeastDivisor(n: int, q: int) {
    2 <= q <= n && n % q == 0 && forall d {:trigger n % d} :: 2 <= d < q ==> n % d != 0
  }

  lemma LeastDivisorIsPrime(n: int, q: int)
    requires IsLeastDivisor(n, q)
    ensures Prime(q)
  {
    forall d {:trigger q % d} | 2 <= d < q
      ensures q % d != 0
    {
      if q % d == 0 {
        DividesTransitive(d, q, n);
      }
    }
  }

  /** The cofactor of the least divisor is 1 or a divisor no smaller than it. */
  lemma LeastDivisorBelowRoot(n: int, q: int)
    requires IsLeastDivisor(n, q)
    ensures q == n || q * q <= n
  {
    var c := n / q;
    assert n == q * c;
    DividesAtMost(q, n);
    if c >= 2 {
      MultipleModZero(q, c);
      assert n % c == 0;
      assert c >= q;
      assert q * c >= q * q;
    }
  }

  // ---- Fermat's little theorem, by rearranging the product of the residues ----

  function Product(s: seq<int>): int {
    if s == [] then 1 else s[0] * Product(s[1..])
  }

  function Factorial(n: nat): int {
    if n == 0 then 1 else n * Factorial(n - 1)
  }

  function Remove(s: seq<int>, i: nat): seq<int>
    requires i < |s|
  {
    s[..i] + s[i + 1..]
  }

  lemma {:induction false} ProductRemove(s: seq<int>, i: nat)
    requires i < |s|
    ensures Product(s) == s[i] * Product(Remove(s, i))
  {
    if i == 0 {
      assert Remove(s, 0) == s[1..];
    } else {
      ProductRemove(s[1..], i - 1);
      assert Remove(s, i)[0] == s[0] && Remove(s, i)[1..] == Remove(s[1..], i - 1);
      var rest := Product(Remove(s[1..], i - 1));
      assert s[0] * (s[i] * rest) == s[i] * (s[0] * rest);
    }
  }

  ghost predicate Distinct(s: seq<int>) {
    forall i, j :: 0 <= i < j < |s| ==> s[i] != s[j]
  }

  lemma {:induction false} DistinctFits(s: seq<int>, n: nat)
    requires Distinct(s)
    requires forall i :: 0 <= i < |s| ==> 1 <= s[i] <= n
    ensures |s| <= n
  {
    assert |s| > 0 ==> 1 <= s[0] <= n;
    if n == 0 {
    } else if i: nat :| i < |s| && s[i] == n {
      DistinctFits(Remove(s, i), n - 1);
    } else {
      DistinctFits(s, n - 1);
    }
  }

  /** n distinct numbers in 1..n are 1..n in some order, so they multiply to n!. */
  lemma {:induction false} PermutationProduct(s: seq<int>, n: nat)
    requires |s| == n && Distinct(s)
    requires forall i :: 0 <= i < |s| ==> 1 <= s[i] <= n
    ensures Product(s) == Factorial(n)
  {
    if n > 0 {
      if i: nat :| i < |s| && s[i] == n {
        ProductRemove(s, i);
        PermutationProduct(Remove(s, i), n - 1);
      } else {
        DistinctFits(s, n - 1);
        assert false;
      }
    }
  }

  /** The residues a*1, a*2, ..., a*k modulo p, last one first. */
  function Residues(a: int, k: nat, p: int): seq<int>
    requires p > 0
  {
    if k == 0 then [] else [(a * k) % p] + Residues(a, k - 1, p)
  }

  lemma {:induction false} ResidueAt(a: int, k: nat, p: int, i: nat)
    requires p > 0 && i < k
    ensures |Residues(a, k, p)| == k && Residues(a, k, p)[i] == (a * (k - i)) % p
  {
    if i > 0 {
      ResidueAt(a, k - 1, p, i - 1);
    } else if k > 1 {
      ResidueAt(a, k - 1, p, 0);
    }
  }

  lemma ResidueInRange(a: int, p: int, i: nat)
    requires Prime(p) && a >= 0 && a % p != 0 && i < p - 1
    ensures |Residues(a, p - 1, p)| == p - 1
    ensures 1 <= Residues(a, p - 1, p)[i] <= p - 1
  {
    ResidueAt(a, p - 1, p, i);
    if (a * (p - 1 - i)) % p == 0 {
      EuclidsLemma(p, a, p - 1 - i);
      DividesAtMost(p, p - 1 - i);
    }
  }

  lemma ResiduesDiffer(a: int, p: int, i: nat, j: nat)
    requires Prime(p) && a >= 0 && a % p != 0 && i < j < p - 1
    ensures (a * (p - 1 - i)) % p != (a * (p - 1 - j)) % p
  {
    if (a * (p - 1 - i)) % p == (a * (p - 1 - j)) % p {
      ModDifference(a * (p - 1 - i), a * (p - 1 - j), p);
      assert a * (p - 1 - i) - a * (p - 1 - j) == a * (j - i);
      EuclidsLemma(p, a, j - i);
      DividesAtMost(p, j - i);
    }
  }

  lemma ResiduesPermute(a: int, p: int)
    requires Prime(p) && a >= 0 && a % p != 0
    ensures |Residues(a, p - 1, p)| == p - 1
    ensures Distinct(Residues(a, p - 1, p))
    ensures var s := Residues(a, p - 1, p); forall i :: 0 <= i < |s| ==> 1 <= s[i] <= p - 1
  {
    var s := Residues(a, p - 1, p);
    ResidueAt(a, p - 1, p, 0);
    forall i | 0 <= i < |s|
      ensures 1 <= s[i] <= p - 1
    {
      ResidueInRange(a, p, i);
    }
    forall i, j | 0 <= i < j < |s|
      ensures s[i] != s[j]
    {
      ResidueAt(a, p - 1, p, i);
      ResidueAt(a, p - 1, p, j);
      ResiduesDiffer(a, p, i, j);
    }
  }

  lemma {:induction false} ResidueProduct(a: int, k: nat, p: int)
    requires p > 0
    ensures Product(Residues(a, k, p)) % p == (Pow(a, k) * Factorial(k)) % p
  {
    if k > 0 {
      ResidueProduct(a, k - 1, p);
      var rest := Product(Residues(a, k - 1, p));
      var want := Pow(a, k - 1) * Factorial(k - 1);
      assert Residues(a, k, p)[1..] == Residues(a, k - 1, p);
      assert Product(Residues(a, k, p)) == ((a * k) % p) * rest;
      ModMultiply(a * k, rest, p);
      ModMultiply(rest, a * k, p);
      ModMultiply(want, a * k, p);
      assert (a * k) * rest == rest * (a * k);
      assert want * (a * k) == Pow(a, k) * Factorial(k) by {
        assert Pow(a, k) * Factorial(k) == (a * Pow(a, k - 1)) * (k * Factorial(k - 1));
        RegroupFour(a, Pow(a, k - 1), k, Factorial(k - 1));
      }
    }
  }

  lemma RegroupFour(a: int, b: int, c: int, d: int)
    ensures (a * b) * (c * d) == (b * d) * (a * c)
  {
    assert (a * b) * (c * d) == a * b * c * d;
    assert (b * d) * (a * c) == a * b * c * d;
  }

  lemma {:induction false} FactorialNotDivisible(p: int, k: nat)
    requires Prime(p) && k < p
    ensures Factorial(k) % p != 0
  {
    if k == 0 {
      QuotientUnique(1, p, 0, 1);
    } else {
      FactorialNotDivisible(p, k - 1);
      if Factorial(k) % p == 0 {
        EuclidsLemma(p, k, Factorial(k - 1));
        DividesAtMost(p, k);
        assert false;
      }
    }
  }

  lemma FermatLittle(p: int, a: int)
    requires Prime(p) && a >= 0 && a % p != 0
    ensures Pow(a, p - 1) % p == 1
  {
    ResiduesPermute(a, p);
    PermutationProduct(Residues(a, p - 1, p), p - 1);
    ResidueProduct(a, p - 1, p);
    FactorialNotDivisible(p, p - 1);
    FactorialPositive(p - 1);
    CancelFactor(p, Factorial(p - 1), Pow(a, p - 1));
  }

  /** A factor that p does not divide cancels: from w*f == f modulo p, w == 1 modulo p. */
  lemma CancelFactor(p: int, f: int, w: int)
    requires Prime(p) && f >= 0 && f % p != 0
    requires f % p == (w * f) % p
    ensures w % p == 1
  {
    ModDifference(w * f, f, p);
    assert w * f - f == f * (w - 1);
    EuclidsLemma(p, f, w - 1);
    QuotientUnique(w, p, (w - 1) / p, 1);
  }

  lemma {:induction false} FactorialPositive(n: nat)
    ensures Factorial(n) >= 1
  {
    if n > 0 {
      FactorialPositive(n - 1);
      assert n * Factorial(n - 1) >= 1 * 1;
    }
  }

  /** Modulo a prime, only 1 and -1 square to 1. */
  lemma SquareRootsOfOne(p: int, x: int)
    requires Prime(p) && 0 <= x < p
    requires (x * x) % p == 1
    ensures x == 1 || x == p - 1
  {
    if x >= 1 {
      assert x * x == (x * x / p) * p + 1;
      assert (x - 1) * (x + 1) == x * x - 1;
      MultipleModZero(x * x / p, p);
      EuclidsLemma(p, x - 1, x + 1);
      if (x - 1) % p == 0 {
        if x > 1 {
          DividesAtMost(p, x - 1);
        }
      } else {
        DividesAtMost(p, x + 1);
      }
    } else {
      assert x * x == 0;
      QuotientUnique(0, p, 0, 0);
    }
  }
}
