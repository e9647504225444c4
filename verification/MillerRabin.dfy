/** The fixed-base Miller-Rabin test shared by the certificate checkers. */
module MillerRabin {
  import opened Arithmetic
  import opened Primes
  import opened PrimalityProofs

  const WITNESSES: seq<int> := [2, 3, 5, 7, 11, 13, 17, 19, 23, 29, 31, 37]

  /** n - 1 is the odd number d times 2 to the r. */
  ghost predicate Splits(n: int, d: nat, r: nat) {
    d % 2 == 1 && n - 1 == d * Pow(2, r)
  }

  /** a to the power d * 2^j, modulo n. */
  function Squared(a: int, d: nat, j: nat, n: int): int
    requires n > 0
  {
    PowPositive(2, j);
    Pow(a, d * Pow(2, j)) % n
  }

  ghost predicate StrongProbablePrime(n: int, a: int)
    requires n > 0
  {
    exists d: nat, r: nat :: Splits(n, d, r) && PassesBase(n, a, d, r)
  }

  ghost predicate PassesBase(n: int, a: int, d: nat, r: nat)
    requires n > 0
  {
    Squared(a, d, 0, n) == 1 || exists j: nat :: j < r && Squared(a, d, j, n) == n - 1
  }

  /** What the test decides, said without its loops. */
  ghost predicate Passes(n: int) {
    && n >= 2
    && (n in WITNESSES ||
        forall a :: a in WITNESSES ==> n % a != 0 && StrongProbablePrime(n, a))
  }

  lemma {:induction false} SplitUnique(n: int, d: nat, r: nat, d': nat, r': nat)
    requires Splits(n, d, r) && Splits(n, d', r')
    ensures d == d' && r == r'
    decreases r
  {
    if r > 0 {
      SplitEven(n, d, r);
    }
    if r' > 0 {
      SplitEven(n, d', r');
    }
    if r > 0 && r' > 0 {
      SplitUnique((n - 1) / 2 + 1, d, r - 1, d', r' - 1);
    } else {
      assert Pow(2, 0) == 1;
    }
  }

  lemma SplitEven(n: int, d: nat, r: nat)
    requires Splits(n, d, r) && r > 0
    ensures (n - 1) % 2 == 0 && Splits((n - 1) / 2 + 1, d, r - 1)
  {
    var m := d * Pow(2, r - 1);
    assert d * (2 * Pow(2, r - 1)) == m * 2;
    QuotientUnique(n - 1, 2, m, 0);
  }

  lemma OneSplitDecides(n: int, a: int, d: nat, r: nat)
    requires n > 0 && Splits(n, d, r)
    ensures StrongProbablePrime(n, a) <==> PassesBase(n, a, d, r)
  {
    forall d': nat, r': nat | Splits(n, d', r')
      ensures PassesBase(n, a, d', r') <==> PassesBase(n, a, d, r)
    {
      SplitUnique(n, d, r, d', r');
    }
  }

  lemma SquaredNext(a: int, d: nat, j: nat, n: int)
    requires n > 0
    ensures Squared(a, d, j + 1, n) == (Squared(a, d, j, n) * Squared(a, d, j, n)) % n
  {
    PowPositive(2, j);
    var e := d * Pow(2, j);
    assert d * Pow(2, j + 1) == 2 * e by {
      assert d * (2 * Pow(2, j)) == 2 * (d * Pow(2, j));
    }
    PowDouble(a, e);
    ModMultiply(Pow(a, e), Pow(a, e), n);
  }

  // ---- The witnesses are the primes below 41 ----

  lemma WitnessPrime(p: int)
    requires p in WITNESSES
    ensures Prime(p)
  {
    // A composite below 49 has a divisor among 2, 3 and 5.
    var q := LeastDivisor(p);
    assert q == 2 || q % 2 != 0;
    SquareBelow(q, 7);
  }

  lemma SquareBelow(q: int, bound: int)
    requires q >= 0 && bound >= 0
    ensures q * q < bound * bound ==> q < bound
  {
    if q >= bound {
      assert q * q >= q * bound >= bound * bound;
    }
  }

  lemma SmallPrimeIsWitness(q: int)
    requires Prime(q) && q < 41
    ensures q in WITNESSES
  {
    assert q == 2 || q % 2 != 0;
    assert q <= 3 || q % 3 != 0;
    assert q <= 5 || q % 5 != 0;
  }

  /** A witness divides only itself among the witnesses. */
  lemma WitnessDivides(n: int, p: int)
    requires n >= 2 && p in WITNESSES && n % p == 0
    ensures n in WITNESSES <==> n == p
    ensures Prime(n) ==> n == p
  {
    if n in WITNESSES {
      WitnessPrime(n);
    }
    DividesAtMost(p, n);
  }

  // ---- The test itself ----

  method IsPrime(n: int) returns (b: bool)
    ensures b <==> Passes(n)
  {
    if n < 2 {
      return false;
    }
    for i := 0 to |WITNESSES|
      invariant forall k :: 0 <= k < i ==> n % WITNESSES[k] != 0
    {
      if n % WITNESSES[i] == 0 {
        WitnessDivides(n, WITNESSES[i]);
        return n == WITNESSES[i];
      }
    }
    assert n % WITNESSES[0] != 0;
    b := PassesAll(n);
    hide StrongProbablePrime;
    assert b <==> Passes(n);
  }

  /** The loop over the bases. */
  method PassesAll(n: int) returns (b: bool)
    requires n >= 3 && n % 2 == 1
    ensures b <==> forall a :: a in WITNESSES ==> StrongProbablePrime(n, a)
  {
    hide StrongProbablePrime, PassesBase;
    var d, r := OddPart(n);
    for i := 0 to |WITNESSES|
      invariant forall k :: 0 <= k < i ==> StrongProbablePrime(n, WITNESSES[k])
    {
      OneSplitDecides(n, WITNESSES[i], d, r);
      var ok := TryBase(n, WITNESSES[i], d, r);
      if !ok {
        return false;
      }
    }
    return true;
  }

  /** The loop that halves d and counts r. */
  method OddPart(n: int) returns (d: nat, r: nat)
    requires n >= 3 && n % 2 == 1
    ensures Splits(n, d, r) && r >= 1
  {
    d, r := n - 1, 0;
    while d % 2 == 0
      invariant d > 0 && n - 1 == d * Pow(2, r)
      invariant r == 0 ==> d == n - 1
      decreases d
    {
      var half := d / 2;
      assert (2 * half) * Pow(2, r) == half * (2 * Pow(2, r));
      d, r := half, r + 1;
    }
  }

  /** The body of the loop over the bases: a modular power, then at most r - 1 squarings. */
  method TryBase(n: int, a: int, d: nat, r: nat) returns (ok: bool)
    requires n > 1 && r >= 1
    ensures ok <==> PassesBase(n, a, d, r)
  {
    var x := Pow(a, d) % n;
    assert d * Pow(2, 0) == d;
    assert x == Squared(a, d, 0, n);
    if x == 1 || x == n - 1 {
      return true;
    }
    for j := 0 to r - 1
      invariant x == Squared(a, d, j, n)
      invariant forall k: nat :: k <= j ==> Squared(a, d, k, n) != n - 1
    {
      SquaredNext(a, d, j, n);
      x := (x * x) % n;
      if x == n - 1 {
        return true;
      }
    }
    return false;
  }

  // ---- Primes are never rejected ----

  lemma {:induction false} SplitExists(m: int) returns (d: nat, r: nat)
    requires m >= 1
    ensures Splits(m + 1, d, r)
    ensures m % 2 == 0 ==> r >= 1
    decreases m
  {
    if m % 2 == 1 {
      d, r := m, 0;
    } else {
      d, r := SplitExists(m / 2);
      assert m == 2 * (d * Pow(2, r)) == d * Pow(2, r + 1);
      r := r + 1;
    }
  }

  /** If the j-th square is 1 and none before it is -1, then every one before it is 1. */
  lemma {:induction false} BackToOne(n: int, a: int, d: nat, j: nat)
    requires Prime(n) && Squared(a, d, j, n) == 1
    requires forall k: nat :: k < j ==> Squared(a, d, k, n) != n - 1
    ensures Squared(a, d, 0, n) == 1
  {
    if j > 0 {
      SquaredNext(a, d, j - 1, n);
      SquareRootsOfOne(n, Squared(a, d, j - 1, n));
      BackToOne(n, a, d, j - 1);
    }
  }

  lemma PrimeIsStrongProbable(n: int, a: int)
    requires Prime(n) && a >= 0 && a % n != 0
    ensures StrongProbablePrime(n, a)
  {
    var d, r := SplitExists(n - 1);
    FermatLittle(n, a);
    assert Squared(a, d, r, n) == 1;
    if forall k: nat :: k < r ==> Squared(a, d, k, n) != n - 1 {
      BackToOne(n, a, d, r);
    }
    assert PassesBase(n, a, d, r);
  }

  /** Every prime is accepted, so a number from 2 upwards that is rejected is composite. */
  lemma PrimePasses(n: int)
    requires Prime(n)
    ensures Passes(n)
  {
    if n !in WITNESSES {
      forall a | a in WITNESSES
        ensures n % a != 0 && StrongProbablePrime(n, a)
      {
        if n % a == 0 {
          WitnessDivides(n, a);
        }
        WitnessPrime(a);
        if a % n == 0 {
          DividesAtMost(n, a);
        }
        PrimeIsStrongProbable(n, a);
      }
    }
  }

  lemma PrimeWithoutWitness(n: int)
    requires 2 <= n < 41 * 41 && forall a :: a in WITNESSES ==> n % a != 0
    ensures Prime(n)
  {
    var q := LeastDivisor(n);
    SquareBelow(q, 41);
    if q != n {
      SmallPrimeIsWitness(q);
    }
  }

  /** Below 41 squared the trial division alone decides, so there the test is exact. */
  lemma ExactBelowSquareOf41(n: int)
    requires n < 41 * 41
    ensures Passes(n) <==> Prime(n)
  {
    if Prime(n) {
      PrimePasses(n);
    } else if n >= 2 {
      if n in WITNESSES {
        WitnessPrime(n);
      }
      var q := LeastDivisor(n);
      SquareBelow(q, 41);
      SmallPrimeIsWitness(q);
    }
  }

  // ---- Exactly what the test demands ----

  /** The only square roots of 1 among the powers met when n - 1 is halved are 1 and -1. */
  ghost predicate TrivialRoots(n: int, a: int)
    requires n > 0
  {
    forall e: nat, k: nat :: k >= 1 && n - 1 == e * Pow(2, k) && Pow(a, 2 * e) % n == 1 ==>
      Pow(a, e) % n == 1 || Pow(a, e) % n == n - 1
  }

  /** Halving n - 1 comes to d * 2^m and nothing else. */
  lemma HalvingOf(n: int, d: nat, r: nat, e: nat, k: nat) returns (m: nat)
    requires n > 1 && Splits(n, d, r) && n - 1 == e * Pow(2, k)
    ensures m + k == r && e == d * Pow(2, m)
  {
    assert e >= 1;
    var d';
    d', m := SplitExists(e);
    PowAdd(2, m, k);
    assert n - 1 == d' * Pow(2, m + k) by {
      assert (d' * Pow(2, m)) * Pow(2, k) == d' * (Pow(2, m) * Pow(2, k));
    }
    SplitUnique(n, d, r, d', m + k);
  }

  lemma MinusOneSquared(n: int)
    requires n > 1
    ensures ((n - 1) * (n - 1)) % n == 1
  {
    assert (n - 1) * (n - 1) == (n - 2) * n + 1;
    QuotientUnique((n - 1) * (n - 1), n, n - 2, 1);
  }

  lemma {:induction false} StaysOne(n: int, a: int, d: nat, i: nat, j: nat)
    requires n > 1 && Squared(a, d, i, n) == 1 && i <= j
    ensures Squared(a, d, j, n) == 1
    decreases j
  {
    if i < j {
      StaysOne(n, a, d, i, j - 1);
      SquaredNext(a, d, j - 1, n);
      QuotientUnique(1, n, 0, 1);
    }
  }

  /** Among the repeated squares, from the last back to the first, 1 comes only from 1 or -1. */
  ghost predicate ComesFromUnits(n: int, a: int, d: nat, r: nat)
    requires n > 0
  {
    forall m: nat :: m < r && Squared(a, d, m + 1, n) == 1 ==> Squared(a, d, m, n) == 1 || Squared(a, d, m, n) == n - 1
  }

  lemma PassesBaseIff(n: int, a: int, d: nat, r: nat)
    requires n > 2
    ensures PassesBase(n, a, d, r) <==> Squared(a, d, r, n) == 1 && ComesFromUnits(n, a, d, r)
  {
    if Squared(a, d, 0, n) == 1 {
      forall m: nat
        ensures Squared(a, d, m, n) == 1
      {
        StaysOne(n, a, d, 0, m);
      }
    } else if j: nat :| j < r && Squared(a, d, j, n) == n - 1 {
      OneAfterMinusOne(n, a, d, j);
      assert Squared(a, d, r, n) == 1;
      forall m: nat | m < r && Squared(a, d, m + 1, n) == 1
        ensures Squared(a, d, m, n) == 1 || Squared(a, d, m, n) == n - 1
      {
        if m < j {
          StaysOne(n, a, d, m + 1, j);
        }
      }
    } else if Squared(a, d, r, n) == 1 && ComesFromUnits(n, a, d, r) {
      DownToFirst(n, a, d, r);
    }
  }

  lemma OneAfterMinusOne(n: int, a: int, d: nat, j: nat)
    requires n > 2 && Squared(a, d, j, n) == n - 1
    ensures forall m: nat :: j < m ==> Squared(a, d, m, n) == 1
  {
    SquaredNext(a, d, j, n);
    MinusOneSquared(n);
    forall m: nat | j < m
      ensures Squared(a, d, m, n) == 1
    {
      StaysOne(n, a, d, j + 1, m);
    }
  }

  lemma {:induction false} DownToFirst(n: int, a: int, d: nat, r: nat)
    requires n > 2 && Squared(a, d, r, n) == 1 && ComesFromUnits(n, a, d, r)
    ensures Squared(a, d, 0, n) == 1 || exists j: nat :: j < r && Squared(a, d, j, n) == n - 1
  {
    if r > 0 && Squared(a, d, r - 1, n) == 1 {
      DownToFirst(n, a, d, r - 1);
    }
  }

  lemma SquaredIs(a: int, d: nat, m: nat, n: int)
    requires n > 0
    ensures d * Pow(2, m) >= 0
    ensures Squared(a, d, m, n) == Pow(a, d * Pow(2, m)) % n
    ensures Squared(a, d, m + 1, n) == Pow(a, 2 * (d * Pow(2, m))) % n
  {
    PowPositive(2, m);
    assert d * (2 * Pow(2, m)) == 2 * (d * Pow(2, m));
  }

  lemma HalvedAt(n: int, d: nat, r: nat, m: nat)
    requires Splits(n, d, r) && m <= r
    ensures n - 1 == (d * Pow(2, m)) * Pow(2, r - m)
  {
    PowAdd(2, m, r - m);
    assert d * (Pow(2, m) * Pow(2, r - m)) == (d * Pow(2, m)) * Pow(2, r - m);
  }

  /** The squares are the powers to the halvings of n - 1. */
  lemma TrivialRootsGiveUnits(n: int, a: int, d: nat, r: nat)
    requires n > 2 && Splits(n, d, r) && TrivialRoots(n, a)
    ensures ComesFromUnits(n, a, d, r)
  {
    hide Pow, Squared, Splits;
    forall m: nat | m < r && Squared(a, d, m + 1, n) == 1
      ensures Squared(a, d, m, n) == 1 || Squared(a, d, m, n) == n - 1
    {
      SquaredIs(a, d, m, n);
      HalvedAt(n, d, r, m);
    }
  }

  lemma UnitsGiveTrivialRoots(n: int, a: int, d: nat, r: nat)
    requires n > 2 && Splits(n, d, r) && ComesFromUnits(n, a, d, r)
    ensures TrivialRoots(n, a)
  {
    hide Pow, Squared, Splits;
    forall e: nat, k: nat | k >= 1 && n - 1 == e * Pow(2, k) && Pow(a, 2 * e) % n == 1
      ensures Pow(a, e) % n == 1 || Pow(a, e) % n == n - 1
    {
      var m := HalvingOf(n, d, r, e, k);
      SquaredIs(a, d, m, n);
    }
  }

  /** A number other than a witness is accepted exactly when no witness divides it and every witness a
      satisfies Fermat's congruence and meets no square root of 1 besides 1 and -1. */
  lemma PassesIff(n: int)
    ensures Passes(n) <==>
            n in WITNESSES ||
            (n >= 2 && forall a :: a in WITNESSES ==> n % a != 0 && Pow(a, n - 1) % n == 1 && TrivialRoots(n, a))
  {
    if n > 2 && n !in WITNESSES {
      var d, r := SplitExists(n - 1);
      forall a | a in WITNESSES
        ensures StrongProbablePrime(n, a) <==> Pow(a, n - 1) % n == 1 && TrivialRoots(n, a)
      {
        OneSplitDecides(n, a, d, r);
        PassesBaseIff(n, a, d, r);
        assert Squared(a, d, r, n) == Pow(a, n - 1) % n;
        if TrivialRoots(n, a) {
          TrivialRootsGiveUnits(n, a, d, r);
        }
        if ComesFromUnits(n, a, d, r) {
          UnitsGiveTrivialRoots(n, a, d, r);
        }
        hide TrivialRoots, ComesFromUnits, StrongProbablePrime, PassesBase, Pow;
      }
      hide StrongProbablePrime, TrivialRoots;
    }
  }

  /** The first product beyond the reach of the trial division is rejected by the congruence for 2. */
  lemma FirstOpenProductRejected()
    ensures !Passes(41 * 43)
  {
    hide Pow, Passes, TrivialRoots;
    PassesIff(1763);
    assert 2 in WITNESSES && 1763 !in WITNESSES;
    PowerOfTwoModulo41();
    if Pow(2, 1762) % 1763 == 1 {
      assert 1763 % 41 == 0 && 1 % 1763 == 1 && 1 % 41 == 1;
      ModDivisor(Pow(2, 1762), 1, 1763, 41);
    }
  }

  lemma PowerOfTwoModulo41()
    ensures Pow(2, 1762) % 41 == 4
  {
    assert Pow(2, 10) == 1024 && Pow(2, 2) == 4;
    PowAdd(2, 10, 10);
    hide Pow;
    PowOfOne(2, 20, 88, 41);
    PowAdd(2, 1760, 2);
    ModMultiply(Pow(2, 1760), 4, 41);
  }

  /** No composite below the bound is accepted. */
  ghost predicate ExactBelow(bound: int) {
    forall n :: n < bound && Passes(n) ==> Prime(n)
  }
}
