/** Trial-division factorisation, powerful numbers, and the agreement of the three checkers. */
module Factorization {
  import opened Wrappers
  import opened Arithmetic
  import opened Primes
  import opened MillerRabin
  import opened Certificates

  // ---- The factor dictionary, as its items in insertion order ----

  /** Counts one more occurrence of a key, which goes to the end when it is new. */
  function Bump(factors: seq<Entry>, key: int): seq<Entry>
    requires AllPairs(factors)
  {
    if factors == [] then [Pair(key, 1)]
    else if factors[0].p == key then [Pair(key, factors[0].e + 1)] + factors[1..]
    else [factors[0]] + Bump(factors[1..], key)
  }

  /** A new key goes to the end. */
  lemma {:induction false} BumpAppends(factors: seq<Entry>, key: int)
    requires AllPairs(factors) && forall i :: 0 <= i < |factors| ==> factors[i].p != key
    ensures Bump(factors, key) == factors + [Pair(key, 1)]
  {
    if factors != [] {
      BumpAppends(factors[1..], key);
      assert [factors[0]] + factors[1..] == factors;
    }
  }

  /** A bumped last key gains one and stays where it is. */
  lemma {:induction false} BumpRaises(init: seq<Entry>, key: int, e: int)
    requires AllPairs(init) && key >= 2 && e >= 1 && forall i :: 0 <= i < |init| ==> init[i].p != key
    ensures AllPairs(init + [Pair(key, e)])
    ensures Bump(init + [Pair(key, e)], key) == init + [Pair(key, e + 1)]
  {
    if init != [] {
      BumpRaises(init[1..], key, e);
      assert (init + [Pair(key, e)])[1..] == init[1..] + [Pair(key, e)];
      assert [init[0]] + (init[1..] + [Pair(key, e + 1)]) == init + [Pair(key, e + 1)];
    }
  }

  ghost predicate Increasing(factors: seq<Entry>)
    requires AllPairs(factors)
  {
    forall i, j :: 0 <= i < j < |factors| ==> factors[i].p < factors[j].p
  }

  ghost predicate PrimeList(factors: seq<Entry>) {
    AllPairs(factors) && Increasing(factors) && forall i :: 0 <= i < |factors| ==> Prime(factors[i].p)
  }

  /** The factors are the prime factorisation of x, smallest prime first. */
  ghost predicate IsFactorization(x: int, factors: seq<Entry>) {
    PrimeList(factors) && CertificateProduct(factors) == x
  }

  lemma ProductAppend(factors: seq<Entry>, p: int, e: int)
    requires AllPairs(factors) && p >= 2 && e >= 1
    ensures AllPairs(factors + [Pair(p, e)])
    ensures CertificateProduct(factors + [Pair(p, e)]) == CertificateProduct(factors) * Pow(p, e)
  {
    assert (factors + [Pair(p, e)])[..|factors|] == factors;
  }

  /** Bumping a prime that is the last key, or above all keys, multiplies the product by it and
      keeps the list a list of increasing primes. */
  lemma BumpFactorization(factors: seq<Entry>, d: int)
    requires PrimeList(factors) && Prime(d)
    requires factors != [] ==> factors[|factors| - 1].p <= d
    ensures IsFactorization(CertificateProduct(factors) * d, Bump(factors, d))
    ensures Bump(factors, d) != [] && Bump(factors, d)[|Bump(factors, d)| - 1].p == d
  {
    BumpKeepsPrimes(factors, d);
    BumpProduct(factors, d);
  }

  lemma BumpKeepsPrimes(factors: seq<Entry>, d: int)
    requires PrimeList(factors) && Prime(d)
    requires factors != [] ==> factors[|factors| - 1].p <= d
    ensures PrimeList(Bump(factors, d))
    ensures Bump(factors, d) != [] && Bump(factors, d)[|Bump(factors, d)| - 1].p == d
  {
    assert d >= 2;
    hide Prime, Bump;
    if factors != [] && factors[|factors| - 1].p == d {
      var init, e := factors[..|factors| - 1], factors[|factors| - 1].e;
      assert factors == init + [Pair(d, e)];
      KeysBefore(init, d, e);
      hide PrimeList;
      BumpRaises(init, d, e);
      AppendPrime(init, d, e + 1);
    } else {
      assert forall i :: 0 <= i < |factors| ==> factors[i].p < d;
      hide PrimeList;
      BumpAppends(factors, d);
      AppendPrime(factors, d, 1);
    }
  }

  lemma KeysBefore(init: seq<Entry>, d: int, e: int)
    requires PrimeList(init + [Pair(d, e)])
    ensures PrimeList(init) && e >= 1 && forall i :: 0 <= i < |init| ==> init[i].p < d
  {
    hide Prime;
    var factors := init + [Pair(d, e)];
    assert forall i :: 0 <= i < |init| ==> factors[i] == init[i];
    assert factors[|init|] == Pair(d, e);
  }

  lemma AppendPrime(factors: seq<Entry>, d: int, e: int)
    requires PrimeList(factors) && Prime(d) && e >= 1
    requires forall i :: 0 <= i < |factors| ==> factors[i].p < d
    ensures PrimeList(factors + [Pair(d, e)])
  {
  }

  lemma BumpProduct(factors: seq<Entry>, d: int)
    requires AllPairs(factors) && Increasing(factors) && d >= 2
    requires factors != [] ==> factors[|factors| - 1].p <= d
    ensures AllPairs(Bump(factors, d))
    ensures CertificateProduct(Bump(factors, d)) == CertificateProduct(factors) * d
  {
    if factors != [] && factors[|factors| - 1].p == d {
      var init, e := factors[..|factors| - 1], factors[|factors| - 1].e;
      assert factors == init + [Pair(d, e)];
      BumpRaises(init, d, e);
      RaiseLast(init, d, e);
    } else {
      BumpAppends(factors, d);
      ProductAppend(factors, d, 1);
      assert Pow(d, 1) == d * Pow(d, 0);
    }
  }

  /** One more factor of d in the last place multiplies the product by d. */
  lemma RaiseLast(init: seq<Entry>, d: int, e: int)
    requires AllPairs(init) && d >= 2 && e >= 1
    ensures AllPairs(init + [Pair(d, e)]) && AllPairs(init + [Pair(d, e + 1)])
    ensures CertificateProduct(init + [Pair(d, e + 1)]) == CertificateProduct(init + [Pair(d, e)]) * d
  {
    ProductAppend(init, d, e);
    ProductAppend(init, d, e + 1);
    OneMoreFactor(CertificateProduct(init), Pow(d, e), d, Pow(d, e + 1));
  }

  lemma OneMoreFactor(c: int, w: int, d: int, w': int)
    requires w' == d * w
    ensures c * w' == (c * w) * d
  {
  }

  // ---- The factoriser ----

  ghost predicate NoDivisorBelow(x: int, d: int) {
    forall k {:trigger x % k} :: 2 <= k < d ==> x % k != 0
  }

  lemma NoDivisorBelowIsPrime(x: int, d: int)
    requires x >= 2 && d >= 2 && NoDivisorBelow(x, d)
    ensures x % d == 0 ==> Prime(d)
    ensures d * d > x ==> Prime(x)
  {
    if x % d == 0 {
      DividesAtMost(d, x);
      assert IsLeastDivisor(x, d);
      LeastDivisorIsPrime(x, d);
    }
    if d * d > x {
      var q := LeastDivisor(x);
      SquareBelow(q, d);
    }
  }

  /** Dividing out a factor adds no divisor that was not there. */
  lemma QuotientKeepsNoDivisor(x: int, d: int)
    requires x >= 1 && d >= 2 && x % d == 0 && NoDivisorBelow(x, d)
    ensures NoDivisorBelow(x / d, d) && 1 <= x / d < x && (x / d) * d == x
  {
    ProperQuotient(x, d);
    forall k {:trigger (x / d) % k} | 2 <= k < d
      ensures (x / d) % k != 0
    {
      assert x % k != 0;
      if (x / d) % k == 0 {
        DividesMultiple(k, x / d, d);
      }
    }
  }

  lemma ProperQuotient(x: int, d: int)
    requires x >= 1 && d >= 2 && x % d == 0
    ensures 1 <= x / d < x && (x / d) * d == x
  {
    DividesAtMost(d, x);
    Monotone(x / d, 2, d);
  }

  lemma Monotone(k: int, a: int, b: int)
    requires k >= 0 && a <= b
    ensures k * a <= k * b
  {
  }

  /** The loop invariant: `items` factorises what was divided out of x, `rest` is what remains,
      and no number from 2 up to the candidate divides it. */
  ghost predicate Dividing(x: int, items: seq<Entry>, rest: int, d: int) {
    && rest >= 1 && d >= 2
    && PrimeList(items) && CertificateProduct(items) * rest == x
    && NoDivisorBelow(rest, d)
    && (items != [] ==> items[|items| - 1].p <= d)
  }

  lemma DivideOnce(x: int, items: seq<Entry>, rest: int, d: int)
    requires Dividing(x, items, rest, d) && rest % d == 0
    ensures Dividing(x, Bump(items, d), rest / d, d) && 1 <= rest / d < rest
  {
    DividesAtMost(d, rest);
    NoDivisorBelowIsPrime(rest, d);
    QuotientKeepsNoDivisor(rest, d);
    BumpFactorization(items, d);
    Reassociate(CertificateProduct(items), d, rest / d);
  }

  lemma Reassociate(a: int, b: int, c: int)
    ensures (a * b) * c == a * (c * b)
  {
  }

  /** Skipping the even candidates loses nothing: 2 no longer divides. */
  lemma NextCandidate(x: int, items: seq<Entry>, rest: int, d: int)
    requires Dividing(x, items, rest, d) && (d == 2 || d % 2 == 1) && rest % d != 0
    ensures Dividing(x, items, rest, if d == 2 then 3 else d + 2)
  {
    if d != 2 {
      assert rest % 2 != 0;
      if rest % (d + 1) == 0 {
        DividesTransitive(2, d + 1, rest);
      }
    }
  }

  /** When the candidate passes the root, what remains is 1 or a prime above all listed keys. */
  lemma Leftover(x: int, items: seq<Entry>, rest: int, d: int)
    requires Dividing(x, items, rest, d) && d * d > rest
    ensures IsFactorization(x, if rest > 1 then Bump(items, rest) else items)
  {
    if rest > 1 {
      NoDivisorBelowIsPrime(rest, d);
      MultipleModZero(1, rest);
      assert rest % rest == 0;
      BumpFactorization(items, rest);
    }
  }

  method Factorize(x: int) returns (factors: Option<seq<Entry>>)
    ensures x < 2 <==> factors.None?
    ensures factors.Some? ==> IsFactorization(x, factors.value)
  {
    if x < 2 {
      return None;
    }
    hide *;
    var items: seq<Entry>, rest, d := [], x, 2;
    StartDividing(x);
    while d * d <= rest
      invariant Dividing(x, items, rest, d) && (d == 2 || d % 2 == 1)
      decreases rest - d
    {
      CandidateFits(x, items, rest, d);
      items, rest := DivideOut(x, items, rest, d);
      NextCandidate(x, items, rest, d);
      d := if d == 2 then d + 1 else d + 2;
    }
    Leftover(x, items, rest, d);
    if rest > 1 {
      DividingBounds(x, items, rest, d);
      items := Bump(items, rest);
    }
    return Some(items);
  }

  /** The inner loop: takes a candidate out as often as it divides. */
  method DivideOut(x: int, before: seq<Entry>, whole: int, d: int) returns (items: seq<Entry>, rest: int)
    requires Dividing(x, before, whole, d)
    ensures Dividing(x, items, rest, d) && rest <= whole && rest % d != 0
  {
    hide *;
    items, rest := before, whole;
    DividingBounds(x, items, rest, d);
    while rest % d == 0
      invariant Dividing(x, items, rest, d) && rest <= whole
      decreases rest
    {
      DivideOnce(x, items, rest, d);
      DividingBounds(x, items, rest, d);
      items := Bump(items, d);
      rest := rest / d;
    }
  }

  lemma CandidateFits(x: int, items: seq<Entry>, rest: int, d: int)
    requires Dividing(x, items, rest, d) && d * d <= rest
    ensures 2 <= d <= rest
  {
    SquareAtLeast(d);
  }

  lemma StartDividing(x: int)
    requires x >= 2
    ensures Dividing(x, [], x, 2)
  {
  }

  lemma DividingBounds(x: int, items: seq<Entry>, rest: int, d: int)
    requires Dividing(x, items, rest, d)
    ensures rest >= 1 && d >= 2 && AllPairs(items)
  {
  }

  lemma SquareAtLeast(d: int)
    requires d >= 1
    ensures d <= d * d
  {
  }

  // ---- Powerful numbers ----

  ghost predicate Powerful(x: int) {
    forall q :: Prime(q) && x % q == 0 ==> x % (q * q) == 0
  }

  lemma PowTwo(p: int)
    ensures Pow(p, 2) == p * p
  {
    assert Pow(p, 2) == p * (p * Pow(p, 0));
  }

  lemma SquareDividesPower(q: int, p: int, e: nat)
    requires q >= 1 && p >= 1 && p % q == 0 && e >= 2
    ensures Pow(p, e) % (q * q) == 0
  {
    hide Pow;
    PowTwo(p);
    SquareDividesSquare(q, p);
    PowAdd(p, 2, e - 2);
    DividesMultiple(q * q, p * p, Pow(p, e - 2));
  }

  lemma SquareDividesSquare(q: int, p: int)
    requires q >= 1 && p % q == 0
    ensures q * q >= 1 && (p * p) % (q * q) == 0
  {
    var k := p / q;
    assert p == k * q;
    Reassociate(k, q, k * q);
    Reassociate(k, q, q);
    Reassociate(k, k, q * q);
    assert p * p == (k * k) * (q * q);
    SquareAtLeast(q);
    MultipleModZero(k * k, q * q);
  }

  /** A certificate whose exponents are all at least 2 proves the value powerful, whether or not
      the bases that the primality test accepted are really prime. */
  lemma CheckedIsPowerful(value: int, pairs: seq<Entry>)
    requires Accepted(value, pairs, 2)
    ensures value >= 2 && Powerful(value)
  {
    ProductPositive(pairs);
    forall q | Prime(q) && value % q == 0
      ensures value % (q * q) == 0
    {
      var i := PrimeReachesBase(q, pairs);
      assert Acceptable(pairs[i], 2);
      SquareDividesPower(q, pairs[i].p, pairs[i].e);
      FactorDivides(pairs, i);
      assert q * q >= 1;
      DividesTransitive(q * q, Pow(pairs[i].p, pairs[i].e), value);
    }
  }

  /** A prime listed with exponent 1 divides the product once only. */
  lemma {:induction false} SingleFactor(x: int, factors: seq<Entry>, i: nat)
    requires IsFactorization(x, factors) && i < |factors| && factors[i].e == 1
    ensures x % (factors[i].p * factors[i].p) != 0
    decreases |factors|
  {
    var p := factors[i].p;
    var init, last := factors[..|factors| - 1], factors[|factors| - 1];
    var c := CertificateProduct(init);
    ProductPositive(init);
    if i == |factors| - 1 {
      assert Pow(p, 1) == p * Pow(p, 0);
      assert x == c * p;
      if x % (p * p) == 0 {
        CancelDivisor(c, p, p * p);
        var k := PrimeReachesBase(p, init);
        assert factors[k].p < p;
        PrimeDividesPrime(p, init[k].p);
      }
    } else {
      SingleFactor(c, init, i);
      if x % (p * p) == 0 {
        PowerOfOtherPrime(p, last.p, last.e);
        StripCofactor(p, p * p, c, Pow(last.p, last.e));
      }
    }
  }

  lemma PowerOfOtherPrime(p: int, q: int, e: nat)
    requires Prime(p) && Prime(q) && p != q
    ensures Pow(q, e) % p != 0
  {
    if Pow(q, e) % p == 0 {
      PrimeDividesPower(p, q, e);
      PrimeDividesPrime(p, q);
    }
  }

  /** A cofactor that p does not divide can be stripped from a multiple of p squared. */
  lemma StripCofactor(p: int, s: int, c: int, w: int)
    requires Prime(p) && s >= 1 && s == p * p && c >= 1 && w % p != 0
    requires (c * w) % s == 0
    ensures c % s == 0
  {
    MultipleModZero(p, p);
    DividesTransitive(p, s, c * w);
    EuclidsLemma(p, c, w);
    DividesAtMost(p, c);
    var k := c / p;
    assert c == k * p;
    HalfSquare(p, s, k, w);
    EuclidsLemma(p, k, w);
    SquareMultiple(k / p, p, s, k);
  }

  lemma HalfSquare(p: int, s: int, k: int, w: int)
    requires p >= 1 && s >= 1 && s == p * p && ((k * p) * w) % s == 0
    ensures (k * w) % p == 0
  {
    Reassociate(k, p, w);
    Reassociate(k, w, p);
    CancelDivisor(k * w, p, s);
  }

  lemma SquareMultiple(j: int, p: int, s: int, k: int)
    requires p >= 1 && s >= 1 && s == p * p && k == j * p
    ensures (k * p) % s == 0
  {
    Reassociate(j, p, p);
    MultipleModZero(j, s);
  }

  lemma PrimeDividesPrime(p: int, q: int)
    requires Prime(p) && Prime(q) && q % p == 0
    ensures p == q
  {
    DividesAtMost(p, q);
  }

  lemma CancelDivisor(c: int, p: int, s: int)
    requires p >= 1 && s >= 1 && s == p * p && (c * p) % s == 0
    ensures c % p == 0
  {
    var m := c * p;
    var k := m / s;
    assert m == k * s;
    Reassociate(k, p, p);
    CancelRight(c, k * p, p);
    MultipleModZero(k, p);
  }

  lemma CancelRight(a: int, b: int, p: int)
    requires p >= 1 && a * p == b * p
    ensures a == b
  {
    assert (a - b) * p == 0;
    MultipleReaches(a - b, p);
  }

  /** The listed exponents decide whether a factorised number is powerful. */
  lemma PowerfulByExponents(x: int, factors: seq<Entry>)
    requires IsFactorization(x, factors)
    ensures Powerful(x) <==> forall i :: 0 <= i < |factors| ==> factors[i].e >= 2
  {
    if forall i :: 0 <= i < |factors| ==> factors[i].e >= 2 {
      forall q | Prime(q) && x % q == 0
        ensures x % (q * q) == 0
      {
        var i := PrimeReachesBase(q, factors);
        SquareDividesListed(x, factors, i, q);
      }
    } else {
      var i: nat :| i < |factors| && factors[i].e < 2;
      SingleFactor(x, factors, i);
      BaseDivides(factors, i);
    }
  }

  lemma SquareDividesListed(x: int, factors: seq<Entry>, i: nat, q: int)
    requires AllPairs(factors) && CertificateProduct(factors) == x
    requires i < |factors| && factors[i].e >= 2 && q >= 1 && factors[i].p % q == 0
    ensures q * q >= 1 && x % (q * q) == 0
  {
    SquareAtLeast(q);
    SquareDividesPower(q, factors[i].p, factors[i].e);
    FactorDivides(factors, i);
    DividesTransitive(q * q, Pow(factors[i].p, factors[i].e), x);
  }

  /** weak is the least prime that divides x exactly once. */
  ghost predicate IsLeastWeakPrime(x: int, weak: int) {
    && Prime(weak) && x % weak == 0 && x % (weak * weak) != 0
    && forall q :: Prime(q) && x % q == 0 && x % (q * q) != 0 ==> weak <= q
  }

  datatype PowerfulReport = NotFactorizable | Weak(prime: int) | AllAtLeastTwo

  method IsPowerful(x: int) returns (report: PowerfulReport)
    ensures report.NotFactorizable? <==> x < 2
    ensures report.AllAtLeastTwo? <==> x >= 2 && Powerful(x)
    ensures report.Weak? ==> IsLeastWeakPrime(x, report.prime)
  {
    var factored := Factorize(x);
    if factored.None? {
      return NotFactorizable;
    }
    var factors := factored.value;
    PowerfulByExponents(x, factors);
    for i := 0 to |factors|
      invariant forall k :: 0 <= k < i ==> factors[k].e >= 2
    {
      if factors[i].e < 2 {
        FirstSingleIsLeastWeak(x, factors, i);
        return Weak(factors[i].p);
      }
    }
    return AllAtLeastTwo;
  }

  lemma FirstSingleIsLeastWeak(x: int, factors: seq<Entry>, i: nat)
    requires IsFactorization(x, factors) && i < |factors| && factors[i].e == 1
    requires forall k :: 0 <= k < i ==> factors[k].e >= 2
    ensures IsLeastWeakPrime(x, factors[i].p)
  {
    SingleFactor(x, factors, i);
    BaseDivides(factors, i);
    forall q | Prime(q) && x % q == 0 && x % (q * q) != 0
      ensures factors[i].p <= q
    {
      var k := PrimeReachesBase(q, factors);
      PrimeDividesPrime(q, factors[k].p);
      if k < i {
        SquareDividesListed(x, factors, k, q);
      }
    }
  }

  // ---- The factorisation is unique, so the contract of Factorize determines its result ----

  lemma {:induction false} FactorizationUnique(x: int, f: seq<Entry>, g: seq<Entry>)
    requires IsFactorization(x, f) && IsFactorization(x, g)
    ensures f == g
    decreases |f|
  {
    ProductPositive(f);
    ProductPositive(g);
    if f != [] && g != [] {
      var m, n := |f| - 1, |g| - 1;
      SameLargestPrime(x, f, g);
      SameLargestPrime(x, g, f);
      var p := f[m].p;
      SameLastExponent(x, f, g);
      SameLastExponent(x, g, f);
      PowPositive(p, f[m].e);
      CancelRight(CertificateProduct(f[..m]), CertificateProduct(g[..n]), Pow(p, f[m].e));
      FactorizationUnique(CertificateProduct(f[..m]), f[..m], g[..n]);
      assert f == f[..m] + [f[m]] && g == g[..n] + [g[n]];
    }
  }

  lemma SameLargestPrime(x: int, f: seq<Entry>, g: seq<Entry>)
    requires IsFactorization(x, f) && IsFactorization(x, g) && f != [] && g != []
    ensures f[|f| - 1].p <= g[|g| - 1].p
  {
    BaseDivides(f, |f| - 1);
    var k := PrimeReachesBase(f[|f| - 1].p, g);
    PrimeDividesPrime(f[|f| - 1].p, g[k].p);
  }

  lemma SameLastExponent(x: int, f: seq<Entry>, g: seq<Entry>)
    requires IsFactorization(x, f) && IsFactorization(x, g) && f != [] && g != []
    requires f[|f| - 1].p == g[|g| - 1].p
    ensures f[|f| - 1].e <= g[|g| - 1].e
  {
    var p, a, b := f[|f| - 1].p, f[|f| - 1].e, g[|g| - 1].e;
    if b < a {
      var cf, cg := CertificateProduct(f[..|f| - 1]), CertificateProduct(g[..|g| - 1]);
      PowAdd(p, a - b, b);
      PowPositive(p, b);
      Reassociate(cf, Pow(p, a - b), Pow(p, b));
      assert Pow(p, a - b) * Pow(p, b) == Pow(p, b) * Pow(p, a - b);
      CancelRight(cf * Pow(p, a - b), cg, Pow(p, b));
      BaseDividesPower(p, a - b);
      DividesMultiple(p, Pow(p, a - b), cf);
      var k := PrimeReachesBase(p, g[..|g| - 1]);
      assert g[k].p < p;
      PrimeDividesPrime(p, g[k].p);
    }
  }

  // ---- The three checkers agree ----

  /** The factorisation of x, read as a certificate, is accepted for x by the first checker with
      the greatest prime divisor as its result, and by the second exactly when x is powerful. */
  lemma CheckersAgree(x: int, factors: seq<Entry>)
    requires x >= 2 && IsFactorization(x, factors)
    ensures Accepted(x, factors, 1)
    ensures LargestBase(factors) == factors[|factors| - 1].p == GreatestPrimeDivisor(x)
    ensures Accepted(x, factors, 2) <==> Powerful(x)
  {
    forall i | 0 <= i < |factors|
      ensures Passes(factors[i].p)
    {
      PrimePasses(factors[i].p);
    }
    LargestBaseIsLargest(factors);
    forall entry | entry in factors
      ensures entry.Pair? && Prime(entry.p)
    {
    }
    GreatestFromPrimeEntries(x, factors);
    PowerfulByExponents(x, factors);
  }

  /** The powerful numbers are exactly the values for which the second checker has an acceptable
      certificate; no assumption about the primality test is involved. */
  lemma PowerfulIffCertifiable(x: int)
    requires x >= 2
    ensures Powerful(x) <==> exists pairs :: Accepted(x, pairs, 2)
  {
    if Powerful(x) {
      var factors := FactorizationExists(x);
      CheckersAgree(x, factors);
    }
    forall pairs | Accepted(x, pairs, 2)
      ensures Powerful(x)
    {
      CheckedIsPowerful(x, pairs);
    }
  }

  lemma {:induction false} FactorizationExists(x: int) returns (factors: seq<Entry>)
    requires x >= 1
    ensures IsFactorization(x, factors)
    decreases x
  {
    if x == 1 {
      factors := [];
    } else {
      var p := GreatestPrimeDivisor(x);
      ProperQuotient(x, p);
      var m := x / p;
      var rest := FactorizationExists(m);
      LastBelowGreatest(x, m, rest, p);
      BumpFactorization(rest, p);
      factors := Bump(rest, p);
    }
  }

  lemma LastBelowGreatest(x: int, m: int, rest: seq<Entry>, p: int)
    requires IsGreatestPrimeDivisor(p, x) && m * p == x && IsFactorization(m, rest)
    ensures rest != [] ==> rest[|rest| - 1].p <= p
  {
    if rest != [] {
      BaseDivides(rest, |rest| - 1);
      DividesMultiple(rest[|rest| - 1].p, m, p);
    }
  }
}
