/** The two prime-power certificate checkers and the largest-prime-factor verdict. */
module Certificates {
  import opened Wrappers
  import opened Arithmetic
  import opened Primes
  import opened MillerRabin

  /** One element of a submitted certificate: [p, e], or something of the wrong shape. */
  datatype Entry = Pair(p: int, e: int) | NotAPair | NotIntegers

  datatype Fault =
    | EmptyCertificate
    | Malformed(at: nat)
    | BadValues(at: nat)
    | NotPrime(at: nat)
    | WeakExponent(at: nat)
    | WrongProduct

  ghost predicate AllPairs(pairs: seq<Entry>) {
    forall i :: 0 <= i < |pairs| ==> pairs[i].Pair? && pairs[i].p >= 2 && pairs[i].e >= 1
  }

  ghost predicate Acceptable(entry: Entry, least: int) {
    entry.Pair? && Passes(entry.p) && entry.e >= least
  }

  function CertificateProduct(pairs: seq<Entry>): int
    requires AllPairs(pairs)
  {
    if pairs == [] then 1
    else
      var last := pairs[|pairs| - 1];
      CertificateProduct(pairs[..|pairs| - 1]) * Pow(last.p, last.e)
  }

  function LargestBase(pairs: seq<Entry>): int
    requires AllPairs(pairs)
  {
    if pairs == [] then 0
    else
      var last, rest := pairs[|pairs| - 1].p, LargestBase(pairs[..|pairs| - 1]);
      if rest < last then last else rest
  }

  /** The certificate is accepted for the value, every exponent being at least `least`. */
  ghost predicate Accepted(value: int, pairs: seq<Entry>, least: int)
    requires least >= 1
  {
    && pairs != []
    && (forall i :: 0 <= i < |pairs| ==> Acceptable(pairs[i], least))
    && CertificateProduct(pairs) == value
  }

  ghost predicate FirstFault(pairs: seq<Entry>, at: nat, least: int) {
    && at < |pairs| && !Acceptable(pairs[at], least)
    && forall i :: 0 <= i < at ==> Acceptable(pairs[i], least)
  }

  ghost predicate NoFault(pairs: seq<Entry>, least: int) {
    forall i :: 0 <= i < |pairs| ==> Acceptable(pairs[i], least)
  }

  lemma ProductOfPrefix(pairs: seq<Entry>, i: nat)
    requires i < |pairs| && AllPairs(pairs[..i + 1])
    ensures AllPairs(pairs[..i])
    ensures CertificateProduct(pairs[..i + 1]) == CertificateProduct(pairs[..i]) * Pow(pairs[i].p, pairs[i].e)
    ensures LargestBase(pairs[..i + 1]) ==
            if LargestBase(pairs[..i]) < pairs[i].p then pairs[i].p else LargestBase(pairs[..i])
  {
    assert pairs[..i + 1][..i] == pairs[..i];
    assert pairs[..i + 1][i] == pairs[i];
  }

  // ---- The checkers ----

  /** The fault names the first unacceptable element and what is wrong with it. */
  ghost predicate VerifyFault(value: int, pairs: seq<Entry>, fault: Fault) {
    match fault
    case EmptyCertificate => pairs == []
    case Malformed(at) => FirstFault(pairs, at, 1) && pairs[at].NotAPair?
    case BadValues(at) => FirstFault(pairs, at, 1) && !pairs[at].NotAPair? &&
      (pairs[at].Pair? ==> pairs[at].p < 2 || pairs[at].e < 1)
    case NotPrime(at) => FirstFault(pairs, at, 1) && pairs[at].Pair? && pairs[at].p >= 2 && pairs[at].e >= 1 &&
      !Passes(pairs[at].p)
    case WeakExponent(_) => false
    case WrongProduct => pairs != [] && AllPairs(pairs) && NoFault(pairs, 1) && CertificateProduct(pairs) != value
  }

  ghost predicate CheckFault(value: int, pairs: seq<Entry>, fault: Fault) {
    match fault
    case EmptyCertificate => pairs == []
    case Malformed(at) => FirstFault(pairs, at, 2) && pairs[at].NotAPair?
    case BadValues(at) => FirstFault(pairs, at, 2) && pairs[at].NotIntegers?
    case NotPrime(at) => FirstFault(pairs, at, 2) && pairs[at].Pair? && !Passes(pairs[at].p)
    case WeakExponent(at) => FirstFault(pairs, at, 2) && pairs[at].Pair? && Passes(pairs[at].p) && pairs[at].e < 2
    case WrongProduct => pairs != [] && AllPairs(pairs) && NoFault(pairs, 2) && CertificateProduct(pairs) != value
  }

  /** Largest-prime-factor script: every exponent at least 1; returns the largest listed factor. */
  method VerifyCertificate(value: int, pairs: seq<Entry>) returns (r: Result<int, Fault>)
    ensures r.Success? <==> Accepted(value, pairs, 1)
    ensures r.Success? ==> r.value == LargestBase(pairs)
    ensures r.Failure? ==> VerifyFault(value, pairs, r.error)
  {
    if |pairs| == 0 {
      return Failure(EmptyCertificate);
    }
    var product, largest := 1, 0;
    for i := 0 to |pairs|
      invariant forall k :: 0 <= k < i ==> Acceptable(pairs[k], 1)
      invariant AllPairs(pairs[..i])
      invariant product == CertificateProduct(pairs[..i]) && largest == LargestBase(pairs[..i])
    {
      if pairs[i].NotAPair? {
        return Failure(Malformed(i));
      }
      if pairs[i].NotIntegers? || pairs[i].p < 2 || pairs[i].e < 1 {
        return Failure(BadValues(i));
      }
      var Pair(p, e) := pairs[i];
      var prime := IsPrime(p);
      if !prime {
        return Failure(NotPrime(i));
      }
      ProductOfPrefix(pairs, i);
      product := product * Pow(p, e);
      largest := if largest < p then p else largest;
    }
    assert pairs[..|pairs|] == pairs;
    if product != value {
      return Failure(WrongProduct);
    }
    return Success(largest);
  }

  /** Witness-extraction script: every exponent at least 2; returns the listed factors. */
  method CheckCertificate(pairs: seq<Entry>, value: int) returns (r: Result<seq<int>, Fault>)
    ensures r.Success? <==> Accepted(value, pairs, 2)
    ensures r.Success? ==> |r.value| == |pairs| && forall i :: 0 <= i < |pairs| ==> r.value[i] == pairs[i].p
    ensures r.Failure? ==> CheckFault(value, pairs, r.error)
  {
    if |pairs| == 0 {
      return Failure(EmptyCertificate);
    }
    var product, primes := 1, [];
    for i := 0 to |pairs|
      invariant forall k :: 0 <= k < i ==> Acceptable(pairs[k], 2)
      invariant AllPairs(pairs[..i]) && product == CertificateProduct(pairs[..i])
      invariant |primes| == i && forall k :: 0 <= k < i ==> primes[k] == pairs[k].p
    {
      if pairs[i].NotAPair? {
        return Failure(Malformed(i));
      }
      if pairs[i].NotIntegers? {
        return Failure(BadValues(i));
      }
      var Pair(p, e) := pairs[i];
      var prime := IsPrime(p);
      if !prime {
        return Failure(NotPrime(i));
      }
      if e < 2 {
        return Failure(WeakExponent(i));
      }
      ProductOfPrefix(pairs, i);
      product := product * Pow(p, e);
      primes := primes + [p];
    }
    assert pairs[..|pairs|] == pairs;
    if product != value {
      return Failure(WrongProduct);
    }
    return Success(primes);
  }

  /** A refusal has one reason: the faults exclude one another, and there is none when the certificate is
      accepted. */
  lemma OneFault(value: int, pairs: seq<Entry>, f: Fault, g: Fault)
    ensures VerifyFault(value, pairs, f) ==> !Accepted(value, pairs, 1) && (VerifyFault(value, pairs, g) ==> f == g)
    ensures CheckFault(value, pairs, f) ==> !Accepted(value, pairs, 2) && (CheckFault(value, pairs, g) ==> f == g)
  {
    hide CertificateProduct;
  }

  // ---- What an accepted certificate proves ----

  lemma {:induction false} ProductPositive(pairs: seq<Entry>)
    requires AllPairs(pairs)
    ensures CertificateProduct(pairs) >= 1
    ensures pairs != [] ==> CertificateProduct(pairs) >= 2
  {
    if pairs != [] {
      var init, last := pairs[..|pairs| - 1], pairs[|pairs| - 1];
      ProductPositive(init);
      PowPositive(last.p, last.e);
      assert CertificateProduct(init) * Pow(last.p, last.e) >= 1 * Pow(last.p, last.e);
    }
  }

  lemma {:induction false} FactorDivides(pairs: seq<Entry>, i: nat)
    requires AllPairs(pairs) && i < |pairs|
    ensures Pow(pairs[i].p, pairs[i].e) > 0
    ensures CertificateProduct(pairs) % Pow(pairs[i].p, pairs[i].e) == 0
  {
    var init, last := pairs[..|pairs| - 1], pairs[|pairs| - 1];
    PowPositive(pairs[i].p, pairs[i].e);
    if i == |pairs| - 1 {
      MultipleModZero(CertificateProduct(init), Pow(last.p, last.e));
    } else {
      FactorDivides(init, i);
      DividesMultiple(Pow(pairs[i].p, pairs[i].e), CertificateProduct(init), Pow(last.p, last.e));
    }
  }

  lemma BaseDivides(pairs: seq<Entry>, i: nat)
    requires AllPairs(pairs) && i < |pairs|
    ensures CertificateProduct(pairs) % pairs[i].p == 0
  {
    FactorDivides(pairs, i);
    BaseDividesPower(pairs[i].p, pairs[i].e);
    DividesTransitive(pairs[i].p, Pow(pairs[i].p, pairs[i].e), CertificateProduct(pairs));
  }

  lemma BaseDividesPower(p: int, e: nat)
    requires p >= 1 && e >= 1
    ensures Pow(p, e) % p == 0
  {
    MultipleModZero(Pow(p, e - 1), p);
    assert Pow(p, e) == Pow(p, e - 1) * p;
  }

  /** A prime that divides the product divides one of the listed bases. */
  lemma {:induction false} PrimeReachesBase(q: int, pairs: seq<Entry>) returns (i: nat)
    requires Prime(q) && AllPairs(pairs) && CertificateProduct(pairs) % q == 0
    ensures i < |pairs| && pairs[i].p % q == 0
  {
    if pairs == [] {
      QuotientUnique(1, q, 0, 1);
      assert false;
    } else {
      var init, last := pairs[..|pairs| - 1], pairs[|pairs| - 1];
      ProductPositive(init);
      EuclidsLemma(q, CertificateProduct(init), Pow(last.p, last.e));
      if Pow(last.p, last.e) % q == 0 {
        PrimeDividesPower(q, last.p, last.e);
        i := |pairs| - 1;
      } else {
        i := PrimeReachesBase(q, init);
      }
    }
  }

  lemma {:induction false} LargestBaseIsLargest(pairs: seq<Entry>)
    requires AllPairs(pairs)
    ensures forall i :: 0 <= i < |pairs| ==> pairs[i].p <= LargestBase(pairs)
    ensures pairs != [] ==> exists i :: 0 <= i < |pairs| && pairs[i].p == LargestBase(pairs)
  {
    if pairs != [] {
      var init := pairs[..|pairs| - 1];
      LargestBaseIsLargest(init);
      if init != [] {
        var i :| 0 <= i < |init| && init[i].p == LargestBase(init);
        assert pairs[i].p == LargestBase(init);
      }
      assert forall i :: 0 <= i < |init| ==> pairs[i] == init[i];
      assert pairs[|pairs| - 1].p <= LargestBase(pairs);
    }
  }

  ghost predicate IsGreatestPrimeDivisor(g: int, v: int) {
    && Prime(g) && v % g == 0
    && forall q :: Prime(q) && v % q == 0 ==> q <= g
  }

  /** Whatever the primality test let through, the largest listed base divides the value and no
      prime divisor exceeds it; so it is the greatest prime divisor exactly when it is prime. */
  lemma LargestBaseBoundsPrimes(value: int, pairs: seq<Entry>)
    requires Accepted(value, pairs, 1)
    ensures value >= 2 && LargestBase(pairs) >= 2 && value % LargestBase(pairs) == 0
    ensures forall q :: Prime(q) && value % q == 0 ==> q <= LargestBase(pairs)
    ensures IsGreatestPrimeDivisor(LargestBase(pairs), value) <==> Prime(LargestBase(pairs))
  {
    ProductPositive(pairs);
    LargestBaseIsLargest(pairs);
    var k :| 0 <= k < |pairs| && pairs[k].p == LargestBase(pairs);
    BaseDivides(pairs, k);
    forall q | Prime(q) && value % q == 0
      ensures q <= LargestBase(pairs)
    {
      var i := PrimeReachesBase(q, pairs);
      DividesAtMost(q, pairs[i].p);
    }
  }

  /** With a largest base below 41 squared nothing has to be assumed about the primality test. */
  lemma SmallLargestBaseIsExact(value: int, pairs: seq<Entry>)
    requires Accepted(value, pairs, 1) && LargestBase(pairs) < 41 * 41
    ensures IsGreatestPrimeDivisor(LargestBase(pairs), value)
  {
    LargestBaseBoundsPrimes(value, pairs);
    LargestBaseIsLargest(pairs);
    var k :| 0 <= k < |pairs| && pairs[k].p == LargestBase(pairs);
    assert Acceptable(pairs[k], 1);
    ExactBelowSquareOf41(pairs[k].p);
  }

  // ---- The verdict on three consecutive integers ----

  lemma GreatestPrimeDivisorExists(v: int)
    requires v >= 2
    ensures exists g :: IsGreatestPrimeDivisor(g, v)
  {
    var q := LeastDivisor(v);
    forall p | Prime(p) && v % p == 0
      ensures p <= v
    {
      DividesAtMost(p, v);
    }
    var g := v;
    while !(Prime(g) && v % g == 0)
      invariant q <= g <= v
      invariant forall p :: Prime(p) && v % p == 0 ==> p <= g
      decreases g
    {
      g := g - 1;
    }
    assert IsGreatestPrimeDivisor(g, v);
  }

  /** P(v), the greatest prime divisor. */
  ghost function GreatestPrimeDivisor(v: int): (g: int)
    requires v >= 2
    ensures IsGreatestPrimeDivisor(g, v)
  {
    GreatestPrimeDivisorExists(v);
    var g :| IsGreatestPrimeDivisor(g, v);
    g
  }

  datatype Verdict = Pass | Fail | Invalid

  const KEYS: seq<string> := ["n", "n1", "n2"]

  ghost predicate Certified(n: int, factors: map<string, seq<Entry>>, k: nat)
    requires k < 3
  {
    KEYS[k] in factors && Accepted(n + k, factors[KEYS[k]], 1)
  }

  /** The first certificate that stops the script is absent, rather than refused. */
  ghost predicate MissingAt(n: int, factors: map<string, seq<Entry>>, k: nat) {
    k < 3 && KEYS[k] !in factors && forall j: nat :: j < k ==> Certified(n, factors, j)
  }

  ghost function LargestOf(n: int, factors: map<string, seq<Entry>>, k: nat): int
    requires k < 3 && Certified(n, factors, k)
  {
    LargestBase(factors[KEYS[k]])
  }

  /** All three certificates are accepted and their largest bases strictly decrease. */
  ghost predicate Decreasing(n: int, factors: map<string, seq<Entry>>) {
    && Certified(n, factors, 0) && Certified(n, factors, 1) && Certified(n, factors, 2)
    && LargestOf(n, factors, 0) > LargestOf(n, factors, 1) > LargestOf(n, factors, 2)
  }

  /** The whole largest-prime-factor script after parsing: None stands for an absent field. */
  method CheckTriplet(n: Option<int>, factors: Option<map<string, seq<Entry>>>) returns (v: Verdict)
    ensures v.Invalid? <==>
      n.None? || factors.None? ||
      exists k: nat :: MissingAt(n.value, factors.value, k)
    ensures v.Pass? <==> n.Some? && factors.Some? && Decreasing(n.value, factors.value)
  {
    if n.None? || factors.None? {
      return Invalid;
    }
    var lps := [];
    for k := 0 to 3
      invariant forall j: nat :: j < k ==> Certified(n.value, factors.value, j)
      invariant |lps| == k
      invariant forall j: nat :: j < k ==> lps[j] == LargestOf(n.value, factors.value, j)
    {
      if KEYS[k] !in factors.value {
        assert MissingAt(n.value, factors.value, k);
        return Invalid;
      }
      var r := VerifyCertificate(n.value + k, factors.value[KEYS[k]]);
      if r.Failure? {
        forall m: nat
          ensures !MissingAt(n.value, factors.value, m)
        {
          assert !Certified(n.value, factors.value, k);
          assert m < k ==> Certified(n.value, factors.value, m);
        }
        return Fail;
      }
      lps := lps + [r.value];
    }
    forall m: nat
      ensures !MissingAt(n.value, factors.value, m)
    {
      assert m < 3 ==> Certified(n.value, factors.value, m);
    }
    return if lps[0] > lps[1] > lps[2] then Pass else Fail;
  }

  /** A certificate is missing before one was refused exactly in these cases. */
  lemma MissingIff(n: int, factors: map<string, seq<Entry>>)
    ensures (exists k: nat :: MissingAt(n, factors, k)) <==>
            "n" !in factors ||
            (Accepted(n, factors["n"], 1) &&
             ("n1" !in factors || (Accepted(n + 1, factors["n1"], 1) && "n2" !in factors)))
  {
    assert KEYS[0] == "n" && KEYS[1] == "n1" && KEYS[2] == "n2";
    hide Accepted;
    if "n" !in factors {
      assert MissingAt(n, factors, 0);
    } else if Accepted(n, factors["n"], 1) && "n1" !in factors {
      assert MissingAt(n, factors, 1);
    } else if Accepted(n, factors["n"], 1) && Accepted(n + 1, factors["n1"], 1) && "n2" !in factors {
      assert MissingAt(n, factors, 2);
    }
    if k: nat :| MissingAt(n, factors, k) {
      assert k > 0 ==> Certified(n, factors, 0);
      assert k > 1 ==> Certified(n, factors, 1);
    }
  }

  /** P(n) > P(n+1) > P(n+2). */
  ghost predicate PrimesDecrease(n: int)
    requires n >= 2
  {
    GreatestPrimeDivisor(n) > GreatestPrimeDivisor(n + 1) > GreatestPrimeDivisor(n + 2)
  }

  /** A pass means P(n) > P(n+1) > P(n+2) as soon as the first two largest bases are prime;
      the third may be anything the test accepts. */
  lemma TripletSound(n: int, factors: map<string, seq<Entry>>)
    requires Decreasing(n, factors) && Prime(LargestOf(n, factors, 0)) && Prime(LargestOf(n, factors, 1))
    ensures n >= 2 && PrimesDecrease(n)
  {
    LargestBaseBoundsPrimes(n, factors["n"]);
    LargestBaseBoundsPrimes(n + 1, factors["n1"]);
    LargestBaseBoundsPrimes(n + 2, factors["n2"]);
  }

  /** When all listed factors are prime the comparison decides the statement both ways. */
  lemma TripletExact(n: int, factors: map<string, seq<Entry>>)
    requires "n" in factors && "n1" in factors && "n2" in factors
    requires Accepted(n, factors["n"], 1) && Accepted(n + 1, factors["n1"], 1) && Accepted(n + 2, factors["n2"], 1)
    requires forall key, entry :: key in factors && entry in factors[key] ==> entry.Pair? && Prime(entry.p)
    ensures n >= 2 && (Decreasing(n, factors) <==> PrimesDecrease(n))
  {
    assert KEYS[0] == "n" && KEYS[1] == "n1" && KEYS[2] == "n2";
    GreatestFromPrimeEntries(n, factors["n"]);
    GreatestFromPrimeEntries(n + 1, factors["n1"]);
    GreatestFromPrimeEntries(n + 2, factors["n2"]);
  }

  lemma GreatestFromPrimeEntries(value: int, pairs: seq<Entry>)
    requires Accepted(value, pairs, 1)
    requires forall entry :: entry in pairs ==> entry.Pair? && Prime(entry.p)
    ensures value >= 2 && GreatestPrimeDivisor(value) == LargestBase(pairs)
  {
    LargestBaseBoundsPrimes(value, pairs);
    LargestBaseIsLargest(pairs);
    var k :| 0 <= k < |pairs| && pairs[k].p == LargestBase(pairs);
    assert pairs[k] in pairs;
  }
}
