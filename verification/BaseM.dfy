module BaseM {
  /**
   Base-m polynomial selection (src/polynomial/base_m.cpp): the digit expansion, the
   irreducibility filter and the three ways a selection can be returned.
   */

  import opened Optional
  import opened NumberTheory
  import opened Polynomials
  import opened FieldRoots
  import opened ModularPoly
  import opened RootFinder
  import opened PolyFactors
  import opened Irreducibility

  // ---------- the digit expansion ----------

  /** Division that truncates towards zero, as GMP's tdiv does. */
  function TruncDiv(a: int, m: nat): int
    requires m > 0
  {
    if a >= 0 then a / m else -((-a) / m)
  }

  function TruncMod(a: int, m: nat): int
    requires m > 0
  {
    if a >= 0 then a % m else -((-a) % m)
  }

  lemma TruncDivMod(a: int, m: nat)
    requires m > 0
    ensures a == m * TruncDiv(a, m) + TruncMod(a, m)
    ensures 0 < TruncMod(a, m) + m && TruncMod(a, m) < m
    ensures a >= 0 ==> 0 <= TruncMod(a, m) && 0 <= TruncDiv(a, m)
    ensures a < 0 ==> TruncMod(a, m) <= 0 && TruncDiv(a, m) <= 0
  {
    var x := if a >= 0 then a else -a;
    assert x == m * (x / m) + x % m;
    NegateDivision(m, x / m, x % m, x);
  }

  lemma NegateDivision(m: int, q: int, r: int, x: int)
    requires x == m * q + r && x >= 0 && 0 <= r < m
    ensures -x == m * (-q) + (-r) && q >= 0
  {
    if q < 0 {
      MulMonotone(m, q, -1);
    }
  }

  /** Digits of n below m in size and of the sign of n; the last coefficient takes the rest. */
  ghost predicate IsExpansion(f: Poly, n: int, m: nat, degree: nat) {
    && |f| == degree + 1
    && Eval(f, m) == n
    && (forall i :: 0 <= i < degree ==> 0 < f[i] + m && f[i] < m && (n >= 0 ==> f[i] >= 0) && (n < 0 ==> f[i] <= 0))
    && (n >= 0 ==> f[degree] >= 0) && (n < 0 ==> f[degree] <= 0)
  }

  /** f is full without its leading zeros. */
  predicate IsStripped(f: Poly, full: Poly) {
    && |f| <= |full| && f == full[..|f|] && (|f| > 0 ==> f[|f| - 1] != 0)
    && forall i :: |f| <= i < |full| ==> full[i] == 0
  }

  /** The expansion with leading zeros stripped; None is the exception for m <= 1. */
  method ConstructBaseM(n: int, m: int, degree: nat) returns (f: Option<Poly>)
    ensures f.None? <==> m <= 1
    ensures f.Some? ==> exists full: Poly :: IsExpansion(full, n, m, degree) && IsStripped(f.value, full)
  {
    hide Eval;
    hide Pow;
    if m <= 1 {
      return None;
    }
    var digits: Poly, temp := [], n;
    DigitsStart(n, m);
    for i := 0 to degree
      invariant |digits| == i
      invariant Eval(digits, m) + temp * Pow(m, i) == n
      invariant forall k :: 0 <= k < i ==> 0 < digits[k] + m && digits[k] < m
      invariant forall k :: 0 <= k < i ==> (n >= 0 ==> digits[k] >= 0) && (n < 0 ==> digits[k] <= 0)
      invariant (n >= 0 ==> temp >= 0) && (n < 0 ==> temp <= 0)
    {
      TruncDivMod(temp, m);
      DigitStep(digits, temp, TruncDiv(temp, m), TruncMod(temp, m), m, n);
      temp, digits := TruncDiv(temp, m), digits + [TruncMod(temp, m)];
    }
    EvalAppend(digits, temp, m);
    ghost var full := digits + [temp];
    var stripped := Strip(digits + [temp]);
    assert IsExpansion(full, n, m, degree);
    forall i | |stripped| <= i < |full| ensures full[i] == 0 {
      assert Coef(stripped, i) == Coef(full, i);
    }
    f := Some(stripped);
  }

  lemma DigitsStart(n: int, m: int)
    ensures Eval([], m) + n * Pow(m, 0) == n
  {
  }

  lemma DigitStep(digits: Poly, temp: int, q: int, r: int, m: int, n: int)
    requires Eval(digits, m) + temp * Pow(m, |digits|) == n && temp == m * q + r
    ensures Eval(digits + [r], m) + q * Pow(m, |digits| + 1) == n
  {
    EvalAppend(digits, r, m);
    ExpandDigit(q, r, m, Pow(m, |digits|));
  }

  lemma ExpandDigit(q: int, r: int, m: int, t: int)
    ensures (m * q + r) * t == q * (m * t) + r * t
  {
  }

  /** For n at least m to the degree the leading coefficient is positive, and conversely. */
  lemma LeadingPositive(f: Poly, n: nat, m: nat, degree: nat)
    requires IsExpansion(f, n, m, degree) && m > 1
    ensures f[degree] > 0 <==> n >= Pow(m, degree)
  {
    hide Eval;
    hide Pow;
    assert f == f[..degree] + [f[degree]];
    EvalAppend(f[..degree], f[degree], m);
    DigitsBelow(f[..degree], m);
    if f[degree] > 0 {
      MulMonotone(Pow(m, degree), 1, f[degree]);
    }
  }

  /** There is only one expansion of n. */
  lemma {:induction false} ExpansionUnique(f: Poly, g: Poly, n: nat, m: nat, degree: nat)
    requires m > 1 && IsExpansion(f, n, m, degree) && IsExpansion(g, n, m, degree)
    ensures f == g
  {
    if degree == 0 {
      EvalConstant(f, m);
      EvalConstant(g, m);
      assert f == [f[0]] && g == [g[0]];
    } else {
      var x, y := Eval(f[1..], m), Eval(g[1..], m);
      TailNonnegative(f[1..], m);
      TailNonnegative(g[1..], m);
      SameDigit(f[0], g[0], m, x, y);
      ExpansionUnique(f[1..], g[1..], x, m, degree - 1);
      assert f == [f[0]] + f[1..] && g == [g[0]] + g[1..];
    }
  }

  lemma {:induction false} TailNonnegative(f: Poly, m: nat)
    requires forall i :: 0 <= i < |f| ==> f[i] >= 0
    ensures Eval(f, m) >= 0
  {
    if |f| > 0 {
      TailNonnegative(f[1..], m);
      MulMonotone(m, 0, Eval(f[1..], m));
    }
  }

  // ---------- factorisations ----------

  /** Neither factor is constant. */
  ghost predicate Factors(f: Poly, g: Poly, h: Poly) {
    && |g| >= 2 && |h| >= 2 && g[|g| - 1] != 0 && h[|h| - 1] != 0
    && forall k {:trigger Coef(f, k)} :: Coef(f, k) == Conv(g, h, k)
  }

  ghost predicate Reducible(f: Poly) {
    exists g: Poly, h: Poly :: Factors(f, g, h)
  }

  lemma FactorDegrees(f: Poly, g: Poly, h: Poly)
    requires Factors(f, g, h) && |f| > 0 && f[|f| - 1] != 0
    ensures |f| == |g| + |h| - 1 && f[|f| - 1] == g[|g| - 1] * h[|h| - 1]
  {
    hide Conv;
    var n := |g| + |h| - 2;
    TopCoef(g, h, |f| - 1);
    NonzeroProduct(g[|g| - 1], h[|h| - 1]);
    assert Coef(f, n) == Conv(g, h, n);
    assert Coef(f, |f| - 1) == Conv(g, h, |f| - 1);
  }

  lemma NonzeroProduct(a: int, b: int)
    requires a != 0 && b != 0
    ensures a * b != 0
  {
  }

  // ---------- Eisenstein ----------

  ghost predicate Eisenstein(f: Poly, p: int) {
    && IsPrime(p) && |f| >= 3
    && !Dvd(p, f[|f| - 1])
    && (forall i :: 0 <= i < |f| - 1 ==> Dvd(p, f[i]))
    && !Dvd(p * p, f[0])
  }

  /** When the low coefficients of g vanish modulo p, coefficient i of g * h is g[i] * h[0]. */
  lemma {:induction false} LowCoef(g: Poly, h: Poly, i: nat, p: int)
    requires p > 0 && i < |g| && |h| > 0 && forall t :: 0 <= t < i ==> Dvd(p, g[t])
    ensures Dvd(p, Conv(g, h, i) - g[i] * h[0])
  {
    hide Dvd;
    if i == 0 {
      ConvNegative(g[1..], h, -1);
      DvdZero(p);
    } else {
      LowCoef(g[1..], h, i - 1, p);
      DvdMul(p, g[0], Coef(h, i));
      DvdAdd(p, Conv(g[1..], h, i - 1) - g[i] * h[0], g[0] * Coef(h, i));
    }
  }

  lemma EisensteinHalf(f: Poly, g: Poly, h: Poly, p: int)
    requires Eisenstein(f, p) && Factors(f, g, h)
    ensures !Dvd(p, g[0])
  {
    hide Dvd;
    hide IsPrime;
    hide Conv;
    assert p >= 2 by { PrimeIsBig(p); }
    NotDvdNonzero(p, f[|f| - 1]);
    FactorDegrees(f, g, h);
    LeadNotDivisible(p, g[|g| - 1], h[|h| - 1], f[|f| - 1]);
    var i := 0;
    while i < |g| - 1 && Dvd(p, g[i])
      invariant i < |g| && forall t :: 0 <= t < i ==> Dvd(p, g[t])
      decreases |g| - i
    {
      i := i + 1;
    }
    LowCoef(g, h, i, p);
    assert Coef(f, i) == Conv(g, h, i);
    assert Dvd(p, f[i]);
    DvdAdd(p, Conv(g, h, i), Conv(g, h, i) - g[i] * h[0]);
    Euclid(p, g[i], h[0]);
    assert Coef(f, 0) == Conv(g, h, 0);
    ConstantTerm(g, h);
    if Dvd(p, g[0]) {
      BothDivide(p, g[0], h[0]);
    }
  }

  lemma NotDvdNonzero(p: int, x: int)
    requires p > 0 && !Dvd(p, x)
    ensures x != 0
  {
  }

  lemma LeadNotDivisible(p: int, a: int, b: int, c: int)
    requires p > 0 && c == a * b && !Dvd(p, c)
    ensures !Dvd(p, a) && !Dvd(p, b)
  {
    hide Dvd;
    if Dvd(p, a) {
      DvdMul(p, a, b);
    }
    if Dvd(p, b) {
      DvdMul(p, b, a);
    }
  }

  lemma ConstantTerm(g: Poly, h: Poly)
    requires |g| > 0 && |h| > 0
    ensures Conv(g, h, 0) == g[0] * h[0]
  {
    ConvNegative(g[1..], h, -1);
  }

  lemma BothDivide(p: int, a: int, b: int)
    requires p > 0 && Dvd(p, a) && Dvd(p, b)
    ensures Dvd(p * p, a * b)
  {
    var s := DvdFactor(p, a);
    var t := DvdFactor(p, b);
    assert (p * s) * (p * t) == (p * p) * (s * t);
    DvdWitness(p * p, a * b, s * t);
  }

  /** Eisenstein's criterion. */
  lemma EisensteinIrreducible(f: Poly, p: int)
    requires Eisenstein(f, p)
    ensures !Reducible(f)
  {
    hide Dvd;
    hide IsPrime;
    hide Conv;
    assert p >= 2 by { PrimeIsBig(p); }
    if Reducible(f) {
      var g: Poly, h: Poly :| Factors(f, g, h);
      assert Coef(f, 0) == Conv(g, h, 0);
      ConstantTerm(g, h);
      Euclid(p, g[0], h[0]);
      FactorsCommute(f, g, h);
      EisensteinHalf(f, g, h, p);
      EisensteinHalf(f, h, g, p);
    }
  }

  lemma FactorsCommute(f: Poly, g: Poly, h: Poly)
    requires Factors(f, g, h)
    ensures Factors(f, h, g)
  {
    forall k ensures Coef(f, k) == Conv(h, g, k) {
      ConvCommutes(g, h, k);
    }
  }

  const SMALL_PRIMES := [2, 3, 5, 7, 11, 13, 17, 19, 23, 29, 31]

  lemma SmallPrimesArePrime()
    ensures forall i :: 0 <= i < |SMALL_PRIMES| ==> IsPrime(SMALL_PRIMES[i])
  {
  }

  /** The list holds every prime below 32. */
  lemma SmallPrimesComplete(p: int)
    requires IsPrime(p) && p < 32
    ensures p in SMALL_PRIMES
  {
    NoSmallFactor(p);
  }

  lemma NoSmallFactor(p: int)
    requires IsPrime(p)
    ensures p >= 2 && (p % 2 != 0 || p == 2) && (p % 3 != 0 || p == 3) && (p % 5 != 0 || p == 5)
  {
  }

  method EisensteinCheck(f: Poly) returns (found: bool)
    requires |f| > 0
    ensures found <==> |f| >= 3 && f[0] != 0
                       && exists p: nat :: p < 32 && Eisenstein(f, p)
  {
    hide IsPrime;
    hide Dvd;
    SmallPrimesArePrime();
    forall p: nat | p < 32 && IsPrime(p) ensures p in SMALL_PRIMES {
      SmallPrimesComplete(p);
    }
    var d := |f| - 1;
    if d <= 1 {
      return false;
    }
    if f[0] == 0 {
      return false;
    }
    for j := 0 to |SMALL_PRIMES|
      invariant forall i :: 0 <= i < j ==> !Eisenstein(f, SMALL_PRIMES[i])
    {
      var p := SMALL_PRIMES[j];
      var eisenstein := TestEisenstein(f, p);
      if eisenstein {
        return true;
      }
    }
    found := false;
  }

  method TestEisenstein(f: Poly, p: int) returns (holds: bool)
    requires IsPrime(p) && |f| >= 3
    ensures holds <==> Eisenstein(f, p)
  {
    hide IsPrime;
    assert p >= 2 by { PrimeIsBig(p); }
    var d := |f| - 1;
    if f[d] % p == 0 {
      return false;
    }
    var allDivisible := true;
    var i := 0;
    while i < d && allDivisible
      invariant i <= d && (allDivisible <==> forall k :: 0 <= k < i ==> Dvd(p, f[k]))
      decreases d - i
    {
      if f[i] % p != 0 {
        allDivisible := false;
      }
      i := i + 1;
    }
    if !allDivisible {
      return false;
    }
    holds := f[0] % (p * p) != 0;
  }

  // ---------- reduction modulo a prime ----------

  lemma ReductionKeepsFactors(f: Poly, fm: Poly, p: int)
    requires IsPrime(p) && |f| > 0 && !Dvd(p, f[|f| - 1]) && f[|f| - 1] != 0
    requires fm == CoefficientsModulo(f, p)
    requires Reducible(f)
    ensures ReducibleModulo(fm, p)
  {
    hide Dvd;
    hide IsPrime;
    hide Conv;
    assert p >= 2 by { PrimeIsBig(p); }
    var g: Poly, h: Poly :| Factors(f, g, h);
    FactorDegrees(f, g, h);
    LeadNotDivisible(p, g[|g| - 1], h[|h| - 1], f[|f| - 1]);
    forall k ensures Dvd(p, Coef(fm, k) - Coef(Mul(g, h), k)) {
      assert Coef(f, k) == Conv(g, h, k);
      MulCoef(g, h, k);
      CoefModulo(f, fm, k, p);
    }
    assert FactorsModulo(fm, g, h, p);
  }

  lemma CoefModulo(f: Poly, fm: Poly, k: int, p: int)
    requires p > 0 && |fm| == |f| && forall i :: 0 <= i < |f| ==> fm[i] == f[i] % p
    ensures Dvd(p, Coef(fm, k) - Coef(f, k))
  {
    hide Dvd;
    if 0 <= k < |f| {
      DvdMod(p, f[k]);
      DvdMul(p, f[k] - f[k] % p, -1);
    } else {
      DvdZero(p);
    }
  }

  const TEST_PRIMES := [2, 3, 5, 7, 11, 13, 17, 19, 23, 29, 31, 37, 41, 43, 47]

  lemma TestPrimesArePrime()
    ensures forall i :: 0 <= i < |TEST_PRIMES| ==> IsPrime(TEST_PRIMES[i])
  {
  }

  /** The list holds every prime below 48. */
  lemma TestPrimesComplete(p: int)
    requires IsPrime(p) && p < 48
    ensures p in TEST_PRIMES
  {
    NoSmallFactor(p);
  }

  function CoefficientsModulo(f: Poly, p: int): (r: Poly)
    requires p > 0
    ensures |r| == |f| && forall i :: 0 <= i < |r| ==> 0 <= r[i] < p
  {
    seq(|f|, i requires 0 <= i < |f| => f[i] % p)
  }

  /** What the filter lets through. */
  ghost predicate Passes(f: Poly)
    requires |f| > 0
  {
    || |f| <= 2
    || (f[0] != 0 && exists p: nat :: p < 32 && Eisenstein(f, p))
    || (exists p: nat :: p < 48 && IsPrime(p) && PassesModulo(f, p))
  }

  ghost predicate PassesModulo(f: Poly, p: nat)
    requires |f| > 0
  {
    p > 0 && Irreducible(CoefficientsModulo(f, p), p)
  }

  /** The filter: a yes is always right. */
  method CheckIrreducible(f: Poly) returns (yes: bool)
    requires |f| > 0 && f[|f| - 1] != 0
    ensures yes <==> Passes(f)
    ensures yes ==> !Reducible(f)
  {
    hide IsPrime;
    hide Dvd;
    hide Eisenstein;
    hide Reducible;
    hide ReducibleModulo;
    var d := |f| - 1;
    if d <= 1 {
      LowDegree(f);
      return true;
    }
    var eisenstein := EisensteinCheck(f);
    if eisenstein {
      ghost var p: nat :| p < 32 && Eisenstein(f, p);
      EisensteinIrreducible(f, p);
      return true;
    }
    TestPrimesArePrime();
    forall p: nat | p < 48 && IsPrime(p) ensures p in TEST_PRIMES {
      TestPrimesComplete(p);
    }
    for j := 0 to |TEST_PRIMES|
      invariant forall i :: 0 <= i < j ==> !PassesModulo(f, TEST_PRIMES[i])
    {
      var p := TEST_PRIMES[j];
      assert p >= 2 by { PrimeIsBig(p); }
      var fm := CoefficientsModulo(f, p);
      LeadSurvives(f, fm, p);
      if fm[d] != 0 {
        var irreducible := IsIrreducible(fm, p);
        if irreducible {
          if Reducible(f) {
            ReductionKeepsFactors(f, fm, p);
          }
          return true;
        }
      }
    }
    yes := false;
  }

  lemma LeadSurvives(f: Poly, fm: Poly, p: int)
    requires p > 0 && |f| > 0 && fm == CoefficientsModulo(f, p)
    ensures fm[|f| - 1] == 0 ==> !LeadInvertible(fm, p)
    ensures fm[|f| - 1] != 0 ==> !Dvd(p, f[|f| - 1]) && f[|f| - 1] != 0
  {
  }

  lemma LowDegree(f: Poly)
    requires 0 < |f| <= 2 && f[|f| - 1] != 0
    ensures !Reducible(f)
  {
    if Reducible(f) {
      var g: Poly, h: Poly :| Factors(f, g, h);
      FactorDegrees(f, g, h);
    }
  }

  // ---------- selection ----------

  datatype Selection = Selection(success: bool, m: int, degree: nat, f: Poly)

  /** What every successful selection satisfies. */
  ghost predicate Selected(s: Selection, n: int, degree: nat) {
    && s.success && s.degree == degree && s.m > 1
    && |s.f| == degree + 1 && s.f[degree] > 0
    && Eval(s.f, s.m) == n
    && forall i :: 0 <= i < degree ==> 0 <= s.f[i] < s.m
  }

  predicate IsFloorRoot(r: nat, n: int, degree: nat) {
    Pow(r, degree) <= n < Pow(r + 1, degree)
  }

  lemma {:induction false} PowMonotone(a: nat, b: nat, e: nat)
    requires a <= b
    ensures 0 <= Pow(a, e) <= Pow(b, e)
  {
    if e > 0 {
      PowMonotone(a, b, e - 1);
      MulMonotone(a, Pow(a, e - 1), Pow(b, e - 1));
      MulMonotone(Pow(b, e - 1), a, b);
      MulMonotone(a, 0, Pow(a, e - 1));
    }
  }

  lemma {:induction false} PowAtLeastBase(a: nat, e: nat)
    requires a >= 1 && e >= 1
    ensures Pow(a, e) >= a
  {
    if e == 1 {
      PowOne(a);
    } else {
      PowAtLeastBase(a, e - 1);
      MulMonotone(a, 1, Pow(a, e - 1));
    }
  }

  lemma FloorRootExists(n: nat, degree: nat)
    requires degree >= 1
    ensures exists r: nat :: IsFloorRoot(r, n, degree)
  {
    hide Pow;
    var r: nat := 0;
    assert Pow(0, degree) == 0 by { PowOfZero(degree); }
    while n >= Pow(r + 1, degree)
      invariant Pow(r, degree) <= n
      decreases n - r
    {
      PowAtLeastBase(r + 1, degree);
      r := r + 1;
    }
    assert IsFloorRoot(r, n, degree);
  }

  lemma PowOfZero(e: nat)
    requires e >= 1
    ensures Pow(0, e) == 0
  {
  }

  function MaxDelta(bits: nat): nat {
    if bits <= 45 then 5 else if bits <= 150 then 50 else if bits <= 250 then 200 else 500
  }

  /** The window for n, by the number of its binary digits. */
  ghost function Window(n: int): nat {
    if n < Pow(2, 45) then 5 else if n < Pow(2, 150) then 50 else if n < Pow(2, 250) then 200 else 500
  }

  lemma WindowIs(n: int)
    ensures MaxDelta(BitLength(n)) == Window(n) && (Window(n) <= 5 <==> n < Pow(2, 45))
  {
    hide Pow;
    hide BitLength;
    DigitCount(n, 45);
    DigitCount(n, 150);
    DigitCount(n, 250);
  }

  lemma {:induction false} DigitCount(n: int, k: nat)
    ensures BitLength(n) <= k <==> n < Pow(2, k)
    decreases k
  {
    PowPositive(2, k);
    if k > 0 && n > 0 {
      DigitCount(n / 2, k - 1);
    }
  }

  ghost predicate NothingBetween(n: int, lo: int, hi: int, degree: nat) {
    forall m :: lo <= m < hi ==> n < 0 || !Acceptable(n, m, degree)
  }

  datatype Candidate = Candidate(m: int, f: Poly)

  ghost predicate CandidateOk(c: Candidate, n: nat, degree: nat) {
    Selected(Selection(true, c.m, degree, c.f), n, degree) && !Reducible(c.f)
  }

  /** The expansion of n for this m has exact degree and passes the filter. */
  ghost predicate Acceptable(n: nat, m: int, degree: nat) {
    m > 1 && exists f: Poly :: IsExpansion(f, n, m, degree) && f[degree] != 0 && Passes(f)
  }

  /** One element of the search window. */
  method TryCandidate(n: nat, m: int, degree: nat) returns (c: Option<Candidate>)
    requires n > 1
    ensures c.Some? ==> c.value.m == m && CandidateOk(c.value, n, degree)
    ensures c.Some? <==> Acceptable(n, m, degree)
  {
    hide Eval;
    hide Pow;
    hide Reducible;
    hide Passes;
    if m <= 1 {
      return None;
    }
    var f := ConstructBaseM(n, m, degree);
    ghost var full: Poly :| IsExpansion(full, n, m, degree) && IsStripped(f.value, full);
    forall g: Poly | IsExpansion(g, n, m, degree) ensures g == full {
      ExpansionUnique(g, full, n, m, degree);
    }
    if |f.value| != degree + 1 {
      return None;
    }
    assert f.value == full;
    var yes := CheckIrreducible(f.value);
    if yes {
      c := Some(Candidate(m, f.value));
    } else {
      c := None;
    }
  }

  /**
   Selection.  It succeeds exactly when the degree is positive and n >= 2^degree; a success
   has f(m) = n, exact degree and digits in [0, m), and comes from the search window.  Unless
   no candidate passed the filter, f is irreducible.  The ranking is left to the environment.
   */
  method Select(n: int, degree: nat)
    returns (result: Selection, ghost fallback: bool, ghost root: nat)
    ensures result.success <==> degree > 0 && n >= Pow(2, degree)
    ensures result.success ==> Selected(result, n, degree)
    ensures result.success && !fallback ==> !Reducible(result.f)
    ensures result.success ==> IsFloorRoot(root, n, degree)
    ensures result.success ==> root - Window(n) <= result.m <= root + Window(n)
    ensures result.success && fallback ==> result.m == root
    ensures result.success ==> (fallback <==> NothingBetween(n, root - Window(n), root + Window(n) + 1, degree))
    ensures result.success && !fallback ==> Acceptable(n, result.m, degree)
    ensures result.success && !fallback && n < Pow(2, 45) ==> NothingBetween(n, root - Window(n), result.m, degree)
  {
    hide Eval;
    hide Pow;
    hide Reducible;
    hide BitLength;
    hide MaxDelta;
    hide Acceptable;
    hide Window;
    WindowIs(n);
    var failure := Selection(false, 0, 0, []);
    fallback, root := false, 0;
    if degree == 0 || n <= 1 {
      SmallInput(n, degree);
      return failure, fallback, root;
    }
    FloorRootExists(n, degree);
    var base: nat :| IsFloorRoot(base, n, degree);
    RootAtLeastTwo(base, n, degree);
    root := base;
    if base <= 1 {
      return failure, fallback, root;
    }
    var maxDelta := MaxDelta(BitLength(n));
    var candidates := CollectCandidates(n, base, degree, maxDelta);
    if |candidates| == 0 {
      var f := ConstructBaseM(n, base, degree);
      FallbackExact(f.value, n, base, degree);
      fallback := true;
      return Selection(true, base, degree, f.value), fallback, root;
    }
    if maxDelta <= 5 || |candidates| == 1 {
      assert CandidateOk(candidates[0], n, degree);
      return Selection(true, candidates[0].m, degree, candidates[0].f), fallback, root;
    }
    var best := 0;
    for i := 0 to |candidates|
      invariant 0 <= best < |candidates|
    {
      var better: bool := *;
      if better {
        best := i;
      }
    }
    assert CandidateOk(candidates[best], n, degree);
    result := Selection(true, candidates[best].m, degree, candidates[best].f);
  }

  method CollectCandidates(n: nat, base: nat, degree: nat, maxDelta: nat)
    returns (candidates: seq<Candidate>)
    requires n > 1
    ensures forall i :: 0 <= i < |candidates| ==>
      && CandidateOk(candidates[i], n, degree) && base - maxDelta <= candidates[i].m <= base + maxDelta
      && Acceptable(n, candidates[i].m, degree)
    ensures if |candidates| == 0 then NothingBetween(n, base - maxDelta, base + maxDelta + 1, degree)
            else NothingBetween(n, base - maxDelta, candidates[0].m, degree)
  {
    hide CandidateOk;
    hide Acceptable;
    candidates := [];
    for delta := 0 - maxDelta to maxDelta + 1
      invariant forall i :: 0 <= i < |candidates| ==>
        && CandidateOk(candidates[i], n, degree) && base - maxDelta <= candidates[i].m <= base + maxDelta
        && Acceptable(n, candidates[i].m, degree)
      invariant if |candidates| == 0 then NothingBetween(n, base - maxDelta, base + delta, degree)
                else NothingBetween(n, base - maxDelta, candidates[0].m, degree)
    {
      var c := TryCandidate(n, base + delta, degree);
      if c.Some? {
        candidates := candidates + [c.value];
      }
    }
  }

  lemma SmallInput(n: int, degree: nat)
    requires degree == 0 || n <= 1
    ensures !(degree > 0 && n >= Pow(2, degree))
  {
    if degree > 0 {
      PowAtLeastBase(2, degree);
    }
  }

  lemma RootAtLeastTwo(r: nat, n: nat, degree: nat)
    requires degree >= 1 && IsFloorRoot(r, n, degree)
    ensures r >= 2 <==> n >= Pow(2, degree)
  {
    if r >= 2 {
      PowMonotone(2, r, degree);
    } else {
      PowMonotone(r + 1, 2, degree);
    }
  }

  /** The fallback keeps the exact degree, because the floor root is not too large. */
  lemma FallbackExact(f: Poly, n: nat, m: nat, degree: nat)
    requires m > 1 && IsFloorRoot(m, n, degree)
    requires exists full: Poly :: IsExpansion(full, n, m, degree) && IsStripped(f, full)
    ensures Selected(Selection(true, m, degree, f), n, degree)
  {
    hide Eval;
    hide Pow;
    var full: Poly :| IsExpansion(full, n, m, degree) && IsStripped(f, full);
    LeadingPositive(full, n, m, degree);
    assert f == full;
  }
}
