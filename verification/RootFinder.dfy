module RootFinder {
  /**
   Roots of an integer polynomial modulo a prime (src/factor_base/builder.cpp): brute force
   for small primes; otherwise gcd(x^p - x, f) followed by recursive random splitting.
   Every random draw is left to the environment.
   */

  import opened NumberTheory
  import opened Polynomials
  import opened FieldRoots
  import opened ModularPoly

  /** The list holds every root of f in [0, p) exactly once. */
  ghost predicate ListsRoots(roots: seq<int>, f: Poly, p: nat)
    requires p > 0
  {
    && (forall x :: x in roots <==> x in Roots(f, p))
    && (forall i, j :: 0 <= i < j < |roots| ==> roots[i] != roots[j])
  }

  // ---------- exact division ----------

  /** The quotient loop of the builder: quotient and remainder by any nonzero divisor. */
  method PolyDivMod(a: Poly, b: Poly, p: nat) returns (q: Poly, ghost r: Poly)
    requires IsPrime(p) && Normal(a, p) && Normal(b, p)
    ensures |b| == 0 || |a| < |b| ==> q == []
    ensures |b| > 0 ==> Cong(a, Add(Mul(q, b), r), p) && |r| < |b|
    ensures Normal(q, p) && |q| <= if |a| < |b| then 0 else |a| - |b| + 1
  {
    hide Dvd;
    hide Mul;
    hide Cong;
    hide Coef;
    hide Pow;
    hide IsPrime;
    hide SameResidue;
    assert p >= 2 by { PrimeIsBig(p); }
    q, r := [], a;
    if |b| == 0 {
      return;
    }
    EmptyQuotient(a, b, [], p);
    if |a| < |b| {
      return;
    }
    var lead := b[|b| - 1];
    NotDvdSmall(p, lead);
    var inv := PowerMod(lead, p - 2, p);
    LeadInverse(p, lead, inv);
    var rem := a;
    var quotient := seq(|a| - |b| + 1, _ => 0);
    EmptyQuotient(a, b, quotient, p);
    for i := |a| - |b| + 1 downto 0
      invariant |rem| == |a| && |quotient| == |a| - |b| + 1
      invariant forall k :: 0 <= k < |rem| ==> 0 <= rem[k] < p
      invariant forall k :: 0 <= k < |quotient| ==> 0 <= quotient[k] < p
      invariant forall k :: i + |b| - 1 <= k < |rem| ==> rem[k] == 0
      invariant forall k :: 0 <= k < i ==> quotient[k] == 0
      invariant Cong(a, Add(Mul(quotient, b), rem), p)
    {
      var c := (rem[i + |b| - 1] * inv) % p;
      var rem' := SubtractRowWrapped(rem, c, b, i, p);
      LeadCancels(p, rem[i + |b| - 1], lead, inv);
      assert Dvd(p, rem'[i + (|b| - 1)] - (rem[i + (|b| - 1)] - c * b[|b| - 1]));
      TopVanishes(p, rem'[i + |b| - 1], rem[i + |b| - 1], c * lead);
      CancelRow(rem, c, b, i, rem', p);
      SetCoef(quotient, i, c);
      DivisionStep(a, quotient, b, rem, c, i, quotient[i := c], rem', p);
      rem, quotient := rem', quotient[i := c];
    }
    q := Strip(quotient);
    r := rem[..|b| - 1];
    SameCoefs(quotient, q, p);
    ShorterRemainder(rem, r, p);
    CongRefl(b, p);
    CongMul(quotient, q, b, b, p);
    CongAdd(Mul(quotient, b), Mul(q, b), rem, r, p);
    CongTrans(a, Add(Mul(quotient, b), rem), Add(Mul(q, b), r), p);
  }

  lemma ShorterRemainder(rem: Poly, r: Poly, p: nat)
    requires p > 0 && |r| <= |rem| && r == rem[..|r|]
    requires forall k :: |r| <= k < |rem| ==> rem[k] == 0
    ensures Cong(rem, r, p)
  {
    SameCoefs(rem, r, p);
  }

  /** rem - c * x^s * b, every coefficient wrapped as (rem + p - sub) % p. */
  method SubtractRowWrapped(rem: Poly, c: int, b: Poly, s: nat, p: nat) returns (r: Poly)
    requires p >= 2 && s + |b| <= |rem|
    requires forall k :: 0 <= k < |rem| ==> 0 <= rem[k] < p
    ensures |r| == |rem| && forall k :: 0 <= k < |r| ==> 0 <= r[k] < p
    ensures forall k :: 0 <= k < |r| && !(s <= k < s + |b|) ==> r[k] == rem[k]
    ensures forall t :: 0 <= t < |b| ==> Dvd(p, r[s + t] - (rem[s + t] - c * b[t]))
  {
    hide Dvd;
    r := rem;
    for j := 0 to |b|
      invariant |r| == |rem| && forall k :: 0 <= k < |r| ==> 0 <= r[k] < p
      invariant forall k :: 0 <= k < |r| && !(s <= k < s + j) ==> r[k] == rem[k]
      invariant forall t :: 0 <= t < j ==> Dvd(p, r[s + t] - (rem[s + t] - c * b[t]))
    {
      var sub := (c * b[j]) % p;
      WrappedTerm(p, r[s + j], c, b[j]);
      r := r[s + j := (r[s + j] + p - sub) % p];
    }
  }

  lemma WrappedTerm(p: int, x: int, y: int, z: int)
    requires p > 0
    ensures var w := (x + p - (y * z) % p) % p;
            0 <= w < p && Dvd(p, w - (x - y * z))
  {
    hide Dvd;
    var t := (y * z) % p;
    DvdMod(p, y * z);
    DvdMod(p, x + p - t);
    WrapDifference(p, x, y * z, t, (x + p - t) % p);
  }

  lemma WrapDifference(p: int, x: int, m: int, t: int, w: int)
    requires p > 0 && Dvd(p, m - t) && Dvd(p, (x + p - t) - w)
    ensures Dvd(p, w - (x - m))
  {
    hide Dvd;
    DvdWitness(p, p, 1);
    DvdAdd(p, m - t, p);
    DvdAdd(p, m - t + p, (x + p - t) - w);
  }

  /** A multiple of b of smaller degree than b is zero modulo p. */
  lemma SmallMultipleVanishes(h: Poly, b: Poly, r: Poly, p: nat)
    requires IsPrime(p) && LeadInvertible(b, p) && |r| < |b| && Cong(r, Mul(h, b), p)
    ensures Cong(r, [], p)
  {
    hide Dvd;
    hide Mul;
    hide Conv;
    var t := Trim(h, p);
    TrimCong(h, p);
    CongRefl(b, p);
    CongMul(h, t, b, b, p);
    CongTrans(r, Mul(h, b), Mul(t, b), p);
    if |t| == 0 {
      EmptyProducts(t, b, p);
      CongSym([], Mul(t, b), p);
      CongTrans(r, Mul(t, b), [], p);
    } else {
      var n := |t| + |b| - 2;
      TopCoefInvertible(t, b, p);
      assert Dvd(p, Coef(r, n) - Coef(Mul(t, b), n));
      DvdMul(p, 0 - Coef(Mul(t, b), n), -1);
      assert false;
    }
  }

  /** When b divides a, the builder's quotient is exact. */
  lemma ExactDivision(a: Poly, b: Poly, q: Poly, r: Poly, p: nat)
    requires IsPrime(p) && LeadInvertible(b, p) && PolyDvd(b, a, p)
    requires Cong(a, Add(Mul(q, b), r), p) && |r| < |b|
    ensures Cong(a, Mul(q, b), p)
  {
    hide Dvd;
    hide Mul;
    hide Cong;
    hide LeadInvertible;
    var h: Poly :| Cong(a, Mul(h, b), p);
    var d := Add(h, Scale(-1, q));
    DifferenceOfMultiples(a, h, q, b, r, p);
    SmallMultipleVanishes(d, b, r, p);
    DropRemainder(a, Mul(q, b), r, p);
  }

  lemma DifferenceOfMultiples(a: Poly, h: Poly, q: Poly, b: Poly, r: Poly, p: nat)
    requires p > 0 && Cong(a, Mul(h, b), p) && Cong(a, Add(Mul(q, b), r), p)
    ensures Cong(r, Mul(Add(h, Scale(-1, q)), b), p)
  {
    hide Dvd;
    hide Mul;
    hide Conv;
    forall k ensures Dvd(p, Coef(r, k) - Coef(Mul(Add(h, Scale(-1, q)), b), k)) {
      MulAddCoef(h, Scale(-1, q), b, k);
      MulCoef(Scale(-1, q), b, k);
      MulCoef(q, b, k);
      ConvScaleLeft(-1, q, b, k);
      assert Dvd(p, Coef(a, k) - Coef(Mul(h, b), k));
      assert Dvd(p, Coef(a, k) - Coef(Add(Mul(q, b), r), k));
      DvdAdd(p, Coef(a, k) - Coef(Mul(h, b), k), Coef(a, k) - Coef(Add(Mul(q, b), r), k));
    }
  }

  lemma DropRemainder(a: Poly, m: Poly, r: Poly, p: nat)
    requires p > 0 && Cong(a, Add(m, r), p) && Cong(r, [], p)
    ensures Cong(a, m, p)
  {
    hide Dvd;
    forall k ensures Dvd(p, Coef(a, k) - Coef(m, k)) {
      assert Dvd(p, Coef(a, k) - Coef(Add(m, r), k));
      assert Dvd(p, Coef(r, k) - Coef([], k));
      DvdAdd(p, Coef(a, k) - Coef(Add(m, r), k), Coef(r, k) - Coef([], k));
    }
  }

  /** An exact quotient has the degree the degrees of a and b leave over. */
  lemma QuotientDegree(a: Poly, b: Poly, q: Poly, p: nat)
    requires p > 0 && LeadInvertible(a, p) && |b| > 0 && Cong(a, Mul(q, b), p)
    requires |q| <= |a| - |b| + 1
    ensures |q| == |a| - |b| + 1
  {
    hide Dvd;
    hide Mul;
    hide Conv;
    var n := |a| - 1;
    assert Dvd(p, Coef(a, n) - Coef(Mul(q, b), n));
    if |q| < |a| - |b| + 1 {
      if |q| == 0 {
        EmptyProductCoef(q, b, n);
      } else {
        TopCoef(q, b, n);
        MulCoef(q, b, n);
      }
      assert false;
    }
  }

  // ---------- evaluation as the builder computes it ----------

  /** Sum of coefficient times running power, reduced at every step. */
  method EvaluateByPowers(f: Poly, r: nat, p: nat) returns (val: int)
    requires p >= 2
    ensures 0 <= val < p && SameResidue(p, val, Eval(f, r))
  {
    hide SameResidue;
    val := 0;
    var rp := 1;
    SameResidueRefl(p, 0);
    SameResidueRefl(p, 1);
    for i := 0 to |f|
      invariant 0 <= val < p && SameResidue(p, rp, Pow(r, i))
      invariant SameResidue(p, val, Eval(f[..i], r))
    {
      AccumulateTerm(p, val, f[i], rp, f[..i], r, i);
      assert f[..i + 1] == f[..i] + [f[i]];
      val := (val + (f[i] * rp) % p) % p;
      SameResidueRefl(p, r);
      SameResidueMul(p, r, r, rp, Pow(r, i));
      ResidueOfMod(p, r * rp);
      SameResidueTrans(p, (r * rp) % p, r * rp, Pow(r, i + 1));
      assert rp * r == r * rp;
      rp := (rp * r) % p;
    }
    assert f[..|f|] == f;
  }

  lemma {:induction false} EvalAppend(f: Poly, c: int, x: int)
    ensures Eval(f + [c], x) == Eval(f, x) + c * Pow(x, |f|)
  {
    if |f| == 0 {
      EvalConstant([c], x);
      assert f + [c] == [c];
    } else {
      EvalAppend(f[1..], c, x);
      assert (f + [c])[1..] == f[1..] + [c];
      EvalScaleStep(x, Eval(f[1..], x), 1, c * Pow(x, |f| - 1));
      PullFactor(x, c, Pow(x, |f| - 1));
    }
  }

  lemma PullFactor(x: int, c: int, t: int)
    ensures x * (c * t) == c * (x * t)
  {
  }

  lemma AccumulateTerm(p: int, val: int, c: int, rp: int, f: Poly, r: int, i: nat)
    requires p > 0 && |f| == i && SameResidue(p, val, Eval(f, r)) && SameResidue(p, rp, Pow(r, i))
    ensures SameResidue(p, (val + (c * rp) % p) % p, Eval(f + [c], r))
  {
    hide SameResidue;
    hide Dvd;
    EvalAppend(f, c, r);
    SameResidueRefl(p, c);
    SameResidueMul(p, c, c, rp, Pow(r, i));
    ResidueOfMod(p, c * rp);
    SameResidueTrans(p, (c * rp) % p, c * rp, c * Pow(r, i));
    SameResidueDvd(p, val, Eval(f, r));
    SameResidueDvd(p, (c * rp) % p, c * Pow(r, i));
    DvdAdd(p, val - Eval(f, r), (c * rp) % p - c * Pow(r, i));
    SameResidueDvd(p, val + (c * rp) % p, Eval(f + [c], r));
    ResidueOfMod(p, val + (c * rp) % p);
    SameResidueTrans(p, (val + (c * rp) % p) % p, val + (c * rp) % p, Eval(f + [c], r));
  }

  lemma ResidueDecidesRoot(p: int, val: int, x: int)
    requires p > 0 && 0 <= val < p && SameResidue(p, val, x)
    ensures val == 0 <==> Dvd(p, x)
  {
  }

  // ---------- splitting a product of distinct linear factors ----------

  /** The root -b/a of a linear polynomial a*x + b. */
  lemma LinearRoot(f: Poly, root: int, inv: int, p: nat)
    requires IsPrime(p) && Normal(f, p) && |f| == 2
    requires SameResidue(p, f[1] * inv, 1) && root == ((p - f[0]) * inv) % p
    ensures Roots(f, p) == {root}
  {
    hide Dvd;
    hide SameResidue;
    hide IsPrime;
    NormalLead(f, p);
    LinearRootVanishes(p, f[1], f[0], inv, root);
    EvalLinear(f, root);
    assert p >= 2 by { PrimeIsBig(p); }
    RootsBound(f, p);
    assert root in Roots(f, p);
    SingletonRoots(Roots(f, p), root);
  }

  lemma SingletonRoots(s: set<int>, x: int)
    requires x in s && |s| <= 1
    ensures s == {x}
  {
    assert |s - {x}| == 0;
    assert s == (s - {x}) + {x};
  }

  lemma EvalLinear(f: Poly, x: int)
    requires |f| == 2
    ensures Eval(f, x) == f[0] + x * f[1]
  {
    EvalConstant(f[1..], x);
  }

  lemma LinearRootVanishes(p: int, a: int, b: int, inv: int, root: int)
    requires p > 0 && SameResidue(p, a * inv, 1) && root == ((p - b) * inv) % p
    ensures Dvd(p, b + root * a)
  {
    hide Dvd;
    hide SameResidue;
    ModMulLeft(p, (p - b) * inv, a);
    SameResidueRefl(p, p - b);
    SameResidueMul(p, p - b, p - b, a * inv, 1);
    assert ((p - b) * inv) * a == (p - b) * (a * inv);
    SameResidueTrans(p, root * a, (p - b) * (a * inv), (p - b) * 1);
    SameResidueDvd(p, root * a, (p - b) * 1);
    DvdWitness(p, p, 1);
    DvdAdd(p, root * a - (p - b), p);
  }

  /** Exhaustive search in ascending order, stopping once `deg` roots are known. */
  method BruteForceRoots(f: Poly, p: nat) returns (roots: seq<int>)
    requires IsPrime(p) && Normal(f, p) && |f| > 0
    ensures ListsRoots(roots, f, p)
  {
    hide Dvd;
    hide SameResidue;
    hide Eval;
    assert p >= 2 by { PrimeIsBig(p); }
    NormalLead(f, p);
    roots := [];
    var r := 0;
    while r < p && |roots| < |f| - 1
      invariant 0 <= r <= p
      invariant forall x :: x in roots <==> 0 <= x < r && x in Roots(f, p)
      invariant forall i :: 0 <= i < |roots| ==> roots[i] < r
      invariant forall i, j :: 0 <= i < j < |roots| ==> roots[i] < roots[j]
      decreases p - r
    {
      var val := EvaluateByPowers(f, r, p);
      ResidueDecidesRoot(p, val, Eval(f, r));
      if val == 0 {
        roots := roots + [r];
      }
      r := r + 1;
    }
    if r < p {
      EnoughRoots(roots, f, p);
    }
  }

  /** A strictly ascending list of deg f roots is complete. */
  lemma EnoughRoots(roots: seq<int>, f: Poly, p: nat)
    requires IsPrime(p) && LeadInvertible(f, p) && |roots| >= |f| - 1
    requires forall x :: x in roots ==> x in Roots(f, p)
    requires forall i, j :: 0 <= i < j < |roots| ==> roots[i] < roots[j]
    ensures forall x :: x in Roots(f, p) ==> x in roots
  {
    hide Dvd;
    RootsBound(f, p);
    var listed := set x | x in roots;
    AscendingCount(roots);
    assert listed <= Roots(f, p);
    if listed != Roots(f, p) {
      ProperSubsetSize(listed, Roots(f, p));
      assert false;
    }
  }

  lemma ProperSubsetSize(a: set<int>, b: set<int>)
    requires a < b
    ensures |a| < |b|
  {
    SubsetSize(a, b);
    assert b == a + (b - a);
    assert |b| == |a| + |b - a|;
  }

  lemma {:induction false} AscendingCount(s: seq<int>)
    requires forall i, j :: 0 <= i < j < |s| ==> s[i] != s[j]
    ensures |set x | x in s| == |s|
  {
    if |s| > 0 {
      var t := s[..|s| - 1];
      AscendingCount(t);
      assert (set x | x in s) == (set x | x in t) + {s[|s| - 1]};
    } else {
      assert (set x | x in s) == {};
    }
  }

  /**
   Roots of a polynomial by random splitting.  Whatever is drawn, the call returns, and a
   polynomial with as many distinct roots as its degree has each of them listed once.
   */
  method ExtractRoots(f: Poly, p: nat) returns (roots: seq<int>)
    requires IsPrime(p) && Normal(f, p)
    ensures SplitsDistinct(f, p) ==> ListsRoots(roots, f, p) && |roots| == |f| - 1
    decreases |f|
  {
    hide Dvd;
    hide Cong;
    hide Mul;
    hide Eval;
    hide SameResidue;
    hide IsGcd;
    hide PolyDvd;
    hide Roots;
    hide IsPrime;
    hide Pow;
    assert p >= 2 by { PrimeIsBig(p); }
    if |f| <= 1 {
      if |f| == 1 { ConstantHasNoRoots(f, p); }
      return [];
    }
    NormalLead(f, p);
    if |f| == 2 {
      var inv := PowerMod(f[1], p - 2, p);
      LeadInverse(p, f[1], inv);
      var root := ((p - f[0]) * inv) % p;
      LinearRoot(f, root, inv, p);
      return [root];
    }
    for attempt := 0 to 100 {
      var a :| 0 <= a < p;
      var power := Power([a, 1], (p - 1) / 2, f, p);
      var c0 := ((if |power| > 0 then power[0] else 0) + p - 1) % p;
      power := Strip(if |power| > 0 then power[0 := c0] else [c0]);
      var factor := Gcd(power, f, p);
      if 1 < |factor| < |f| {
        var roots1 := ExtractRoots(factor, p);
        var other, r := PolyDivMod(f, factor, p);
        SplitFacts(f, power, factor, other, r, p);
        var roots2 := ExtractRoots(other, p);
        roots := roots1 + roots2;
        if SplitsDistinct(f, p) {
          FactorsSplit(f, other, factor, p);
          JoinRoots(roots1, roots2, factor, other, f, p);
        }
        return;
      }
    }
    roots := BruteForceRoots(f, p);
    if SplitsDistinct(f, p) {
      ListedCount(roots, f, p);
    }
  }

  lemma ConstantHasNoRoots(f: Poly, p: nat)
    requires IsPrime(p) && Normal(f, p) && |f| == 1
    ensures ListsRoots([], f, p)
  {
    NormalLead(f, p);
    RootsBound(f, p);
  }

  lemma ListedCount(roots: seq<int>, f: Poly, p: nat)
    requires p > 0 && ListsRoots(roots, f, p)
    ensures |roots| == |Roots(f, p)|
  {
    hide Dvd;
    AscendingCount(roots);
    assert (set x | x in roots) == Roots(f, p);
  }

  lemma SplitFacts(f: Poly, power: Poly, factor: Poly, other: Poly, r: Poly, p: nat)
    requires IsPrime(p) && Normal(f, p) && Normal(factor, p) && Normal(other, p)
    requires 1 < |factor| < |f| && IsGcd(factor, power, f, p)
    requires Cong(f, Add(Mul(other, factor), r), p) && |r| < |factor|
    requires |other| <= |f| - |factor| + 1
    ensures Cong(f, Mul(other, factor), p) && |other| + |factor| == |f| + 1
    ensures LeadInvertible(other, p) && LeadInvertible(factor, p)
  {
    hide Cong;
    hide Mul;
    hide PolyDvd;
    hide IsRoot;
    NormalLead(f, p);
    NormalLead(factor, p);
    PolyDvdSelf(factor, p);
    assert PolyDvd(factor, f, p);
    ExactDivision(f, factor, other, r, p);
    QuotientDegree(f, factor, other, p);
    NormalLead(other, p);
  }

  lemma PolyDvdSelf(g: Poly, p: nat)
    requires p > 0
    ensures PolyDvd(g, g, p)
  {
    MulOneLeft(g, p);
    CongSym(Mul([1], g), g, p);
    PolyDvdIntro(g, g, [1], p);
  }

  lemma JoinRoots(roots1: seq<int>, roots2: seq<int>, g: Poly, h: Poly, f: Poly, p: nat)
    requires p > 0 && ListsRoots(roots1, g, p) && ListsRoots(roots2, h, p)
    requires Roots(f, p) == Roots(h, p) + Roots(g, p) && Roots(h, p) * Roots(g, p) == {}
    ensures ListsRoots(roots1 + roots2, f, p)
  {
    hide Roots;
    var s := roots1 + roots2;
    forall i, j | 0 <= i < j < |s| ensures s[i] != s[j] {
      if i < |roots1| <= j {
        assert s[i] == roots1[i] && s[j] == roots2[j - |roots1|];
        assert s[i] !in Roots(h, p) * Roots(g, p);
      }
    }
  }

  // ---------- all roots of f modulo p ----------

  datatype RootsResult = Found(roots: seq<int>) | NotPrime | ZeroPolynomial

  /** Horner evaluation modulo p of a polynomial with arbitrary integer coefficients. */
  method EvaluateMod(f: Poly, x: nat, p: nat) returns (result: int)
    requires p >= 2
    ensures 0 <= result < p && SameResidue(p, result, Eval(f, x))
  {
    hide SameResidue;
    result := 0;
    SameResidueRefl(p, 0);
    for i := |f| downto 0
      invariant 0 <= result < p && SameResidue(p, result, Eval(f[i..], x))
    {
      HornerStep(p, result, f[i], x, f[i + 1..]);
      assert f[i..] == [f[i]] + f[i + 1..];
      result := ((result * x) % p + f[i] % p) % p;
    }
    assert f[0..] == f;
  }

  lemma HornerStep(p: int, result: int, c: int, x: int, rest: Poly)
    requires p > 0 && SameResidue(p, result, Eval(rest, x))
    ensures SameResidue(p, ((result * x) % p + c % p) % p, Eval([c] + rest, x))
  {
    hide SameResidue;
    hide Dvd;
    var v := Eval(rest, x);
    assert ([c] + rest)[1..] == rest;
    assert result * x == x * result;
    SameResidueRefl(p, x);
    SameResidueMul(p, x, x, result, v);
    ResidueOfMod(p, x * result);
    SameResidueTrans(p, (x * result) % p, x * result, x * v);
    SameResidueDvd(p, (x * result) % p, x * v);
    ResidueOfMod(p, c);
    SameResidueDvd(p, c % p, c);
    DvdAdd(p, (x * result) % p - x * v, c % p - c);
    SameResidueDvd(p, (x * result) % p + c % p, x * v + c);
    ResidueOfMod(p, (x * result) % p + c % p);
    SameResidueTrans(p, ((x * result) % p + c % p) % p, (x * result) % p + c % p, x * v + c);
  }

  method FindRoots(f: Poly, p: nat) returns (result: RootsResult)
    ensures result == NotPrime <==> !IsPrime(p)
    ensures result == ZeroPolynomial <==> IsPrime(p) && p >= 64 && ZeroMod(f, p)
    ensures result.Found? ==> ListsRoots(result.roots, f, p)
    ensures result.Found? && p < 64 ==> forall i, j :: 0 <= i < j < |result.roots| ==> result.roots[i] < result.roots[j]
  {
    if p < 2 || !IsPrime(p) {
      return NotPrime;
    }
    result := FindRootsUnchecked(f, p);
  }

  method FindRootsUnchecked(f: Poly, p: nat) returns (result: RootsResult)
    requires IsPrime(p)
    ensures !result.NotPrime?
    ensures result == ZeroPolynomial <==> p >= 64 && ZeroMod(f, p)
    ensures result.Found? ==> ListsRoots(result.roots, f, p)
    ensures result.Found? && p < 64 ==> forall i, j :: 0 <= i < j < |result.roots| ==> result.roots[i] < result.roots[j]
  {
    hide Dvd;
    hide Cong;
    hide CongMod;
    hide Mul;
    hide Eval;
    hide SameResidue;
    hide IsGcd;
    hide PolyDvd;
    hide Roots;
    hide IsPrime;
    hide ZeroMod;
    hide FrobeniusDifference;
    assert p >= 2 by { PrimeIsBig(p); }
    if p < 64 {
      var all := AllRootsAscending(f, p);
      return Found(all);
    }
    var fm := NormalizedCoefficients(f, p);
    NormalFormSize(fm, f, p);
    SameRoots(fm, f, p);
    if |fm| == 0 {
      return ZeroPolynomial;
    }
    if |fm| == 1 {
      ConstantHasNoRoots(fm, p);
      SameListing([], fm, f, p);
      return Found([]);
    }
    NormalLead(fm, p);
    var x: Poly := [0, 1];
    var xp := Power(x, p, fm, p);
    var diff := Subtract(xp, x, p);
    var g := Gcd(diff, fm, p);
    FrobeniusGcd(f, fm, xp, diff, g, p);
    if |g| <= 1 {
      if |g| == 1 { ConstantHasNoRoots(g, p); }
      SameListing([], g, f, p);
      return Found([]);
    }
    var roots := ExtractRoots(g, p);
    SameListing(roots, g, f, p);
    result := Found(roots);
  }

  method AllRootsAscending(f: Poly, p: nat) returns (roots: seq<int>)
    requires IsPrime(p)
    ensures ListsRoots(roots, f, p)
    ensures forall i, j :: 0 <= i < j < |roots| ==> roots[i] < roots[j]
  {
    hide Dvd;
    hide Eval;
    hide SameResidue;
    assert p >= 2 by { PrimeIsBig(p); }
    roots := [];
    for r := 0 to p
      invariant forall x :: x in roots <==> 0 <= x < r && x in Roots(f, p)
      invariant forall i :: 0 <= i < |roots| ==> roots[i] < r
      invariant forall i, j :: 0 <= i < j < |roots| ==> roots[i] < roots[j]
    {
      var val := EvaluateMod(f, r, p);
      ResidueDecidesRoot(p, val, Eval(f, r));
      if val == 0 {
        roots := roots + [r];
      }
    }
  }

  lemma SameListing(roots: seq<int>, g: Poly, f: Poly, p: nat)
    requires p > 0 && Roots(g, p) == Roots(f, p) && ListsRoots(roots, g, p)
    ensures ListsRoots(roots, f, p)
  {
  }

  lemma SameRoots(g: Poly, f: Poly, p: nat)
    requires p > 0 && Cong(g, f, p)
    ensures Roots(g, p) == Roots(f, p)
  {
    hide Dvd;
    hide Cong;
    forall r ensures r in Roots(g, p) <==> r in Roots(f, p) {
      EvalCong(g, f, r, p);
      DvdTransfer(p, Eval(g, r), Eval(f, r));
    }
  }

  /** gcd(x^p - x, f) has exactly the roots of f, as many as its degree. */
  lemma FrobeniusGcd(f: Poly, fm: Poly, xp: Poly, diff: Poly, g: Poly, p: nat)
    requires IsPrime(p) && Normal(g, p) && LeadInvertible(fm, p) && Roots(fm, p) == Roots(f, p)
    requires CongMod(xp, PolyPow([0, 1], p), fm, p) && Cong(Add(diff, [0, 1]), xp, p)
    requires IsGcd(g, diff, fm, p)
    ensures Roots(g, p) == Roots(f, p) && SplitsDistinct(g, p)
  {
    hide Dvd;
    hide Cong;
    hide CongMod;
    hide Mul;
    hide Eval;
    hide PolyDvd;
    hide Roots;
    hide IsPrime;
    hide FrobeniusDifference;
    assert p >= 2 by { PrimeIsBig(p); }
    assert |g| > 0 by { GcdNonzero(g, diff, fm, p); }
    NormalLead(g, p);
    FrobeniusMultiple(fm, xp, diff, p);
    var u: Poly :| Cong(FrobeniusDifference(p), Add(Mul(u, fm), diff), p);
    GcdRoots(fm, diff, g, u, p);
    PolyDvdSelf(g, p);
    assert PolyDvd(g, diff, p) && PolyDvd(g, fm, p);
    PolyDvdCombination(g, u, fm, diff, p);
    PolyDvdCong(g, Add(Mul(u, fm), diff), FrobeniusDifference(p), p);
    DividesFrobenius(g, p);
  }

  lemma DividesFrobenius(g: Poly, p: nat)
    requires IsPrime(p) && LeadInvertible(g, p) && PolyDvd(g, FrobeniusDifference(p), p)
    ensures SplitsDistinct(g, p)
  {
    hide Cong;
    hide Mul;
    hide LeadInvertible;
    hide SplitsDistinct;
    hide FrobeniusDifference;
    var h: Poly :| Cong(FrobeniusDifference(p), Mul(h, g), p);
    CongCommutes(h, g, p);
    CongTrans(FrobeniusDifference(p), Mul(h, g), Mul(g, h), p);
    DivisorOfFrobenius(g, h, p);
  }

  lemma GcdNonzero(g: Poly, a: Poly, b: Poly, p: nat)
    requires p > 0 && IsGcd(g, a, b, p) && LeadInvertible(b, p)
    ensures |g| > 0
  {
    hide Cong;
    hide Mul;
    hide Dvd;
    if |g| == 0 {
      assert g == [];
      PolyDvdSelf(g, p);
      assert PolyDvd(g, b, p);
      var q: Poly :| Cong(b, Mul(q, g), p);
      ZeroDivides(b, q, p);
      assert false;
    }
  }

  lemma ZeroDivides(b: Poly, q: Poly, p: nat)
    requires p > 0 && |b| > 0 && Cong(b, Mul(q, []), p)
    ensures Dvd(p, b[|b| - 1])
  {
    hide Dvd;
    hide Mul;
    EmptyProductCoef(q, [], |b| - 1);
    assert Dvd(p, Coef(b, |b| - 1) - Coef(Mul(q, []), |b| - 1));
  }

  lemma {:induction false} PowerOfX(e: nat, k: int)
    ensures Coef(PolyPow([0, 1], e), k) == Coef(Monomial(1, e), k)
  {
    hide Mul;
    hide Conv;
    if e > 0 {
      var rest := PolyPow([0, 1], e - 1);
      PowerOfX(e - 1, k - 1);
      MulCoef([0, 1], rest, k);
      assert [0, 1] == Monomial(1, 1) by { assert Monomial(1, 1) == Shift(Monomial(1, 0)); }
      ConvMonomial(1, 1, rest, k);
    }
  }

  /** x^p - x is diff plus a multiple of f. */
  lemma FrobeniusMultiple(fm: Poly, xp: Poly, diff: Poly, p: nat)
    requires p > 1 && CongMod(xp, PolyPow([0, 1], p), fm, p) && Cong(Add(diff, [0, 1]), xp, p)
    ensures exists u: Poly :: Cong(FrobeniusDifference(p), Add(Mul(u, fm), diff), p)
  {
    hide Mul;
    hide Dvd;
    var xe := PolyPow([0, 1], p);
    var v: Poly :| Cong(xp, Add(xe, Mul(v, fm)), p);
    var u := Scale(-1, v);
    forall k
      ensures Dvd(p, Coef(FrobeniusDifference(p), k) - Coef(Add(Mul(u, fm), diff), k))
    {
      PowerOfX(p, k);
      NegatedMultiple(v, fm, k);
      assert Dvd(p, Coef(xp, k) - Coef(Add(xe, Mul(v, fm)), k));
      assert Dvd(p, Coef(Add(diff, [0, 1]), k) - Coef(xp, k));
      DvdAdd(p, Coef(Add(diff, [0, 1]), k) - Coef(xp, k), Coef(xp, k) - Coef(Add(xe, Mul(v, fm)), k));
      DvdMul(p, Coef(Add(diff, [0, 1]), k) - Coef(Add(xe, Mul(v, fm)), k), -1);
      MonomialCoef(-1, 1, k);
    }
    assert Cong(FrobeniusDifference(p), Add(Mul(u, fm), diff), p);
  }

  lemma NegatedMultiple(v: Poly, f: Poly, k: int)
    ensures Coef(Mul(Scale(-1, v), f), k) == -Coef(Mul(v, f), k)
  {
    hide Mul;
    MulCoef(Scale(-1, v), f, k);
    MulCoef(v, f, k);
    ConvScaleLeft(-1, v, f, k);
  }

  lemma GcdRoots(fm: Poly, diff: Poly, g: Poly, u: Poly, p: nat)
    requires IsPrime(p) && IsGcd(g, diff, fm, p)
    requires Cong(FrobeniusDifference(p), Add(Mul(u, fm), diff), p)
    ensures Roots(g, p) == Roots(fm, p)
  {
    hide Dvd;
    hide Cong;
    hide Mul;
    hide Eval;
    hide FrobeniusDifference;
    hide PolyDvd;
    forall r
      ensures r in Roots(g, p) <==> r in Roots(fm, p)
    {
      if r in Roots(fm, p) {
        ResidueIsRoot(p, r);
        RemainderForm(FrobeniusDifference(p), u, fm, diff, p);
        RootOfCombination(diff, Scale(-1, u), fm, FrobeniusDifference(p), r, p);
        assert IsRoot(g, r, p);
      }
      if r in Roots(g, p) {
        assert IsRoot(g, r, p);
        assert IsRoot(fm, r, p);
      }
    }
  }
}
