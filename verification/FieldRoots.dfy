/**
 Roots of polynomials over the field of residues modulo a prime: a polynomial of
 degree d has at most d roots, and a divisor of x^p - x has exactly as many roots
 as its degree.
 */
module FieldRoots {
  import opened NumberTheory
  import opened Polynomials

  ghost function Residues(p: nat): (s: set<int>)
    ensures forall r :: r in s <==> 0 <= r < p
    ensures |s| == p
  {
    if p == 0 then {} else Residues(p - 1) + {p - 1}
  }

  ghost function Roots(f: Poly, p: nat): set<int>
    requires p > 0
  {
    set r | 0 <= r < p && Dvd(p, Eval(f, r))
  }

  /** Coefficients are residues and the leading one is not zero; the zero polynomial is []. */
  predicate Normal(f: Poly, p: int) {
    (forall k :: 0 <= k < |f| ==> 0 <= f[k] < p) && (|f| > 0 ==> f[|f| - 1] != 0)
  }

  ghost predicate LeadInvertible(f: Poly, p: int)
    requires p > 0
  {
    |f| > 0 && !Dvd(p, f[|f| - 1])
  }

  /** As many distinct roots modulo p as the degree. */
  ghost predicate SplitsDistinct(f: Poly, p: nat)
    requires p > 0
  {
    LeadInvertible(f, p) && |Roots(f, p)| == |f| - 1
  }

  // ---------- at most d roots ----------

  /** The quotient of f(x) - f(r) by x - r, by synthetic division. */
  function Quotient(f: Poly, r: int): Poly {
    if |f| <= 1 then [] else Add(f[1..], Scale(r, Quotient(f[1..], r)))
  }

  lemma {:induction false} QuotientSize(f: Poly, r: int)
    requires |f| > 0
    ensures |Quotient(f, r)| == |f| - 1
    ensures |f| > 1 ==> Quotient(f, r)[|f| - 2] == f[|f| - 1]
  {
    if |f| > 1 {
      QuotientSize(f[1..], r);
      var q := Quotient(f, r);
      assert q[|f| - 2] == Coef(q, |f| - 2);
      assert Coef(Scale(r, Quotient(f[1..], r)), |f| - 2) == 0;
    }
  }

  lemma {:induction false} QuotientIdentity(f: Poly, r: int, x: int)
    ensures Eval(f, x) - Eval(f, r) == (x - r) * Eval(Quotient(f, r), x)
  {
    if |f| == 1 {
      assert f[1..] == [];
      assert Eval(f[1..], x) == 0 && Eval(f[1..], r) == 0;
      assert x * 0 == 0 && r * 0 == 0;
    } else if |f| > 1 {
      var g := f[1..];
      var q := Quotient(g, r);
      QuotientIdentity(g, r, x);
      EvalAdd(g, Scale(r, q), x);
      EvalScale(r, q, x);
      QuotientStep(x, r, Eval(g, x), Eval(g, r), Eval(q, x));
    }
  }

  lemma QuotientStep(x: int, r: int, gx: int, gr: int, qx: int)
    requires gx - gr == (x - r) * qx
    ensures x * gx - r * gr == (x - r) * (gx + r * qx)
  {
    assert r * (gx - gr) == r * ((x - r) * qx) == (x - r) * (r * qx);
  }

  /** A polynomial with invertible leading coefficient has at most as many roots as its degree. */
  lemma {:induction false} RootsBound(f: Poly, p: nat)
    requires IsPrime(p) && LeadInvertible(f, p)
    ensures |Roots(f, p)| <= |f| - 1
    decreases |f|
  {
    hide Dvd;
    if r :| r in Roots(f, p) {
      if |f| == 1 {
        EvalConstant(f, r);
        assert false;
      } else {
        var q := Quotient(f, r);
        QuotientSize(f, r);
        RootsBound(q, p);
        forall s | s in Roots(f, p) && s != r
          ensures s in Roots(q, p)
        {
          OtherRoots(f, r, s, p);
        }
        assert Roots(f, p) <= {r} + Roots(q, p);
        SubsetSize(Roots(f, p), {r} + Roots(q, p));
      }
    } else {
      assert Roots(f, p) == {};
    }
  }

  lemma EvalConstant(f: Poly, x: int)
    requires |f| == 1
    ensures Eval(f, x) == f[0]
  {
    assert f[1..] == [];
    assert x * 0 == 0;
  }

  lemma OtherRoots(f: Poly, r: int, s: int, p: nat)
    requires IsPrime(p) && r in Roots(f, p) && s in Roots(f, p) && s != r
    ensures s in Roots(Quotient(f, r), p)
  {
    hide Dvd;
    var q := Quotient(f, r);
    QuotientIdentity(f, r, s);
    DvdAdd(p, Eval(f, s), Eval(f, r));
    Euclid(p, s - r, Eval(q, s));
    if Dvd(p, s - r) {
      var k := DvdFactor(p, s - r);
      SmallMultiple(p, k);
    }
  }

  lemma SubsetSize<T>(a: set<T>, b: set<T>)
    requires a <= b
    ensures |a| <= |b|
  {
    assert b == a + (b - a);
  }

  // ---------- roots of products ----------

  lemma RootsOfProduct(f: Poly, g: Poly, h: Poly, p: nat)
    requires IsPrime(p) && Cong(f, Mul(g, h), p)
    ensures Roots(f, p) == Roots(g, p) + Roots(h, p)
  {
    hide Dvd;
    forall r
      ensures r in Roots(f, p) <==> r in Roots(g, p) + Roots(h, p)
    {
      RootOfProduct(f, g, h, p, r);
    }
  }

  lemma RootOfProduct(f: Poly, g: Poly, h: Poly, p: nat, r: int)
    requires IsPrime(p) && Cong(f, Mul(g, h), p)
    ensures Dvd(p, Eval(f, r)) <==> Dvd(p, Eval(g, r)) || Dvd(p, Eval(h, r))
  {
    hide Dvd;
    hide Eval;
    hide Mul;
    hide Cong;
    EvalMul(g, h, r);
    EvalCong(f, Mul(g, h), r, p);
    ProductVanishes(p, Eval(f, r), Eval(g, r), Eval(h, r));
  }

  lemma ProductVanishes(p: int, z: int, x: int, y: int)
    requires IsPrime(p) && Dvd(p, z - x * y)
    ensures Dvd(p, z) <==> Dvd(p, x) || Dvd(p, y)
  {
    hide Dvd;
    if Dvd(p, z) {
      DvdAdd(p, z, z - x * y);
      assert z - (z - x * y) == x * y;
      Euclid(p, x, y);
    }
    if Dvd(p, x) || Dvd(p, y) {
      if Dvd(p, x) { DvdMul(p, x, y); } else { DvdMul(p, y, x); }
      DvdAdd(p, z - x * y, x * y);
    }
  }

  /** Splitting a product of distinct linear factors keeps all roots and shares none. */
  lemma FactorsSplit(f: Poly, g: Poly, h: Poly, p: nat)
    requires IsPrime(p) && SplitsDistinct(f, p) && Cong(f, Mul(g, h), p)
    requires LeadInvertible(g, p) && LeadInvertible(h, p) && |f| + 1 == |g| + |h|
    ensures SplitsDistinct(g, p) && SplitsDistinct(h, p)
    ensures Roots(f, p) == Roots(g, p) + Roots(h, p) && Roots(g, p) * Roots(h, p) == {}
  {
    hide Dvd;
    RootsOfProduct(f, g, h, p);
    RootsBound(g, p);
    RootsBound(h, p);
    FullUnion(Roots(g, p), Roots(h, p), |g| - 1, |h| - 1);
  }

  lemma FullUnion(a: set<int>, b: set<int>, m: nat, n: nat)
    requires |a| <= m && |b| <= n && |a + b| == m + n
    ensures |a| == m && |b| == n && a * b == {}
  {
    UnionSize(a, b);
  }

  lemma UnionSize(a: set<int>, b: set<int>)
    ensures |a + b| == |a| + |b| - |a * b|
  {
    assert a + b == a + (b - a);
    assert b == (b - a) + a * b;
  }

  // ---------- divisors of x^p - x ----------

  /** The polynomial x^p - x. */
  function FrobeniusDifference(p: nat): Poly {
    Add(Monomial(1, p), Monomial(-1, 1))
  }

  lemma {:induction false} MonomialCoef(c: int, i: nat, k: int)
    ensures Coef(Monomial(c, i), k) == if k == i then c else 0
  {
    if i > 0 {
      MonomialCoef(c, i - 1, k - 1);
    }
  }

  lemma AllResiduesAreRoots(p: nat)
    requires IsPrime(p)
    ensures Roots(FrobeniusDifference(p), p) == Residues(p)
  {
    hide Dvd;
    forall r | 0 <= r < p ensures Dvd(p, Eval(FrobeniusDifference(p), r)) {
      ResidueIsRoot(p, r);
    }
  }

  lemma ResidueIsRoot(p: nat, r: nat)
    requires IsPrime(p)
    ensures Dvd(p, Eval(FrobeniusDifference(p), r))
  {
    hide Dvd;
    hide Pow;
    hide Eval;
    EvalAdd(Monomial(1, p), Monomial(-1, 1), r);
    EvalMonomial(1, p, r);
    EvalMonomial(-1, 1, r);
    PowOne(r);
    Fermat(p, r);
  }

  lemma PowOne(r: int)
    ensures Pow(r, 1) == r
  {
    assert Pow(r, 1) == r * Pow(r, 0);
  }

  lemma {:induction false} TopCoef(g: Poly, h: Poly, k: int)
    requires |g| > 0 && |h| > 0
    ensures Conv(g, h, |g| + |h| - 2) == g[|g| - 1] * h[|h| - 1]
    ensures k > |g| + |h| - 2 ==> Conv(g, h, k) == 0
  {
    if |g| == 1 {
      assert g[1..] == [];
    } else {
      TopCoef(g[1..], h, k - 1);
    }
  }

  /** Drops leading coefficients that vanish modulo p. */
  ghost function Trim(f: Poly, p: int): (t: Poly)
    requires p > 0
    ensures |t| <= |f| && t == f[..|t|]
    ensures |t| > 0 ==> !Dvd(p, t[|t| - 1])
    ensures forall k :: |t| <= k < |f| ==> Dvd(p, f[k])
  {
    if |f| == 0 || !Dvd(p, f[|f| - 1]) then f else Trim(f[..|f| - 1], p)
  }

  lemma TrimCong(f: Poly, p: int)
    requires p > 0
    ensures Cong(f, Trim(f, p), p)
  {
    hide Dvd;
    forall k ensures Dvd(p, Coef(f, k) - Coef(Trim(f, p), k)) {
      DvdZero(p);
    }
  }

  /** If g * h is x^p - x modulo p then g has as many distinct roots as its degree. */
  lemma DivisorOfFrobenius(g: Poly, h: Poly, p: nat)
    requires IsPrime(p) && LeadInvertible(g, p) && Cong(FrobeniusDifference(p), Mul(g, h), p)
    ensures SplitsDistinct(g, p)
  {
    hide Dvd;
    var t, x := Trim(h, p), FrobeniusDifference(p);
    TrimCong(h, p);
    CongMulRight(g, h, t, p);
    CongTrans(x, Mul(g, h), Mul(g, t), p);
    assert |t| > 0 && |g| + |t| - 2 <= p by { DivisorDegrees(g, t, p); }
    RootsOfProduct(x, g, t, p);
    AllResiduesAreRoots(p);
    UnionSize(Roots(g, p), Roots(t, p));
    RootsBound(g, p);
    RootsBound(t, p);
  }

  lemma DivisorDegrees(g: Poly, t: Poly, p: nat)
    requires IsPrime(p) && LeadInvertible(g, p) && Cong(FrobeniusDifference(p), Mul(g, t), p)
    requires |t| > 0 ==> !Dvd(p, t[|t| - 1])
    ensures |t| > 0 && |g| + |t| - 2 <= p
  {
    hide Dvd;
    hide Mul;
    hide Conv;
    hide FrobeniusDifference;
    var x := FrobeniusDifference(p);
    if |t| == 0 {
      EmptyProductCoef(g, t, p);
      assert Dvd(p, Coef(x, p) - Coef(Mul(g, t), p));
      FrobeniusCoef(p, p);
      NotDvdSmall(p, 1);
      assert false;
    }
    TopCoefInvertible(g, t, p);
    NonzeroAbove(g, t, p, |g| + |t| - 2);
  }

  lemma NonzeroAbove(g: Poly, t: Poly, p: nat, n: int)
    requires IsPrime(p) && Cong(FrobeniusDifference(p), Mul(g, t), p)
    requires !Dvd(p, Coef(Mul(g, t), n))
    ensures n <= p
  {
    hide Dvd;
    hide Mul;
    hide Conv;
    hide FrobeniusDifference;
    var x, c := FrobeniusDifference(p), Coef(Mul(g, t), n);
    assert Dvd(p, Coef(x, n) - c);
    FrobeniusCoef(p, n);
    if n > p {
      DvdMul(p, 0 - c, -1);
    }
  }

  lemma TopCoefInvertible(g: Poly, t: Poly, p: nat)
    requires IsPrime(p) && LeadInvertible(g, p) && LeadInvertible(t, p)
    ensures !Dvd(p, Coef(Mul(g, t), |g| + |t| - 2))
  {
    hide Dvd;
    hide Mul;
    TopCoef(g, t, 0);
    MulCoef(g, t, |g| + |t| - 2);
    ProductInvertible(p, g[|g| - 1], t[|t| - 1], Coef(Mul(g, t), |g| + |t| - 2));
  }

  lemma ProductInvertible(p: int, x: int, y: int, z: int)
    requires IsPrime(p) && !Dvd(p, x) && !Dvd(p, y) && z == x * y
    ensures !Dvd(p, z)
  {
    hide Dvd;
    if Dvd(p, z) {
      Euclid(p, x, y);
    }
  }

  lemma FrobeniusCoef(p: nat, k: int)
    requires p > 1
    ensures Coef(FrobeniusDifference(p), k) == if k == p then 1 else if k == 1 then -1 else 0
  {
    MonomialCoef(1, p, k);
    MonomialCoef(-1, 1, k);
  }
}
