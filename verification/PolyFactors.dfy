/**
 Factors of polynomials modulo a prime p: long division as a statement, the degrees of a
 product, irreducible factors, and the reason irreducible polynomials behave as primes.

 Divisibility is `PolyDvd` of ModularPoly and congruence modulo f is `CongMod`; both ignore
 multiples of p.  Quotients are trimmed first, so that their leading coefficient is
 invertible and the degrees of a product add up.
 */
module PolyFactors {
  import opened NumberTheory
  import opened Polynomials
  import opened FieldRoots
  import opened ModularPoly

  ghost predicate FactorsModulo(f: Poly, g: Poly, h: Poly, p: int)
    requires p > 0
  {
    && |g| >= 2 && |h| >= 2 && LeadInvertible(g, p) && LeadInvertible(h, p)
    && Cong(f, Mul(g, h), p)
  }

  /** f is the product of two polynomials that are not constant modulo p. */
  ghost predicate ReducibleModulo(f: Poly, p: int)
    requires p > 0
  {
    exists g: Poly, h: Poly :: FactorsModulo(f, g, h, p)
  }

  // ---------- congruences ----------

  lemma CongModSym(a: Poly, b: Poly, f: Poly, p: int)
    requires p > 0 && CongMod(a, b, f, p)
    ensures CongMod(b, a, f, p)
  {
    hide Dvd;
    hide Mul;
    var u: Poly :| Cong(a, Add(b, Mul(u, f)), p);
    var v := Scale(-1, u);
    forall k ensures Dvd(p, Coef(b, k) - Coef(Add(a, Mul(v, f)), k)) {
      NegatedProduct(u, f, k);
      assert Dvd(p, Coef(a, k) - Coef(Add(b, Mul(u, f)), k));
      DvdMul(p, Coef(a, k) - Coef(Add(b, Mul(u, f)), k), -1);
    }
    CongModIntro(b, a, v, f, p);
  }

  lemma NegatedProduct(u: Poly, f: Poly, k: int)
    ensures Coef(Mul(Scale(-1, u), f), k) == -Coef(Mul(u, f), k)
  {
    MulCoef(Scale(-1, u), f, k);
    MulCoef(u, f, k);
    ConvScaleLeft(-1, u, f, k);
  }

  lemma CongModAdd(a: Poly, b: Poly, c: Poly, d: Poly, f: Poly, p: int)
    requires p > 0 && CongMod(a, b, f, p) && CongMod(c, d, f, p)
    ensures CongMod(Add(a, c), Add(b, d), f, p)
  {
    hide Dvd;
    hide Mul;
    var u: Poly :| Cong(a, Add(b, Mul(u, f)), p);
    var v: Poly :| Cong(c, Add(d, Mul(v, f)), p);
    var w := Add(u, v);
    forall k ensures Dvd(p, Coef(Add(a, c), k) - Coef(Add(Add(b, d), Mul(w, f)), k)) {
      MulAddCoef(u, v, f, k);
      assert Dvd(p, Coef(a, k) - Coef(Add(b, Mul(u, f)), k));
      assert Dvd(p, Coef(c, k) - Coef(Add(d, Mul(v, f)), k));
      DvdAdd(p, Coef(a, k) - Coef(Add(b, Mul(u, f)), k), Coef(c, k) - Coef(Add(d, Mul(v, f)), k));
    }
    CongModIntro(Add(a, c), Add(b, d), w, f, p);
  }

  lemma CongModZero(a: Poly, f: Poly, p: int)
    requires p > 0
    ensures CongMod(a, [], f, p) <==> PolyDvd(f, a, p)
  {
    hide Dvd;
    hide Mul;
    hide Cong;
    forall u: Poly ensures Cong(a, Add([], Mul(u, f)), p) <==> Cong(a, Mul(u, f), p) {
      SameCoefs(Add([], Mul(u, f)), Mul(u, f), p);
      CongSym(Add([], Mul(u, f)), Mul(u, f), p);
      if Cong(a, Mul(u, f), p) { CongTrans(a, Mul(u, f), Add([], Mul(u, f)), p); }
      if Cong(a, Add([], Mul(u, f)), p) { CongTrans(a, Add([], Mul(u, f)), Mul(u, f), p); }
    }
    if PolyDvd(f, a, p) {
      var u: Poly :| Cong(a, Mul(u, f), p);
      CongModIntro(a, [], u, f, p);
    }
    if CongMod(a, [], f, p) {
      var u: Poly :| Cong(a, Add([], Mul(u, f)), p);
      PolyDvdIntro(f, a, u, p);
    }
  }

  /** A congruence modulo f holds modulo every divisor of f. */
  lemma CongModDivisor(a: Poly, b: Poly, f: Poly, g: Poly, p: int)
    requires p > 0 && CongMod(a, b, f, p) && PolyDvd(g, f, p)
    ensures CongMod(a, b, g, p)
  {
    hide Dvd;
    hide Mul;
    hide Cong;
    var u: Poly :| Cong(a, Add(b, Mul(u, f)), p);
    var v: Poly :| Cong(f, Mul(v, g), p);
    var w := Mul(u, v);
    CongMulRight(u, f, Mul(v, g), p);
    MulAssociates(u, v, g, p);
    CongSym(Mul(w, g), Mul(u, Mul(v, g)), p);
    CongTrans(Mul(u, f), Mul(u, Mul(v, g)), Mul(w, g), p);
    CongRefl(b, p);
    CongAdd(b, b, Mul(u, f), Mul(w, g), p);
    CongTrans(a, Add(b, Mul(u, f)), Add(b, Mul(w, g)), p);
    CongModIntro(a, b, w, g, p);
  }

  // ---------- divisibility ----------

  lemma PolyDvdRefl(d: Poly, p: nat)
    requires p > 0
    ensures PolyDvd(d, d, p)
  {
    hide Cong;
    hide Mul;
    MulOneLeft(d, p);
    CongSym(Mul([1], d), d, p);
    PolyDvdIntro(d, d, [1], p);
  }

  lemma PolyDvdMultiple(d: Poly, h: Poly, c: Poly, p: nat)
    requires p > 0 && PolyDvd(d, h, p)
    ensures PolyDvd(d, Mul(c, h), p) && PolyDvd(d, Mul(h, c), p)
  {
    hide Cong;
    hide Mul;
    var q: Poly :| Cong(h, Mul(q, d), p);
    CongMulRight(c, h, Mul(q, d), p);
    MulAssociates(c, q, d, p);
    CongSym(Mul(Mul(c, q), d), Mul(c, Mul(q, d)), p);
    CongTrans(Mul(c, h), Mul(c, Mul(q, d)), Mul(Mul(c, q), d), p);
    PolyDvdIntro(d, Mul(c, h), Mul(c, q), p);
    CongCommutes(h, c, p);
    PolyDvdCong(d, Mul(c, h), Mul(h, c), p);
  }

  lemma PolyDvdTrans(d: Poly, h: Poly, k: Poly, p: nat)
    requires p > 0 && PolyDvd(d, h, p) && PolyDvd(h, k, p)
    ensures PolyDvd(d, k, p)
  {
    hide Cong;
    hide Mul;
    var q: Poly :| Cong(k, Mul(q, h), p);
    PolyDvdMultiple(d, h, q, p);
    PolyDvdCong(d, Mul(q, h), k, p);
  }

  lemma PolyDvdAdd(d: Poly, h: Poly, k: Poly, p: nat)
    requires p > 0 && PolyDvd(d, h, p) && PolyDvd(d, k, p)
    ensures PolyDvd(d, Add(h, k), p)
  {
    hide Cong;
    hide Mul;
    PolyDvdCombination(d, [1], h, k, p);
    MulOneLeft(h, p);
    CongSym(Mul([1], h), h, p);
    CongRefl(k, p);
    CongAdd(h, Mul([1], h), k, k, p);
    PolyDvdCong(d, Add(Mul([1], h), k), Add(h, k), p);
  }

  lemma InverseExists(p: nat, x: int) returns (inv: int)
    requires IsPrime(p) && !Dvd(p, x)
    ensures SameResidue(p, x * inv, 1)
  {
    hide SameResidue;
    hide IsPrime;
    assert p >= 2 by { PrimeIsBig(p); }
    inv := Pow(x % p, p - 2) % p;
    ResidueOfMod(p, x);
    NotDvdMod(p, x);
    LeadInverse(p, x % p, inv);
    ModMulLeft(p, x, inv);
    SameResidueTrans(p, (x % p) * inv, x * inv, x * inv);
    SameResidueTrans(p, x * inv, (x % p) * inv, 1);
  }

  lemma NotDvdMod(p: nat, x: int)
    requires p > 0 && !Dvd(p, x)
    ensures !Dvd(p, x % p)
  {
  }

  /** A polynomial whose trimmed quotient is a constant divides back. */
  lemma UnitQuotient(f: Poly, c: int, m: Poly, p: nat)
    requires IsPrime(p) && !Dvd(p, c) && Cong(f, Mul([c], m), p)
    ensures PolyDvd(f, m, p)
  {
    hide Dvd;
    hide Cong;
    hide Mul;
    hide IsPrime;
    hide SameResidue;
    assert p >= 2 by { PrimeIsBig(p); }
    var inv := InverseExists(p, c);
    PolyDvdRefl(f, p);
    ConstantProduct(c, m, p);
    CongTrans(f, Mul([c], m), Scale(c, m), p);
    PolyDvdScale(f, inv, f, p);
    CongScale(inv, f, Scale(c, m), p);
    PolyDvdTransfer(f, Scale(inv, f), Scale(inv, Scale(c, m)), p);
    UndoScale(m, c, inv, p);
    PolyDvdTransfer(f, Scale(inv, Scale(c, m)), m, p);
  }

  lemma PolyDvdTransfer(d: Poly, h: Poly, h': Poly, p: nat)
    requires p > 0 && Cong(h, h', p) && PolyDvd(d, h, p)
    ensures PolyDvd(d, h', p)
  {
    CongSym(h, h', p);
    PolyDvdCong(d, h, h', p);
  }

  lemma ConstantProduct(c: int, m: Poly, p: nat)
    requires p > 0
    ensures Cong(Mul([c], m), Scale(c, m), p)
  {
    hide Mul;
    forall k ensures Coef(Mul([c], m), k) == Coef(Scale(c, m), k) {
      MulCoef([c], m, k);
      assert Monomial(c, 0) == [c];
      ConvMonomial(c, 0, m, k);
    }
    SameCoefs(Mul([c], m), Scale(c, m), p);
  }

  lemma CongScale(c: int, a: Poly, b: Poly, p: nat)
    requires p > 0 && Cong(a, b, p)
    ensures Cong(Scale(c, a), Scale(c, b), p)
  {
    hide Dvd;
    forall k ensures Dvd(p, Coef(Scale(c, a), k) - Coef(Scale(c, b), k)) {
      assert Dvd(p, Coef(a, k) - Coef(b, k));
      DvdMul(p, Coef(a, k) - Coef(b, k), c);
      Distribute(c, Coef(a, k), Coef(b, k));
    }
  }

  // ---------- degrees ----------

  /** The top coefficient of a product of trimmed polynomials survives modulo p. */
  lemma ProductTop(f: Poly, g: Poly, h: Poly, p: nat)
    requires IsPrime(p) && LeadInvertible(g, p) && LeadInvertible(h, p) && Cong(f, Mul(g, h), p)
    ensures !Dvd(p, Coef(f, |g| + |h| - 2))
    ensures forall k :: k > |g| + |h| - 2 ==> Dvd(p, Coef(f, k))
  {
    hide Dvd;
    hide Mul;
    hide IsPrime;
    assert p > 0 by { PrimeIsBig(p); }
    TopCoefInvertible(g, h, p);
    var n := |g| + |h| - 2;
    assert Dvd(p, Coef(f, n) - Coef(Mul(g, h), n));
    DvdTransfer(p, Coef(f, n), Coef(Mul(g, h), n));
    forall k | k > n ensures Dvd(p, Coef(f, k)) {
      TopCoef(g, h, k);
      MulCoef(g, h, k);
      assert Dvd(p, Coef(f, k) - Coef(Mul(g, h), k));
    }
  }

  lemma ProductDegrees(f: Poly, g: Poly, h: Poly, p: nat)
    requires IsPrime(p) && LeadInvertible(f, p)
    requires LeadInvertible(g, p) && LeadInvertible(h, p) && Cong(f, Mul(g, h), p)
    ensures |f| == |g| + |h| - 1
  {
    hide Dvd;
    hide Mul;
    hide Cong;
    hide IsPrime;
    assert p > 0 by { PrimeIsBig(p); }
    ProductTop(f, g, h, p);
    DvdZero(p);
    assert Dvd(p, Coef(f, |f|)) by { assert Coef(f, |f|) == 0; }
    assert !Dvd(p, Coef(f, |f| - 1));
  }

  /** The quotient by a divisor can be taken with an invertible leading coefficient. */
  lemma TrimmedQuotient(f: Poly, m: Poly, p: nat) returns (q: Poly)
    requires IsPrime(p) && PolyDvd(m, f, p)
    ensures |q| > 0 ==> LeadInvertible(q, p)
    ensures Cong(f, Mul(q, m), p)
  {
    hide Dvd;
    hide Mul;
    hide Cong;
    hide IsPrime;
    assert p > 0 by { PrimeIsBig(p); }
    var u: Poly :| Cong(f, Mul(u, m), p);
    q := Trim(u, p);
    TrimCong(u, p);
    CongRefl(m, p);
    CongMul(u, q, m, m, p);
    CongTrans(f, Mul(u, m), Mul(q, m), p);
  }

  lemma EmptyQuotient(f: Poly, m: Poly, p: nat)
    requires p > 0 && Cong(f, Mul([], m), p)
    ensures Cong(f, [], p)
  {
    assert Mul([], m) == [];
  }

  lemma LeadNotZero(f: Poly, p: nat)
    requires p > 0 && LeadInvertible(f, p)
    ensures !Cong(f, [], p)
  {
    hide Dvd;
    assert Coef(f, |f| - 1) - Coef([], |f| - 1) == f[|f| - 1];
  }

  /** Nothing shorter than m, except zero, is a multiple of m. */
  lemma ShortMultiple(r: Poly, m: Poly, p: nat)
    requires IsPrime(p) && LeadInvertible(m, p) && Normal(r, p) && |r| < |m| && PolyDvd(m, r, p)
    ensures r == []
  {
    hide Dvd;
    hide Mul;
    hide Cong;
    hide IsPrime;
    assert p > 0 by { PrimeIsBig(p); }
    var q := TrimmedQuotient(r, m, p);
    if |q| > 0 {
      ProductTop(r, q, m, p);
      DvdZero(p);
      assert false;
    } else {
      assert q == [];
      EmptyQuotient(r, m, p);
      NormalUnique(r, [], p);
    }
  }

  // ---------- long division ----------

  ghost function Residue(a: Poly, p: nat): (r: Poly)
    requires p > 0
    ensures |r| == |a| && forall k :: 0 <= k < |a| ==> r[k] == a[k] % p
  {
    seq(|a|, i requires 0 <= i < |a| => a[i] % p)
  }

  ghost function NormalForm(a: Poly, p: nat): (r: Poly)
    requires p > 0
    ensures |r| <= |a| && Normal(r, p) && Cong(r, a, p)
  {
    NormalFormFacts(a, p);
    Trim(Residue(a, p), p)
  }

  lemma NormalFormFacts(a: Poly, p: nat)
    requires p > 0
    ensures var r := Trim(Residue(a, p), p); |r| <= |a| && Normal(r, p) && Cong(r, a, p)
  {
    var s := Residue(a, p);
    var r := Trim(s, p);
    assert Cong(r, a, p) by {
      hide Dvd;
      TrimCong(s, p);
      CongSym(s, r, p);
      forall k ensures Dvd(p, Coef(s, k) - Coef(a, k)) {
        DvdZero(p);
        DvdMod(p, Coef(a, k));
        DvdMul(p, Coef(a, k) - Coef(a, k) % p, -1);
      }
      CongTrans(r, s, a, p);
    }
    if |r| > 0 && r[|r| - 1] == 0 {
      DvdZero(p);
      assert false;
    }
  }

  /** Subtracting a multiple of m removes the top coefficient of a. */
  lemma CancelTop(a: Poly, m: Poly, p: nat) returns (b: Poly)
    requires IsPrime(p) && LeadInvertible(m, p) && |a| >= |m|
    ensures |b| < |a| && CongMod(b, a, m, p)
  {
    hide Dvd;
    hide Mul;
    hide IsPrime;
    hide SameResidue;
    assert p >= 2 by { PrimeIsBig(p); }
    var inv := InverseExists(p, m[|m| - 1]);
    var s, top := |a| - |m|, a[|a| - 1];
    var c := (top * inv) % p;
    var w := Monomial(-c, s);
    LeadCancels(p, top, m[|m| - 1], inv);
    var t := Add(a, Mul(w, m));
    b := seq(|a| - 1, i requires 0 <= i < |a| - 1 => Coef(t, i));
    forall k ensures Dvd(p, Coef(b, k) - Coef(t, k)) {
      DvdZero(p);
      MulCoef(w, m, k);
      ConvMonomial(-c, s, m, k);
      MinusTop(c, Coef(m, k - s));
      if k == |a| - 1 {
        DvdMul(p, top - c * m[|m| - 1], -1);
      }
    }
    CongModIntro(b, a, w, m, p);
  }

  lemma MinusTop(c: int, x: int)
    ensures (-c) * x == -(c * x)
  {
  }

  lemma {:induction false} RemainderExists(a: Poly, m: Poly, p: nat)
    requires IsPrime(p) && LeadInvertible(m, p)
    ensures exists r: Poly :: Normal(r, p) && |r| < |m| && CongMod(r, a, m, p)
    decreases |a|
  {
    hide CongMod;
    hide Cong;
    hide IsPrime;
    assert p > 0 by { PrimeIsBig(p); }
    if |a| < |m| {
      var r := NormalForm(a, p);
      CongIsCongMod(r, a, m, p);
    } else {
      var b := CancelTop(a, m, p);
      RemainderExists(b, m, p);
      var r: Poly :| Normal(r, p) && |r| < |m| && CongMod(r, b, m, p);
      CongModTrans(r, b, a, m, p);
    }
  }

  /** The remainder of a on division by m. */
  ghost function Remainder(a: Poly, m: Poly, p: nat): (r: Poly)
    requires IsPrime(p) && LeadInvertible(m, p)
    ensures Normal(r, p) && |r| < |m| && CongMod(r, a, m, p)
  {
    RemainderExists(a, m, p);
    var r: Poly :| Normal(r, p) && |r| < |m| && CongMod(r, a, m, p);
    r
  }

  lemma RemainderUnique(r: Poly, s: Poly, m: Poly, p: nat)
    requires IsPrime(p) && LeadInvertible(m, p)
    requires Normal(r, p) && |r| < |m| && Normal(s, p) && |s| < |m| && CongMod(r, s, m, p)
    ensures r == s
  {
    hide Dvd;
    hide Mul;
    hide Cong;
    hide IsPrime;
    assert p > 0 by { PrimeIsBig(p); }
    var u: Poly :| Cong(r, Add(s, Mul(u, m)), p);
    var d := Add(r, Scale(-1, s));
    DifferenceIsMultiple(r, s, u, m, p);
    PolyDvdIntro(m, d, u, p);
    var n := NormalForm(d, p);
    PolyDvdCong(m, d, n, p);
    ShortMultiple(n, m, p);
    CongSym(n, d, p);
    ZeroDifference(r, s, p);
    NormalUnique(r, s, p);
  }

  lemma DifferenceIsMultiple(r: Poly, s: Poly, u: Poly, m: Poly, p: nat)
    requires p > 0 && Cong(r, Add(s, Mul(u, m)), p)
    ensures Cong(Add(r, Scale(-1, s)), Mul(u, m), p)
  {
    hide Dvd;
    hide Mul;
    forall k ensures Dvd(p, Coef(Add(r, Scale(-1, s)), k) - Coef(Mul(u, m), k)) {
      assert Dvd(p, Coef(r, k) - Coef(Add(s, Mul(u, m)), k));
    }
  }

  lemma ZeroDifference(r: Poly, s: Poly, p: nat)
    requires p > 0 && Cong(Add(r, Scale(-1, s)), [], p)
    ensures Cong(r, s, p)
  {
    hide Dvd;
    forall k ensures Dvd(p, Coef(r, k) - Coef(s, k)) {
      assert Dvd(p, Coef(Add(r, Scale(-1, s)), k) - Coef([], k));
    }
  }


  // ---------- irreducible polynomials are prime ----------

  /** The multipliers y with f | y * b are closed under taking remainders. */
  lemma RemainderKeeps(f: Poly, b: Poly, r: Poly, a: Poly, m: Poly, p: nat)
    requires p > 0 && PolyDvd(f, Mul(a, b), p) && PolyDvd(f, Mul(m, b), p) && CongMod(r, a, m, p)
    ensures PolyDvd(f, Mul(r, b), p)
  {
    hide Dvd;
    hide Mul;
    hide Cong;
    hide PolyDvd;
    var u: Poly :| Cong(r, Add(a, Mul(u, m)), p);
    var um := Mul(u, m);
    CongRefl(b, p);
    CongMul(r, Add(a, um), b, b, p);
    forall k ensures Coef(Mul(Add(a, um), b), k) == Coef(Add(Mul(a, b), Mul(um, b)), k) {
      MulAddCoef(a, um, b, k);
    }
    SameCoefs(Mul(Add(a, um), b), Add(Mul(a, b), Mul(um, b)), p);
    PolyDvdMultiple(f, Mul(m, b), u, p);
    MulAssociates(u, m, b, p);
    PolyDvdCong(f, Mul(u, Mul(m, b)), Mul(um, b), p);
    PolyDvdAdd(f, Mul(a, b), Mul(um, b), p);
    CongTrans(Mul(r, b), Mul(Add(a, um), b), Add(Mul(a, b), Mul(um, b)), p);
    PolyDvdCong(f, Add(Mul(a, b), Mul(um, b)), Mul(r, b), p);
  }

  lemma ZeroRemainder(a: Poly, m: Poly, p: nat)
    requires IsPrime(p) && LeadInvertible(m, p) && Remainder(a, m, p) == []
    ensures PolyDvd(m, a, p)
  {
    hide CongMod;
    hide IsPrime;
    assert p > 0 by { PrimeIsBig(p); }
    CongModSym([], a, m, p);
    CongModZero(a, m, p);
  }

  /** A multiplier of least degree divides every other one, so both f and a. */
  lemma {:induction false} LeastMultiplier(m: Poly, f: Poly, a: Poly, b: Poly, p: nat) returns (least: Poly)
    requires IsPrime(p) && LeadInvertible(m, p)
    requires PolyDvd(f, Mul(f, b), p) && PolyDvd(f, Mul(a, b), p) && PolyDvd(f, Mul(m, b), p)
    ensures LeadInvertible(least, p) && PolyDvd(f, Mul(least, b), p)
    ensures PolyDvd(least, f, p) && PolyDvd(least, a, p)
    decreases |m|
  {
    hide CongMod;
    hide PolyDvd;
    hide IsPrime;
    hide Mul;
    assert p > 0 by { PrimeIsBig(p); }
    var r, s := Remainder(f, m, p), Remainder(a, m, p);
    if r != [] {
      RemainderKeeps(f, b, r, f, m, p);
      NormalLead(r, p);
      least := LeastMultiplier(r, f, a, b, p);
    } else if s != [] {
      RemainderKeeps(f, b, s, a, m, p);
      NormalLead(s, p);
      least := LeastMultiplier(s, f, a, b, p);
    } else {
      least := m;
      ZeroRemainder(f, m, p);
      ZeroRemainder(a, m, p);
    }
  }

  /** A divisor of an irreducible polynomial is a constant or a constant multiple of it. */
  lemma DivisorOfIrreducible(m: Poly, f: Poly, p: nat)
    requires IsPrime(p) && LeadInvertible(f, p) && !ReducibleModulo(f, p)
    requires LeadInvertible(m, p) && PolyDvd(m, f, p)
    ensures |m| == 1 || PolyDvd(f, m, p)
  {
    hide Dvd;
    hide Mul;
    hide Cong;
    hide PolyDvd;
    hide IsPrime;
    assert p > 0 by { PrimeIsBig(p); }
    var q := TrimmedQuotient(f, m, p);
    if |q| == 0 {
      assert q == [];
      EmptyQuotient(f, m, p);
      LeadNotZero(f, p);
      assert false;
    } else if |q| == 1 {
      assert q == [q[0]];
      UnitQuotient(f, q[0], m, p);
    } else {
      assert |m| >= 2 ==> FactorsModulo(f, q, m, p);
    }
  }

  /** An irreducible polynomial that divides a product divides one of the factors. */
  lemma IrreducibleIsPrime(f: Poly, a: Poly, b: Poly, p: nat)
    requires IsPrime(p) && LeadInvertible(f, p) && !ReducibleModulo(f, p)
    requires PolyDvd(f, Mul(a, b), p)
    ensures PolyDvd(f, a, p) || PolyDvd(f, b, p)
  {
    hide Dvd;
    hide Mul;
    hide Cong;
    hide PolyDvd;
    hide IsPrime;
    hide ReducibleModulo;
    assert p > 0 by { PrimeIsBig(p); }
    PolyDvdRefl(f, p);
    PolyDvdMultiple(f, f, b, p);
    var m := LeastMultiplier(f, f, a, b, p);
    DivisorOfIrreducible(m, f, p);
    if |m| == 1 {
      assert m == [m[0]];
      CancelConstant(f, m[0], b, p);
    } else {
      PolyDvdTrans(f, m, a, p);
    }
  }

  lemma CancelConstant(f: Poly, c: int, b: Poly, p: nat)
    requires IsPrime(p) && !Dvd(p, c) && PolyDvd(f, Mul([c], b), p)
    ensures PolyDvd(f, b, p)
  {
    hide Dvd;
    hide Mul;
    hide Cong;
    hide PolyDvd;
    hide IsPrime;
    assert p > 0 by { PrimeIsBig(p); }
    CongRefl(Mul([c], b), p);
    UnitQuotient(Mul([c], b), c, b, p);
    PolyDvdTrans(f, Mul([c], b), b, p);
  }

  /** A reducible polynomial has an irreducible factor of smaller degree. */
  lemma {:induction false} IrreducibleFactor(f: Poly, p: nat) returns (g: Poly)
    requires IsPrime(p) && LeadInvertible(f, p) && ReducibleModulo(f, p)
    ensures LeadInvertible(g, p) && 2 <= |g| < |f| && PolyDvd(g, f, p) && !ReducibleModulo(g, p)
    decreases |f|
  {
    hide Dvd;
    hide Mul;
    hide Cong;
    hide PolyDvd;
    hide IsPrime;
    assert p > 0 by { PrimeIsBig(p); }
    var a: Poly, h: Poly :| FactorsModulo(f, h, a, p);
    ProductDegrees(f, h, a, p);
    PolyDvdIntro(a, f, h, p);
    if ReducibleModulo(a, p) {
      g := IrreducibleFactor(a, p);
      PolyDvdTrans(g, a, f, p);
    } else {
      g := a;
    }
  }
}
