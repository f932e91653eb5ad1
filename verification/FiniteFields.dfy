module FiniteFields {
  /**
   Operations of the field of residues modulo a prime p and an irreducible polynomial f
   (ModularPoly::frobenius, is_square and sqrt_tonelli_shanks,
   include/gnfs/sqrt/modular_poly.hpp).

   Substituting x^p for x gives the p-th power, in every residue ring.  Euler's criterion is
   exact because half of the nonzero elements are squares, and x^h - 1 has no more than h
   roots.  The search for a non-square cannot fail for the same reason, and the loop of
   Tonelli and Shanks always meets its second condition, so a square always gets its root
   and no internal error can occur.
   */

  import opened Optional
  import opened NumberTheory
  import opened Polynomials
  import opened FieldRoots
  import opened ModularPoly
  import opened PolyFactors
  import opened ResidueRings

  ghost predicate IsSquareIn(k: Ring, y: Poly)
    requires k.Valid()
  {
    exists u: Poly :: k.In(u) && k.Times(u, u) == y
  }

  /** Half the number of nonzero elements, for an odd prime. */
  ghost function Half(k: Ring): (h: nat)
    requires k.Valid()
    ensures h == (Pow(k.p, |k.f| - 1) - 1) / 2
  {
    PowPositive(k.p, |k.f| - 1);
    (Pow(k.p, |k.f| - 1) - 1) / 2
  }

  // ---------- powers of field elements ----------

  /** -1. */
  ghost function NegOne(k: Ring): (r: Poly)
    requires k.Valid()
    ensures k.In(r)
  {
    k.Multiple(-1, [1])
  }

  lemma EqualSquares(k: Ring, u: Poly, v: Poly)
    requires k.IsField() && k.In(u) && k.In(v) && k.Times(u, u) == k.Times(v, v)
    ensures u == v || u == k.Multiple(-1, v)
  {
    hide Ring.Rem;
    hide Ring.In;
    hide Ring.Plus;
    hide Ring.Times;
    hide Ring.Multiple;
    var w, n := k.Plus(u, v), k.Multiple(-1, v);
    k.TimesPlus(u, n, w);
    k.MultipleTimes(-1, v, w);
    k.TimesPlus(u, v, u);
    k.TimesPlus(u, v, v);
    k.TimesCommutes(u, v);
    k.PlusCommutes(k.Times(u, u), k.Times(u, v));
    k.MinusSelf(k.Times(v, w));
    k.NoZeroDivisors(k.Minus(u, v), w);
    k.MinusPlus(u, v);
    k.PlusZero(v);
    k.ZeroIsElement();
    k.PlusZero(n);
  }

  lemma RootsOfOne(k: Ring, y: Poly)
    requires k.IsField() && k.In(y) && k.Times(y, y) == [1]
    ensures y == [1] || y == NegOne(k)
  {
    hide Ring.Rem;
    hide Ring.Multiple;
    k.OneIsElement();
    k.TimesOne([1]);
    EqualSquares(k, y, [1]);
  }

  lemma NegOneSquared(k: Ring)
    requires k.Valid()
    ensures k.Times(NegOne(k), NegOne(k)) == [1]
  {
    hide CongMod;
    hide Mul;
    hide Ring.Times;
    hide IsPrime;
    k.OneIsElement();
    k.MultipleTimes(-1, [1], NegOne(k));
    k.TimesOne(NegOne(k));
    k.RemScale(-1, Scale(-1, [1]));
    k.RemCoefs(Scale(-1, Scale(-1, [1])), [1]);
    k.RemOfElement([1]);
  }

  /** y^(q-1) is one for nonzero y, where q is the number of elements. */
  lemma FermatInField(k: Ring, y: Poly)
    requires k.IsField() && k.In(y) && y != []
    ensures Pow(k.p, |k.f| - 1) >= 1 && k.PowerOf(y, Pow(k.p, |k.f| - 1) - 1) == [1]
  {
    hide Ring.Rem;
    hide Ring.In;
    hide Ring.Plus;
    hide Ring.Times;
    hide Ring.Frob;
    hide Ring.X;
    hide IsPrime;
    hide Pow;
    k.DegreeIsPeriod();
    k.PeriodFixesAll(y, |k.f| - 1);
    k.FrobIsPower(y, |k.f| - 1);
    var e: nat := Pow(k.p, |k.f| - 1) - 1;
    var w := k.PowerOf(y, e);
    assert k.Times(y, w) == y;
    k.OneIsElement();
    CancelFactor(k, y, w, [1]);
  }

  lemma CancelFactor(k: Ring, y: Poly, v: Poly, w: Poly)
    requires k.IsField() && k.In(y) && k.In(v) && k.In(w) && y != []
    requires k.Times(y, v) == y && w == [1]
    ensures v == w
  {
    hide Ring.Rem;
    hide Ring.In;
    hide Ring.Plus;
    hide Ring.Times;
    hide Ring.Multiple;
    var n := k.Multiple(-1, w);
    k.TimesPlus(v, n, y);
    k.MultipleTimes(-1, y, w);
    k.TimesOne(y);
    k.MinusSelf(y);
    k.NoZeroDivisors(y, k.Minus(v, w));
    k.MinusPlus(v, w);
    k.PlusZero(w);
  }

  lemma TwiceHalf(k: Ring)
    requires k.Valid() && k.p != 2
    ensures Pow(k.p, |k.f| - 1) == 2 * Half(k) + 1 && Half(k) >= 1
  {
    hide IsPrime;
    hide Dvd;
    assert k.p >= 2 && k.p % 2 == 1 by { OddPrime(k.p); }
    OddPower(k.p, |k.f| - 1);
    PowLarge(k.p, |k.f| - 1);
  }

  lemma OddPrime(p: int)
    requires IsPrime(p) && p != 2
    ensures p >= 2 && p % 2 == 1
  {
  }

  lemma {:induction false} OddPower(p: int, e: nat)
    requires p % 2 == 1
    ensures Pow(p, e) % 2 == 1
  {
    if e > 0 {
      OddPower(p, e - 1);
      OddProduct(p, Pow(p, e - 1));
    }
  }

  lemma OddProduct(x: int, y: int)
    requires x % 2 == 1 && y % 2 == 1
    ensures (x * y) % 2 == 1
  {
    OddTimes(x / 2, y);
  }

  lemma OddTimes(a: int, y: int)
    ensures (2 * a + 1) * y == 2 * (a * y) + y
  {
  }

  lemma HalfPower(k: Ring, y: Poly)
    requires k.IsField() && k.p != 2 && k.In(y) && y != []
    ensures k.PowerOf(y, Half(k)) == [1] || k.PowerOf(y, Half(k)) == NegOne(k)
  {
    hide Ring.Rem;
    hide Ring.In;
    hide Ring.Times;
    hide Pow;
    hide IsPrime;
    FermatInField(k, y);
    TwiceHalf(k);
    k.PowerAdd(y, Half(k), Half(k));
    RootsOfOne(k, k.PowerOf(y, Half(k)));
  }

  lemma SquareHasPower(k: Ring, u: Poly)
    requires k.IsField() && k.p != 2 && k.In(u) && u != []
    ensures k.PowerOf(k.Times(u, u), Half(k)) == [1]
  {
    hide Ring.Rem;
    hide Ring.In;
    hide Ring.Times;
    hide Pow;
    hide IsPrime;
    FermatInField(k, u);
    TwiceHalf(k);
    k.PowerTimes(u, u, Half(k));
    k.PowerAdd(u, Half(k), Half(k));
  }

  // ---------- counting squares ----------

  ghost function Squares(k: Ring, s: set<Poly>): set<Poly>
    requires k.Valid()
  {
    set u | u in s :: k.Times(u, u)
  }

  /** No three elements have the same square. */
  lemma {:induction false} SquaresSize(k: Ring, s: set<Poly>)
    requires k.IsField() && forall u :: u in s ==> k.In(u)
    ensures |s| <= 2 * |Squares(k, s)|
    decreases |s|
  {
    hide Ring.Rem;
    hide Ring.In;
    hide Ring.Times;
    hide Ring.Multiple;
    hide ReducibleModulo;
    if v :| v in s {
      var n := k.Multiple(-1, v);
      var rest := s - {v} - {n};
      SquaresSize(k, rest);
      forall u | u in rest ensures k.Times(u, u) != k.Times(v, v) {
        if k.Times(u, u) == k.Times(v, v) {
          EqualSquares(k, u, v);
        }
      }
      assert k.Times(v, v) in Squares(k, s);
      assert k.Times(v, v) !in Squares(k, rest);
      assert Squares(k, rest) + {k.Times(v, v)} <= Squares(k, s);
      SubsetSize(Squares(k, rest) + {k.Times(v, v)}, Squares(k, s));
      assert s <= rest + {v, n};
      SubsetSize(s, rest + {v, n});
    }
  }

  ghost function Nonzero(k: Ring): set<Poly>
    requires k.Valid()
  {
    NormalPolys(k.p, |k.f| - 1) - {[]}
  }

  lemma NonzeroElement(k: Ring, y: Poly)
    requires k.Valid() && y in Nonzero(k)
    ensures k.In(y) && y != []
  {
    NormalPolysShort(k.p, |k.f| - 1, y);
  }

  lemma NonzeroSize(k: Ring)
    requires k.Valid() && k.p != 2
    ensures |Nonzero(k)| >= 2 * Half(k) && Half(k) >= 1
  {
    hide Pow;
    hide NormalPolys;
    hide IsPrime;
    NormalPolysSize(k.p, |k.f| - 1);
    TwiceHalf(k);
    var all := NormalPolys(k.p, |k.f| - 1);
    assert all <= Nonzero(k) + {[]};
    SubsetSize(all, Nonzero(k) + {[]});
  }

  /** No more than h elements have their h-th power equal to one. */
  lemma PowerOneBound(k: Ring, h: nat, roots: set<Poly>)
    requires k.IsField() && h >= 1
    requires forall y :: y in roots ==> k.In(y) && k.PowerOf(y, h) == [1]
    ensures |roots| <= h
  {
    hide Ring.Rem;
    hide Ring.In;
    hide Ring.Subst;
    hide Ring.PowerOf;
    hide Add;
    hide Monomial;
    hide ReducibleModulo;
    hide IsPrime;
    hide LeadInvertible;
    var g := Add(Monomial(1, h), Monomial(-1, 0));
    PowerPolyLead(h, k.p);
    forall y | y in roots ensures k.Subst(g, y) == [] {
      PowerPolyValue(k, h, y);
    }
    k.SubstRootsAtMostDegree(g, roots);
  }

  lemma PowerPolyLead(h: nat, p: nat)
    requires IsPrime(p) && h >= 1
    ensures var g := Add(Monomial(1, h), Monomial(-1, 0)); |g| == h + 1 && LeadInvertible(g, p)
  {
    hide Dvd;
    hide IsPrime;
    assert p >= 2 by { PrimeIsBig(p); }
    MonomialSize(1, h);
    MonomialSize(-1, 0);
    MonomialCoef(1, h, h);
    MonomialCoef(-1, 0, h);
    var g := Add(Monomial(1, h), Monomial(-1, 0));
    assert g[h] == Coef(g, h) == 1;
    NotDvdSmall(p, 1);
  }

  lemma PowerPolyValue(k: Ring, h: nat, y: Poly)
    requires k.Valid() && k.In(y) && k.PowerOf(y, h) == [1]
    ensures k.Subst(Add(Monomial(1, h), Monomial(-1, 0)), y) == []
  {
    hide Ring.Rem;
    hide Ring.In;
    hide Ring.Times;
    hide Ring.Plus;
    hide Ring.Multiple;
    hide Ring.Subst;
    hide Monomial;
    hide IsPrime;
    k.SubstAdd(Monomial(1, h), Monomial(-1, 0), y);
    k.SubstMonomial(1, h, y);
    k.SubstMonomial(-1, 0, y);
    k.OneIsElement();
    k.RemOfElement([1]);
    k.TimesOne([1]);
    k.ConstantTimes(-1, [1]);
    k.MinusSelf([1]);
  }

  /** Euler's criterion. */
  lemma EulerCriterion(k: Ring, y: Poly)
    requires k.IsField() && k.p != 2 && k.In(y) && y != []
    ensures IsSquareIn(k, y) <==> k.PowerOf(y, Half(k)) == [1]
  {
    hide Ring.Rem;
    hide Ring.In;
    hide Ring.Times;
    hide Ring.PowerOf;
    hide Nonzero;
    hide Half;
    hide ReducibleModulo;
    hide IsPrime;
    if IsSquareIn(k, y) {
      var u: Poly :| k.In(u) && k.Times(u, u) == y;
      k.TimesZero([]);
      SquareHasPower(k, u);
    }
    if k.PowerOf(y, Half(k)) == [1] && !IsSquareIn(k, y) {
      var h := Half(k);
      var s := Squares(k, Nonzero(k));
      forall z | z in Nonzero(k) ensures k.In(z) && z != [] {
        NonzeroElement(k, z);
      }
      SquaresSize(k, Nonzero(k));
      NonzeroSize(k);
      forall z | z in s + {y} ensures k.In(z) && k.PowerOf(z, h) == [1] {
        if z in s {
          var u :| u in Nonzero(k) && z == k.Times(u, u);
          SquareHasPower(k, u);
        }
      }
      assert y !in s;
      PowerOneBound(k, h, s + {y});
      assert false;
    }
  }

  /** Not every nonzero element is a square. */
  lemma NonSquareExists(k: Ring) returns (z: Poly)
    requires k.IsField() && k.p != 2
    ensures k.In(z) && z != [] && !IsSquareIn(k, z)
  {
    hide Ring.Rem;
    hide Ring.In;
    hide Ring.Times;
    hide Ring.PowerOf;
    hide Nonzero;
    hide Half;
    hide ReducibleModulo;
    hide IsSquareIn;
    hide IsPrime;
    NonzeroSize(k);
    if forall y :: y in Nonzero(k) ==> IsSquareIn(k, y) {
      forall y | y in Nonzero(k) ensures k.In(y) && k.PowerOf(y, Half(k)) == [1] {
        NonzeroElement(k, y);
        EulerCriterion(k, y);
      }
      PowerOneBound(k, Half(k), Nonzero(k));
      assert false;
    }
    z :| z in Nonzero(k) && !IsSquareIn(k, z);
    NonzeroElement(k, z);
  }

  // ---------- repeated squaring ----------

  /** y^(2^i). */
  ghost function Squared(k: Ring, y: Poly, i: nat): (r: Poly)
    requires k.Valid() && k.In(y)
    ensures k.In(r)
  {
    if i == 0 then y else k.Times(Squared(k, y, i - 1), Squared(k, y, i - 1))
  }

  lemma {:induction false} SquaredAdd(k: Ring, y: Poly, i: nat, j: nat)
    requires k.Valid() && k.In(y)
    ensures Squared(k, Squared(k, y, i), j) == Squared(k, y, i + j)
    decreases j
  {
    hide Ring.Rem;
    hide Ring.In;
    hide Ring.Times;
    if j > 0 {
      SquaredAdd(k, y, i, j - 1);
    }
  }

  lemma {:induction false} SquaredTimes(k: Ring, u: Poly, v: Poly, i: nat)
    requires k.Valid() && k.In(u) && k.In(v)
    ensures Squared(k, k.Times(u, v), i) == k.Times(Squared(k, u, i), Squared(k, v, i))
    decreases i
  {
    hide Ring.Rem;
    hide Ring.In;
    hide Ring.Times;
    if i > 0 {
      SquaredTimes(k, u, v, i - 1);
      var a, b := Squared(k, u, i - 1), Squared(k, v, i - 1);
      k.SwapMiddle(a, b, a, b);
    }
  }

  lemma {:induction false} SquaredIsPower(k: Ring, y: Poly, i: nat)
    requires k.Valid() && k.In(y)
    ensures Pow(2, i) >= 1 && Squared(k, y, i) == k.PowerOf(y, Pow(2, i))
  {
    hide Ring.Rem;
    hide Ring.In;
    hide Ring.Times;
    PowPositive(2, i);
    if i == 0 {
      k.PowerOfOne(y);
    } else {
      SquaredIsPower(k, y, i - 1);
      PowPositive(2, i - 1);
      k.PowerAdd(y, Pow(2, i - 1), Pow(2, i - 1));
    }
  }

  // ---------- the methods on representatives ----------

  /** A polynomial of positive degree modulo p. */
  ghost predicate ExactDegree(f: Poly, p: nat)
    requires p > 0
  {
    |f| >= 2 && LeadInvertible(f, p)
  }

  predicate Nonnegative(f: Poly) {
    forall i :: 0 <= i < |f| ==> f[i] >= 0
  }

  lemma IsProduct(f: Poly, p: nat, a: Poly, b: Poly, r: Poly)
    requires Ring(f, p).Valid() && Normal(r, p) && |r| < |f| && CongMod(r, Mul(a, b), f, p)
    ensures Ring(f, p).In(r) && r == Ring(f, p).Times(a, b)
  {
    hide CongMod;
    hide Mul;
    hide IsPrime;
    Ring(f, p).RemOfElement(r);
    Ring(f, p).SameRem(r, Mul(a, b));
  }

  lemma IsPowerOf(f: Poly, p: nat, a: Poly, e: nat, r: Poly)
    requires Ring(f, p).Valid() && Normal(r, p) && |r| < |f| && CongMod(r, PolyPow(a, e), f, p)
    ensures Ring(f, p).In(r) && r == Ring(f, p).PowerOf(Ring(f, p).Rem(a), e)
  {
    hide CongMod;
    hide PolyPow;
    hide IsPrime;
    Ring(f, p).RemOfElement(r);
    Ring(f, p).SameRem(r, PolyPow(a, e));
    Ring(f, p).PowerRem(a, e);
  }

  lemma IsRemainder(f: Poly, p: nat, a: Poly, r: Poly)
    requires Ring(f, p).Valid() && Normal(r, p) && |r| < |f| && CongMod(r, a, f, p)
    ensures Ring(f, p).In(r) && r == Ring(f, p).Rem(a)
  {
    hide CongMod;
    hide IsPrime;
    Ring(f, p).RemOfElement(r);
    Ring(f, p).SameRem(r, a);
  }

  /** The number of elements, p^d. */
  method FieldSize(p: nat, d: nat) returns (pd: nat)
    ensures pd == Pow(p, d)
  {
    pd := 1;
    for i := 0 to d
      invariant pd == Pow(p, i)
    {
      pd := pd * p;
    }
  }

  lemma TrivialSquares(k: Ring)
    requires k.Valid()
    ensures IsSquareIn(k, []) && IsSquareIn(k, [1])
  {
    hide Ring.Rem;
    hide Ring.Times;
    k.ZeroIsElement();
    k.OneIsElement();
    k.TimesZero([]);
    k.TimesOne([1]);
  }

  /** In characteristic two y is the square of y^(2^(d-1)). */
  lemma EvenRoot(k: Ring, y: Poly)
    requires k.IsField() && k.p == 2 && k.In(y)
    ensures var u := Squared(k, y, |k.f| - 2); k.In(u) && k.Times(u, u) == y
  {
    hide Ring.Rem;
    hide Ring.In;
    hide Ring.Times;
    hide Ring.Frob;
    hide Ring.X;
    hide IsPrime;
    hide Pow;
    var d := |k.f| - 1;
    k.DegreeIsPeriod();
    k.PeriodFixesAll(y, d);
    k.FrobIsPower(y, d);
    SquaredIsPower(k, y, d);
    assert Squared(k, y, d) == k.Times(Squared(k, y, d - 1), Squared(k, y, d - 1));
  }

  // ---------- the p-th power by substitution ----------

  method AddPolys(a: Poly, b: Poly, p: nat) returns (r: Poly)
    requires p >= 2
    ensures Normal(r, p) && Cong(r, Add(a, b), p) && |r| <= Max(|a|, |b|)
  {
    var c: Poly := [];
    for i := 0 to Max(|a|, |b|)
      invariant |c| == i
      invariant forall k :: 0 <= k < i ==> c[k] == (Coef(a, k) + Coef(b, k)) % p
    {
      c := c + [((if i < |a| then a[i] else 0) + (if i < |b| then b[i] else 0)) % p];
    }
    SumResidues(a, b, c, p);
    r := Strip(c);
    SameCoefs(r, c, p);
    CongTrans(r, c, Add(a, b), p);
  }

  lemma SumResidues(a: Poly, b: Poly, c: Poly, p: nat)
    requires p > 0 && |c| == Max(|a|, |b|)
    requires forall k :: 0 <= k < |c| ==> c[k] == (Coef(a, k) + Coef(b, k)) % p
    ensures Cong(c, Add(a, b), p)
  {
    hide Dvd;
    DvdZero(p);
    forall k ensures Dvd(p, Coef(c, k) - Coef(Add(a, b), k)) {
      if 0 <= k < |c| {
        DvdMod(p, Coef(a, k) + Coef(b, k));
        DvdMul(p, Coef(a, k) + Coef(b, k) - c[k], -1);
      }
    }
  }

  lemma SubstAppend(k: Ring, g: Poly, c: int, y: Poly)
    requires k.Valid() && k.In(y)
    ensures k.Subst(g + [c], y) == k.Plus(k.Subst(g, y), k.Multiple(c, k.PowerOf(y, |g|)))
  {
    hide Ring.Rem;
    hide Ring.In;
    hide Ring.Plus;
    hide Ring.Times;
    hide Ring.Multiple;
    hide Ring.Subst;
    hide Ring.PowerOf;
    AppendMonomial(g, c);
    k.SubstAdd(g, Monomial(c, |g|), y);
    k.SubstMonomial(c, |g|, y);
    k.ConstantTimes(c, k.PowerOf(y, |g|));
  }

  lemma AppendMonomial(g: Poly, c: int)
    ensures Add(g, Monomial(c, |g|)) == g + [c]
  {
    var s := Add(g, Monomial(c, |g|));
    MonomialSize(c, |g|);
    forall i | 0 <= i <= |g| ensures s[i] == (g + [c])[i] {
      MonomialCoef(c, |g|, i);
      assert s[i] == Coef(s, i);
    }
  }

  lemma TermAdded(f: Poly, p: nat, g: Poly, c: int, y: Poly, power: Poly, term: Poly, result: Poly, next: Poly)
    requires Ring(f, p).Valid() && Ring(f, p).In(y) && power == Ring(f, p).PowerOf(y, |g|)
    requires result == Ring(f, p).Subst(g, y) && Cong(term, Scale(c, power), p)
    requires Normal(next, p) && |next| < |f| && Cong(next, Add(result, term), p)
    ensures Ring(f, p).In(next) && next == Ring(f, p).Subst(g + [c], y)
  {
    hide Cong;
    hide CongMod;
    hide IsPrime;
    hide Ring.Subst;
    hide Ring.PowerOf;
    var k := Ring(f, p);
    SubstAppend(k, g, c, y);
    k.RemOfElement(next);
    k.RemOfElement(result);
    k.RemCong(next, Add(result, term));
    k.RemAdd(result, term);
    k.RemCong(term, Scale(c, power));
  }

  /** a(x^p) modulo f is the p-th power of a. */
  method Frobenius(a: Poly, f: Poly, p: nat) returns (result: Poly)
    requires IsPrime(p) && Nonnegative(f) && LeadInvertible(f, p)
    ensures |f| >= 2 ==> Ring(f, p).In(result) && result == Ring(f, p).PowerOf(Ring(f, p).Rem(a), p)
  {
    hide Cong;
    hide CongMod;
    hide Mul;
    hide PolyPow;
    hide IsPrime;
    hide Ring.Rem;
    hide Ring.Subst;
    hide Ring.PowerOf;
    hide Ring.Times;
    assert p >= 2 by { PrimeIsBig(p); }
    ghost var k := Ring(f, p);
    var g := NormalizedCoefficients(a, p);
    var y := Power([0, 1], p, f, p);
    result := Strip([if |g| > 0 then g[0] else 0]);
    var power := [1];
    if |f| >= 2 {
      FrobeniusStart(f, p, g, y, result);
    }
    var i := 1;
    while i < |g|
      invariant 1 <= i && (i <= |g| || |g| == 0)
      invariant |f| >= 2 ==> k.In(power) && power == k.PowerOf(k.PowerOf(k.X(), p), i - 1)
      invariant |f| >= 2 ==> k.In(result) && result == k.Subst(if |g| > 0 then g[..i] else g, k.PowerOf(k.X(), p))
      decreases |g| - i
    {
      ghost var last, before := power, result;
      power := MulMod(power, y, f, p);
      var term := ScalarMul(power, g[i], p);
      result := AddPolys(result, term, p);
      assert g[..i + 1] == g[..i] + [g[i]];
      if |f| >= 2 {
        NextFrobeniusPower(f, p, y, last, power, i);
        TermAdded(f, p, g[..i], g[i], y, power, term, before, result);
      }
      i := i + 1;
    }
    assert |g| > 0 ==> g[..|g|] == g;
    if |f| >= 2 {
      FrobeniusEnd(f, p, a, g, result);
    }
  }

  lemma FrobeniusStart(f: Poly, p: nat, g: Poly, y: Poly, result: Poly)
    requires Ring(f, p).Valid() && Normal(g, p)
    requires Normal(y, p) && |y| < |f| && CongMod(y, PolyPow([0, 1], p), f, p)
    requires |result| <= 1 && (|result| > 0 ==> result[0] != 0)
    requires forall i {:trigger Coef(result, i)} :: Coef(result, i) == Coef([if |g| > 0 then g[0] else 0], i)
    ensures Ring(f, p).In(y) && y == Ring(f, p).PowerOf(Ring(f, p).X(), p)
    ensures Ring(f, p).In([1]) && [1] == Ring(f, p).PowerOf(y, 0)
    ensures Ring(f, p).In(result) && result == Ring(f, p).Subst(if |g| > 0 then g[..1] else g, y)
  {
    hide CongMod;
    hide PolyPow;
    hide IsPrime;
    hide Ring.Rem;
    hide Ring.Subst;
    hide Ring.Times;
    var k := Ring(f, p);
    IsPowerOf(f, p, [0, 1], p, y);
    k.OneIsElement();
    FirstCoefficient(k, g, y, result);
  }

  lemma FirstCoefficient(k: Ring, g: Poly, y: Poly, result: Poly)
    requires k.Valid() && Normal(g, k.p) && |result| <= 1 && (|result| > 0 ==> result[0] != 0)
    requires forall i {:trigger Coef(result, i)} :: Coef(result, i) == Coef([if |g| > 0 then g[0] else 0], i)
    ensures k.In(result) && result == k.Subst(if |g| > 0 then g[..1] else g, y)
  {
    hide Ring.Rem;
    hide Ring.Times;
    hide Ring.Plus;
    hide IsPrime;
    k.ZeroIsElement();
    if |g| > 0 {
      assert Coef(result, 0) == g[0];
      assert g[..1] == [g[0]] && g[..1][1..] == [];
      k.TimesZero(y);
      k.PlusZero(k.Rem([g[0]]));
      k.RemOfElement(result);
      k.RemCoefs(result, [g[0]]);
    } else {
      assert Coef(result, 0) == 0;
      assert result == [] && g == [];
    }
  }

  lemma NextFrobeniusPower(f: Poly, p: nat, y: Poly, last: Poly, power: Poly, i: nat)
    requires Ring(f, p).Valid() && Ring(f, p).In(y) && i >= 1 && last == Ring(f, p).PowerOf(y, i - 1)
    requires Normal(power, p) && |power| < |f| && CongMod(power, Mul(last, y), f, p)
    ensures Ring(f, p).In(power) && power == Ring(f, p).PowerOf(y, i)
  {
    hide CongMod;
    hide Mul;
    hide IsPrime;
    hide Ring.Rem;
    hide Ring.In;
    hide Ring.Times;
    IsProduct(f, p, last, y, power);
    Ring(f, p).TimesCommutes(last, y);
  }

  lemma FrobeniusEnd(f: Poly, p: nat, a: Poly, g: Poly, result: Poly)
    requires Ring(f, p).Valid() && Cong(g, a, p)
    requires result == Ring(f, p).Subst(g, Ring(f, p).PowerOf(Ring(f, p).X(), p))
    ensures result == Ring(f, p).PowerOf(Ring(f, p).Rem(a), p)
  {
    hide Cong;
    hide Ring.Subst;
    hide Ring.PowerOf;
    var k := Ring(f, p);
    k.SubstPower(g, k.X());
    k.SubstX(g);
    k.RemCong(g, a);
  }

  // ---------- squares ----------

  /** Euler's criterion as a test; None is the exception for a modulus that is no field extension. */
  method IsSquare(a: Poly, f: Poly, p: nat) returns (r: Option<bool>)
    requires IsPrime(p) && Nonnegative(f) && (ExactDegree(f, p) ==> !ReducibleModulo(f, p))
    ensures r.None? <==> !ExactDegree(f, p)
    ensures r.Some? ==> (r.value <==> IsSquareIn(Ring(f, p), Ring(f, p).Rem(a)))
  {
    hide CongMod;
    hide PolyPow;
    hide Pow;
    hide IsPrime;
    hide ReducibleModulo;
    hide IsSquareIn;
    hide Ring.Rem;
    hide Ring.PowerOf;
    assert p >= 2 by { PrimeIsBig(p); }
    if |f| < 2 {
      return None;
    }
    if f[|f| - 1] % p == 0 {
      return None;
    }
    ghost var k := Ring(f, p);
    TrivialSquares(k);
    var y := Reduce(a, f, p);
    IsRemainder(f, p, a, y);
    if |y| == 0 {
      return Some(true);
    }
    if y == [1] {
      return Some(true);
    }
    if p == 2 {
      EvenIsSquare(k, y);
      return Some(true);
    }
    var pd := FieldSize(p, |f| - 1);
    TwiceHalf(k);
    var result := Power(y, (pd - 1) / 2, f, p);
    IsPowerOf(f, p, y, (pd - 1) / 2, result);
    k.RemOfElement(y);
    EulerCriterion(k, y);
    r := Some(result == [1]);
  }

  lemma EvenIsSquare(k: Ring, y: Poly)
    requires k.IsField() && k.p == 2 && k.In(y)
    ensures IsSquareIn(k, y)
  {
    EvenRoot(k, y);
  }

  // ---------- the search for a non-square ----------

  /** All elements up to the value of the counter are squares. */
  ghost predicate SquaresUpTo(k: Ring, n: int)
    requires k.Valid()
  {
    forall y: Poly :: k.In(y) && y != [] && Eval(y, k.p) <= n ==> IsSquareIn(k, y)
  }

  lemma {:induction false} PositiveValue(y: Poly, p: nat)
    requires p > 1 && Normal(y, p) && y != []
    ensures Eval(y, p) >= 1
  {
    if |y| > 1 {
      PositiveValue(y[1..], p);
      MulMonotone(p, 1, Eval(y[1..], p));
    } else {
      EvalConstant(y, p);
    }
  }

  lemma {:induction false} Increment(before: Poly, after: Poly, digit: nat, p: nat)
    requires p > 1 && digit < |before| == |after|
    requires forall j :: 0 <= j < digit ==> before[j] == p - 1 && after[j] == 0
    requires after[digit] == before[digit] + 1
    requires forall j :: digit < j < |before| ==> after[j] == before[j]
    ensures Eval(after, p) == Eval(before, p) + 1
  {
    if digit == 0 {
      assert after[1..] == before[1..];
    } else {
      Increment(before[1..], after[1..], digit - 1, p);
      Distribute(p, Eval(before[1..], p), 1);
    }
  }

  lemma {:induction false} LastCounter(cs: Poly, p: nat)
    requires p > 1 && forall j :: 0 <= j < |cs| ==> cs[j] == p - 1
    ensures Eval(cs, p) + 1 == Pow(p, |cs|)
  {
    if |cs| > 0 {
      LastCounter(cs[1..], p);
      Distribute(p, Eval(cs[1..], p), 1);
    }
  }

  lemma {:induction false} ZeroCounter(cs: Poly, p: nat)
    requires forall j :: 0 <= j < |cs| ==> cs[j] == 0
    ensures Eval(cs, p) == 0
  {
    if |cs| > 0 {
      ZeroCounter(cs[1..], p);
    }
  }

  /** The counter cannot run through all elements. */
  lemma CounterEnds(k: Ring, cs: Poly)
    requires k.IsField() && k.p != 2 && |cs| == |k.f| - 1
    requires forall j :: 0 <= j < |cs| ==> cs[j] == k.p - 1
    ensures !SquaresUpTo(k, Eval(cs, k.p))
  {
    hide Eval;
    hide Pow;
    hide IsPrime;
    hide ReducibleModulo;
    hide IsSquareIn;
    assert k.p > 1 by { PrimeIsBig(k.p); }
    var z := NonSquareExists(k);
    LastCounter(cs, k.p);
    DigitsBelow(z, k.p);
    PowGrows(k.p, |z|, |cs|);
  }

  lemma PowGrows(p: nat, d: nat, e: nat)
    requires p > 1 && d <= e
    ensures Pow(p, d) <= Pow(p, e)
  {
    if d < e {
      PowStrict(p, d, e);
    }
  }

  /** Trying the next element. */
  lemma NextElement(k: Ring, before: Poly, cs: Poly, z: Poly)
    requires k.Valid() && SquaresUpTo(k, Eval(before, k.p)) && Eval(cs, k.p) == Eval(before, k.p) + 1
    requires Digits(cs, k.p) && k.In(z) && IsSquareIn(k, z)
    requires forall i {:trigger Coef(z, i)} :: Coef(z, i) == Coef(cs, i)
    ensures SquaresUpTo(k, Eval(cs, k.p))
  {
    hide Eval;
    hide IsPrime;
    hide IsSquareIn;
    hide Dvd;
    assert k.p > 1 by { PrimeIsBig(k.p); }
    forall y: Poly | k.In(y) && y != [] && Eval(y, k.p) <= Eval(cs, k.p) ensures IsSquareIn(k, y) {
      if Eval(y, k.p) == Eval(cs, k.p) {
        forall i ensures Coef(y, i) == Coef(z, i) {
          DigitsUnique(y, cs, k.p, i);
        }
        SameCoefs(y, z, k.p);
        NormalUnique(y, z, k.p);
      }
    }
  }

  /** The complete enumeration, a counter in base p over all nonzero elements. */
  method EnumerateNonSquare(f: Poly, p: nat) returns (z: Poly)
    requires IsPrime(p) && p != 2 && Nonnegative(f) && ExactDegree(f, p) && !ReducibleModulo(f, p)
    ensures !IsSquareIn(Ring(f, p), Ring(f, p).Rem(z))
  {
    hide Eval;
    hide Pow;
    hide IsPrime;
    hide ReducibleModulo;
    hide IsSquareIn;
    hide SquaresUpTo;
    hide Ring.Rem;
    hide Ring.In;
    assert p > 1 by { PrimeIsBig(p); }
    ghost var k := Ring(f, p);
    var d := |f| - 1;
    var cs: Poly := seq(d, _ => 0);
    NothingBelow(k, cs);
    while true
      invariant |cs| == d && Digits(cs, p) && SquaresUpTo(k, Eval(cs, p))
      decreases Pow(p, d) - Eval(cs, p)
    {
      ghost var before := cs;
      var digit := 0;
      while digit < d && cs[digit] == p - 1
        invariant digit <= d && |cs| == d
        invariant forall j :: 0 <= j < digit ==> before[j] == p - 1 && cs[j] == 0
        invariant forall j :: digit <= j < d ==> cs[j] == before[j]
        decreases d - digit
      {
        cs := cs[digit := 0];
        digit := digit + 1;
      }
      if digit == d {
        CounterEnds(k, before);
        assert false;
      }
      cs := cs[digit := cs[digit] + 1];
      Increment(before, cs, digit, p);
      DigitsBelow(cs, p);
      z := Strip(cs);
      var square := IsSquare(z, f, p);
      if !square.value {
        return;
      }
      CounterElement(k, cs, z);
      NextElement(k, before, cs, z);
    }
  }

  lemma NothingBelow(k: Ring, cs: Poly)
    requires k.Valid() && forall j :: 0 <= j < |cs| ==> cs[j] == 0
    ensures SquaresUpTo(k, Eval(cs, k.p))
  {
    hide Eval;
    hide IsPrime;
    hide IsSquareIn;
    assert k.p > 1 by { PrimeIsBig(k.p); }
    ZeroCounter(cs, k.p);
    forall y: Poly | k.In(y) && y != [] ensures Eval(y, k.p) >= 1 {
      PositiveValue(y, k.p);
    }
  }

  lemma CounterElement(k: Ring, cs: Poly, z: Poly)
    requires k.Valid() && Digits(cs, k.p) && |cs| < |k.f| && |z| <= |cs| && z == cs[..|z|]
    requires |z| > 0 ==> z[|z| - 1] != 0
    ensures k.In(z) && k.Rem(z) == z
  {
    k.RemOfElement(z);
  }

  /** A non-square: constants, then x + c, then everything. */
  method FindNonSquare(f: Poly, p: nat) returns (z: Poly)
    requires IsPrime(p) && p != 2 && Nonnegative(f) && ExactDegree(f, p) && !ReducibleModulo(f, p)
    ensures !IsSquareIn(Ring(f, p), Ring(f, p).Rem(z))
  {
    hide IsPrime;
    hide ReducibleModulo;
    hide IsSquareIn;
    hide Ring.Rem;
    assert p > 1 by { PrimeIsBig(p); }
    var d := |f| - 1;
    if d % 2 != 0 {
      for i := 2 to p {
        z := [i];
        var square := IsSquare(z, f, p);
        if !square.value {
          return;
        }
      }
    }
    for c := 0 to p {
      z := [c, 1];
      var square := IsSquare(z, f, p);
      if !square.value {
        return;
      }
    }
    z := EnumerateNonSquare(f, p);
  }

  // ---------- Tonelli and Shanks ----------

  /** What the loop keeps: r^2 = a*t, t^(2^(m-1)) = 1 and c^(2^(m-1)) = -1. */
  ghost predicate Balanced(k: Ring, a: Poly, c: Poly, t: Poly, r: Poly, m: nat)
    requires k.Valid()
  {
    && k.In(a) && k.In(c) && k.In(t) && k.In(r) && m >= 1
    && k.Times(r, r) == k.Times(a, t)
    && Squared(k, t, m - 1) == [1] && Squared(k, c, m - 1) == NegOne(k)
  }

  lemma TonelliStep(k: Ring, a: Poly, c: Poly, t: Poly, r: Poly, m: nat, i: nat)
    requires k.IsField() && Balanced(k, a, c, t, r, m)
    requires 1 <= i < m && Squared(k, t, i) == [1] && Squared(k, t, i - 1) != [1]
    ensures var b := Squared(k, c, m - i - 1);
            var c' := k.Times(b, b);
            Balanced(k, a, c', k.Times(t, c'), k.Times(r, b), i)
  {
    hide Ring.Rem;
    hide Ring.In;
    hide Ring.Times;
    hide NegOne;
    hide ReducibleModulo;
    var b := Squared(k, c, m - i - 1);
    var c' := k.Times(b, b);
    k.SwapMiddle(r, b, r, b);
    k.TimesAssociates(a, t, c');
    assert c' == Squared(k, c, m - i);
    SquaredAdd(k, c, m - i, i - 1);
    SquaredTimes(k, t, c', i - 1);
    RootsOfOne(k, Squared(k, t, i - 1));
    NegOneSquared(k);
  }

  /** The least i with t^(2^i) = 1; it is below m. */
  method LeastOrder(t: Poly, m: nat, f: Poly, p: nat) returns (i: nat)
    requires Ring(f, p).Valid() && f[|f| - 1] >= 0 && Ring(f, p).In(t) && t != [1]
    requires m >= 1 && Squared(Ring(f, p), t, m - 1) == [1]
    ensures 1 <= i < m && Squared(Ring(f, p), t, i) == [1] && Squared(Ring(f, p), t, i - 1) != [1]
  {
    hide CongMod;
    hide Mul;
    hide IsPrime;
    hide Ring.Rem;
    hide Ring.Times;
    ghost var k := Ring(f, p);
    i := 1;
    var power := MulMod(t, t, f, p);
    IsProduct(f, p, t, t, power);
    while power != [1] && i < m
      invariant 1 <= i < m && k.In(power) && power == Squared(k, t, i) && Squared(k, t, i - 1) != [1]
      decreases m - i
    {
      ghost var last := power;
      power := MulMod(power, power, f, p);
      IsProduct(f, p, last, last, power);
      i := i + 1;
    }
  }

  method RepeatedSquare(y: Poly, n: nat, f: Poly, p: nat) returns (r: Poly)
    requires Ring(f, p).Valid() && f[|f| - 1] >= 0 && Ring(f, p).In(y)
    ensures Ring(f, p).In(r) && r == Squared(Ring(f, p), y, n)
  {
    hide CongMod;
    hide Mul;
    hide IsPrime;
    hide Ring.Rem;
    hide Ring.Times;
    r := y;
    for j := 0 to n
      invariant Ring(f, p).In(r) && r == Squared(Ring(f, p), y, j)
    {
      ghost var last := r;
      r := MulMod(r, r, f, p);
      IsProduct(f, p, last, last, r);
    }
  }

  /** The loop; both exits that give up are unreachable. */
  method TonelliLoop(a: Poly, c0: Poly, t0: Poly, r0: Poly, s: nat, f: Poly, p: nat) returns (r: Poly)
    requires Ring(f, p).IsField() && f[|f| - 1] >= 0 && Balanced(Ring(f, p), a, c0, t0, r0, s)
    ensures Ring(f, p).In(r) && Ring(f, p).Times(r, r) == a
  {
    hide CongMod;
    hide Mul;
    hide IsPrime;
    hide ReducibleModulo;
    hide Ring.Rem;
    hide Ring.In;
    hide Ring.Times;
    hide Squared;
    hide NegOne;
    ghost var k := Ring(f, p);
    var c, t, m := c0, t0, s;
    r := r0;
    while t != [1]
      invariant Balanced(k, a, c, t, r, m)
      decreases m
    {
      var i := LeastOrder(t, m, f, p);
      TonelliStep(k, a, c, t, r, m, i);
      var b := RepeatedSquare(c, m - i - 1, f, p);
      var c' := MulMod(b, b, f, p);
      IsProduct(f, p, b, b, c');
      var t' := MulMod(t, c', f, p);
      IsProduct(f, p, t, c', t');
      var r' := MulMod(r, b, f, p);
      IsProduct(f, p, r, b, r');
      c, t, r, m := c', t', r', i;
    }
    k.TimesOne(a);
  }

  /** q - 1 is odd * 2^s. */
  method SplitOrder(n: nat) returns (odd: nat, s: nat)
    requires n >= 2 && n % 2 == 0
    ensures odd % 2 == 1 && s >= 1 && odd * Pow(2, s) == n
  {
    odd, s := n, 0;
    assert n * Pow(2, 0) == n;
    while odd % 2 == 0
      invariant odd >= 1 && odd * Pow(2, s) == n && (s == 0 ==> odd == n)
      decreases odd
    {
      HalveOrder(odd, s);
      odd, s := odd / 2, s + 1;
    }
  }

  lemma HalveOrder(odd: nat, s: nat)
    requires odd % 2 == 0
    ensures (odd / 2) * Pow(2, s + 1) == odd * Pow(2, s)
  {
    Associate(odd / 2, 2, Pow(2, s));
  }

  /** The number of nonzero elements is odd * 2^s. */
  ghost predicate OrderSplit(k: Ring, odd: nat, s: nat)
    requires k.Valid()
  {
    odd % 2 == 1 && s >= 1 && odd * Pow(2, s) == 2 * Half(k)
  }

  lemma NonSquarePower(k: Ring, z: Poly)
    requires k.IsField() && k.p != 2 && k.In(z) && !IsSquareIn(k, z)
    ensures k.PowerOf(z, Half(k)) == NegOne(k)
  {
    hide Ring.Rem;
    hide Ring.In;
    hide Ring.PowerOf;
    hide NegOne;
    hide Half;
    hide IsSquareIn;
    hide IsPrime;
    hide ReducibleModulo;
    TrivialSquares(k);
    EulerCriterion(k, z);
    HalfPower(k, z);
  }

  /** The start of the loop. */
  lemma TonelliStart(k: Ring, a: Poly, z: Poly, odd: nat, s: nat)
    requires k.Valid() && k.In(a) && k.In(z) && OrderSplit(k, odd, s)
    requires k.PowerOf(a, Half(k)) == [1] && k.PowerOf(z, Half(k)) == NegOne(k)
    ensures Balanced(k, a, k.PowerOf(z, odd), k.PowerOf(a, odd), k.PowerOf(a, (odd + 1) / 2), s)
  {
    hide Ring.Rem;
    hide Ring.In;
    hide Ring.PowerOf;
    hide Ring.Times;
    hide NegOne;
    hide Half;
    hide Squared;
    hide OrderSplit;
    hide IsPrime;
    RootPower(k, a, odd, s);
    OrderPower(k, a, odd, s);
    OrderPower(k, z, odd, s);
  }

  lemma RootPower(k: Ring, a: Poly, odd: nat, s: nat)
    requires k.Valid() && k.In(a) && OrderSplit(k, odd, s)
    ensures s >= 1
    ensures var r := k.PowerOf(a, (odd + 1) / 2); k.Times(r, r) == k.Times(a, k.PowerOf(a, odd))
  {
    hide Ring.Rem;
    hide Ring.In;
    hide Ring.Times;
    hide Pow;
    hide IsPrime;
    var e := (odd + 1) / 2;
    k.PowerAdd(a, e, e);
    assert e + e == odd + 1;
    assert k.PowerOf(a, odd + 1) == k.Times(a, k.PowerOf(a, odd));
  }

  lemma HalfSplit(odd: nat, s: nat, h: nat)
    requires s >= 1 && odd * Pow(2, s) == 2 * h
    ensures odd * Pow(2, s - 1) == h
  {
    Associate(2, odd, Pow(2, s - 1));
  }

  lemma OrderPower(k: Ring, y: Poly, odd: nat, s: nat)
    requires k.Valid() && k.In(y) && OrderSplit(k, odd, s)
    ensures s >= 1 && Squared(k, k.PowerOf(y, odd), s - 1) == k.PowerOf(y, Half(k))
  {
    hide Ring.Rem;
    hide Ring.In;
    hide Ring.Times;
    hide Ring.PowerOf;
    hide Squared;
    hide Half;
    SquaredIsPower(k, k.PowerOf(y, odd), s - 1);
    HalfSplit(odd, s, Half(k));
    k.PowerPower(y, odd, Pow(2, s - 1));
  }

  /** The comparison with the reduced input. */
  method SameCoefficients(y: Poly, a: Poly, d: nat, p: nat) returns (same: bool)
    requires p > 0
    ensures same <==> forall i :: 0 <= i < d ==> Coef(y, i) % p == Coef(a, i)
  {
    for i := 0 to d
      invariant forall j :: 0 <= j < i ==> Coef(y, j) % p == Coef(a, j)
    {
      var equal := (if i < |y| then y[i] else 0) % p == (if i < |a| then a[i] else 0);
      assert equal <==> Coef(y, i) % p == Coef(a, i);
      if !equal {
        return false;
      }
    }
    same := true;
  }

  lemma NormalIsReduced(y: Poly, p: nat)
    requires p > 0 && Normal(y, p)
    ensures forall i {:trigger Coef(y, i)} :: Coef(y, i) % p == Coef(y, i)
  {
    forall i ensures Coef(y, i) % p == Coef(y, i) {
      Reduced(Coef(y, i), p);
    }
  }

  lemma Reduced(c: int, p: nat)
    requires p > 0
    ensures 0 <= c < p ==> c % p == c
  {
  }

  /** A square root of a, or zero exactly when a is zero or no square; None for a bad modulus. */
  method SqrtTonelliShanks(a: Poly, f: Poly, p: nat) returns (root: Option<Poly>)
    requires IsPrime(p) && Nonnegative(f) && (ExactDegree(f, p) ==> !ReducibleModulo(f, p))
    ensures root.None? <==> !ExactDegree(f, p)
    ensures root.Some? ==> Ring(f, p).In(root.value)
    ensures root.Some? && IsSquareIn(Ring(f, p), Ring(f, p).Rem(a)) ==>
      Ring(f, p).Times(root.value, root.value) == Ring(f, p).Rem(a)
    ensures root.Some? && !IsSquareIn(Ring(f, p), Ring(f, p).Rem(a)) ==> root.value == []
  {
    hide CongMod;
    hide Mul;
    hide IsPrime;
    hide ReducibleModulo;
    hide IsSquareIn;
    hide Ring.Rem;
    hide Ring.Times;
    hide Squared;
    assert p > 1 by { PrimeIsBig(p); }
    if |f| < 2 {
      return None;
    }
    if f[|f| - 1] % p == 0 {
      return None;
    }
    ghost var k := Ring(f, p);
    TrivialSquares(k);
    k.ZeroIsElement();
    k.OneIsElement();
    var y := Reduce(a, f, p);
    IsRemainder(f, p, a, y);
    if |y| == 0 {
      k.TimesZero([]);
      return Some([]);
    }
    if y == [1] {
      k.TimesOne([1]);
      return Some([1]);
    }
    if p == 2 {
      EvenRoot(k, y);
      EvenIsSquare(k, y);
      var r := RepeatedSquare(y, |f| - 2, f, p);
      return Some(r);
    }
    var square := IsSquare(y, f, p);
    k.RemOfElement(y);
    if !square.value {
      return Some([]);
    }
    var r := OddRoot(y, f, p);
    root := Some(r);
  }

  method OddRoot(y: Poly, f: Poly, p: nat) returns (r: Poly)
    requires Ring(f, p).IsField() && p != 2 && Nonnegative(f)
    requires Ring(f, p).In(y) && y != [] && IsSquareIn(Ring(f, p), y)
    ensures Ring(f, p).In(r) && Ring(f, p).Times(r, r) == y
  {
    hide CongMod;
    hide Mul;
    hide PolyPow;
    hide Pow;
    hide IsPrime;
    hide ReducibleModulo;
    hide IsSquareIn;
    hide Ring.Rem;
    hide Ring.Times;
    hide Ring.PowerOf;
    hide Balanced;
    assert p > 1 by { PrimeIsBig(p); }
    ghost var k := Ring(f, p);
    var pd := FieldSize(p, |f| - 1);
    TwiceHalf(k);
    var odd, s := SplitOrder(pd - 1);
    var z := FindNonSquare(f, p);
    var c := Power(z, odd, f, p);
    IsPowerOf(f, p, z, odd, c);
    var t := Power(y, odd, f, p);
    IsPowerOf(f, p, y, odd, t);
    r := Power(y, (odd + 1) / 2, f, p);
    IsPowerOf(f, p, y, (odd + 1) / 2, r);
    k.RemOfElement(y);
    EulerCriterion(k, y);
    NonSquarePower(k, k.Rem(z));
    TonelliStart(k, y, k.Rem(z), odd, s);
    r := TonelliLoop(y, c, t, r, s, f, p);
    var check := MulMod(r, r, f, p);
    IsProduct(f, p, r, r, check);
    var same := SameCoefficients(check, y, |f| - 1, p);
    NormalIsReduced(y, p);
    if !same {
      assert false;
    }
  }
}
