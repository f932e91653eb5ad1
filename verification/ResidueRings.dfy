/**
 The ring of residues modulo a prime p and a polynomial f, and the field it is when f is
 irreducible.

 Every residue class has one representative (`In`), so the laws of the ring are equations.
 The second half works in the field: a polynomial has no more roots than its degree, the
 p-th power is additive and one-to-one, and the powers x^(p^i) of the residue of x repeat
 within deg f steps and, for the first time, after exactly deg f steps.
 */
module ResidueRings {
  import opened NumberTheory
  import opened Polynomials
  import opened FieldRoots
  import opened ModularPoly
  import opened PolyFactors

  datatype Ring = Ring(f: Poly, p: nat) {

    ghost predicate Valid() {
      IsPrime(p) && LeadInvertible(f, p) && |f| >= 2
    }

    ghost predicate IsField() {
      Valid() && !ReducibleModulo(f, p)
    }

    /** The representatives of the residue classes. */
    ghost predicate In(a: Poly) {
      Normal(a, p) && |a| < |f|
    }

    ghost function Rem(a: Poly): (r: Poly)
      requires Valid()
      ensures In(r) && CongMod(r, a, f, p)
    {
      Remainder(a, f, p)
    }

    ghost function Plus(a: Poly, b: Poly): (r: Poly)
      requires Valid()
      ensures In(r)
    {
      Rem(Add(a, b))
    }

    ghost function Times(a: Poly, b: Poly): (r: Poly)
      requires Valid()
      ensures In(r)
    {
      Rem(Mul(a, b))
    }

    /** The integer multiple n * a. */
    ghost function Multiple(n: int, a: Poly): (r: Poly)
      requires Valid()
      ensures In(r)
    {
      Rem(Scale(n, a))
    }

    ghost function Minus(a: Poly, b: Poly): (r: Poly)
      requires Valid()
      ensures In(r)
    {
      Plus(a, Multiple(-1, b))
    }

    // ---------- representatives ----------

    lemma SameRem(a: Poly, b: Poly)
      requires Valid()
      ensures Rem(a) == Rem(b) <==> CongMod(a, b, f, p)
    {
      hide CongMod;
      hide IsPrime;
      assert p > 0 by { PrimeIsBig(p); }
      CongModSym(Rem(a), a, f, p);
      if Rem(a) == Rem(b) {
        CongModTrans(a, Rem(a), b, f, p);
      }
      if CongMod(a, b, f, p) {
        CongModSym(Rem(b), b, f, p);
        CongModTrans(Rem(a), a, b, f, p);
        CongModTrans(Rem(a), b, Rem(b), f, p);
        RemainderUnique(Rem(a), Rem(b), f, p);
      }
    }

    lemma RemOfElement(a: Poly)
      requires Valid() && In(a)
      ensures Rem(a) == a
    {
      hide CongMod;
      hide IsPrime;
      RemainderUnique(Rem(a), a, f, p);
    }

    lemma RemZero(a: Poly)
      requires Valid()
      ensures Rem(a) == [] <==> PolyDvd(f, a, p)
    {
      hide CongMod;
      hide IsPrime;
      assert p > 0 by { PrimeIsBig(p); }
      RemOfElement([]);
      SameRem(a, []);
      CongModZero(a, f, p);
    }

    lemma RemCoefs(a: Poly, b: Poly)
      requires Valid() && forall k :: Coef(a, k) == Coef(b, k)
      ensures Rem(a) == Rem(b)
    {
      hide CongMod;
      hide IsPrime;
      assert p > 0 by { PrimeIsBig(p); }
      SameCoefs(a, b, p);
      CongIsCongMod(a, b, f, p);
      SameRem(a, b);
    }

    lemma RemCong(a: Poly, b: Poly)
      requires Valid() && Cong(a, b, p)
      ensures Rem(a) == Rem(b)
    {
      hide Cong;
      hide CongMod;
      hide IsPrime;
      assert p > 0 by { PrimeIsBig(p); }
      CongIsCongMod(a, b, f, p);
      SameRem(a, b);
    }

    lemma RemAdd(a: Poly, b: Poly)
      requires Valid()
      ensures Plus(Rem(a), Rem(b)) == Rem(Add(a, b))
    {
      hide CongMod;
      hide IsPrime;
      assert p > 0 by { PrimeIsBig(p); }
      CongModAdd(Rem(a), a, Rem(b), b, f, p);
      SameRem(Add(Rem(a), Rem(b)), Add(a, b));
    }

    lemma RemMul(a: Poly, b: Poly)
      requires Valid()
      ensures Times(Rem(a), Rem(b)) == Rem(Mul(a, b))
    {
      hide CongMod;
      hide Mul;
      hide IsPrime;
      assert p > 0 by { PrimeIsBig(p); }
      CongModMul(Rem(a), a, Rem(b), b, f, p);
      SameRem(Mul(Rem(a), Rem(b)), Mul(a, b));
    }

    lemma RemScale(n: int, a: Poly)
      requires Valid()
      ensures Multiple(n, Rem(a)) == Rem(Scale(n, a))
    {
      hide CongMod;
      hide Cong;
      hide Mul;
      hide IsPrime;
      assert p > 0 by { PrimeIsBig(p); }
      CongModMulLeft(Rem(a), a, [n], f, p);
      SameRem(Mul([n], Rem(a)), Mul([n], a));
      ConstantProduct(n, a, p);
      ConstantProduct(n, Rem(a), p);
      RemCong(Mul([n], a), Scale(n, a));
      RemCong(Mul([n], Rem(a)), Scale(n, Rem(a)));
    }

    // ---------- the laws of the ring ----------

    lemma PlusCommutes(a: Poly, b: Poly)
      requires Valid()
      ensures Plus(a, b) == Plus(b, a)
    {
      hide CongMod;
      RemCoefs(Add(a, b), Add(b, a));
    }

    lemma PlusAssociates(a: Poly, b: Poly, c: Poly)
      requires Valid() && In(a) && In(b) && In(c)
      ensures Plus(Plus(a, b), c) == Plus(a, Plus(b, c))
    {
      hide CongMod;
      RemOfElement(a);
      RemOfElement(c);
      RemAdd(Add(a, b), c);
      RemAdd(a, Add(b, c));
      RemCoefs(Add(Add(a, b), c), Add(a, Add(b, c)));
    }

    lemma PlusZero(a: Poly)
      requires Valid() && In(a)
      ensures Plus(a, []) == a == Plus([], a)
    {
      hide CongMod;
      RemOfElement(a);
      RemCoefs(Add(a, []), a);
      RemCoefs(Add([], a), a);
    }

    lemma MinusSelf(a: Poly)
      requires Valid() && In(a)
      ensures Minus(a, a) == []
    {
      hide CongMod;
      RemOfElement(a);
      RemOfElement([]);
      RemAdd(a, Scale(-1, a));
      RemCoefs(Add(a, Scale(-1, a)), []);
    }

    /** Subtraction undoes addition. */
    lemma MinusPlus(a: Poly, b: Poly)
      requires Valid() && In(a) && In(b)
      ensures Plus(Minus(a, b), b) == a
      ensures Minus(Plus(a, b), b) == a
    {
      hide CongMod;
      RemOfElement(a);
      RemOfElement(b);
      var n := Scale(-1, b);
      RemAdd(a, n);
      RemAdd(Add(a, n), b);
      RemCoefs(Add(Add(a, n), b), a);
      RemAdd(Add(a, b), n);
      RemCoefs(Add(Add(a, b), n), a);
    }

    lemma TimesCommutes(a: Poly, b: Poly)
      requires Valid()
      ensures Times(a, b) == Times(b, a)
    {
      hide CongMod;
      hide Mul;
      forall k ensures Coef(Mul(a, b), k) == Coef(Mul(b, a), k) {
        MulCommutes(a, b, k);
      }
      RemCoefs(Mul(a, b), Mul(b, a));
    }

    lemma TimesAssociates(a: Poly, b: Poly, c: Poly)
      requires Valid() && In(a) && In(b) && In(c)
      ensures Times(Times(a, b), c) == Times(a, Times(b, c))
    {
      hide CongMod;
      hide Cong;
      hide Mul;
      hide IsPrime;
      assert p > 0 by { PrimeIsBig(p); }
      RemOfElement(a);
      RemOfElement(c);
      RemMul(Mul(a, b), c);
      RemMul(a, Mul(b, c));
      MulAssociates(a, b, c, p);
      RemCong(Mul(Mul(a, b), c), Mul(a, Mul(b, c)));
    }

    lemma TimesOne(a: Poly)
      requires Valid() && In(a)
      ensures In([1]) && Times([1], a) == a == Times(a, [1])
    {
      hide CongMod;
      hide Cong;
      hide Mul;
      assert p > 1 by { PrimeIsBig(p); }
      MulOneLeft(a, p);
      RemOfElement(a);
      RemCong(Mul([1], a), a);
      RemCong(Mul(a, [1]), a);
    }

    lemma TimesZero(a: Poly)
      requires Valid()
      ensures Times(a, []) == [] == Times([], a)
    {
      hide CongMod;
      hide IsPrime;
      assert Mul([], a) == [];
      TimesCommutes(a, []);
      RemOfElement([]);
    }

    lemma TimesPlus(a: Poly, b: Poly, c: Poly)
      requires Valid() && In(a) && In(b) && In(c)
      ensures Times(Plus(a, b), c) == Plus(Times(a, c), Times(b, c))
      ensures Times(c, Plus(a, b)) == Plus(Times(c, a), Times(c, b))
    {
      hide CongMod;
      hide Mul;
      RemOfElement(c);
      RemMul(Add(a, b), c);
      RemAdd(Mul(a, c), Mul(b, c));
      forall k ensures Coef(Mul(Add(a, b), c), k) == Coef(Add(Mul(a, c), Mul(b, c)), k) {
        MulAddCoef(a, b, c, k);
      }
      RemCoefs(Mul(Add(a, b), c), Add(Mul(a, c), Mul(b, c)));
      TimesCommutes(c, Plus(a, b));
      TimesCommutes(c, a);
      TimesCommutes(c, b);
    }

    lemma MultipleTimes(n: int, a: Poly, b: Poly)
      requires Valid() && In(a) && In(b)
      ensures Times(Multiple(n, a), b) == Multiple(n, Times(a, b)) == Times(a, Multiple(n, b))
    {
      hide CongMod;
      hide Mul;
      RemOfElement(a);
      RemOfElement(b);
      RemScale(n, Mul(a, b));
      RemMul(Scale(n, a), b);
      RemMul(a, Scale(n, b));
      forall k ensures Coef(Mul(Scale(n, a), b), k) == Coef(Scale(n, Mul(a, b)), k) == Coef(Mul(a, Scale(n, b)), k) {
        ScaledProduct(n, a, b, k);
      }
      RemCoefs(Mul(Scale(n, a), b), Scale(n, Mul(a, b)));
      RemCoefs(Mul(a, Scale(n, b)), Scale(n, Mul(a, b)));
    }

    lemma MultiplePlus(m: int, n: int, a: Poly)
      requires Valid() && In(a)
      ensures Multiple(m + n, a) == Plus(Multiple(m, a), Multiple(n, a))
    {
      hide CongMod;
      RemAdd(Scale(m, a), Scale(n, a));
      forall k ensures Coef(Scale(m + n, a), k) == Coef(Add(Scale(m, a), Scale(n, a)), k) {
        Distribute(Coef(a, k), m, n);
      }
      RemCoefs(Scale(m + n, a), Add(Scale(m, a), Scale(n, a)));
    }

    lemma MultipleOne(a: Poly)
      requires Valid() && In(a)
      ensures Multiple(1, a) == a && Multiple(0, a) == []
    {
      hide CongMod;
      RemOfElement(a);
      RemOfElement([]);
      RemCoefs(Scale(1, a), a);
      RemCoefs(Scale(0, a), []);
    }

    /** The characteristic is p. */
    lemma MultipleOfP(n: int, a: Poly)
      requires Valid() && Dvd(p, n)
      ensures Multiple(n, a) == []
    {
      hide CongMod;
      hide Dvd;
      hide IsPrime;
      assert p > 0 by { PrimeIsBig(p); }
      forall k ensures Dvd(p, Coef(Scale(n, a), k) - Coef([], k)) {
        DvdMul(p, n, Coef(a, k));
      }
      RemCong(Scale(n, a), []);
      RemOfElement([]);
    }

    /** A product is zero only when a factor is. */
    lemma NoZeroDivisors(a: Poly, b: Poly)
      requires IsField() && In(a) && In(b) && Times(a, b) == []
      ensures a == [] || b == []
    {
      hide CongMod;
      hide PolyDvd;
      hide IsPrime;
      hide Mul;
      RemZero(Mul(a, b));
      IrreducibleIsPrime(f, a, b, p);
      RemZero(a);
      RemZero(b);
      RemOfElement(a);
      RemOfElement(b);
    }

    // ---------- powers ----------

    ghost function PowerOf(a: Poly, e: nat): (r: Poly)
      requires Valid()
      ensures In(r)
    {
      OneIsElement();
      if e == 0 then [1] else Times(a, PowerOf(a, e - 1))
    }

    lemma OneIsElement()
      requires Valid()
      ensures In([1])
    {
    }

    lemma {:induction false} PowerRem(a: Poly, e: nat)
      requires Valid()
      ensures PowerOf(Rem(a), e) == Rem(PolyPow(a, e))
    {
      hide CongMod;
      hide Mul;
      if e == 0 {
        OneIsElement();
        RemOfElement([1]);
      } else {
        PowerRem(a, e - 1);
        RemMul(a, PolyPow(a, e - 1));
      }
    }

    lemma {:induction false} PowerAdd(a: Poly, d: nat, e: nat)
      requires Valid() && In(a)
      ensures PowerOf(a, d + e) == Times(PowerOf(a, d), PowerOf(a, e))
      decreases d
    {
      hide Rem;
      hide In;
      hide Times;
      hide IsPrime;
      if d == 0 {
        TimesOne(PowerOf(a, e));
      } else {
        PowerAdd(a, d - 1, e);
        TimesAssociates(a, PowerOf(a, d - 1), PowerOf(a, e));
      }
    }

    lemma {:induction false} PowerPower(a: Poly, m: nat, n: nat)
      requires Valid() && In(a)
      ensures PowerOf(PowerOf(a, m), n) == PowerOf(a, m * n)
      decreases n
    {
      hide Rem;
      hide In;
      hide Times;
      hide IsPrime;
      if n == 0 {
        assert m * 0 == 0;
      } else {
        PowerPower(a, m, n - 1);
        PowerAdd(a, m, m * (n - 1));
        Distribute(m, n, 1);
      }
    }

    lemma {:induction false} PowerTimes(a: Poly, b: Poly, e: nat)
      requires Valid() && In(a) && In(b)
      ensures PowerOf(Times(a, b), e) == Times(PowerOf(a, e), PowerOf(b, e))
      decreases e
    {
      hide Rem;
      hide In;
      hide Times;
      hide IsPrime;
      if e == 0 {
        OneIsElement();
        TimesOne([1]);
      } else {
        PowerTimes(a, b, e - 1);
        SwapMiddle(a, b, PowerOf(a, e - 1), PowerOf(b, e - 1));
      }
    }

    /** (a * b) * (c * d) == (a * c) * (b * d). */
    lemma SwapMiddle(a: Poly, b: Poly, c: Poly, d: Poly)
      requires Valid() && In(a) && In(b) && In(c) && In(d)
      ensures Times(Times(a, b), Times(c, d)) == Times(Times(a, c), Times(b, d))
    {
      hide Rem;
      hide In;
      hide Times;
      TimesAssociates(a, b, Times(c, d));
      TimesAssociates(b, c, d);
      TimesCommutes(b, c);
      TimesAssociates(c, b, d);
      TimesAssociates(a, c, Times(b, d));
    }

    /** (a + b) + (c + d) == (a + c) + (b + d). */
    lemma SwapSums(a: Poly, b: Poly, c: Poly, d: Poly)
      requires Valid() && In(a) && In(b) && In(c) && In(d)
      ensures Plus(Plus(a, b), Plus(c, d)) == Plus(Plus(a, c), Plus(b, d))
    {
      hide Rem;
      hide In;
      hide Plus;
      PlusAssociates(a, b, Plus(c, d));
      PlusAssociates(b, c, d);
      PlusCommutes(b, c);
      PlusAssociates(c, b, d);
      PlusAssociates(a, c, Plus(b, d));
    }

    // ---------- the p-th power is additive ----------

    ghost function Term(a: Poly, b: Poly, n: nat, j: nat): (r: Poly)
      requires Valid() && j <= n
      ensures In(r)
    {
      Multiple(Choose(n, j), Times(PowerOf(a, j), PowerOf(b, n - j)))
    }

    /** The first j terms of the binomial expansion of (a + b)^n. */
    ghost function TermSum(a: Poly, b: Poly, n: nat, j: nat): (r: Poly)
      requires Valid() && j <= n + 1
      ensures In(r)
    {
      if j == 0 then Rem([]) else Plus(TermSum(a, b, n, j - 1), Term(a, b, n, j - 1))
    }

    lemma FirstTerm(a: Poly, b: Poly, n: nat)
      requires Valid() && In(a) && In(b)
      ensures Term(a, b, n, 0) == PowerOf(b, n)
      ensures TermSum(a, b, n, 0) == [] && TermSum(a, b, n, 1) == PowerOf(b, n)
    {
      hide Rem;
      hide In;
      hide Multiple;
      hide Times;
      hide Plus;
      TimesOne(PowerOf(b, n));
      MultipleOne(PowerOf(b, n));
      ZeroIsElement();
      PlusZero(PowerOf(b, n));
      assert TermSum(a, b, n, 1) == Plus(TermSum(a, b, n, 0), Term(a, b, n, 0));
    }

    lemma ZeroIsElement()
      requires Valid()
      ensures In([]) && Rem([]) == []
    {
      hide CongMod;
      RemOfElement([]);
    }

    lemma LastTerm(a: Poly, b: Poly, n: nat)
      requires Valid() && In(a) && In(b)
      ensures Term(a, b, n, n) == PowerOf(a, n)
    {
      hide Rem;
      hide In;
      hide Multiple;
      hide Times;
      ChooseTop(n, n);
      TimesOne(PowerOf(a, n));
      MultipleOne(PowerOf(a, n));
    }

    /** Pascal's rule for the terms. */
    lemma TermStep(a: Poly, b: Poly, n: nat, j: nat)
      requires Valid() && In(a) && In(b) && 1 <= j <= n
      ensures Term(a, b, n + 1, j) == Plus(Times(b, Term(a, b, n, j)), Times(a, Term(a, b, n, j - 1)))
    {
      hide Rem;
      hide In;
      hide Multiple;
      hide Times;
      hide Plus;
      var c, d := Choose(n, j), Choose(n, j - 1);
      var u, v := PowerOf(a, j), PowerOf(b, n - j);
      var w := PowerOf(a, j - 1);
      var whole := Times(u, Times(b, v));
      assert Term(a, b, n + 1, j) == Multiple(c + d, whole) by {
        assert PowerOf(b, n + 1 - j) == Times(b, v);
      }
      MultiplePlus(c, d, whole);
      MultipleTimes(c, b, Times(u, v));
      assert Times(b, Times(u, v)) == whole by {
        TimesAssociates(b, u, v);
        TimesCommutes(b, u);
        TimesAssociates(u, b, v);
      }
      MultipleTimes(d, a, Times(w, Times(b, v)));
      assert Times(a, Times(w, Times(b, v))) == whole by {
        TimesAssociates(a, w, Times(b, v));
      }
      assert PowerOf(b, n - (j - 1)) == Times(b, v);
    }

    lemma {:induction false} TermSumStep(a: Poly, b: Poly, n: nat, j: nat)
      requires Valid() && In(a) && In(b) && j <= n
      ensures TermSum(a, b, n + 1, j + 1) == Plus(Times(b, TermSum(a, b, n, j + 1)), Times(a, TermSum(a, b, n, j)))
      decreases j
    {
      hide Rem;
      hide In;
      hide Term;
      hide Times;
      hide Plus;
      if j == 0 {
        FirstTerm(a, b, n + 1);
        FirstTerm(a, b, n);
        TimesZero(a);
        PlusZero(PowerOf(b, n + 1));
      } else {
        TermSumStep(a, b, n, j - 1);
        TermStep(a, b, n, j);
        var s, t := TermSum(a, b, n, j), TermSum(a, b, n, j - 1);
        var x, y := Term(a, b, n, j), Term(a, b, n, j - 1);
        TimesPlus(s, x, b);
        TimesPlus(t, y, a);
        SwapSums(Times(b, s), Times(a, t), Times(b, x), Times(a, y));
      }
    }

    lemma {:induction false} BinomialExpansion(a: Poly, b: Poly, n: nat)
      requires Valid() && In(a) && In(b)
      ensures PowerOf(Plus(a, b), n) == TermSum(a, b, n, n + 1)
      decreases n
    {
      hide Rem;
      hide In;
      hide Term;
      hide Times;
      hide Plus;
      if n == 0 {
        FirstTerm(a, b, 0);
      } else {
        var m := n - 1;
        BinomialExpansion(a, b, m);
        TermSumStep(a, b, m, m);
        var s, t := TermSum(a, b, m, n), TermSum(a, b, m, m);
        LastTerm(a, b, m);
        LastTerm(a, b, n);
        TimesPlus(a, b, s);
        TimesPlus(t, PowerOf(a, m), a);
        RotateSum(Times(a, t), PowerOf(a, n), Times(b, s));
      }
    }

    /** (a + b) + c == (c + a) + b. */
    lemma RotateSum(a: Poly, b: Poly, c: Poly)
      requires Valid() && In(a) && In(b) && In(c)
      ensures Plus(Plus(a, b), c) == Plus(Plus(c, a), b)
    {
      hide Rem;
      hide In;
      hide Plus;
      PlusCommutes(Plus(a, b), c);
      PlusAssociates(c, a, b);
    }

    lemma {:induction false} InnerTerms(a: Poly, b: Poly, k: nat)
      requires Valid() && In(a) && In(b) && 1 <= k <= p
      ensures TermSum(a, b, p, k) == PowerOf(b, p)
    {
      hide Rem;
      hide In;
      hide Times;
      hide Plus;
      hide Dvd;
      hide Choose;
      if k == 1 {
        FirstTerm(a, b, p);
      } else {
        InnerTerms(a, b, k - 1);
        ChooseDivisible(p, k - 1);
        MultipleOfP(Choose(p, k - 1), Times(PowerOf(a, k - 1), PowerOf(b, p - (k - 1))));
        PlusZero(PowerOf(b, p));
      }
    }

    lemma PowerPlus(a: Poly, b: Poly)
      requires Valid() && In(a) && In(b)
      ensures PowerOf(Plus(a, b), p) == Plus(PowerOf(a, p), PowerOf(b, p))
    {
      hide Rem;
      hide In;
      hide Term;
      hide Times;
      hide Plus;
      hide IsPrime;
      assert p >= 1 by { PrimeIsBig(p); }
      BinomialExpansion(a, b, p);
      InnerTerms(a, b, p);
      LastTerm(a, b, p);
      PlusCommutes(PowerOf(b, p), PowerOf(a, p));
    }

    lemma {:induction false} PowerZero(a: Poly, e: nat)
      requires IsField() && In(a) && PowerOf(a, e) == []
      ensures a == []
    {
      hide Rem;
      hide Times;
      if e > 0 {
        NoZeroDivisors(a, PowerOf(a, e - 1));
        if a != [] {
          PowerZero(a, e - 1);
        }
      }
    }

    lemma PowerOneToOne(a: Poly, b: Poly)
      requires IsField() && In(a) && In(b) && PowerOf(a, p) == PowerOf(b, p)
      ensures a == b
    {
      hide Rem;
      hide In;
      hide Plus;
      hide Times;
      var d := Minus(a, b);
      MinusPlus(a, b);
      PowerPlus(d, b);
      MinusPlus(PowerOf(d, p), PowerOf(b, p));
      MinusSelf(PowerOf(b, p));
      PowerZero(d, p);
      PlusZero(b);
    }

    // ---------- roots ----------

    ghost predicate AllIn(c: seq<Poly>) {
      forall i :: 0 <= i < |c| ==> In(c[i])
    }

    /** The value at y of the polynomial with the coefficients c, by Horner's rule. */
    ghost function Value(c: seq<Poly>, y: Poly): (r: Poly)
      requires Valid()
      ensures In(r)
    {
      if |c| == 0 then Rem([]) else Plus(c[0], Times(y, Value(c[1..], y)))
    }

    /** The quotient of c(y) - c(r) by y - r. */
    ghost function Deflate(c: seq<Poly>, r: Poly): (q: seq<Poly>)
      requires Valid() && |c| > 0
      ensures |q| == |c| - 1 && AllIn(q)
    {
      seq(|c| - 1, i requires 0 <= i < |c| - 1 => Value(c[i + 1..], r))
    }

    lemma ValueOfConstant(c: seq<Poly>, y: Poly)
      requires Valid() && AllIn(c) && |c| == 1
      ensures Value(c, y) == c[0]
    {
      hide Rem;
      hide Plus;
      hide Times;
      assert c[1..] == [];
      ZeroIsElement();
      TimesZero(y);
      PlusZero(c[0]);
    }

    lemma DeflateTail(c: seq<Poly>, r: Poly)
      requires Valid() && |c| >= 2
      ensures Deflate(c, r) == [Value(c[1..], r)] + Deflate(c[1..], r)
    {
      hide Rem;
      hide Plus;
      hide Times;
      forall i | 1 <= i < |c| - 1 ensures Deflate(c, r)[i] == Deflate(c[1..], r)[i - 1] {
        assert c[1..][i..] == c[i + 1..];
      }
    }

    lemma {:induction false} DeflateIdentity(c: seq<Poly>, r: Poly, s: Poly)
      requires Valid() && AllIn(c) && |c| > 0 && In(r) && In(s)
      ensures Value(c, s) == Plus(Value(c, r), Times(Minus(s, r), Value(Deflate(c, r), s)))
      decreases |c|
    {
      hide Rem;
      hide Plus;
      hide Times;
      hide In;
      hide Minus;
      if |c| == 1 {
        ValueOfConstant(c, s);
        ValueOfConstant(c, r);
        ZeroIsElement();
        TimesZero(Minus(s, r));
        PlusZero(Value(c, r));
      } else {
        var t := c[1..];
        DeflateIdentity(t, r, s);
        DeflateTail(c, r);
        var q := Deflate(c, r);
        assert q[1..] == Deflate(t, r);
        HornerStep(c[0], r, s, Value(t, r), Value(q[1..], s));
      }
    }

    /** c + s*(w + d*q) == (c + r*w) + d*(w + s*q) where d = s - r. */
    lemma HornerStep(c: Poly, r: Poly, s: Poly, w: Poly, q: Poly)
      requires Valid() && In(c) && In(r) && In(s) && In(w) && In(q)
      ensures Plus(c, Times(s, Plus(w, Times(Minus(s, r), q))))
           == Plus(Plus(c, Times(r, w)), Times(Minus(s, r), Plus(w, Times(s, q))))
    {
      hide Rem;
      hide Plus;
      hide Times;
      hide In;
      hide Minus;
      var d := Minus(s, r);
      var dw, rw, dsq := Times(d, w), Times(r, w), Times(d, Times(s, q));
      MinusPlus(s, r);
      TimesPlus(d, r, w);
      TimesPlus(w, Times(d, q), s);
      assert Times(s, Times(d, q)) == dsq by {
        TimesAssociates(s, d, q);
        TimesCommutes(s, d);
        TimesAssociates(d, s, q);
      }
      TimesPlus(w, Times(s, q), d);
      PlusCommutes(dw, rw);
      PlusAssociates(rw, dw, dsq);
      PlusAssociates(c, rw, Plus(dw, dsq));
    }

    /** A polynomial over the field has no more roots than its degree. */
    lemma {:induction false} RootsAtMostDegree(c: seq<Poly>, roots: set<Poly>)
      requires IsField() && AllIn(c) && |c| > 0 && c[|c| - 1] != []
      requires forall y :: y in roots ==> In(y) && Value(c, y) == []
      ensures |roots| <= |c| - 1
      decreases |c|
    {
      hide Rem;
      hide Plus;
      hide Times;
      hide In;
      hide Minus;
      hide ReducibleModulo;
      if r :| r in roots {
        if |c| == 1 {
          ValueOfConstant(c, r);
          assert false;
        } else {
          var q := Deflate(c, r);
          assert c[|c| - 1..] == [c[|c| - 1]];
          ValueOfConstant(c[|c| - 1..], r);
          assert q[|q| - 1] == c[|c| - 1];
          forall s | s in roots - {r} ensures In(s) && Value(q, s) == [] {
            OtherRoot(c, r, s);
          }
          RootsAtMostDegree(q, roots - {r});
        }
      }
    }

    lemma OtherRoot(c: seq<Poly>, r: Poly, s: Poly)
      requires IsField() && AllIn(c) && |c| > 0 && In(r) && In(s) && r != s
      requires Value(c, r) == [] && Value(c, s) == []
      ensures Value(Deflate(c, r), s) == []
    {
      hide Rem;
      hide Plus;
      hide Times;
      hide In;
      hide Value;
      hide Minus;
      hide ReducibleModulo;
      DeflateIdentity(c, r, s);
      var d, v := Minus(s, r), Value(Deflate(c, r), s);
      PlusZero(Times(d, v));
      NoZeroDivisors(d, v);
      MinusPlus(s, r);
      PlusZero(r);
    }

    // ---------- integer polynomials at field elements ----------

    ghost function Subst(g: Poly, y: Poly): (r: Poly)
      requires Valid()
      ensures In(r)
    {
      if |g| == 0 then Rem([]) else Plus(Rem([g[0]]), Times(y, Subst(g[1..], y)))
    }

    ghost function Constants(g: Poly): (c: seq<Poly>)
      requires Valid()
      ensures |c| == |g| && AllIn(c)
    {
      seq(|g|, i requires 0 <= i < |g| => Rem([g[i]]))
    }

    lemma {:induction false} SubstIsValue(g: Poly, y: Poly)
      requires Valid()
      ensures Subst(g, y) == Value(Constants(g), y)
    {
      hide Rem;
      hide Plus;
      hide Times;
      if |g| > 0 {
        SubstIsValue(g[1..], y);
        assert Constants(g)[1..] == Constants(g[1..]);
      }
    }

    lemma NonzeroConstant(c: int)
      requires Valid() && !Dvd(p, c)
      ensures Rem([c]) != []
    {
      hide CongMod;
      hide IsPrime;
      hide Mul;
      hide Dvd;
      hide Cong;
      assert p > 0 by { PrimeIsBig(p); }
      DvdMod(p, c);
      assert c % p != 0 by { NonzeroResidue(p, c); }
      RemOfElement([c % p]);
      ConstantResidue(c, p);
      RemCong([c], [c % p]);
    }

    lemma SubstRootsAtMostDegree(g: Poly, roots: set<Poly>)
      requires IsField() && LeadInvertible(g, p)
      requires forall y :: y in roots ==> In(y) && Subst(g, y) == []
      ensures |roots| <= |g| - 1
    {
      hide IsPrime;
      hide Dvd;
      hide Value;
      hide Subst;
      hide Rem;
      hide Plus;
      hide Times;
      hide In;
      hide ReducibleModulo;
      forall y | y in roots ensures Value(Constants(g), y) == [] {
        SubstIsValue(g, y);
      }
      NonzeroConstant(g[|g| - 1]);
      RootsAtMostDegree(Constants(g), roots);
    }

    // ---------- substitution ----------

    lemma {:induction false} SubstAdd(g: Poly, h: Poly, y: Poly)
      requires Valid() && In(y)
      ensures Subst(Add(g, h), y) == Plus(Subst(g, y), Subst(h, y))
      decreases |g| + |h|
    {
      hide Rem;
      hide In;
      hide Plus;
      hide Times;
      hide IsPrime;
      hide Add;
      ZeroIsElement();
      AddTail(g, h);
      if |g| == 0 {
        PlusZero(Subst(h, y));
      } else if |h| == 0 {
        PlusZero(Subst(g, y));
      } else {
        SubstAdd(g[1..], h[1..], y);
        SubstAddStep(g[0], h[0], y, Subst(g[1..], y), Subst(h[1..], y));
      }
    }

    lemma SubstAddStep(c: int, d: int, y: Poly, u: Poly, v: Poly)
      requires Valid() && In(y) && In(u) && In(v)
      ensures Plus(Rem([c + d]), Times(y, Plus(u, v))) == Plus(Plus(Rem([c]), Times(y, u)), Plus(Rem([d]), Times(y, v)))
    {
      hide Rem;
      hide In;
      hide Plus;
      hide Times;
      hide IsPrime;
      TimesPlus(u, v, y);
      ConstantSum(c, d);
      SwapSums(Rem([c]), Rem([d]), Times(y, u), Times(y, v));
    }

    lemma ConstantSum(c: int, d: int)
      requires Valid()
      ensures Rem([c + d]) == Plus(Rem([c]), Rem([d]))
    {
      hide CongMod;
      hide IsPrime;
      RemAdd([c], [d]);
      assert Add([c], [d]) == [c + d] by { assert Coef(Add([c], [d]), 0) == c + d; }
    }

    lemma ConstantProductRem(c: int, d: int)
      requires Valid()
      ensures Rem([c * d]) == Times(Rem([c]), Rem([d]))
    {
      hide CongMod;
      hide IsPrime;
      hide Mul;
      RemMul([c], [d]);
      forall k ensures Coef(Mul([c], [d]), k) == Coef([c * d], k) {
        MulCoef([c], [d], k);
        assert Monomial(c, 0) == [c];
        ConvMonomial(c, 0, [d], k);
        assert c * 0 == 0;
      }
      RemCoefs(Mul([c], [d]), [c * d]);
    }

    lemma {:induction false} SubstMonomial(c: int, k: nat, y: Poly)
      requires Valid() && In(y)
      ensures Subst(Monomial(c, k), y) == Times(Rem([c]), PowerOf(y, k))
    {
      hide Rem;
      hide In;
      hide Plus;
      hide Times;
      hide IsPrime;
      ZeroIsElement();
      if k == 0 {
        assert [c][1..] == [];
        TimesZero(y);
        PlusZero(Rem([c]));
        TimesOne(Rem([c]));
      } else {
        var m := Monomial(c, k - 1);
        assert Shift(m)[1..] == m && Shift(m)[0] == 0;
        SubstMonomial(c, k - 1, y);
        ZeroConstant();
        PlusZero(Times(y, Subst(m, y)));
        TimesAssociates(y, Rem([c]), PowerOf(y, k - 1));
        TimesCommutes(y, Rem([c]));
        TimesAssociates(Rem([c]), y, PowerOf(y, k - 1));
      }
    }

    lemma ZeroConstant()
      requires Valid()
      ensures Rem([0]) == []
    {
      hide CongMod;
      hide IsPrime;
      ZeroIsElement();
      RemCoefs([0], []);
    }

    /** The residue of x. */
    ghost function X(): (r: Poly)
      requires Valid()
      ensures In(r)
    {
      Rem([0, 1])
    }

    lemma {:induction false} SubstX(g: Poly)
      requires Valid()
      ensures Subst(g, X()) == Rem(g)
    {
      hide CongMod;
      hide In;
      hide Mul;
      hide IsPrime;
      if |g| > 0 {
        var t := g[1..];
        SubstX(t);
        RemMul([0, 1], t);
        RemAdd([g[0]], Mul([0, 1], t));
        forall k ensures Coef(Add([g[0]], Mul([0, 1], t)), k) == Coef(g, k) {
          MulCoef([0, 1], t, k);
          assert Monomial(1, 1) == Shift(Monomial(1, 0)) == [0, 1];
          ConvMonomial(1, 1, t, k);
        }
        RemCoefs(Add([g[0]], Mul([0, 1], t)), g);
      } else {
        assert g == [];
      }
    }

    // ---------- repeated p-th powers ----------

    /** a^(p^i). */
    ghost function Frob(a: Poly, i: nat): (r: Poly)
      requires Valid() && In(a)
      ensures In(r)
    {
      if i == 0 then a else PowerOf(Frob(a, i - 1), p)
    }

    lemma {:induction false} ConstantPower(c: int, e: nat)
      requires Valid()
      ensures PowerOf(Rem([c]), e) == Rem([Pow(c, e)])
    {
      hide Rem;
      hide In;
      hide Times;
      hide IsPrime;
      if e == 0 {
        OneIsElement();
        RemOfElement([1]);
      } else {
        ConstantPower(c, e - 1);
        ConstantProductRem(c, Pow(c, e - 1));
      }
    }

    lemma ConstantFixed(c: int)
      requires Valid()
      ensures PowerOf(Rem([c]), p) == Rem([c])
    {
      hide Rem;
      hide In;
      hide PowerOf;
      hide IsPrime;
      hide Pow;
      assert p > 0 by { PrimeIsBig(p); }
      ConstantPower(c, p);
      FermatInteger(p, c);
      ConstantsCong(Pow(c, p), c, p);
      RemCong([Pow(c, p)], [c]);
    }

    lemma {:induction false} SubstPower(g: Poly, y: Poly)
      requires Valid() && In(y)
      ensures PowerOf(Subst(g, y), p) == Subst(g, PowerOf(y, p))
      decreases |g|
    {
      hide Rem;
      hide In;
      hide Plus;
      hide Times;
      hide PowerOf;
      hide IsPrime;
      ZeroIsElement();
      if |g| == 0 {
        PowerOfZero();
      } else {
        var t := Subst(g[1..], y);
        SubstPower(g[1..], y);
        PowerPlus(Rem([g[0]]), Times(y, t));
        ConstantFixed(g[0]);
        PowerTimes(y, t, p);
      }
    }

    lemma PowerOfZero()
      requires Valid()
      ensures PowerOf([], p) == []
    {
      hide Rem;
      hide Times;
      hide IsPrime;
      assert p > 0 by { PrimeIsBig(p); }
      TimesZero(PowerOf([], p - 1));
    }

    lemma {:induction false} SubstFrob(g: Poly, y: Poly, i: nat)
      requires Valid() && In(y)
      ensures Frob(Subst(g, y), i) == Subst(g, Frob(y, i))
    {
      hide Rem;
      hide In;
      hide Subst;
      hide PowerOf;
      hide IsPrime;
      if i > 0 {
        SubstFrob(g, y, i - 1);
        SubstPower(g, Frob(y, i - 1));
      }
    }

    lemma {:induction false} FrobAdd(a: Poly, i: nat, j: nat)
      requires Valid() && In(a)
      ensures Frob(a, i + j) == Frob(Frob(a, i), j)
      decreases j
    {
      hide Rem;
      hide In;
      hide PowerOf;
      hide IsPrime;
      if j > 0 {
        FrobAdd(a, i, j - 1);
      }
    }

    lemma {:induction false} FrobOneToOne(a: Poly, b: Poly, i: nat)
      requires IsField() && In(a) && In(b) && Frob(a, i) == Frob(b, i)
      ensures a == b
    {
      hide Rem;
      hide In;
      hide PowerOf;
      hide IsPrime;
      if i > 0 {
        PowerOneToOne(Frob(a, i - 1), Frob(b, i - 1));
        FrobOneToOne(a, b, i - 1);
      }
    }

    lemma {:induction false} FrobIsPower(a: Poly, i: nat)
      requires Valid() && In(a)
      ensures Pow(p, i) >= 1 && Frob(a, i) == PowerOf(a, Pow(p, i))
    {
      hide Rem;
      hide In;
      hide Times;
      hide IsPrime;
      assert p >= 1 by { PrimeIsBig(p); }
      PowPositive(p, i);
      if i == 0 {
        TimesOne(a);
        assert PowerOf(a, 1) == Times(a, PowerOf(a, 0));
      } else {
        FrobIsPower(a, i - 1);
        PowPositive(p, i - 1);
        PowerPower(a, Pow(p, i - 1), p);
      }
    }

    // ---------- how soon the powers of x repeat ----------

    ghost predicate IsPeriod(j: nat)
      requires Valid()
    {
      j >= 1 && Frob(X(), j) == X()
    }

    /** Every power x^(p^i) is a root of f. */
    lemma OrbitRoot(i: nat)
      requires Valid()
      ensures Subst(f, Frob(X(), i)) == []
    {
      hide CongMod;
      hide In;
      hide IsPrime;
      hide PolyDvd;
      assert p > 0 by { PrimeIsBig(p); }
      SubstFrob(f, X(), i);
      SubstX(f);
      PolyDvdRefl(f, p);
      RemZero(f);
      FrobZero(i);
    }

    lemma {:induction false} FrobZero(i: nat)
      requires Valid()
      ensures In([]) && Frob([], i) == []
    {
      hide Rem;
      ZeroIsElement();
      if i > 0 {
        FrobZero(i - 1);
        PowerOfZero();
      }
    }

    ghost function Orbit(n: nat): set<Poly>
      requires Valid()
    {
      set i | 0 <= i < n :: Frob(X(), i)
    }

    lemma {:induction false} OrbitSize(n: nat)
      requires IsField() && forall k :: 1 <= k < n ==> !IsPeriod(k)
      ensures |Orbit(n)| == n
    {
      hide Rem;
      hide In;
      hide X;
      hide PowerOf;
      hide ReducibleModulo;
      hide IsPrime;
      if n > 0 {
        var m := n - 1;
        OrbitSize(m);
        if Frob(X(), m) in Orbit(m) {
          var i :| 0 <= i < m && Frob(X(), m) == Frob(X(), i);
          assert !IsPeriod(m - i);
          FrobAdd(X(), m - i, i);
          FrobOneToOne(Frob(X(), m - i), X(), i);
          assert false;
        }
        assert Orbit(n) == Orbit(m) + {Frob(X(), m)};
      } else {
        assert Orbit(n) == {};
      }
    }

    /** In a field some period is at most the degree. */
    lemma ShortPeriod() returns (k: nat)
      requires IsField()
      ensures k < |f| && IsPeriod(k)
    {
      hide Rem;
      hide In;
      hide X;
      hide Frob;
      hide Subst;
      hide IsPeriod;
      hide ReducibleModulo;
      hide IsPrime;
      if forall k :: 1 <= k < |f| ==> !IsPeriod(k) {
        OrbitSize(|f|);
        forall y | y in Orbit(|f|) ensures In(y) && Subst(f, y) == [] {
          var i :| 0 <= i < |f| && y == Frob(X(), i);
          OrbitRoot(i);
        }
        SubstRootsAtMostDegree(f, Orbit(|f|));
        assert false;
      }
      k :| 1 <= k < |f| && IsPeriod(k);
    }

    /** With period j every element equals its p^j-th power. */
    lemma PeriodFixesAll(y: Poly, j: nat)
      requires Valid() && In(y) && IsPeriod(j)
      ensures Frob(y, j) == y
    {
      hide Rem;
      hide In;
      hide X;
      hide Frob;
      hide Subst;
      hide IsPrime;
      SubstX(y);
      RemOfElement(y);
      SubstFrob(y, X(), j);
    }

    lemma FixedIsRoot(y: Poly, j: nat)
      requires Valid() && In(y) && Frob(y, j) == y
      ensures Pow(p, j) >= 1 && Subst(FrobeniusDifference(Pow(p, j)), y) == []
    {
      hide Rem;
      hide In;
      hide Times;
      hide Plus;
      hide Multiple;
      hide Frob;
      hide Subst;
      hide PowerOf;
      hide Monomial;
      hide IsPrime;
      FrobIsPower(y, j);
      var n: nat := Pow(p, j);
      SubstAdd(Monomial(1, n), Monomial(-1, 1), y);
      SubstMonomial(1, n, y);
      SubstMonomial(-1, 1, y);
      OneIsElement();
      RemOfElement([1]);
      TimesOne(y);
      PowerOfOne(y);
      ConstantTimes(-1, y);
      MinusSelf(y);
    }

    lemma PowerOfOne(y: Poly)
      requires Valid() && In(y)
      ensures PowerOf(y, 1) == y
    {
      hide Rem;
      hide In;
      hide Times;
      TimesOne(y);
      assert PowerOf(y, 1) == Times(y, PowerOf(y, 0));
    }

    lemma ConstantTimes(c: int, y: Poly)
      requires Valid() && In(y)
      ensures Times(Rem([c]), y) == Multiple(c, y)
    {
      hide CongMod;
      hide Cong;
      hide In;
      hide Mul;
      hide IsPrime;
      assert p > 0 by { PrimeIsBig(p); }
      RemOfElement(y);
      RemMul([c], y);
      ConstantProduct(c, y, p);
      RemCong(Mul([c], y), Scale(c, y));
    }

    lemma PeriodPositive(j: nat)
      requires Valid() && IsPeriod(j)
      ensures j >= 1
    {
    }

    lemma ElementIsRoot(y: Poly, j: nat)
      requires Valid() && y in NormalPolys(p, |f| - 1) && IsPeriod(j)
      ensures In(y) && Pow(p, j) >= 1 && Subst(FrobeniusDifference(Pow(p, j)), y) == []
    {
      hide Subst;
      hide IsPeriod;
      NormalPolysShort(p, |f| - 1, y);
      IsElement(y);
      PeriodFixesAll(y, j);
      FixedIsRoot(y, j);
    }

    /** In a field no period is below the degree. */
    lemma NoShorterPeriod(j: nat)
      requires IsField() && IsPeriod(j)
      ensures j >= |f| - 1
    {
      hide Rem;
      hide In;
      hide X;
      hide Frob;
      hide Subst;
      hide Dvd;
      hide FrobeniusDifference;
      hide ReducibleModulo;
      hide IsPeriod;
      hide Pow;
      hide NormalPolys;
      hide IsPrime;
      assert p >= 2 by { PrimeIsBig(p); }
      var all := NormalPolys(p, |f| - 1);
      NormalPolysSize(p, |f| - 1);
      assert j >= 1 by { PeriodPositive(j); }
      PowLarge(p, j);
      var n := Pow(p, j);
      forall y | y in all ensures In(y) && Subst(FrobeniusDifference(n), y) == [] {
        ElementIsRoot(y, j);
      }
      DifferenceLead(n, p);
      SubstRootsAtMostDegree(FrobeniusDifference(n), all);
      if j < |f| - 1 {
        PowStrict(p, j, |f| - 1);
      }
    }

    lemma IsElement(y: Poly)
      requires Normal(y, p) && |y| < |f|
      ensures In(y)
    {
    }

    /** The degree is a period of a field. */
    lemma DegreeIsPeriod()
      requires IsField()
      ensures IsPeriod(|f| - 1)
    {
      hide IsPeriod;
      hide ReducibleModulo;
      hide IsPrime;
      var k := ShortPeriod();
      NoShorterPeriod(k);
    }

    /** Periods are closed under taking multiples. */
    lemma {:induction false} PeriodMultiple(j: nat, t: nat)
      requires Valid() && IsPeriod(j) && t >= 1
      ensures IsPeriod(t * j)
      decreases t
    {
      hide Rem;
      hide In;
      hide X;
      hide Frob;
      hide IsPrime;
      if t > 1 {
        PeriodMultiple(j, t - 1);
        FrobAdd(X(), (t - 1) * j, j);
        Distribute(j, t, 1);
      }
    }

    /** Two periods have a common divisor that is a period. */
    lemma {:induction false} CommonPeriod(a: nat, b: nat) returns (c: nat)
      requires Valid() && IsPeriod(a) && IsPeriod(b)
      ensures IsPeriod(c) && Dvd(c, a) && Dvd(c, b)
      decreases a + b
    {
      hide Rem;
      hide In;
      hide X;
      hide Frob;
      hide Dvd;
      hide IsPrime;
      if a == b {
        c := a;
        DvdWitness(c, a, 1);
      } else if a < b {
        FrobAdd(X(), a, b - a);
        c := CommonPeriod(a, b - a);
        DvdAdd(c, b - a, a);
      } else {
        FrobAdd(X(), b, a - b);
        c := CommonPeriod(a - b, b);
        DvdAdd(c, a - b, b);
      }
    }
  }

  lemma ScaledProduct(n: int, a: Poly, b: Poly, k: int)
    ensures Coef(Mul(Scale(n, a), b), k) == n * Coef(Mul(a, b), k) == Coef(Mul(a, Scale(n, b)), k)
  {
    MulCoef(Scale(n, a), b, k);
    MulCoef(a, b, k);
    MulCoef(a, Scale(n, b), k);
    ConvScaleLeft(n, a, b, k);
    ConvScaleRight(a, n, b, k);
  }

  lemma NonzeroResidue(p: int, c: int)
    requires p > 0
    ensures c % p == 0 <==> Dvd(p, c)
  {
  }

  lemma ConstantResidue(c: int, p: nat)
    requires p > 0
    ensures Cong([c], [c % p], p)
  {
    hide Dvd;
    DvdMod(p, c);
    DvdZero(p);
  }

  lemma AddTail(g: Poly, h: Poly)
    ensures |g| == 0 ==> Add(g, h) == h
    ensures |h| == 0 ==> Add(g, h) == g
    ensures |g| > 0 && |h| > 0 ==>
      |Add(g, h)| > 0 && Add(g, h)[0] == g[0] + h[0] && Add(g, h)[1..] == Add(g[1..], h[1..])
  {
    var s := Add(g, h);
    assert forall k :: 0 <= k < |s| ==> s[k] == Coef(s, k) == Coef(g, k) + Coef(h, k);
  }

  lemma ConstantsCong(c: int, d: int, p: nat)
    requires p > 0 && Dvd(p, c - d)
    ensures Cong([c], [d], p)
  {
    hide Dvd;
    DvdZero(p);
  }

  /** Fermat's little theorem for any integer. */
  lemma FermatInteger(p: nat, c: int)
    requires IsPrime(p)
    ensures Dvd(p, Pow(c, p) - c)
  {
    hide Dvd;
    hide SameResidue;
    hide Pow;
    hide IsPrime;
    assert p > 0 by { PrimeIsBig(p); }
    var r := c % p;
    Fermat(p, r);
    PowMod(p, c, p);
    SameResidueDvd(p, Pow(r, p), Pow(c, p));
    DvdMod(p, c);
    DvdAdd(p, Pow(r, p) - r, Pow(r, p) - Pow(c, p));
    DvdAdd(p, Pow(c, p) - r, c - r);
  }

  lemma DifferenceLead(n: nat, p: nat)
    requires n >= 2 && p >= 2
    ensures |FrobeniusDifference(n)| == n + 1 && LeadInvertible(FrobeniusDifference(n), p)
  {
    hide Dvd;
    MonomialSize(1, n);
    MonomialSize(-1, 1);
    FrobeniusCoef(n, n);
    NotDvdSmall(p, 1);
  }

  lemma {:induction false} MonomialSize(c: int, k: nat)
    ensures |Monomial(c, k)| == k + 1
  {
    if k > 0 {
      MonomialSize(c, k - 1);
    }
  }

  // ---------- counting the elements ----------

  function Prepend(c: int, t: Poly): Poly {
    if c == 0 && |t| == 0 then [] else [c] + t
  }

  lemma PrependOneToOne(c: int, d: int, t: Poly, u: Poly)
    requires Prepend(c, t) == Prepend(d, u)
    ensures c == d && t == u
  {
    var a, b := [c] + t, [d] + u;
    assert a[0] == c && a[1..] == t && b[0] == d && b[1..] == u;
  }

  ghost function Layer(c: int, s: set<Poly>): set<Poly> {
    set t | t in s :: Prepend(c, t)
  }

  lemma {:induction false} LayerSize(c: int, s: set<Poly>)
    ensures |Layer(c, s)| == |s|
    decreases |s|
  {
    hide Prepend;
    if t :| t in s {
      var rest := s - {t};
      LayerSize(c, rest);
      if Prepend(c, t) in Layer(c, rest) {
        var u :| u in rest && Prepend(c, t) == Prepend(c, u);
        PrependOneToOne(c, c, t, u);
        assert false;
      }
      assert Layer(c, s) == Layer(c, rest) + {Prepend(c, t)};
    } else {
      assert Layer(c, s) == {};
    }
  }

  ghost function Layers(n: nat, s: set<Poly>): set<Poly> {
    if n == 0 then {} else Layers(n - 1, s) + Layer(n - 1, s)
  }

  lemma {:induction false} LayersMembers(n: nat, s: set<Poly>, a: Poly) returns (c: int, t: Poly)
    requires a in Layers(n, s)
    ensures 0 <= c < n && t in s && a == Prepend(c, t)
  {
    if a in Layer(n - 1, s) {
      c := n - 1;
      t :| t in s && a == Prepend(c, t);
    } else {
      c, t := LayersMembers(n - 1, s, a);
    }
  }

  lemma LayersApart(n: nat, s: set<Poly>)
    ensures Layers(n, s) * Layer(n, s) == {}
  {
    hide Prepend;
    var both := Layers(n, s) * Layer(n, s);
    if a :| a in both {
      var c, t := LayersMembers(n, s, a);
      var u :| u in s && a == Prepend(n, u);
      PrependOneToOne(c, n, t, u);
      assert false;
    }
  }

  lemma {:induction false} LayersSize(n: nat, s: set<Poly>)
    ensures |Layers(n, s)| == n * |s|
  {
    hide Layer;
    if n > 0 {
      LayersSize(n - 1, s);
      LayerSize(n - 1, s);
      LayersApart(n - 1, s);
      Distribute(|s|, n, 1);
    }
  }

  /** The normal polynomials modulo p with at most n coefficients. */
  ghost function NormalPolys(p: nat, n: nat): set<Poly> {
    if n == 0 then {[]} else Layers(p, NormalPolys(p, n - 1))
  }

  lemma {:induction false} NormalPolysSize(p: nat, n: nat)
    ensures |NormalPolys(p, n)| == Pow(p, n)
  {
    if n > 0 {
      NormalPolysSize(p, n - 1);
      LayersSize(p, NormalPolys(p, n - 1));
    }
  }

  lemma {:induction false} NormalPolysShort(p: nat, n: nat, a: Poly)
    requires a in NormalPolys(p, n)
    ensures Normal(a, p) && |a| <= n
  {
    if n > 0 {
      var c, t := LayersMembers(p, NormalPolys(p, n - 1), a);
      NormalPolysShort(p, n - 1, t);
    }
  }
}
