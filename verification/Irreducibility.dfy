module Irreducibility {
  /**
   Rabin's test (ModularPoly::is_irreducible, include/gnfs/sqrt/modular_poly.hpp): a
   polynomial f of degree d is irreducible modulo p exactly when x^(p^d) is x modulo f and
   x^(p^(d/q)) - x has no factor in common with f for any prime q dividing d.

   `IsPeriod(i)` of the ring of residues modulo h says that x^(p^i) is x modulo h.  In the
   field of an irreducible h the periods are known: none is below the degree, and the degree
   is one.  Yes is right because the periods modulo an irreducible factor would have a common
   divisor with d below d; no is right because every test that fails needs a period of f that
   does not exist.
   */

  import opened NumberTheory
  import opened Polynomials
  import opened FieldRoots
  import opened ModularPoly
  import opened PolyFactors
  import opened ResidueRings

  // ---------- the primes dividing the degree ----------

  ghost predicate PrimeDivisor(q: int, d: int) {
    IsPrime(q) && Dvd(q, d)
  }

  method PrimeDivisors(d: nat) returns (primes: seq<int>)
    requires d >= 1
    ensures forall q :: q in primes <==> PrimeDivisor(q, d)
    ensures forall i :: 0 <= i < |primes| ==> primes[i] >= 2
  {
    hide Dvd;
    hide IsPrime;
    primes := [];
    var temp, q := d, 2;
    SelfDvd(d);
    while q * q <= temp
      invariant q >= 2 && temp >= 1 && Dvd(temp, d)
      invariant forall r :: r in primes ==> PrimeDivisor(r, d)
      invariant forall r :: PrimeDivisor(r, d) ==> r in primes || PrimeDivisor(r, temp)
      invariant forall k :: 2 <= k < q ==> !Dvd(k, temp)
      decreases d - q
    {
      SquareBound(q, temp, d);
      NotDvdIntro(q, temp);
      if temp % q == 0 {
        LeastDivisorIsPrime(q, temp, d);
        primes := primes + [q];
        temp := DivideOut(temp, q, d, primes);
      }
      q := q + 1;
    }
    if temp > 1 {
      RestIsPrime(temp, q);
      primes := primes + [temp];
    }
    forall r | PrimeDivisor(r, d) ensures r in primes {
      if PrimeDivisor(r, temp) {
        PrimeDivisorLeft(r, temp);
      }
    }
    forall i | 0 <= i < |primes| ensures primes[i] >= 2 {
      assert primes[i] in primes;
      PrimeIsBig(primes[i]);
    }
  }

  /** Divides temp by q as often as possible. */
  method DivideOut(start: int, q: int, d: int, primes: seq<int>) returns (temp: int)
    requires start >= 1 && Dvd(start, d) && IsPrime(q) && q in primes && Dvd(q, start)
    requires forall k :: 2 <= k < q ==> !Dvd(k, start)
    requires forall r :: PrimeDivisor(r, d) ==> r in primes || PrimeDivisor(r, start)
    ensures 1 <= temp <= start && Dvd(temp, d) && !Dvd(q, temp)
    ensures forall k :: 2 <= k < q ==> !Dvd(k, temp)
    ensures forall r :: PrimeDivisor(r, d) ==> r in primes || PrimeDivisor(r, temp)
  {
    hide Dvd;
    hide IsPrime;
    assert q >= 2 by { PrimeIsBig(q); }
    temp := start;
    SelfDvd(start);
    while temp % q == 0
      invariant 1 <= temp <= start && Dvd(temp, start)
      invariant forall r :: PrimeDivisor(r, d) ==> r in primes || PrimeDivisor(r, temp)
      decreases temp
    {
      QuotientFacts(temp, q, start);
      forall r | PrimeDivisor(r, temp) ensures r == q || PrimeDivisor(r, temp / q) {
        OtherPrimesStay(r, q, temp);
      }
      temp := temp / q;
    }
    NotDvdIntro(q, temp);
    DvdChain(temp, start, d);
    forall k | 2 <= k < q ensures !Dvd(k, temp) {
      if Dvd(k, temp) {
        DvdChain(k, temp, start);
      }
    }
  }

  lemma NotDvdIntro(q: int, x: int)
    requires q > 0
    ensures Dvd(q, x) <==> x % q == 0
  {
  }

  lemma SelfDvd(d: int)
    requires d > 0
    ensures Dvd(d, d)
  {
  }

  lemma DvdChain(a: int, b: int, c: int)
    requires a > 0 && b > 0 && Dvd(a, b) && Dvd(b, c)
    ensures Dvd(a, c)
  {
    hide Dvd;
    var k := DvdFactor(b, c);
    DvdMul(a, b, k);
  }

  lemma DvdAtMost(a: int, b: int)
    requires a > 0 && b > 0 && Dvd(a, b)
    ensures a <= b
  {
  }

  lemma SquareBound(q: int, temp: int, d: int)
    requires q >= 2 && q * q <= temp && temp >= 1 && d >= 1 && Dvd(temp, d)
    ensures q < d
  {
    DvdAtMost(temp, d);
    MulMonotone(q, 2, q);
  }

  lemma QuotientFacts(temp: int, q: int, start: int)
    requires temp >= 1 && q >= 2 && temp % q == 0 && Dvd(temp, start)
    ensures 1 <= temp / q < temp && Dvd(temp / q, start) && temp == q * (temp / q)
  {
    var k := DvdFactor(temp, start);
    var t := temp / q;
    assert temp == q * t;
    ProperQuotient(temp, q, t);
    Associate(t, q, k);
    DvdWitness(t, start, q * k);
  }

  lemma ProperQuotient(temp: int, q: int, t: int)
    requires temp >= 1 && q >= 2 && temp == q * t
    ensures 1 <= t < temp
  {
    if t < 1 {
      MulMonotone(q, t, 0);
    } else {
      MulMonotone(t, 2, q);
    }
  }

  lemma OtherPrimesStay(r: int, q: int, temp: int)
    requires IsPrime(q) && temp >= 1 && temp % q == 0 && PrimeDivisor(r, temp)
    ensures r == q || PrimeDivisor(r, temp / q)
  {
    hide Dvd;
    hide IsPrime;
    assert q >= 2 && r >= 2 by { PrimeIsBig(q); PrimeIsBig(r); }
    Euclid(r, q, temp / q);
    if Dvd(r, q) {
      PrimeDivisorOfPrime(r, q);
    }
  }

  lemma PrimeDivisorOfPrime(r: int, q: int)
    requires IsPrime(r) && IsPrime(q) && Dvd(r, q)
    ensures r == q
  {
    DvdAtMost(r, q);
  }

  lemma PrimeDivisorLeft(r: int, temp: int)
    requires PrimeDivisor(r, temp) && (temp == 1 || IsPrime(temp))
    ensures r == temp && temp > 1
  {
    hide IsPrime;
    PrimeIsBig(r);
    if temp == 1 {
      DvdAtMost(r, temp);
    } else {
      PrimeIsBig(temp);
      PrimeDivisorOfPrime(r, temp);
    }
  }

  lemma LeastDivisorIsPrime(q: int, temp: int, d: int)
    requires q >= 2 && temp >= 1 && temp % q == 0 && Dvd(temp, d)
    requires forall k :: 2 <= k < q ==> !Dvd(k, temp)
    ensures PrimeDivisor(q, d) && Dvd(q, temp)
  {
    hide Dvd;
    NotDvdIntro(q, temp);
    DvdChain(q, temp, d);
    forall k | 2 <= k < q ensures q % k != 0 {
      NotDvdIntro(k, q);
      if Dvd(k, q) {
        DvdChain(k, q, temp);
      }
    }
  }

  lemma RestIsPrime(temp: int, q: int)
    requires temp > 1 && q >= 2 && q * q > temp
    requires forall k :: 2 <= k < q ==> !Dvd(k, temp)
    ensures IsPrime(temp)
  {
    hide Dvd;
    hide IsPrime;
    if !IsPrime(temp) {
      var small, large := SplitComposite(temp);
      MulMonotone(small, small, large);
      if small >= q {
        MulMonotone(q, q, small);
        MulMonotone(small, q, small);
      }
      DvdWitness(small, temp, large);
    }
  }

  // ---------- periods modulo f and modulo its divisors ----------

  /** x^(p^i) modulo f, reduced modulo a divisor h of f, is x^(p^i) modulo h. */
  lemma {:induction false} OrbitModDivisor(f: Poly, h: Poly, p: nat, i: nat)
    requires Ring(f, p).Valid() && Ring(h, p).Valid() && PolyDvd(h, f, p)
    ensures Ring(h, p).Rem(Ring(f, p).Frob(Ring(f, p).X(), i)) == Ring(h, p).Frob(Ring(h, p).X(), i)
  {
    hide CongMod;
    hide PolyDvd;
    hide IsPrime;
    hide PolyPow;
    var r, s := Ring(f, p), Ring(h, p);
    if i == 0 {
      RemModDivisor(f, h, p, [0, 1]);
    } else {
      var a := r.Frob(r.X(), i - 1);
      OrbitModDivisor(f, h, p, i - 1);
      r.RemOfElement(a);
      r.PowerRem(a, p);
      s.PowerRem(a, p);
      RemModDivisor(f, h, p, PolyPow(a, p));
    }
  }

  lemma RemModDivisor(f: Poly, h: Poly, p: nat, a: Poly)
    requires Ring(f, p).Valid() && Ring(h, p).Valid() && PolyDvd(h, f, p)
    ensures Ring(h, p).Rem(Ring(f, p).Rem(a)) == Ring(h, p).Rem(a)
  {
    hide CongMod;
    hide PolyDvd;
    hide IsPrime;
    assert p > 0 by { PrimeIsBig(p); }
    var r := Ring(f, p).Rem(a);
    CongModDivisor(r, a, f, h, p);
    Ring(h, p).SameRem(r, a);
  }

  /** h divides x^(p^e) - x, taken modulo f, exactly when e is a period modulo h. */
  lemma PeriodIffDivides(f: Poly, h: Poly, p: nat, e: nat, power: Poly, diff: Poly)
    requires Ring(f, p).Valid() && Ring(h, p).Valid() && PolyDvd(h, f, p) && e >= 1
    requires power == Ring(f, p).Frob(Ring(f, p).X(), e) && Cong(Add(diff, [0, 1]), power, p)
    ensures PolyDvd(h, diff, p) <==> Ring(h, p).IsPeriod(e)
  {
    hide Cong;
    hide CongMod;
    hide PolyDvd;
    hide IsPrime;
    hide Add;
    var s := Ring(h, p);
    OrbitModDivisor(f, h, p, e);
    s.RemCong(Add(diff, [0, 1]), power);
    s.RemAdd(diff, [0, 1]);
    s.RemZero(diff);
    var r := s.Rem(diff);
    s.PlusZero(s.X());
    s.MinusPlus(r, s.X());
    s.MinusSelf(s.X());
  }

  /** No divisor of f has the period e. */
  ghost predicate Separated(f: Poly, p: nat, e: nat)
    requires IsPrime(p)
  {
    forall h: Poly :: Ring(h, p).Valid() && PolyDvd(h, f, p) ==> !Ring(h, p).IsPeriod(e)
  }

  lemma GcdIsConstant(f: Poly, p: nat, e: nat, power: Poly, diff: Poly, g: Poly)
    requires Ring(f, p).Valid() && e >= 1
    requires power == Ring(f, p).Frob(Ring(f, p).X(), e) && Cong(Add(diff, [0, 1]), power, p)
    requires Normal(g, p) && IsGcd(g, diff, f, p) && |g| <= 1
    ensures Separated(f, p, e)
  {
    hide Cong;
    hide CongMod;
    hide PolyDvd;
    hide IsPrime;
    hide Dvd;
    forall h: Poly | Ring(h, p).Valid() && PolyDvd(h, f, p) ensures !Ring(h, p).IsPeriod(e) {
      PeriodIffDivides(f, h, p, e, power, diff);
      if PolyDvd(h, diff, p) {
        ShortMultiple(g, h, p);
        PolyDvdRefl(g, p);
        NothingDividesZero(g, f, p);
        assert false;
      }
    }
  }

  lemma NothingDividesZero(g: Poly, f: Poly, p: nat)
    requires IsPrime(p) && LeadInvertible(f, p) && PolyDvd(g, f, p)
    ensures g != []
  {
    hide Cong;
    hide Mul;
    hide IsPrime;
    assert p > 0 by { PrimeIsBig(p); }
    if g == [] {
      var q: Poly :| Cong(f, Mul(q, g), p);
      forall k ensures Coef(Mul(q, []), k) == Coef([], k) {
        EmptyProductCoef(q, [], k);
      }
      SameCoefs(Mul(q, []), [], p);
      CongTrans(f, Mul(q, []), [], p);
      LeadNotZero(f, p);
      assert false;
    }
  }

  /** A gcd that is not constant shows that f is reducible. */
  lemma GcdSplits(f: Poly, p: nat, e: nat, power: Poly, diff: Poly, g: Poly)
    requires Ring(f, p).Valid() && 1 <= e < |f| - 1
    requires power == Ring(f, p).Frob(Ring(f, p).X(), e) && Cong(Add(diff, [0, 1]), power, p)
    requires Normal(g, p) && IsGcd(g, diff, f, p) && |g| >= 2
    ensures ReducibleModulo(f, p)
  {
    hide Cong;
    hide CongMod;
    hide PolyDvd;
    hide IsPrime;
    hide Dvd;
    hide ReducibleModulo;
    assert p > 0 by { PrimeIsBig(p); }
    if !ReducibleModulo(f, p) {
      PolyDvdRefl(g, p);
      PolyDvdRefl(f, p);
      NormalLead(g, p);
      DivisorOfIrreducible(g, f, p);
      PeriodIffDivides(f, f, p, e, power, diff);
      Ring(f, p).NoShorterPeriod(e);
      assert false;
    }
  }

  // ---------- the two directions ----------

  /** The conditions of the test exclude every factorisation. */
  lemma RabinSound(f: Poly, p: nat)
    requires Ring(f, p).Valid() && Ring(f, p).IsPeriod(|f| - 1)
    requires forall q {:trigger PrimeDivisor(q, |f| - 1)} ::
      PrimeDivisor(q, |f| - 1) ==> Separated(f, p, (|f| - 1) / q)
    ensures !ReducibleModulo(f, p)
  {
    hide CongMod;
    hide PolyDvd;
    hide IsPrime;
    hide Dvd;
    hide ReducibleModulo;
    if ReducibleModulo(f, p) {
      assert p > 0 by { PrimeIsBig(p); }
      var d := |f| - 1;
      var h := IrreducibleFactor(f, p);
      var s := Ring(h, p);
      var k := s.ShortPeriod();
      PeriodOfDivisor(f, h, p, d);
      var c := s.CommonPeriod(k, d);
      PeriodBelow(c, k, d);
      var q, t := CofactorPrime(c, d);
      assert Separated(f, p, d / q);
      s.PeriodMultiple(c, t);
      assert false;
    }
  }

  lemma PeriodBelow(c: nat, k: nat, d: nat)
    requires c >= 1 && k >= 1 && Dvd(c, k) && k < d
    ensures c < d
  {
    DvdAtMost(c, k);
  }

  lemma PeriodOfDivisor(f: Poly, h: Poly, p: nat, j: nat)
    requires Ring(f, p).Valid() && Ring(h, p).Valid() && PolyDvd(h, f, p) && Ring(f, p).IsPeriod(j)
    ensures Ring(h, p).IsPeriod(j)
  {
    hide CongMod;
    hide PolyDvd;
    hide IsPrime;
    OrbitModDivisor(f, h, p, j);
    OrbitModDivisor(f, h, p, 0);
  }

  /** A proper divisor c of d divides d/q for some prime q dividing d. */
  lemma CofactorPrime(c: int, d: int) returns (q: int, t: int)
    requires 1 <= c < d && Dvd(c, d)
    ensures q >= 2 && PrimeDivisor(q, d) && t >= 1 && t * c == d / q
  {
    hide Dvd;
    hide IsPrime;
    var m := DvdFactor(c, d);
    if m <= 1 {
      MulMonotone(c, m, 1);
    }
    q := PrimeFactor(m);
    assert q >= 2 by { PrimeIsBig(q); }
    NotDvdIntro(q, m);
    t := DvdFactor(q, m);
    CofactorSteps(c, d, m, q, t);
  }

  lemma CofactorSteps(c: int, d: int, m: int, q: int, t: int)
    requires c >= 1 && q >= 2 && m >= 2 && d == c * m && m == q * t
    ensures Dvd(q, d) && t >= 1 && t * c == d / q
  {
    if t < 1 {
      MulMonotone(q, t, 0);
    }
    MulMonotone(c, 0, t);
    assert d == q * (t * c) by {
      Associate(q, t, c);
    }
    DvdWitness(q, d, t * c);
    QuotientIs(d, q, t * c, 0);
  }

  lemma LinearIrreducible(f: Poly, p: nat)
    requires IsPrime(p) && LeadInvertible(f, p) && |f| == 2
    ensures !ReducibleModulo(f, p)
  {
    hide Cong;
    hide Mul;
    hide IsPrime;
    hide Dvd;
    assert p > 0 by { PrimeIsBig(p); }
    if ReducibleModulo(f, p) {
      var g: Poly, h: Poly :| FactorsModulo(f, g, h, p);
      ProductDegrees(f, g, h, p);
    }
  }

  // ---------- the test ----------

  /** x, x^p, x^(p^2), ..., x^(p^d) modulo f. */
  method FrobeniusPowers(f: Poly, p: nat) returns (powers: seq<Poly>)
    requires Ring(f, p).Valid() && |f| >= 3 && f[|f| - 1] >= 0
    ensures |powers| == |f|
    ensures forall i :: 0 <= i < |f| ==>
      |powers[i]| < |f| && powers[i] == Ring(f, p).Frob(Ring(f, p).X(), i)
  {
    hide CongMod;
    hide IsPrime;
    hide PolyPow;
    hide Dvd;
    hide Normal;
    ghost var r := Ring(f, p);
    XIsElement(f, p);
    r.RemOfElement([0, 1]);
    powers := [[0, 1]];
    for k := 1 to |f|
      invariant |powers| == k
      invariant forall i :: 0 <= i < k ==> r.In(powers[i]) && powers[i] == r.Frob(r.X(), i)
    {
      assert p > 0 by { PrimeIsBig(p); }
      var next := Power(powers[k - 1], p, f, p);
      NextPower(f, p, powers[k - 1], next, k - 1);
      powers := powers + [next];
    }
  }

  lemma XIsElement(f: Poly, p: nat)
    requires IsPrime(p) && |f| >= 3
    ensures Ring(f, p).In([0, 1])
  {
  }

  lemma NextPower(f: Poly, p: nat, a: Poly, next: Poly, i: nat)
    requires Ring(f, p).Valid() && a == Ring(f, p).Frob(Ring(f, p).X(), i)
    requires Normal(next, p) && |next| < |f| && CongMod(next, PolyPow(a, p), f, p)
    ensures Ring(f, p).In(next) && next == Ring(f, p).Frob(Ring(f, p).X(), i + 1)
  {
    hide CongMod;
    hide IsPrime;
    hide PolyPow;
    var r := Ring(f, p);
    r.RemOfElement(next);
    r.SameRem(next, PolyPow(a, p));
    r.RemOfElement(a);
    r.PowerRem(a, p);
  }

  /** Irreducible over the field of p elements, of positive degree. */
  ghost predicate Irreducible(f: Poly, p: nat)
    requires p > 0
  {
    |f| >= 2 && LeadInvertible(f, p) && !ReducibleModulo(f, p)
  }

  /** The test is exact. */
  method IsIrreducible(f: Poly, p: nat) returns (yes: bool)
    requires IsPrime(p) && forall i :: 0 <= i < |f| ==> f[i] >= 0
    ensures yes <==> Irreducible(f, p)
  {
    hide Cong;
    hide CongMod;
    hide PolyDvd;
    hide IsPrime;
    hide IsGcd;
    hide ReducibleModulo;
    assert p >= 2 by { PrimeIsBig(p); }
    if |f| == 0 {
      return false;
    }
    var d := |f| - 1;
    if d <= 0 {
      return false;
    }
    if f[d] % p == 0 {
      return false;
    }
    if d == 1 {
      LinearIrreducible(f, p);
      return true;
    }
    var primes := PrimeDivisors(d);
    var powers := FrobeniusPowers(f, p);
    var x := [0, 1];
    for j := 0 to |primes|
      invariant forall i :: 0 <= i < j ==> Separated(f, p, d / primes[i])
    {
      var e := d / primes[j];
      ProperPart(primes[j], d);
      var diff := Subtract(powers[e], x, p);
      var g := Gcd(diff, f, p);
      if |g| > 1 {
        GcdSplits(f, p, e, powers[e], diff, g);
        return false;
      }
      GcdIsConstant(f, p, e, powers[e], diff, g);
    }
    var last := Subtract(powers[d], x, p);
    LastIsZero(f, p, powers[d], last);
    if |last| != 0 {
      return false;
    }
    RabinSound(f, p);
    yes := true;
  }

  lemma ProperPart(q: int, d: int)
    requires PrimeDivisor(q, d) && d >= 1
    ensures 1 <= d / q < d
  {
    ProperQuotient(d, q, d / q);
  }

  /** x^(p^d) - x is zero exactly when d is a period; in a field it is. */
  lemma LastIsZero(f: Poly, p: nat, power: Poly, last: Poly)
    requires Ring(f, p).Valid() && power == Ring(f, p).Frob(Ring(f, p).X(), |f| - 1)
    requires Normal(last, p) && |last| < |f| && Cong(Add(last, [0, 1]), power, p)
    ensures last == [] <==> Ring(f, p).IsPeriod(|f| - 1)
    ensures last != [] ==> ReducibleModulo(f, p)
  {
    hide Cong;
    hide CongMod;
    hide PolyDvd;
    hide Normal;
    hide LeadInvertible;
    hide Dvd;
    hide IsPrime;
    hide ReducibleModulo;
    assert p > 0 by { PrimeIsBig(p); }
    var r := Ring(f, p);
    assert r.In(last);
    PolyDvdRefl(f, p);
    PeriodIffDivides(f, f, p, |f| - 1, power, last);
    r.RemZero(last);
    r.RemOfElement(last);
    if !ReducibleModulo(f, p) {
      r.DegreeIsPeriod();
    }
  }
}
