/**
 Integer polynomials as coefficient lists (index i holds the coefficient of x^i),
 compared coefficient by coefficient, and their congruences modulo a number p and
 modulo a second polynomial.

 Lists that differ in leading zeros stand for the same polynomial, so statements are about
 `Coef(a, k)` for every integer k, which is zero outside the list.  Products are defined
 row by row (`Mul`) and by their coefficients (`Conv`); `MulCoef` connects the two, and the
 laws of the ring are proved on `Conv`.  `Cong` is congruence modulo p, `CongMod` is
 congruence modulo p and a polynomial f, the relation kept by reduction and powers.
 */
module Polynomials {
  import opened NumberTheory

  type Poly = seq<int>

  function Coef(a: Poly, k: int): int {
    if 0 <= k < |a| then a[k] else 0
  }

  function Eval(a: Poly, x: int): int {
    if |a| == 0 then 0 else a[0] + x * Eval(a[1..], x)
  }

  function Max(i: nat, j: nat): nat {
    if i < j then j else i
  }

  function Add(a: Poly, b: Poly): (s: Poly)
    ensures forall k {:trigger Coef(s, k)} :: Coef(s, k) == Coef(a, k) + Coef(b, k)
  {
    seq(Max(|a|, |b|), k => Coef(a, k) + Coef(b, k))
  }

  function Scale(c: int, a: Poly): (s: Poly)
    ensures |s| == |a|
    ensures forall k {:trigger Coef(s, k)} :: Coef(s, k) == c * Coef(a, k)
  {
    seq(|a|, k requires 0 <= k < |a| => c * a[k])
  }

  function Shift(a: Poly): (s: Poly)
    ensures forall k {:trigger Coef(s, k)} :: Coef(s, k) == Coef(a, k - 1)
  {
    [0] + a
  }

  function Mul(a: Poly, b: Poly): (s: Poly) {
    if |a| == 0 then [] else Add(Scale(a[0], b), Shift(Mul(a[1..], b)))
  }

  /** Coefficient k of the product a * b. */
  function Conv(a: Poly, b: Poly, k: int): int {
    if |a| == 0 then 0 else a[0] * Coef(b, k) + Conv(a[1..], b, k - 1)
  }

  function Monomial(c: int, k: nat): Poly {
    if k == 0 then [c] else Shift(Monomial(c, k - 1))
  }

  // ---------- the product, coefficient by coefficient ----------

  lemma {:induction false} MulCoef(a: Poly, b: Poly, k: int)
    ensures Coef(Mul(a, b), k) == Conv(a, b, k)
  {
    if |a| > 0 {
      MulCoef(a[1..], b, k - 1);
    }
  }

  lemma {:induction false} ConvAddRight(a: Poly, b: Poly, c: Poly, k: int)
    ensures Conv(a, Add(b, c), k) == Conv(a, b, k) + Conv(a, c, k)
  {
    if |a| > 0 {
      ConvAddRight(a[1..], b, c, k - 1);
      Distribute(a[0], Coef(b, k), Coef(c, k));
    }
  }

  lemma {:induction false} ConvScaleRight(a: Poly, s: int, b: Poly, k: int)
    ensures Conv(a, Scale(s, b), k) == s * Conv(a, b, k)
  {
    if |a| > 0 {
      ConvScaleRight(a[1..], s, b, k - 1);
      ScaleStep(s, a[0], Coef(b, k), Conv(a[1..], b, k - 1));
    }
  }

  lemma ScaleStep(s: int, x: int, y: int, z: int)
    ensures x * (s * y) + s * z == s * (x * y + z) && (s * x) * y + s * z == s * (x * y + z)
  {
  }

  lemma {:induction false} ConvShiftRight(a: Poly, b: Poly, k: int)
    ensures Conv(a, Shift(b), k) == Conv(a, b, k - 1)
  {
    if |a| > 0 {
      ConvShiftRight(a[1..], b, k - 1);
    }
  }

  lemma {:induction false} ConvZero(a: Poly, k: int)
    ensures Conv(a, [], k) == 0
  {
    if |a| > 0 {
      ConvZero(a[1..], k - 1);
    }
  }

  lemma EmptyProductCoef(a: Poly, b: Poly, k: int)
    requires |a| == 0 || |b| == 0
    ensures Coef(Mul(a, b), k) == 0
  {
    MulCoef(a, b, k);
    if |b| == 0 {
      ConvZero(a, k);
      assert b == [];
    }
  }

  lemma {:induction false} ConvCommutes(a: Poly, b: Poly, k: int)
    ensures Conv(a, b, k) == Conv(b, a, k)
  {
    if |a| == 0 {
      ConvZero(b, k);
    } else {
      ConvCommutes(a[1..], b, k - 1);
      ConvPeelRight(b, a, k);
    }
  }

  lemma {:induction false} ConvPeelRight(a: Poly, b: Poly, k: int)
    requires |b| > 0
    ensures Conv(a, b, k) == b[0] * Coef(a, k) + Conv(a, b[1..], k - 1)
  {
    if |a| > 0 {
      ConvPeelRight(a[1..], b, k - 1);
      assert forall i {:trigger Coef(b, i)} :: i != 0 ==> Coef(b, i) == Coef(b[1..], i - 1);
      assert Coef(a, k) == if k == 0 then a[0] else Coef(a[1..], k - 1);
      if k == 0 {
        ConvNegative(a[1..], b[1..], k - 2);
        assert Coef(a[1..], k - 1) == 0;
      }
    }
  }

  lemma {:induction false} ConvNegative(a: Poly, b: Poly, k: int)
    requires k < 0
    ensures Conv(a, b, k) == 0
  {
    if |a| > 0 {
      ConvNegative(a[1..], b, k - 1);
    }
  }

  lemma ConvAddLeft(a: Poly, b: Poly, c: Poly, k: int)
    ensures Conv(Add(a, b), c, k) == Conv(a, c, k) + Conv(b, c, k)
  {
    ConvCommutes(Add(a, b), c, k);
    ConvAddRight(c, a, b, k);
    ConvCommutes(a, c, k);
    ConvCommutes(b, c, k);
  }

  lemma ConvScaleLeft(s: int, a: Poly, b: Poly, k: int)
    ensures Conv(Scale(s, a), b, k) == s * Conv(a, b, k)
  {
    ConvCommutes(Scale(s, a), b, k);
    ConvScaleRight(b, s, a, k);
    ConvCommutes(a, b, k);
  }

  lemma ConvShiftLeft(a: Poly, b: Poly, k: int)
    ensures Conv(Shift(a), b, k) == Conv(a, b, k - 1)
  {
    ConvCommutes(Shift(a), b, k);
    ConvShiftRight(b, a, k);
    ConvCommutes(a, b, k - 1);
  }

  lemma {:induction false} ConvMonomial(c: int, i: nat, b: Poly, k: int)
    ensures Conv(Monomial(c, i), b, k) == c * Coef(b, k - i)
  {
    if i == 0 {
      assert Conv([c], b, k) == c * Coef(b, k) + Conv([c][1..], b, k - 1);
    } else {
      ConvShiftLeft(Monomial(c, i - 1), b, k);
      ConvMonomial(c, i - 1, b, k - 1);
    }
  }

  /** (a * b) * c == a * (b * c). */
  lemma {:induction false} ConvAssociates(a: Poly, b: Poly, c: Poly, k: int)
    ensures Conv(Mul(a, b), c, k) == Conv(a, Mul(b, c), k)
  {
    if |a| > 0 {
      var ab := Mul(a[1..], b);
      ConvAddLeft(Scale(a[0], b), Shift(ab), c, k);
      ConvScaleLeft(a[0], b, c, k);
      ConvShiftLeft(ab, c, k);
      ConvAssociates(a[1..], b, c, k - 1);
      MulCoef(b, c, k);
    }
  }

  // ---------- evaluation ----------

  lemma {:induction false} EvalAdd(a: Poly, b: Poly, x: int)
    ensures Eval(Add(a, b), x) == Eval(a, x) + Eval(b, x)
  {
    var s := Add(a, b);
    if |a| == 0 {
      assert s == b by { assert forall k :: 0 <= k < |b| ==> s[k] == Coef(s, k) == Coef(b, k); }
    } else if |b| == 0 {
      assert s == a by { assert forall k :: 0 <= k < |a| ==> s[k] == Coef(s, k) == Coef(a, k); }
    } else {
      EvalAdd(a[1..], b[1..], x);
      assert s[1..] == Add(a[1..], b[1..]);
      Distribute(x, Eval(a[1..], x), Eval(b[1..], x));
    }
  }

  lemma {:induction false} EvalScale(c: int, a: Poly, x: int)
    ensures Eval(Scale(c, a), x) == c * Eval(a, x)
  {
    if |a| > 0 {
      EvalScale(c, a[1..], x);
      assert Scale(c, a)[1..] == Scale(c, a[1..]);
      EvalScaleStep(c, a[0], x, Eval(a[1..], x));
    }
  }

  lemma EvalScaleStep(c: int, y: int, x: int, z: int)
    ensures c * y + x * (c * z) == c * (y + x * z)
  {
  }

  lemma {:induction false} EvalMul(a: Poly, b: Poly, x: int)
    ensures Eval(Mul(a, b), x) == Eval(a, x) * Eval(b, x)
  {
    if |a| > 0 {
      var m := Mul(a[1..], b);
      EvalMul(a[1..], b, x);
      EvalAdd(Scale(a[0], b), Shift(m), x);
      EvalScale(a[0], b, x);
      assert Shift(m)[1..] == m;
      EvalMulStep(a[0], x, Eval(a[1..], x), Eval(b, x));
    }
  }

  lemma EvalMulStep(c: int, x: int, y: int, z: int)
    ensures c * z + x * (y * z) == (c + x * y) * z
  {
  }

  lemma {:induction false} EvalMonomial(c: int, k: nat, x: int)
    ensures Eval(Monomial(c, k), x) == c * Pow(x, k)
  {
    if k == 0 {
      assert [c][1..] == [];
      assert Eval([c], x) == c + x * Eval([], x);
    } else {
      EvalMonomial(c, k - 1, x);
      assert Shift(Monomial(c, k - 1))[1..] == Monomial(c, k - 1);
    }
  }

  // ---------- digits ----------

  predicate Digits(f: Poly, m: int) {
    forall i :: 0 <= i < |f| ==> 0 <= f[i] < m
  }

  lemma {:induction false} DigitsBelow(f: Poly, m: nat)
    requires m > 1 && Digits(f, m)
    ensures 0 <= Eval(f, m) < Pow(m, |f|)
  {
    if |f| > 0 {
      DigitsBelow(f[1..], m);
      MulMonotone(m, Eval(f[1..], m), Pow(m, |f| - 1) - 1);
      Distribute(m, Pow(m, |f| - 1), 1);
      MulMonotone(m, 0, Eval(f[1..], m));
    }
  }

  lemma SameDigit(a: int, b: int, m: int, x: int, y: int)
    requires 0 <= a < m && 0 <= b < m && a + m * x == b + m * y
    ensures a == b && x == y
  {
    Distribute(m, x, y);
    SmallMultiple(m, x - y);
  }

  /** Digit lists with the same value differ in leading zeros only. */
  lemma {:induction false} DigitsUnique(a: Poly, b: Poly, m: nat, k: int)
    requires m > 1 && Digits(a, m) && Digits(b, m) && Eval(a, m) == Eval(b, m)
    ensures Coef(a, k) == Coef(b, k)
    decreases |a| + |b|
  {
    if |a| > 0 || |b| > 0 {
      var a', b' := if |a| == 0 then [] else a[1..], if |b| == 0 then [] else b[1..];
      assert m * 0 == 0;
      SameDigit(Coef(a, 0), Coef(b, 0), m, Eval(a', m), Eval(b', m));
      DigitsUnique(a', b', m, k - 1);
    }
  }

  // ---------- congruence modulo p ----------

  ghost predicate Cong(a: Poly, b: Poly, p: int)
    requires p > 0
  {
    forall k :: Dvd(p, Coef(a, k) - Coef(b, k))
  }

  lemma CongRefl(a: Poly, p: int)
    requires p > 0
    ensures Cong(a, a, p)
  {
    hide Dvd;
    forall k ensures Dvd(p, Coef(a, k) - Coef(a, k)) {
      DvdZero(p);
    }
  }

  lemma CongSym(a: Poly, b: Poly, p: int)
    requires p > 0 && Cong(a, b, p)
    ensures Cong(b, a, p)
  {
    hide Dvd;
    forall k ensures Dvd(p, Coef(b, k) - Coef(a, k)) {
      assert Dvd(p, Coef(a, k) - Coef(b, k));
      DvdMul(p, Coef(a, k) - Coef(b, k), -1);
    }
  }

  lemma CongTrans(a: Poly, b: Poly, c: Poly, p: int)
    requires p > 0 && Cong(a, b, p) && Cong(b, c, p)
    ensures Cong(a, c, p)
  {
    hide Dvd;
    forall k ensures Dvd(p, Coef(a, k) - Coef(c, k)) {
      assert Dvd(p, Coef(a, k) - Coef(b, k)) && Dvd(p, Coef(b, k) - Coef(c, k));
      DvdAdd(p, Coef(a, k) - Coef(b, k), Coef(b, k) - Coef(c, k));
    }
  }

  lemma CongAdd(a: Poly, b: Poly, c: Poly, d: Poly, p: int)
    requires p > 0 && Cong(a, b, p) && Cong(c, d, p)
    ensures Cong(Add(a, c), Add(b, d), p)
  {
    hide Dvd;
    forall k ensures Dvd(p, Coef(Add(a, c), k) - Coef(Add(b, d), k)) {
      assert Dvd(p, Coef(a, k) - Coef(b, k)) && Dvd(p, Coef(c, k) - Coef(d, k));
      DvdAdd(p, Coef(a, k) - Coef(b, k), Coef(c, k) - Coef(d, k));
    }
  }

  lemma {:induction false} ConvCong(a: Poly, b: Poly, c: Poly, k: int, p: int)
    requires p > 0 && Cong(b, c, p)
    ensures Dvd(p, Conv(a, b, k) - Conv(a, c, k))
  {
    hide Dvd;
    DvdZero(p);
    if |a| > 0 {
      ConvCong(a[1..], b, c, k - 1, p);
      assert Dvd(p, Coef(b, k) - Coef(c, k));
      DvdMul(p, Coef(b, k) - Coef(c, k), a[0]);
      Distribute(a[0], Coef(b, k), Coef(c, k));
      DvdAdd(p, a[0] * (Coef(b, k) - Coef(c, k)), Conv(a[1..], b, k - 1) - Conv(a[1..], c, k - 1));
    }
  }

  lemma CongMulRight(a: Poly, c: Poly, d: Poly, p: int)
    requires p > 0 && Cong(c, d, p)
    ensures Cong(Mul(a, c), Mul(a, d), p)
  {
    hide Dvd;
    hide Mul;
    hide Conv;
    forall k ensures Dvd(p, Coef(Mul(a, c), k) - Coef(Mul(a, d), k)) {
      MulCoef(a, c, k);
      MulCoef(a, d, k);
      ConvCong(a, c, d, k, p);
    }
  }

  lemma CongCommutes(a: Poly, b: Poly, p: int)
    requires p > 0
    ensures Cong(Mul(a, b), Mul(b, a), p)
  {
    hide Dvd;
    hide Mul;
    hide Conv;
    forall k ensures Dvd(p, Coef(Mul(a, b), k) - Coef(Mul(b, a), k)) {
      MulCommutes(a, b, k);
      DvdZero(p);
    }
  }

  lemma CongMul(a: Poly, b: Poly, c: Poly, d: Poly, p: int)
    requires p > 0 && Cong(a, b, p) && Cong(c, d, p)
    ensures Cong(Mul(a, c), Mul(b, d), p)
  {
    hide Dvd;
    hide Mul;
    hide Cong;
    hide Conv;
    CongMulRight(a, c, d, p);
    CongMulRight(d, a, b, p);
    CongCommutes(a, d, p);
    CongCommutes(d, b, p);
    CongTrans(Mul(a, c), Mul(a, d), Mul(d, a), p);
    CongTrans(Mul(a, c), Mul(d, a), Mul(d, b), p);
    CongTrans(Mul(a, c), Mul(d, b), Mul(b, d), p);
  }

  lemma MulCommutes(a: Poly, b: Poly, k: int)
    ensures Coef(Mul(a, b), k) == Coef(Mul(b, a), k)
  {
    MulCoef(a, b, k);
    MulCoef(b, a, k);
    ConvCommutes(a, b, k);
  }

  /** Lists with the same coefficients are congruent modulo everything. */
  lemma SameCoefs(a: Poly, b: Poly, p: int)
    requires p > 0 && forall k :: Coef(a, k) == Coef(b, k)
    ensures Cong(a, b, p)
  {
    hide Dvd;
    forall k ensures Dvd(p, Coef(a, k) - Coef(b, k)) {
      DvdZero(p);
    }
  }

  lemma {:induction false} EvalCong(a: Poly, b: Poly, x: int, p: int)
    requires p > 0 && Cong(a, b, p)
    ensures Dvd(p, Eval(a, x) - Eval(b, x))
    decreases |a| + |b|
  {
    hide Dvd;
    DvdZero(p);
    if |a| == 0 && |b| == 0 {
    } else {
      var a', b' := if |a| == 0 then [] else a[1..], if |b| == 0 then [] else b[1..];
      forall k ensures Dvd(p, Coef(a', k) - Coef(b', k)) {
        if k >= 0 {
          assert Coef(a', k) == Coef(a, k + 1) && Coef(b', k) == Coef(b, k + 1);
        }
      }
      EvalCong(a', b', x, p);
      DvdMul(p, Eval(a', x) - Eval(b', x), x);
      Distribute(x, Eval(a', x), Eval(b', x));
      assert Dvd(p, Coef(a, 0) - Coef(b, 0));
      DvdAdd(p, Coef(a, 0) - Coef(b, 0), x * (Eval(a', x) - Eval(b', x)));
    }
  }

  lemma {:induction false} EvalModArgument(a: Poly, x: int, y: int, p: int)
    requires p > 0 && Dvd(p, x - y)
    ensures Dvd(p, Eval(a, x) - Eval(a, y))
  {
    hide Dvd;
    DvdZero(p);
    if |a| > 0 {
      var u, v := Eval(a[1..], x), Eval(a[1..], y);
      EvalModArgument(a[1..], x, y, p);
      DvdProducts(p, x, y, u, v);
    }
  }

  // ---------- congruence modulo p and a polynomial f ----------

  ghost predicate CongMod(a: Poly, b: Poly, f: Poly, p: int)
    requires p > 0
  {
    exists u: Poly :: Cong(a, Add(b, Mul(u, f)), p)
  }

  lemma CongModIntro(a: Poly, b: Poly, u: Poly, f: Poly, p: int)
    requires p > 0 && Cong(a, Add(b, Mul(u, f)), p)
    ensures CongMod(a, b, f, p)
  {
    hide Dvd;
  }

  lemma CongIsCongMod(a: Poly, b: Poly, f: Poly, p: int)
    requires p > 0 && Cong(a, b, p)
    ensures CongMod(a, b, f, p)
  {
    hide Dvd;
    assert Mul([], f) == [];
    forall k ensures Dvd(p, Coef(a, k) - Coef(Add(b, Mul([], f)), k)) {
      assert Dvd(p, Coef(a, k) - Coef(b, k));
    }
    CongModIntro(a, b, [], f, p);
  }

  lemma CongModTrans(a: Poly, b: Poly, c: Poly, f: Poly, p: int)
    requires p > 0 && CongMod(a, b, f, p) && CongMod(b, c, f, p)
    ensures CongMod(a, c, f, p)
  {
    hide Dvd;
    hide Mul;
    hide Cong;
    hide Conv;
    var u: Poly :| Cong(a, Add(b, Mul(u, f)), p);
    var v: Poly :| Cong(b, Add(c, Mul(v, f)), p);
    var w := Add(u, v);
    CongRefl(Mul(u, f), p);
    CongAdd(b, Add(c, Mul(v, f)), Mul(u, f), Mul(u, f), p);
    CongTrans(a, Add(b, Mul(u, f)), Add(Add(c, Mul(v, f)), Mul(u, f)), p);
    forall k ensures Coef(Add(Add(c, Mul(v, f)), Mul(u, f)), k) == Coef(Add(c, Mul(w, f)), k) {
      MulAddCoef(u, v, f, k);
    }
    SameCoefs(Add(Add(c, Mul(v, f)), Mul(u, f)), Add(c, Mul(w, f)), p);
    CongTrans(a, Add(Add(c, Mul(v, f)), Mul(u, f)), Add(c, Mul(w, f)), p);
    CongModIntro(a, c, w, f, p);
  }

  lemma MulAddCoef(u: Poly, v: Poly, f: Poly, k: int)
    ensures Coef(Mul(Add(u, v), f), k) == Coef(Mul(u, f), k) + Coef(Mul(v, f), k)
  {
    MulCoef(Add(u, v), f, k);
    MulCoef(u, f, k);
    MulCoef(v, f, k);
    ConvAddLeft(u, v, f, k);
  }

  lemma CongModMulRight(a: Poly, b: Poly, c: Poly, f: Poly, p: int)
    requires p > 0 && CongMod(a, b, f, p)
    ensures CongMod(Mul(a, c), Mul(b, c), f, p)
  {
    hide Dvd;
    hide Mul;
    hide Cong;
    hide Conv;
    var u: Poly :| Cong(a, Add(b, Mul(u, f)), p);
    var w, s := Mul(u, c), Add(b, Mul(u, f));
    CongRefl(c, p);
    CongMul(a, s, c, c, p);
    forall k ensures Coef(Mul(s, c), k) == Coef(Add(Mul(b, c), Mul(w, f)), k) {
      MulAddCoef(b, Mul(u, f), c, k);
      MulCoef(Mul(u, f), c, k);
      MulCoef(w, f, k);
      SwapLastFactors(u, f, c, k);
    }
    SameCoefs(Mul(s, c), Add(Mul(b, c), Mul(w, f)), p);
    CongTrans(Mul(a, c), Mul(s, c), Add(Mul(b, c), Mul(w, f)), p);
    CongModIntro(Mul(a, c), Mul(b, c), w, f, p);
  }

  lemma CongModMulLeft(a: Poly, b: Poly, c: Poly, f: Poly, p: int)
    requires p > 0 && CongMod(a, b, f, p)
    ensures CongMod(Mul(c, a), Mul(c, b), f, p)
  {
    hide Dvd;
    hide Mul;
    hide Cong;
    hide CongMod;
    CongModMulRight(a, b, c, f, p);
    CongCommutes(c, a, p);
    CongCommutes(b, c, p);
    CongIsCongMod(Mul(c, a), Mul(a, c), f, p);
    CongIsCongMod(Mul(b, c), Mul(c, b), f, p);
    CongModTrans(Mul(c, a), Mul(a, c), Mul(b, c), f, p);
    CongModTrans(Mul(c, a), Mul(b, c), Mul(c, b), f, p);
  }

  /** (u * f) * c == (u * c) * f. */
  lemma SwapLastFactors(u: Poly, f: Poly, c: Poly, k: int)
    ensures Conv(Mul(u, f), c, k) == Conv(Mul(u, c), f, k)
  {
    ConvAssociates(u, f, c, k);
    ConvAssociates(u, c, f, k);
    ConvCommutes(u, Mul(f, c), k);
    ConvCommutes(u, Mul(c, f), k);
    forall i ensures Coef(Mul(f, c), i) == Coef(Mul(c, f), i) {
      MulCommutes(f, c, i);
    }
    ConvDependsOnCoefs(u, Mul(f, c), Mul(c, f), k);
  }

  lemma {:induction false} ConvDependsOnCoefs(a: Poly, b: Poly, c: Poly, k: int)
    requires forall i :: Coef(b, i) == Coef(c, i)
    ensures Conv(a, b, k) == Conv(a, c, k)
  {
    if |a| > 0 {
      ConvDependsOnCoefs(a[1..], b, c, k - 1);
    }
  }

  lemma CongModMul(a: Poly, b: Poly, c: Poly, d: Poly, f: Poly, p: int)
    requires p > 0 && CongMod(a, b, f, p) && CongMod(c, d, f, p)
    ensures CongMod(Mul(a, c), Mul(b, d), f, p)
  {
    hide Dvd;
    CongModMulRight(a, b, c, f, p);
    CongModMulLeft(c, d, b, f, p);
    CongModTrans(Mul(a, c), Mul(b, c), Mul(b, d), f, p);
  }

  function PolyPow(a: Poly, e: nat): Poly {
    if e == 0 then [1] else Mul(a, PolyPow(a, e - 1))
  }

  lemma MulAssociates(a: Poly, b: Poly, c: Poly, p: int)
    requires p > 0
    ensures Cong(Mul(Mul(a, b), c), Mul(a, Mul(b, c)), p)
  {
    hide Dvd;
    hide Mul;
    hide Conv;
    forall k ensures Dvd(p, Coef(Mul(Mul(a, b), c), k) - Coef(Mul(a, Mul(b, c)), k)) {
      MulCoef(Mul(a, b), c, k);
      MulCoef(a, Mul(b, c), k);
      ConvAssociates(a, b, c, k);
      DvdZero(p);
    }
  }

  lemma MulOne(a: Poly, k: int)
    ensures Coef(Mul(a, [1]), k) == Coef(a, k)
  {
    MulCommutes(a, [1], k);
    MulCoef([1], a, k);
    assert Monomial(1, 0) == [1];
    ConvMonomial(1, 0, a, k);
  }

  lemma {:induction false} PolyPowSquare(a: Poly, e: nat, p: int)
    requires p > 0
    ensures Cong(PolyPow(a, 2 * e), PolyPow(Mul(a, a), e), p)
  {
    hide Dvd;
    hide Mul;
    hide Cong;
    if e == 0 {
      CongRefl([1], p);
    } else {
      var q, r := PolyPow(a, 2 * e - 2), PolyPow(Mul(a, a), e - 1);
      PolyPowSquare(a, e - 1, p);
      assert PolyPow(a, 2 * e - 1) == Mul(a, q);
      assert PolyPow(a, 2 * e) == Mul(a, Mul(a, q));
      MulAssociates(a, a, q, p);
      CongSym(Mul(Mul(a, a), q), Mul(a, Mul(a, q)), p);
      CongRefl(Mul(a, a), p);
      CongMul(Mul(a, a), Mul(a, a), q, r, p);
      CongTrans(Mul(a, Mul(a, q)), Mul(Mul(a, a), q), Mul(Mul(a, a), r), p);
    }
  }

  lemma {:induction false} CongModPow(a: Poly, b: Poly, e: nat, f: Poly, p: int)
    requires p > 0 && CongMod(a, b, f, p)
    ensures CongMod(PolyPow(a, e), PolyPow(b, e), f, p)
  {
    hide Dvd;
    hide Mul;
    hide Cong;
    hide CongMod;
    if e == 0 {
      CongRefl([1], p);
      CongIsCongMod([1], [1], f, p);
    } else {
      CongModPow(a, b, e - 1, f, p);
      CongModMul(a, b, PolyPow(a, e - 1), PolyPow(b, e - 1), f, p);
    }
  }
}
