/**
 Polynomial arithmetic modulo p (include/gnfs/sqrt/modular_poly.hpp): normal forms,
 reduction by a modulus polynomial, powers, division and greatest common divisors.
 The 128-bit products and overflow-free sums of the original make every residue
 operation exact, so residues are plain natural numbers here.
 */
module ModularPoly {
  import opened NumberTheory
  import opened Polynomials
  import opened FieldRoots

  // ---------- normal forms ----------

  method Strip(coeffs: Poly) returns (r: Poly)
    ensures |r| <= |coeffs| && r == coeffs[..|r|]
    ensures |r| > 0 ==> r[|r| - 1] != 0
    ensures forall k {:trigger Coef(r, k)} :: Coef(r, k) == Coef(coeffs, k)
  {
    r := coeffs;
    while |r| > 0 && r[|r| - 1] == 0
      invariant |r| <= |coeffs| && r == coeffs[..|r|]
      invariant forall k :: |r| <= k < |coeffs| ==> coeffs[k] == 0
    {
      r := r[..|r| - 1];
    }
  }

  method NormalizedCoefficients(coeffs: Poly, p: nat) returns (r: Poly)
    requires p >= 2
    ensures Normal(r, p) && Cong(r, coeffs, p) && |r| <= |coeffs|
  {
    var c := coeffs;
    for i := 0 to |coeffs|
      invariant |c| == |coeffs|
      invariant forall k :: 0 <= k < |c| ==> c[k] == if k < i then coeffs[k] % p else coeffs[k]
    {
      c := c[i := c[i] % p];
    }
    r := Strip(c);
    assert Cong(c, coeffs, p) by {
      forall k ensures Dvd(p, Coef(c, k) - Coef(coeffs, k)) {
        ResidueOfMod(p, Coef(coeffs, k));
        SameResidueDvd(p, Coef(coeffs, k) % p, Coef(coeffs, k));
        DvdZero(p);
      }
    }
    SameCoefs(r, c, p);
    CongTrans(r, c, coeffs, p);
  }

  /** Normal forms are canonical: congruent normal polynomials are equal. */
  lemma NormalUnique(f: Poly, g: Poly, p: nat)
    requires p > 0 && Normal(f, p) && Normal(g, p) && Cong(f, g, p)
    ensures f == g
  {
    forall k ensures Coef(f, k) == Coef(g, k) {
      assert Dvd(p, Coef(f, k) - Coef(g, k));
      ModUnique(p, Coef(f, k), Coef(g, k));
      ModUnique(p, Coef(f, k), Coef(f, k));
    }
    assert Coef(f, |f| - 1) == Coef(g, |f| - 1) && Coef(f, |g| - 1) == Coef(g, |g| - 1);
    forall k | 0 <= k < |f| ensures f[k] == g[k] {
      assert Coef(f, k) == Coef(g, k);
    }
  }

  lemma NormalLead(f: Poly, p: nat)
    requires p > 0 && Normal(f, p) && |f| > 0
    ensures LeadInvertible(f, p)
  {
    NotDvdSmall(p, f[|f| - 1]);
  }

  // ---------- linear operations ----------

  method Subtract(a: Poly, b: Poly, p: nat) returns (r: Poly)
    requires p >= 2
    ensures Normal(r, p) && Cong(Add(r, b), a, p) && |r| <= Max(|a|, |b|)
  {
    var n := if |a| < |b| then |b| else |a|;
    var c: Poly := [];
    for i := 0 to n
      invariant |c| == i
      invariant forall k :: 0 <= k < i ==> 0 <= c[k] < p && Dvd(p, c[k] + Coef(b, k) - Coef(a, k))
    {
      var ai, bi := (if i < |a| then a[i] else 0) % p, (if i < |b| then b[i] else 0) % p;
      SubtractResidues(p, Coef(a, i), Coef(b, i));
      c := c + [if ai >= bi then ai - bi else p - (bi - ai)];
    }
    r := Strip(c);
    forall k ensures Dvd(p, Coef(Add(r, b), k) - Coef(a, k)) {
      DvdZero(p);
    }
  }

  lemma SubtractResidues(p: int, x: int, y: int)
    requires p > 0
    ensures var d := x % p - y % p;
            0 <= (if d >= 0 then d else p + d) < p &&
            Dvd(p, (if d >= 0 then d else p + d) + y - x)
  {
    hide Dvd;
    var d := x % p - y % p;
    DvdMod(p, x);
    DvdMod(p, y);
    DvdAdd(p, y - y % p, x - x % p);
    DvdWitness(p, p, 1);
    DvdAdd(p, p, (y - y % p) - (x - x % p));
  }

  method ScalarMul(a: Poly, c: int, p: nat) returns (r: Poly)
    requires p >= 2
    ensures Cong(r, Scale(c, a), p)
    ensures forall k :: 0 <= k < |r| ==> 0 <= r[k] < p
    ensures |r| <= |a| && (|r| > 0 ==> r[|r| - 1] != 0)
    ensures |a| > 0 ==> Coef(r, |a| - 1) == (a[|a| - 1] * c) % p
  {
    var s: Poly := [];
    for i := 0 to |a|
      invariant |s| == i
      invariant forall k :: 0 <= k < i ==> 0 <= s[k] < p && Dvd(p, s[k] - c * a[k])
      invariant 0 < i == |a| ==> s[i - 1] == (a[i - 1] * c) % p
    {
      ReducedProduct(p, a[i], c);
      s := s + [(a[i] * c) % p];
    }
    r := Strip(s);
    forall k ensures Dvd(p, Coef(r, k) - Coef(Scale(c, a), k)) {
      DvdZero(p);
    }
  }

  lemma ReducedProduct(p: int, x: int, c: int)
    requires p > 0
    ensures 0 <= (x * c) % p < p && Dvd(p, (x * c) % p - c * x)
  {
    ResidueOfMod(p, x * c);
    SameResidueDvd(p, (x * c) % p, x * c);
  }

  // ---------- products and reduction modulo f ----------

  method MulRaw(a: Poly, b: Poly, p: nat) returns (r: Poly)
    requires p >= 2
    ensures Normal(r, p) && Cong(r, Mul(a, b), p)
  {
    if |a| == 0 || |b| == 0 {
      EmptyProducts(a, b, p);
      return [];
    }
    hide Dvd;
    hide Mul;
    hide Cong;
    var c: Poly := seq(|a| + |b| - 1, _ => 0);
    MulEmptyPrefix(a, b, c, p);
    for i := 0 to |a|
      invariant |c| == |a| + |b| - 1
      invariant forall k :: 0 <= k < |c| ==> 0 <= c[k] < p
      invariant Cong(c, Mul(a[..i], b), p)
    {
      ghost var c0 := c;
      if a[i] != 0 {
        c := AddRow(c, a[i], b, i, p);
        RowAdded(c0, c, a[i], b, i, p);
      } else {
        RowSkipped(c, b, i, p);
      }
      PrefixStep(a, b, i, c0, c, p);
    }
    assert a[..|a|] == a;
    r := Strip(c);
    SameCoefs(r, c, p);
    CongTrans(r, c, Mul(a, b), p);
  }

  /** c + s * x^i * b, coefficient by coefficient. */
  method AddRow(c: Poly, s: int, b: Poly, i: nat, p: nat) returns (r: Poly)
    requires p >= 2 && i + |b| <= |c|
    requires forall k :: 0 <= k < |c| ==> 0 <= c[k] < p
    ensures |r| == |c| && forall k :: 0 <= k < |r| ==> 0 <= r[k] < p
    ensures forall k :: 0 <= k < |r| && !(i <= k < i + |b|) ==> r[k] == c[k]
    ensures forall t :: 0 <= t < |b| ==> Dvd(p, r[i + t] - (c[i + t] + s * b[t]))
  {
    hide Dvd;
    r := c;
    for j := 0 to |b|
      invariant |r| == |c| && forall k :: 0 <= k < |r| ==> 0 <= r[k] < p
      invariant forall k :: 0 <= k < |r| && !(i <= k < i + j) ==> r[k] == c[k]
      invariant forall t :: 0 <= t < j ==> Dvd(p, r[i + t] - (c[i + t] + s * b[t]))
    {
      if b[j] != 0 {
        var prod := (s * b[j]) % p;
        AddProduct(p, r[i + j], s, b[j]);
        r := r[i + j := (r[i + j] + prod) % p];
      } else {
        DvdZero(p);
        assert s * b[j] == 0;
      }
    }
  }

  lemma EmptyProducts(a: Poly, b: Poly, p: int)
    requires p > 0 && (|a| == 0 || |b| == 0)
    ensures Cong([], Mul(a, b), p)
  {
    hide Dvd;
    hide Mul;
    hide Conv;
    forall k ensures Dvd(p, Coef([], k) - Coef(Mul(a, b), k)) {
      EmptyProductCoef(a, b, k);
      DvdZero(p);
    }
  }

  lemma MulEmptyPrefix(a: Poly, b: Poly, c: Poly, p: nat)
    requires p > 0 && forall k :: 0 <= k < |c| ==> c[k] == 0
    ensures Cong(c, Mul(a[..0], b), p)
  {
    forall k ensures Dvd(p, Coef(c, k) - Coef(Mul(a[..0], b), k)) {
      DvdZero(p);
    }
  }

  lemma AddProduct(p: int, x: int, y: int, z: int)
    requires p > 0
    ensures Dvd(p, (x + (y * z) % p) % p - (x + y * z))
  {
    hide Dvd;
    DvdMod(p, y * z);
    DvdMod(p, x + (y * z) % p);
    DvdAdd(p, x + (y * z) % p - (x + (y * z) % p) % p, y * z - (y * z) % p);
    DvdMul(p, (x + (y * z) % p - (x + (y * z) % p) % p) + (y * z - (y * z) % p), -1);
  }

  lemma RowAdded(c0: Poly, c: Poly, s: int, b: Poly, i: nat, p: nat)
    requires p > 0 && |c| == |c0| && i + |b| <= |c|
    requires forall k :: 0 <= k < |c| && !(i <= k < i + |b|) ==> c[k] == c0[k]
    requires forall t :: 0 <= t < |b| ==> Dvd(p, c[i + t] - (c0[i + t] + s * b[t]))
    ensures forall k {:trigger Coef(c, k)} :: Dvd(p, Coef(c, k) - (Coef(c0, k) + s * Coef(b, k - i)))
  {
    hide Dvd;
    DvdZero(p);
    forall k ensures Dvd(p, Coef(c, k) - (Coef(c0, k) + s * Coef(b, k - i))) {
      if i <= k < i + |b| {
        var t := k - i;
        assert Dvd(p, c[i + t] - (c0[i + t] + s * b[t]));
      } else {
        assert s * 0 == 0;
      }
    }
  }

  lemma RowSkipped(c: Poly, b: Poly, i: nat, p: nat)
    requires p > 0
    ensures forall k {:trigger Coef(c, k)} :: Dvd(p, Coef(c, k) - (Coef(c, k) + 0 * Coef(b, k - i)))
  {
    DvdZero(p);
    forall k ensures Dvd(p, Coef(c, k) - (Coef(c, k) + 0 * Coef(b, k - i))) {
      assert 0 * Coef(b, k - i) == 0;
    }
  }

  lemma PrefixStep(a: Poly, b: Poly, i: nat, c0: Poly, c: Poly, p: nat)
    requires p > 0 && i < |a| && Cong(c0, Mul(a[..i], b), p)
    requires forall k {:trigger Coef(c, k)} :: Dvd(p, Coef(c, k) - (Coef(c0, k) + a[i] * Coef(b, k - i)))
    ensures Cong(c, Mul(a[..i + 1], b), p)
  {
    hide Dvd;
    hide Mul;
    forall k ensures Dvd(p, Coef(c, k) - Coef(Mul(a[..i + 1], b), k)) {
      var m := Monomial(a[i], i);
      MulPrefix(a, b, i, k);
      assert Dvd(p, Coef(c, k) - (Coef(c0, k) + a[i] * Coef(b, k - i)));
      assert Dvd(p, Coef(c0, k) - Coef(Mul(a[..i], b), k));
      DvdAdd(p, Coef(c, k) - (Coef(c0, k) + a[i] * Coef(b, k - i)), Coef(c0, k) - Coef(Mul(a[..i], b), k));
    }
  }

  lemma MulPrefix(a: Poly, b: Poly, i: nat, k: int)
    requires i < |a|
    ensures Coef(Mul(a[..i + 1], b), k) == Coef(Mul(a[..i], b), k) + a[i] * Coef(b, k - i)
  {
    hide Mul;
    hide Conv;
    var m := Monomial(a[i], i);
    forall t ensures Coef(a[..i + 1], t) == Coef(Add(a[..i], m), t) {
      MonomialCoef(a[i], i, t);
    }
    MulCoef(a[..i + 1], b, k);
    MulCoef(a[..i], b, k);
    ConvCommutes(a[..i + 1], b, k);
    ConvDependsOnCoefs(b, a[..i + 1], Add(a[..i], m), k);
    ConvCommutes(Add(a[..i], m), b, k);
    ConvAddLeft(a[..i], m, b, k);
    ConvMonomial(a[i], i, b, k);
  }

  // ---------- long division ----------

  /** rem - c * x^s * b[..len], coefficient by coefficient. */
  method SubtractRow(rem: Poly, c: int, b: Poly, len: nat, s: nat, p: nat) returns (r: Poly)
    requires p >= 2 && len <= |b| && s + len <= |rem|
    requires forall k :: 0 <= k < |rem| ==> 0 <= rem[k] < p
    ensures |r| == |rem| && forall k :: 0 <= k < |r| ==> 0 <= r[k] < p
    ensures forall k :: 0 <= k < |r| && !(s <= k < s + len) ==> r[k] == rem[k]
    ensures forall t :: 0 <= t < len ==> Dvd(p, r[s + t] - (rem[s + t] - c * b[t]))
  {
    hide Dvd;
    r := rem;
    for j := 0 to len
      invariant |r| == |rem| && forall k :: 0 <= k < |r| ==> 0 <= r[k] < p
      invariant forall k :: 0 <= k < |r| && !(s <= k < s + j) ==> r[k] == rem[k]
      invariant forall t :: 0 <= t < j ==> Dvd(p, r[s + t] - (rem[s + t] - c * b[t]))
    {
      var term := (c * b[j]) % p;
      SubtractTerm(p, r[s + j], c, b[j]);
      r := r[s + j := if r[s + j] >= term then r[s + j] - term else p - (term - r[s + j])];
    }
  }

  lemma SubtractTerm(p: int, x: int, y: int, z: int)
    requires p > 0 && 0 <= x < p
    ensures var d := x - (y * z) % p;
            0 <= (if d >= 0 then d else p + d) < p &&
            Dvd(p, (if d >= 0 then d else p + d) - (x - y * z))
  {
    hide Dvd;
    var t := (y * z) % p;
    DvdMod(p, y * z);
    DvdWitness(p, p, 1);
    DvdAdd(p, y * z - t, p);
  }

  /** One round of long division: moving c * x^s from the remainder to the quotient. */
  lemma DivisionStep(a: Poly, q: Poly, b: Poly, rem: Poly, c: int, s: nat, q': Poly, rem': Poly, p: nat)
    requires p > 0 && Cong(a, Add(Mul(q, b), rem), p)
    requires forall k {:trigger Coef(q', k)} :: Coef(q', k) == Coef(q, k) + Coef(Monomial(c, s), k)
    requires forall k {:trigger Coef(rem', k)} :: Dvd(p, Coef(rem', k) - (Coef(rem, k) - c * Coef(b, k - s)))
    ensures Cong(a, Add(Mul(q', b), rem'), p)
  {
    hide Dvd;
    hide Mul;
    forall k ensures Dvd(p, Coef(a, k) - Coef(Add(Mul(q', b), rem'), k)) {
      MulPlusMonomial(q, c, s, q', b, k);
      assert Dvd(p, Coef(rem', k) - (Coef(rem, k) - c * Coef(b, k - s)));
      assert Dvd(p, Coef(a, k) - Coef(Add(Mul(q, b), rem), k));
      DvdAdd(p, Coef(a, k) - Coef(Add(Mul(q, b), rem), k), Coef(rem', k) - (Coef(rem, k) - c * Coef(b, k - s)));
    }
  }

  lemma MulPlusMonomial(q: Poly, c: int, s: nat, q': Poly, b: Poly, k: int)
    requires forall i {:trigger Coef(q', i)} :: Coef(q', i) == Coef(q, i) + Coef(Monomial(c, s), i)
    ensures Coef(Mul(q', b), k) == Coef(Mul(q, b), k) + c * Coef(b, k - s)
  {
    hide Mul;
    hide Conv;
    hide Monomial;
    var m := Monomial(c, s);
    MulCoef(q', b, k);
    MulCoef(q, b, k);
    ConvCommutes(q', b, k);
    ConvDependsOnCoefs(b, q', Add(q, m), k);
    ConvCommutes(Add(q, m), b, k);
    ConvAddLeft(q, m, b, k);
    ConvMonomial(c, s, b, k);
  }

  lemma LeadInverse(p: nat, lead: int, inv: int)
    requires IsPrime(p) && 0 <= lead && !Dvd(p, lead) && inv == Pow(lead, p - 2) % p
    ensures SameResidue(p, lead * inv, 1)
  {
    hide Dvd;
    hide Pow;
    var w := Pow(lead, p - 2);
    FermatInverse(p, lead);
    InverseResidue(p, lead, w);
  }

  lemma InverseResidue(p: nat, x: int, w: int)
    requires p >= 2 && (x * w) % p == 1
    ensures SameResidue(p, x * (w % p), 1)
  {
    SameResidueRefl(p, x);
    ResidueOfMod(p, w);
    SameResidueMul(p, x, x, w % p, w);
  }

  /** Scaling the divisor by top * lead^(-1) cancels the top coefficient. */
  lemma LeadCancels(p: nat, top: int, lead: int, inv: int)
    requires p > 0 && SameResidue(p, lead * inv, 1)
    ensures Dvd(p, top - ((top * inv) % p) * lead)
  {
    hide Dvd;
    hide SameResidue;
    var c := (top * inv) % p;
    ModMulLeft(p, top * inv, lead);
    SameResidueRefl(p, top);
    SameResidueMul(p, top, top, lead * inv, 1);
    assert (top * inv) * lead == top * (lead * inv);
    SameResidueTrans(p, c * lead, top * (lead * inv), top * 1);
    SameResidueDvd(p, top * 1, c * lead);
  }

  lemma RangeDvdZero(p: int, x: int)
    requires 0 <= x < p && Dvd(p, x)
    ensures x == 0
  {
  }

  lemma CancelRow(rem: Poly, c: int, b: Poly, s: nat, r: Poly, p: nat)
    requires p > 0 && |r| == |rem| && s + |b| <= |rem|
    requires forall k :: 0 <= k < |r| && !(s <= k < s + |b|) ==> r[k] == rem[k]
    requires forall t :: 0 <= t < |b| ==> Dvd(p, r[s + t] - (rem[s + t] - c * b[t]))
    ensures forall k {:trigger Coef(r, k)} :: Dvd(p, Coef(r, k) - (Coef(rem, k) - c * Coef(b, k - s)))
  {
    hide Dvd;
    DvdZero(p);
    forall k ensures Dvd(p, Coef(r, k) - (Coef(rem, k) - c * Coef(b, k - s))) {
      if s <= k < s + |b| {
        var t := k - s;
        assert Dvd(p, r[s + t] - (rem[s + t] - c * b[t]));
      } else {
        assert c * 0 == 0;
      }
    }
  }

  lemma TopVanishes(p: nat, x: int, y: int, z: int)
    requires p > 0 && 0 <= x < p && Dvd(p, x - (y - z)) && Dvd(p, y - z)
    ensures x == 0
  {
    DvdAdd(p, x - (y - z), y - z);
    RangeDvdZero(p, x);
  }

  /** Setting an unset quotient coefficient adds a monomial. */
  lemma SetCoef(q: Poly, s: nat, c: int)
    requires s < |q| && q[s] == 0
    ensures forall k {:trigger Coef(q[s := c], k)} :: Coef(q[s := c], k) == Coef(q, k) + Coef(Monomial(c, s), k)
  {
    forall k ensures Coef(q[s := c], k) == Coef(q, k) + Coef(Monomial(c, s), k) {
      MonomialCoef(c, s, k);
    }
  }

  method LongDivide(a: Poly, b: Poly, p: nat) returns (quot: Poly, rem: Poly)
    requires IsPrime(p) && Normal(a, p) && Normal(b, p) && |b| > 0 && |a| >= |b|
    ensures |rem| == |a| && |quot| == |a| - |b| + 1
    ensures forall k :: 0 <= k < |rem| ==> 0 <= rem[k] < p
    ensures forall k :: 0 <= k < |quot| ==> 0 <= quot[k] < p
    ensures forall k :: |b| - 1 <= k < |rem| ==> rem[k] == 0
    ensures Cong(a, Add(Mul(quot, b), rem), p)
  {
    hide Dvd;
    hide Mul;
    hide Cong;
    hide Coef;
    hide Pow;
    hide IsPrime;
    hide SameResidue;
    assert p >= 2 by { PrimeIsBig(p); }
    var lead := b[|b| - 1];
    NotDvdSmall(p, lead);
    var inv := PowerMod(lead, p - 2, p);
    LeadInverse(p, lead, inv);
    rem := a;
    quot := seq(|a| - |b| + 1, _ => 0);
    EmptyQuotient(a, b, quot, p);
    for i := |a| downto |b| - 1
      invariant |rem| == |a| && |quot| == |a| - |b| + 1
      invariant forall k :: 0 <= k < |rem| ==> 0 <= rem[k] < p
      invariant forall k :: 0 <= k < |quot| ==> 0 <= quot[k] < p
      invariant forall k :: i <= k < |rem| ==> rem[k] == 0
      invariant forall k :: 0 <= k <= i - |b| ==> quot[k] == 0
      invariant Cong(a, Add(Mul(quot, b), rem), p)
    {
      if rem[i] != 0 {
        var c := (rem[i] * inv) % p;
        var s := i - (|b| - 1);
        var rem' := SubtractRow(rem, c, b, |b|, s, p);
        LeadCancels(p, rem[i], lead, inv);
        assert Dvd(p, rem'[s + (|b| - 1)] - (rem[s + (|b| - 1)] - c * b[|b| - 1]));
        TopVanishes(p, rem'[i], rem[i], c * lead);
        CancelRow(rem, c, b, s, rem', p);
        SetCoef(quot, s, c);
        DivisionStep(a, quot, b, rem, c, s, quot[s := c], rem', p);
        rem, quot := rem', quot[s := c];
      }
    }
  }

  lemma EmptyQuotient(a: Poly, b: Poly, zeros: Poly, p: nat)
    requires p > 0 && forall k :: 0 <= k < |zeros| ==> zeros[k] == 0
    ensures Cong(a, Add(Mul(zeros, b), a), p)
  {
    forall k ensures Coef(a, k) == Coef(Add(Mul(zeros, b), a), k) {
      ZeroProduct(zeros, b, k);
    }
    SameCoefs(a, Add(Mul(zeros, b), a), p);
  }

  lemma {:induction false} ZeroProduct(zeros: Poly, b: Poly, k: int)
    requires forall i :: 0 <= i < |zeros| ==> zeros[i] == 0
    ensures Coef(Mul(zeros, b), k) == 0
  {
    if |zeros| > 0 {
      ZeroProduct(zeros[1..], b, k - 1);
      assert 0 * Coef(b, k) == 0;
    }
  }

  ghost predicate ZeroMod(f: Poly, p: nat)
    requires p > 0
  {
    Cong(f, [], p)
  }

  /**
   Quotient and remainder modulo a prime; ok is false exactly when the divisor is zero
   modulo p.  Otherwise a is q*b + r and r has smaller degree than b's normal form.
   */
  method DivMod(a: Poly, b: Poly, p: nat) returns (ok: bool, q: Poly, r: Poly)
    requires IsPrime(p)
    ensures ok <==> !ZeroMod(b, p)
    ensures ok ==> Normal(q, p) && Normal(r, p) && Cong(a, Add(Mul(q, b), r), p)
    ensures ok ==> forall nb :: Normal(nb, p) && Cong(nb, b, p) ==> |r| < |nb|
  {
    var na := NormalizedCoefficients(a, p);
    var nb := NormalizedCoefficients(b, p);
    NormalFormSize(nb, b, p);
    if |nb| == 0 {
      return false, [], [];
    }
    ok := true;
    var quot, rem := [], na;
    if |na| < |nb| {
      EmptyQuotient(na, nb, [], p);
    } else {
      quot, rem := LongDivide(na, nb, p);
    }
    q := Strip(quot);
    r := Strip(rem);
    DivisionTransfer(a, na, b, nb, quot, q, rem, r, p);
  }

  lemma NormalFormSize(nb: Poly, b: Poly, p: nat)
    requires p > 1 && Normal(nb, p) && Cong(nb, b, p)
    ensures |nb| == 0 <==> ZeroMod(b, p)
    ensures forall f :: Normal(f, p) && Cong(f, b, p) ==> f == nb
  {
    if |nb| == 0 {
      assert nb == [];
      CongSym(nb, b, p);
    }
    if ZeroMod(b, p) {
      CongTrans(nb, b, [], p);
      NormalUnique(nb, [], p);
    }
    forall f | Normal(f, p) && Cong(f, b, p) ensures f == nb {
      CongSym(nb, b, p);
      CongTrans(f, b, nb, p);
      NormalUnique(f, nb, p);
    }
  }

  lemma DivisionTransfer(a: Poly, na: Poly, b: Poly, nb: Poly, quot: Poly, q: Poly, rem: Poly, r: Poly, p: nat)
    requires p > 0 && Cong(na, a, p) && Cong(nb, b, p)
    requires Cong(na, Add(Mul(quot, nb), rem), p)
    requires forall k {:trigger Coef(q, k)} :: Coef(q, k) == Coef(quot, k)
    requires forall k {:trigger Coef(r, k)} :: Coef(r, k) == Coef(rem, k)
    ensures Cong(a, Add(Mul(q, b), r), p)
  {
    hide Cong;
    hide Mul;
    hide Coef;
    SameCoefs(quot, q, p);
    SameCoefs(rem, r, p);
    CongMul(quot, q, nb, b, p);
    CongAdd(Mul(quot, nb), Mul(q, b), rem, r, p);
    CongSym(na, a, p);
    CongTrans(a, na, Add(Mul(quot, nb), rem), p);
    CongTrans(a, Add(Mul(quot, nb), rem), Add(Mul(q, b), r), p);
  }

  // ---------- reduction modulo f and powers ----------

  method Reduce(a: Poly, f: Poly, p: nat) returns (r: Poly)
    requires IsPrime(p) && LeadInvertible(f, p) && f[|f| - 1] >= 0
    ensures Normal(r, p) && |r| < |f|
    ensures CongMod(r, a, f, p)
  {
    hide Dvd;
    hide Mul;
    hide Cong;
    hide CongMod;
    hide Pow;
    hide IsPrime;
    hide SameResidue;
    assert p >= 2 by { PrimeIsBig(p); }
    var result := NormalizedCoefficients(a, p);
    if |result| < |f| {
      CongIsCongMod(result, a, f, p);
      return result;
    }
    var d, lead := |f| - 1, f[|f| - 1];
    var inv := PowerMod(lead, p - 2, p);
    LeadInverse(p, lead, inv);
    ghost var u: Poly := [];
    EmptyQuotient(result, f, [], p);
    ghost var start := result;
    while |result| > d
      invariant |result| >= d
      invariant forall k :: 0 <= k < |result| ==> 0 <= result[k] < p
      invariant Cong(start, Add(Mul(u, f), result), p)
      decreases |result|
    {
      var top := result[|result| - 1];
      ghost var before := result;
      result := result[..|result| - 1];
      if top == 0 {
        DropZero(before, p);
        ReplaceRemainder(start, u, f, before, result, p);
      } else {
        var c, s := (top * inv) % p, |result| - d;
        var next := SubtractRow(result, c, f, d, s, p);
        LeadCancels(p, top, lead, inv);
        PopRow(before, result, c, f, s, next, p);
        SamePlusMonomial(u, c, s);
        DivisionStep(start, u, f, before, c, s, Add(u, Monomial(c, s)), next, p);
        u := Add(u, Monomial(c, s));
        result := next;
      }
    }
    r := Strip(result);
    SameCoefs(result, r, p);
    ReplaceRemainder(start, u, f, result, r, p);
    CongSym(start, a, p);
    CongTrans(a, start, Add(Mul(u, f), r), p);
    ReducedIsCongruent(a, u, f, r, p);
  }

  lemma DropZero(before: Poly, p: nat)
    requires p > 0 && |before| > 0 && before[|before| - 1] == 0
    ensures Cong(before, before[..|before| - 1], p)
  {
    SameCoefs(before, before[..|before| - 1], p);
  }

  lemma ReplaceRemainder(a: Poly, u: Poly, f: Poly, r: Poly, r': Poly, p: nat)
    requires p > 0 && Cong(a, Add(Mul(u, f), r), p) && Cong(r, r', p)
    ensures Cong(a, Add(Mul(u, f), r'), p)
  {
    hide Cong;
    hide Mul;
    CongRefl(Mul(u, f), p);
    CongAdd(Mul(u, f), Mul(u, f), r, r', p);
    CongTrans(a, Add(Mul(u, f), r), Add(Mul(u, f), r'), p);
  }

  lemma SamePlusMonomial(u: Poly, c: int, s: nat)
    ensures forall k {:trigger Coef(Add(u, Monomial(c, s)), k)} ::
              Coef(Add(u, Monomial(c, s)), k) == Coef(u, k) + Coef(Monomial(c, s), k)
  {
  }

  /** Popping the top coefficient while subtracting c * x^s times the rest of f. */
  lemma PopRow(before: Poly, popped: Poly, c: int, f: Poly, s: nat, next: Poly, p: nat)
    requires p > 0 && |f| > 0 && |before| == s + |f| && popped == before[..|before| - 1]
    requires |next| == |popped|
    requires forall k :: 0 <= k < |next| && !(s <= k < s + (|f| - 1)) ==> next[k] == popped[k]
    requires forall t :: 0 <= t < |f| - 1 ==> Dvd(p, next[s + t] - (popped[s + t] - c * f[t]))
    requires Dvd(p, before[|before| - 1] - c * f[|f| - 1])
    ensures forall k {:trigger Coef(next, k)} :: Dvd(p, Coef(next, k) - (Coef(before, k) - c * Coef(f, k - s)))
  {
    hide Dvd;
    DvdZero(p);
    forall k ensures Dvd(p, Coef(next, k) - (Coef(before, k) - c * Coef(f, k - s))) {
      if s <= k < s + (|f| - 1) {
        var t := k - s;
        assert Dvd(p, next[s + t] - (popped[s + t] - c * f[t]));
      } else if k == |before| - 1 {
        DvdMul(p, before[|before| - 1] - c * f[|f| - 1], -1);
      } else {
        assert c * 0 == 0;
      }
    }
  }

  lemma ReducedIsCongruent(a: Poly, u: Poly, f: Poly, r: Poly, p: nat)
    requires p > 0 && Cong(a, Add(Mul(u, f), r), p)
    ensures CongMod(r, a, f, p)
  {
    hide Dvd;
    hide Mul;
    var v := Scale(-1, u);
    forall k ensures Dvd(p, Coef(r, k) - Coef(Add(a, Mul(v, f)), k)) {
      MulCoef(v, f, k);
      MulCoef(u, f, k);
      ConvScaleLeft(-1, u, f, k);
      assert Dvd(p, Coef(a, k) - Coef(Add(Mul(u, f), r), k));
      DvdMul(p, Coef(a, k) - Coef(Add(Mul(u, f), r), k), -1);
    }
    CongModIntro(r, a, v, f, p);
  }

  method MulMod(a: Poly, b: Poly, f: Poly, p: nat) returns (r: Poly)
    requires IsPrime(p) && LeadInvertible(f, p) && f[|f| - 1] >= 0
    ensures Normal(r, p) && |r| < |f|
    ensures CongMod(r, Mul(a, b), f, p)
  {
    hide Cong;
    hide CongMod;
    hide Mul;
    var product := MulRaw(a, b, p);
    r := Reduce(product, f, p);
    CongIsCongMod(product, Mul(a, b), f, p);
    CongModTrans(r, product, Mul(a, b), f, p);
  }

  /** base^exp modulo f and p by square-and-multiply. */
  method Power(base: Poly, exp: nat, f: Poly, p: nat) returns (result: Poly)
    requires IsPrime(p) && LeadInvertible(f, p) && f[|f| - 1] >= 0
    ensures Normal(result, p)
    ensures exp > 0 ==> |result| < |f|
    ensures CongMod(result, PolyPow(base, exp), f, p)
  {
    hide Cong;
    hide CongMod;
    hide Mul;
    hide PolyPow;
    if exp == 0 {
      PowZero(base, f, p);
      return [1];
    }
    result := [1];
    var b := NormalizedCoefficients(base, p);
    var e := exp;
    PowStart(base, b, exp, f, p);
    while e > 0
      invariant Normal(result, p) && (e == 0 ==> |result| < |f|)
      invariant CongMod(Mul(result, PolyPow(b, e)), PolyPow(base, exp), f, p)
      decreases e
    {
      var next := result;
      if e % 2 == 1 {
        next := MulMod(result, b, f, p);
      }
      var sq := MulMod(b, b, f, p);
      PowLoop(result, b, e, next, sq, PolyPow(base, exp), f, p);
      result, b, e := next, sq, e / 2;
    }
    PowEnd(result, b, base, exp, f, p);
  }

  lemma PowZero(base: Poly, f: Poly, p: nat)
    requires p > 0
    ensures CongMod([1], PolyPow(base, 0), f, p)
  {
    CongRefl([1], p);
    CongIsCongMod([1], [1], f, p);
  }

  lemma MulOneLeft(a: Poly, p: nat)
    requires p > 0
    ensures Cong(Mul([1], a), a, p) && Cong(Mul(a, [1]), a, p)
  {
    hide Mul;
    forall k ensures Coef(Mul([1], a), k) == Coef(a, k) == Coef(Mul(a, [1]), k) {
      MulOne(a, k);
      MulCommutes(a, [1], k);
    }
    SameCoefs(Mul([1], a), a, p);
    SameCoefs(Mul(a, [1]), a, p);
  }

  lemma PowStart(base: Poly, b: Poly, exp: nat, f: Poly, p: nat)
    requires p > 0 && Cong(b, base, p)
    ensures CongMod(Mul([1], PolyPow(b, exp)), PolyPow(base, exp), f, p)
  {
    hide Mul;
    hide Cong;
    hide CongMod;
    CongIsCongMod(b, base, f, p);
    CongModPow(b, base, exp, f, p);
    MulOneLeft(PolyPow(b, exp), p);
    CongIsCongMod(Mul([1], PolyPow(b, exp)), PolyPow(b, exp), f, p);
    CongModTrans(Mul([1], PolyPow(b, exp)), PolyPow(b, exp), PolyPow(base, exp), f, p);
  }

  lemma PowEnd(result: Poly, b: Poly, base: Poly, exp: nat, f: Poly, p: nat)
    requires p > 0 && CongMod(Mul(result, PolyPow(b, 0)), PolyPow(base, exp), f, p)
    ensures CongMod(result, PolyPow(base, exp), f, p)
  {
    hide Mul;
    hide Cong;
    hide CongMod;
    MulOneLeft(result, p);
    CongSym(Mul(result, [1]), result, p);
    CongIsCongMod(result, Mul(result, [1]), f, p);
    CongModTrans(result, Mul(result, [1]), PolyPow(base, exp), f, p);
  }

  /** One round of square-and-multiply keeps result * b^e modulo f. */
  lemma PowLoop(result: Poly, b: Poly, e: nat, next: Poly, sq: Poly, target: Poly, f: Poly, p: nat)
    requires p > 0 && e > 0 && CongMod(Mul(result, PolyPow(b, e)), target, f, p)
    requires e % 2 == 1 ==> CongMod(next, Mul(result, b), f, p)
    requires e % 2 == 0 ==> next == result
    requires CongMod(sq, Mul(b, b), f, p)
    ensures CongMod(Mul(next, PolyPow(sq, e / 2)), target, f, p)
  {
    hide Mul;
    hide Cong;
    hide CongMod;
    hide PolyPow;
    var h := e / 2;
    var even := PolyPow(b, 2 * h);
    CongModPow(sq, Mul(b, b), h, f, p);
    PolyPowSquare(b, h, p);
    CongSym(even, PolyPow(Mul(b, b), h), p);
    CongIsCongMod(PolyPow(Mul(b, b), h), even, f, p);
    CongModTrans(PolyPow(sq, h), PolyPow(Mul(b, b), h), even, f, p);
    if e % 2 == 1 {
      PolyPowOdd(b, h);
      CongModMul(next, Mul(result, b), PolyPow(sq, h), even, f, p);
      MulAssociates(result, b, even, p);
      CongIsCongMod(Mul(Mul(result, b), even), Mul(result, Mul(b, even)), f, p);
      CongModTrans(Mul(next, PolyPow(sq, h)), Mul(Mul(result, b), even), Mul(result, PolyPow(b, e)), f, p);
    } else {
      CongModMulLeft(PolyPow(sq, h), even, result, f, p);
    }
    CongModTrans(Mul(next, PolyPow(sq, h)), Mul(result, PolyPow(b, e)), target, f, p);
  }

  lemma PolyPowOdd(b: Poly, h: nat)
    ensures PolyPow(b, 2 * h + 1) == Mul(b, PolyPow(b, 2 * h))
  {
  }

  // ---------- greatest common divisors ----------

  /** d divides h modulo p. */
  ghost predicate PolyDvd(d: Poly, h: Poly, p: nat)
    requires p > 0
  {
    exists q: Poly :: Cong(h, Mul(q, d), p)
  }

  ghost predicate IsRoot(f: Poly, r: int, p: nat)
    requires p > 0
  {
    Dvd(p, Eval(f, r))
  }

  /** The pairs x, y and a, b have the same common divisors and the same common roots. */
  ghost predicate SameCommon(x: Poly, y: Poly, a: Poly, b: Poly, p: nat)
    requires p > 0
  {
    && (forall d :: PolyDvd(d, x, p) && PolyDvd(d, y, p) <==> PolyDvd(d, a, p) && PolyDvd(d, b, p))
    && (forall r :: IsRoot(x, r, p) && IsRoot(y, r, p) <==> IsRoot(a, r, p) && IsRoot(b, r, p))
  }

  /** g is a greatest common divisor of a and b modulo p. */
  ghost predicate IsGcd(g: Poly, a: Poly, b: Poly, p: nat)
    requires p > 0
  {
    && (forall d :: PolyDvd(d, g, p) <==> PolyDvd(d, a, p) && PolyDvd(d, b, p))
    && (forall r :: IsRoot(g, r, p) <==> IsRoot(a, r, p) && IsRoot(b, r, p))
  }

  method Gcd(a: Poly, b: Poly, p: nat) returns (g: Poly)
    requires IsPrime(p)
    ensures Normal(g, p) && IsGcd(g, a, b, p)
    ensures |g| > 0 ==> g[|g| - 1] == 1
  {
    hide Cong;
    hide Mul;
    hide PolyDvd;
    hide IsRoot;
    hide Dvd;
    hide SameCommon;
    hide IsGcd;
    hide Pow;
    hide ZeroMod;
    var x := NormalizedCoefficients(a, p);
    var y := NormalizedCoefficients(b, p);
    SameCommonStart(x, y, a, b, p);
    while |y| > 0
      invariant Normal(x, p) && Normal(y, p) && SameCommon(x, y, a, b, p)
      decreases |y|
    {
      CongRefl(y, p);
      NormalFormSize(y, y, p);
      var ok, q, r := DivMod(x, y, p);
      EuclidStep(x, y, q, r, a, b, p);
      x, y := y, r;
    }
    SameCommonEnd(x, y, a, b, p);
    g := x;
    if |x| > 0 && x[|x| - 1] != 1 {
      var lead := x[|x| - 1];
      NotDvdSmall(p, lead);
      var inv := PowerMod(lead, p - 2, p);
      LeadInverse(p, lead, inv);
      g := ScalarMul(x, inv, p);
      assert Coef(g, |x| - 1) == 1 by { ResidueIs(p, 1, lead * inv); }
      ScaledGcd(x, inv, lead, g, a, b, p);
    }
  }

  lemma PolyDvdIntro(d: Poly, h: Poly, q: Poly, p: nat)
    requires p > 0 && Cong(h, Mul(q, d), p)
    ensures PolyDvd(d, h, p)
  {
  }

  lemma PolyDvdCong(d: Poly, h: Poly, h': Poly, p: nat)
    requires p > 0 && Cong(h', h, p) && PolyDvd(d, h, p)
    ensures PolyDvd(d, h', p)
  {
    hide Cong;
    hide Mul;
    var q: Poly :| Cong(h, Mul(q, d), p);
    CongTrans(h', h, Mul(q, d), p);
    PolyDvdIntro(d, h', q, p);
  }

  /** d divides t*y + r when it divides y and r. */
  lemma PolyDvdCombination(d: Poly, t: Poly, y: Poly, r: Poly, p: nat)
    requires p > 0 && PolyDvd(d, y, p) && PolyDvd(d, r, p)
    ensures PolyDvd(d, Add(Mul(t, y), r), p)
  {
    hide Cong;
    hide Mul;
    var u: Poly :| Cong(y, Mul(u, d), p);
    var v: Poly :| Cong(r, Mul(v, d), p);
    var w := Add(Mul(t, u), v);
    CongMulRight(t, y, Mul(u, d), p);
    MulAssociates(t, u, d, p);
    CongSym(Mul(Mul(t, u), d), Mul(t, Mul(u, d)), p);
    CongTrans(Mul(t, y), Mul(t, Mul(u, d)), Mul(Mul(t, u), d), p);
    CongAdd(Mul(t, y), Mul(Mul(t, u), d), r, Mul(v, d), p);
    forall k ensures Coef(Add(Mul(Mul(t, u), d), Mul(v, d)), k) == Coef(Mul(w, d), k) {
      MulAddCoef(Mul(t, u), v, d, k);
    }
    SameCoefs(Add(Mul(Mul(t, u), d), Mul(v, d)), Mul(w, d), p);
    CongTrans(Add(Mul(t, y), r), Add(Mul(Mul(t, u), d), Mul(v, d)), Mul(w, d), p);
    PolyDvdIntro(d, Add(Mul(t, y), r), w, p);
  }

  lemma RemainderForm(x: Poly, q: Poly, y: Poly, r: Poly, p: nat)
    requires p > 0 && Cong(x, Add(Mul(q, y), r), p)
    ensures Cong(r, Add(Mul(Scale(-1, q), y), x), p)
  {
    hide Dvd;
    hide Mul;
    forall k ensures Dvd(p, Coef(r, k) - Coef(Add(Mul(Scale(-1, q), y), x), k)) {
      MulCoef(Scale(-1, q), y, k);
      MulCoef(q, y, k);
      ConvScaleLeft(-1, q, y, k);
      assert Dvd(p, Coef(x, k) - Coef(Add(Mul(q, y), r), k));
      DvdMul(p, Coef(x, k) - Coef(Add(Mul(q, y), r), k), -1);
    }
  }

  lemma RootOfCombination(x: Poly, q: Poly, y: Poly, s: Poly, r: int, p: nat)
    requires p > 0 && Cong(x, Add(Mul(q, y), s), p) && IsRoot(y, r, p) && IsRoot(s, r, p)
    ensures IsRoot(x, r, p)
  {
    hide Dvd;
    hide Cong;
    hide Mul;
    hide Eval;
    EvalCong(x, Add(Mul(q, y), s), r, p);
    EvalAdd(Mul(q, y), s, r);
    EvalMul(q, y, r);
    DvdMul(p, Eval(y, r), Eval(q, r));
    DvdAdd(p, Eval(q, r) * Eval(y, r), Eval(s, r));
    DvdAdd(p, Eval(x, r) - Eval(Add(Mul(q, y), s), r), Eval(Add(Mul(q, y), s), r));
  }

  lemma EuclidStep(x: Poly, y: Poly, q: Poly, r: Poly, a: Poly, b: Poly, p: nat)
    requires p > 0 && Cong(x, Add(Mul(q, y), r), p) && SameCommon(x, y, a, b, p)
    ensures SameCommon(y, r, a, b, p)
  {
    hide Dvd;
    hide Cong;
    hide Mul;
    hide IsRoot;
    hide PolyDvd;
    var q' := Scale(-1, q);
    RemainderForm(x, q, y, r, p);
    forall d
      ensures PolyDvd(d, y, p) && PolyDvd(d, r, p) <==> PolyDvd(d, x, p) && PolyDvd(d, y, p)
    {
      if PolyDvd(d, y, p) && PolyDvd(d, r, p) {
        PolyDvdCombination(d, q, y, r, p);
        PolyDvdCong(d, Add(Mul(q, y), r), x, p);
      }
      if PolyDvd(d, x, p) && PolyDvd(d, y, p) {
        PolyDvdCombination(d, q', y, x, p);
        PolyDvdCong(d, Add(Mul(q', y), x), r, p);
      }
    }
    forall t
      ensures IsRoot(y, t, p) && IsRoot(r, t, p) <==> IsRoot(x, t, p) && IsRoot(y, t, p)
    {
      if IsRoot(y, t, p) && IsRoot(r, t, p) {
        RootOfCombination(x, q, y, r, t, p);
      }
      if IsRoot(x, t, p) && IsRoot(y, t, p) {
        RootOfCombination(r, q', y, x, t, p);
      }
    }
  }

  lemma CongKeeps(x: Poly, a: Poly, p: nat)
    requires p > 0 && Cong(x, a, p)
    ensures forall d :: PolyDvd(d, x, p) <==> PolyDvd(d, a, p)
    ensures forall r :: IsRoot(x, r, p) <==> IsRoot(a, r, p)
  {
    hide Dvd;
    hide Cong;
    hide Eval;
    hide PolyDvd;
    CongSym(x, a, p);
    forall d ensures PolyDvd(d, x, p) <==> PolyDvd(d, a, p) {
      if PolyDvd(d, x, p) { PolyDvdCong(d, x, a, p); }
      if PolyDvd(d, a, p) { PolyDvdCong(d, a, x, p); }
    }
    forall r ensures IsRoot(x, r, p) <==> IsRoot(a, r, p) {
      EvalCong(x, a, r, p);
      DvdTransfer(p, Eval(x, r), Eval(a, r));
    }
  }

  lemma DvdTransfer(p: int, x: int, y: int)
    requires p > 0 && Dvd(p, x - y)
    ensures Dvd(p, x) <==> Dvd(p, y)
  {
    hide Dvd;
    if Dvd(p, x) {
      DvdAdd(p, x, x - y);
    }
    if Dvd(p, y) {
      DvdAdd(p, x - y, y);
    }
  }

  lemma SameCommonStart(x: Poly, y: Poly, a: Poly, b: Poly, p: nat)
    requires p > 0 && Cong(x, a, p) && Cong(y, b, p)
    ensures SameCommon(x, y, a, b, p)
  {
    hide Cong;
    hide PolyDvd;
    hide IsRoot;
    CongKeeps(x, a, p);
    CongKeeps(y, b, p);
  }

  lemma SameCommonEnd(x: Poly, y: Poly, a: Poly, b: Poly, p: nat)
    requires p > 0 && |y| == 0 && SameCommon(x, y, a, b, p)
    ensures IsGcd(x, a, b, p)
  {
    hide Cong;
    assert y == [];
    forall d ensures PolyDvd(d, y, p) {
      assert Mul([], d) == [];
      CongRefl([], p);
      PolyDvdIntro(d, y, [], p);
    }
    DvdZero(p);
    assert forall r :: IsRoot(y, r, p);
  }

  lemma ScaledGcd(x: Poly, inv: int, lead: int, g: Poly, a: Poly, b: Poly, p: nat)
    requires p > 1 && Cong(g, Scale(inv, x), p) && SameResidue(p, lead * inv, 1) && IsGcd(x, a, b, p)
    ensures IsGcd(g, a, b, p)
  {
    hide Cong;
    hide PolyDvd;
    hide IsRoot;
    hide SameResidue;
    CongKeeps(g, Scale(inv, x), p);
    UndoScale(x, inv, lead, p);
    CongKeeps(Scale(lead, Scale(inv, x)), x, p);
    forall d ensures PolyDvd(d, Scale(inv, x), p) <==> PolyDvd(d, x, p) {
      if PolyDvd(d, x, p) { PolyDvdScale(d, inv, x, p); }
      if PolyDvd(d, Scale(inv, x), p) { PolyDvdScale(d, lead, Scale(inv, x), p); }
    }
    forall r ensures IsRoot(Scale(inv, x), r, p) <==> IsRoot(x, r, p) {
      if IsRoot(x, r, p) { RootOfScale(inv, x, r, p); }
      if IsRoot(Scale(inv, x), r, p) { RootOfScale(lead, Scale(inv, x), r, p); }
    }
  }

  lemma UndoScale(x: Poly, inv: int, lead: int, p: nat)
    requires p > 1 && SameResidue(p, lead * inv, 1)
    ensures Cong(Scale(lead, Scale(inv, x)), x, p)
  {
    hide Dvd;
    hide SameResidue;
    SameResidueDvd(p, lead * inv, 1);
    forall k ensures Dvd(p, Coef(Scale(lead, Scale(inv, x)), k) - Coef(x, k)) {
      var c := Coef(x, k);
      DvdMul(p, lead * inv - 1, c);
      UndoScaleStep(lead, inv, c);
    }
  }

  lemma UndoScaleStep(lead: int, inv: int, c: int)
    ensures lead * (inv * c) - c == c * (lead * inv - 1)
  {
  }

  lemma PolyDvdScale(d: Poly, c: int, x: Poly, p: nat)
    requires p > 0 && PolyDvd(d, x, p)
    ensures PolyDvd(d, Scale(c, x), p)
  {
    hide Dvd;
    hide Mul;
    var q: Poly :| Cong(x, Mul(q, d), p);
    forall k ensures Dvd(p, Coef(Scale(c, x), k) - Coef(Mul(Scale(c, q), d), k)) {
      MulCoef(Scale(c, q), d, k);
      MulCoef(q, d, k);
      ConvScaleLeft(c, q, d, k);
      assert Dvd(p, Coef(x, k) - Coef(Mul(q, d), k));
      DvdMul(p, Coef(x, k) - Coef(Mul(q, d), k), c);
      Distribute(c, Coef(x, k), Coef(Mul(q, d), k));
    }
    PolyDvdIntro(d, Scale(c, x), Scale(c, q), p);
  }

  lemma RootOfScale(c: int, x: Poly, r: int, p: nat)
    requires p > 0 && IsRoot(x, r, p)
    ensures IsRoot(Scale(c, x), r, p)
  {
    hide Dvd;
    EvalScale(c, x, r);
    DvdMul(p, Eval(x, r), c);
  }
}
