/**
 Primes, divisibility and modular powers: the arithmetic every part of the
 factoring pipeline leans on.  Residues are mathematical integers; a residue
 class modulo p is written `Dvd(p, x)`, "p divides x".
 */
module NumberTheory {

  predicate IsPrime(n: int) {
    2 <= n && forall k :: 2 <= k < n ==> n % k != 0
  }

  lemma PrimeIsBig(p: int)
    requires IsPrime(p)
    ensures p >= 2
  {
  }

  /** p divides x. */
  predicate Dvd(p: int, x: int)
    requires p > 0
  {
    x % p == 0
  }

  // ---------- divisibility ----------

  lemma DvdWitness(p: int, x: int, k: int)
    requires p > 0 && x == p * k
    ensures Dvd(p, x)
  {
    var q, r := x / p, x % p;
    assert r == p * (k - q);
    SmallMultiple(p, k - q);
  }

  lemma DvdFactor(p: int, x: int) returns (k: int)
    requires p > 0 && Dvd(p, x)
    ensures x == p * k
  {
    k := x / p;
  }

  lemma DvdZero(p: int)
    requires p > 0
    ensures Dvd(p, 0)
  {
  }

  lemma SmallMultiple(p: int, k: int)
    requires p > 0 && -p < p * k < p
    ensures k == 0
  {
    MulMonotone(p, 1, k);
    MulMonotone(p, k, -1);
  }

  lemma MulMonotone(p: int, x: int, y: int)
    requires p >= 0
    ensures x <= y ==> p * x <= p * y
  {
    if x <= y {
      assert p * (y - x) >= 0;
    }
  }

  lemma Distribute(a: int, b: int, c: int)
    ensures a * (b + c) == a * b + a * c == (b + c) * a
    ensures a * (b - c) == a * b - a * c == (b - c) * a
  {
  }

  lemma DvdLinear(p: int, x: int, y: int, s: int, t: int)
    requires p > 0 && Dvd(p, x) && Dvd(p, y)
    ensures Dvd(p, s * x + t * y)
  {
    var a := DvdFactor(p, x);
    var b := DvdFactor(p, y);
    calc {
      s * x + t * y;
      s * (p * a) + t * (p * b);
      p * (s * a + t * b);
    }
    DvdWitness(p, s * x + t * y, s * a + t * b);
  }

  lemma DvdAdd(p: int, x: int, y: int)
    requires p > 0 && Dvd(p, x) && Dvd(p, y)
    ensures Dvd(p, x + y) && Dvd(p, x - y)
  {
    DvdLinear(p, x, y, 1, 1);
    DvdLinear(p, x, y, 1, -1);
  }

  lemma DvdMul(p: int, x: int, s: int)
    requires p > 0 && Dvd(p, x)
    ensures Dvd(p, s * x) && Dvd(p, x * s)
  {
    DvdLinear(p, x, x, s, 0);
  }

  lemma DvdMod(p: int, x: int)
    requires p > 0
    ensures Dvd(p, x - x % p) && 0 <= x % p < p
  {
    DvdWitness(p, x - x % p, x / p);
  }

  /** The residue of x in [0, p) is unique. */
  lemma ModUnique(p: int, x: int, r: int)
    requires p > 0 && 0 <= r < p && Dvd(p, x - r)
    ensures x % p == r
  {
    DvdMod(p, x);
    DvdAdd(p, x - r, x - x % p);
    var d := x % p - r;
    assert (x - r) - (x - x % p) == d;
    var k := DvdFactor(p, d);
    SmallMultiple(p, k);
  }

  lemma ModDifference(p: int, x: int, y: int)
    requires p > 0
    ensures x % p == y % p <==> Dvd(p, x - y)
  {
    DvdMod(p, x);
    DvdMod(p, y);
    if x % p == y % p {
      DvdAdd(p, x - x % p, y - y % p);
      assert (x - x % p) - (y - y % p) == x - y;
    }
    if Dvd(p, x - y) {
      DvdAdd(p, x - y, y - y % p);
      assert (x - y) + (y - y % p) == x - y % p;
      ModUnique(p, x, y % p);
    }
  }

  /** x and y leave the same remainder. */
  predicate SameResidue(p: int, x: int, y: int)
    requires p > 0
  {
    x % p == y % p
  }

  lemma ResidueOfMod(p: int, x: int)
    requires p > 0
    ensures SameResidue(p, x % p, x)
  {
  }

  lemma SameResidueDvd(p: int, x: int, y: int)
    requires p > 0
    ensures SameResidue(p, x, y) <==> Dvd(p, x - y)
  {
    ModDifference(p, x, y);
  }

  lemma SameResidueMul(p: int, x: int, x': int, y: int, y': int)
    requires p > 0 && SameResidue(p, x, x') && SameResidue(p, y, y')
    ensures SameResidue(p, x * y, x' * y')
  {
    hide SameResidue;
    hide Dvd;
    SameResidueDvd(p, x, x');
    SameResidueDvd(p, y, y');
    DvdProducts(p, x, x', y, y');
    SameResidueDvd(p, x * y, x' * y');
  }

  lemma DvdProducts(p: int, x: int, y: int, u: int, v: int)
    requires p > 0 && Dvd(p, x - y) && Dvd(p, u - v)
    ensures Dvd(p, x * u - y * v)
  {
    hide Dvd;
    assert u * (x - y) + y * (u - v) == x * u - y * v;
    DvdLinear(p, x - y, u - v, u, y);
  }

  lemma ModMulLeft(p: int, x: int, y: int)
    requires p > 0
    ensures SameResidue(p, (x % p) * y, x * y)
  {
    hide SameResidue;
    ResidueOfMod(p, x);
    SameResidueRefl(p, y);
    SameResidueMul(p, x % p, x, y, y);
  }

  lemma SameResidueRefl(p: int, x: int)
    requires p > 0
    ensures SameResidue(p, x, x)
  {
  }

  lemma SameResidueTrans(p: int, x: int, y: int, z: int)
    requires p > 0 && SameResidue(p, x, y) && SameResidue(p, y, z)
    ensures SameResidue(p, x, z) && SameResidue(p, z, x)
  {
  }

  // ---------- primes ----------

  /** Euclid's lemma, by descent on the first factor. */
  lemma {:induction false} EuclidDescent(p: int, a: int, b: int)
    requires IsPrime(p) && 0 < a < p && Dvd(p, a * b)
    ensures Dvd(p, b)
    decreases a
  {
    if a == 1 {
      assert a * b == b;
    } else {
      var q, r := p / a, p % a;
      assert r != 0;
      assert r * b == b * p - q * (a * b) by {
        assert p == q * a + r;
        assert r * b == (p - q * a) * b == p * b - q * a * b;
      }
      DvdWitness(p, p, 1);
      DvdLinear(p, p, a * b, b, -q);
      assert b * p + (-q) * (a * b) == r * b;
      EuclidDescent(p, r, b);
    }
  }

  lemma Euclid(p: int, a: int, b: int)
    requires IsPrime(p) && Dvd(p, a * b)
    ensures Dvd(p, a) || Dvd(p, b)
  {
    var r := a % p;
    if r != 0 {
      hide Dvd;
      hide SameResidue;
      ModMulLeft(p, a, b);
      SameResidueDvd(p, r * b, a * b);
      DvdAdd(p, a * b, r * b - a * b);
      EuclidDescent(p, r, b);
    }
  }

  /** Every integer above 1 has a prime factor; a composite one has a factor q with q*q <= n. */
  lemma {:induction false} PrimeFactor(n: int) returns (q: int)
    requires n >= 2
    ensures IsPrime(q) && q <= n && n % q == 0
    ensures !IsPrime(n) ==> q * q <= n
    decreases n
  {
    if IsPrime(n) {
      q := n;
    } else {
      var small, large := SplitComposite(n);
      q := PrimeFactor(small);
      FactorLift(q, small, large);
    }
  }

  lemma FactorLift(q: int, small: int, large: int)
    requires 0 < q <= small <= large && small % q == 0
    ensures (small * large) % q == 0 && q * q <= small * large && q <= small * large
  {
    FactorLiftDvd(q, small, large);
    MulMonotone(q, q, small);
    MulMonotone(small, q, large);
    MulMonotone(q, 1, q);
  }

  lemma FactorLiftDvd(q: int, small: int, large: int)
    requires q > 0 && small % q == 0
    ensures (small * large) % q == 0
  {
    DvdMul(q, small, large);
  }

  lemma SplitComposite(n: int) returns (small: int, large: int)
    requires n >= 2 && !IsPrime(n)
    ensures 2 <= small <= large < n && n == small * large
  {
    var k :| 2 <= k < n && n % k == 0;
    var j := DvdFactor(k, n);
    ProperCofactor(n, k, j);
    small, large := if k <= j then k else j, if k <= j then j else k;
  }

  lemma ProperCofactor(n: int, k: int, j: int)
    requires n == k * j && 2 <= k < n
    ensures 2 <= j < n
  {
    MulMonotone(k, j, 1);
    MulMonotone(j, 2, k);
  }

  lemma QuotientIs(v: nat, m: nat, s: nat, rem: nat)
    requires m > 0 && v == m * s + rem && rem < m
    ensures v / m == s
  {
    var q := v / m;
    assert v == m * q + v % m;
    Distribute(m, q, 1);
    Distribute(m, s, 1);
    MulMonotone(m, q + 1, s);
    MulMonotone(m, s + 1, q);
  }

  /** The number of binary digits of n. */
  function BitLength(n: int): nat {
    if n <= 0 then 0 else 1 + BitLength(n / 2)
  }

  // ---------- powers ----------

  function Pow(a: int, e: nat): int {
    if e == 0 then 1 else a * Pow(a, e - 1)
  }

  lemma {:induction false} PowAdd(a: int, d: nat, e: nat)
    ensures Pow(a, d + e) == Pow(a, d) * Pow(a, e)
    decreases d
  {
    if d > 0 {
      PowAdd(a, d - 1, e);
      assert a * (Pow(a, d - 1) * Pow(a, e)) == a * Pow(a, d - 1) * Pow(a, e);
    }
  }

  lemma {:induction false} PowSquare(a: int, e: nat)
    ensures Pow(a, 2 * e) == Pow(a * a, e)
  {
    if e > 0 {
      PowSquare(a, e - 1);
      assert Pow(a, 2 * e) == a * (a * Pow(a, 2 * e - 2));
      assert a * (a * Pow(a, 2 * e - 2)) == a * a * Pow(a * a, e - 1);
    }
  }

  lemma {:induction false} PowMod(p: int, a: int, e: nat)
    requires p > 0
    ensures SameResidue(p, Pow(a % p, e), Pow(a, e))
  {
    hide SameResidue;
    if e == 0 {
      SameResidueRefl(p, 1);
    } else {
      PowMod(p, a, e - 1);
      ResidueOfMod(p, a);
      SameResidueMul(p, a % p, a, Pow(a % p, e - 1), Pow(a, e - 1));
    }
  }

  lemma {:induction false} PowPositive(a: nat, e: nat)
    requires a >= 1
    ensures Pow(a, e) >= 1
  {
    if e > 0 {
      PowPositive(a, e - 1);
      MulMonotone(a, 1, Pow(a, e - 1));
    }
  }

  lemma PowLarge(a: nat, e: nat)
    requires a >= 2 && e >= 1
    ensures Pow(a, e) >= 2
  {
    PowPositive(a, e - 1);
    MulMonotone(a, 1, Pow(a, e - 1));
  }

  lemma {:induction false} PowStrict(a: nat, d: nat, e: nat)
    requires a >= 2 && d < e
    ensures Pow(a, d) < Pow(a, e)
    decreases e
  {
    PowPositive(a, e - 1);
    MulMonotone(Pow(a, e - 1), 2, a);
    if d < e - 1 {
      PowStrict(a, d, e - 1);
    }
  }

  /** Binomial coefficients by Pascal's rule. */
  function Choose(n: nat, k: nat): nat {
    if k == 0 then 1 else if n == 0 then 0 else Choose(n - 1, k - 1) + Choose(n - 1, k)
  }

  lemma {:induction false} ChooseAbsorb(n: nat, k: nat)
    requires k > 0 && n > 0
    ensures k * Choose(n, k) == n * Choose(n - 1, k - 1)
    decreases n
  {
    var c, d := Choose(n - 1, k - 1), Choose(n - 1, k);
    assert Choose(n, k) == c + d;
    if n == 1 {
      assert Choose(0, k) == 0;
      assert c == if k == 1 then 1 else 0;
    } else if k == 1 {
      ChooseAbsorb(n - 1, 1);
      assert c == 1 && Choose(n - 2, 0) == 1;
    } else {
      var e, f := Choose(n - 2, k - 2), Choose(n - 2, k - 1);
      ChooseAbsorb(n - 1, k);
      ChooseAbsorb(n - 1, k - 1);
      AbsorbStep(n, k, c, d, e, f);
    }
  }

  lemma AbsorbStep(n: int, k: int, c: int, d: int, e: int, f: int)
    requires k * d == (n - 1) * f && (k - 1) * c == (n - 1) * e && c == e + f
    ensures k * (c + d) == n * c
  {
    Distribute(k, c, d);
    Distribute(n - 1, e, f);
    Distribute(c, k, 1);
    Distribute(c, n, 1);
  }

  lemma {:induction false} ChooseTop(n: nat, k: nat)
    ensures k > n ==> Choose(n, k) == 0
    ensures Choose(n, n) == 1
  {
    if n > 0 {
      ChooseTop(n - 1, n - 1);
      ChooseTop(n - 1, n);
      if k > n {
        ChooseTop(n - 1, k - 1);
        ChooseTop(n - 1, k);
      }
    }
  }

  /** The first k terms of the binomial expansion of (1 + a)^n. */
  function BinomialSum(n: nat, a: int, k: nat): int {
    if k == 0 then 0 else BinomialSum(n, a, k - 1) + Choose(n, k - 1) * Pow(a, k - 1)
  }

  lemma {:induction false} BinomialStep(n: nat, a: int, k: nat)
    ensures BinomialSum(n + 1, a, k + 1) == BinomialSum(n, a, k + 1) + a * BinomialSum(n, a, k)
  {
    if k == 0 {
      assert BinomialSum(n + 1, a, 1) == BinomialSum(n + 1, a, 0) + Choose(n + 1, 0) * Pow(a, 0) == 1;
      assert BinomialSum(n, a, 1) == BinomialSum(n, a, 0) + Choose(n, 0) * Pow(a, 0) == 1;
    } else {
      BinomialStep(n, a, k - 1);
      var c, d, t := Choose(n, k - 1), Choose(n, k), Pow(a, k - 1);
      PascalTerm(a, c, d, t);
      Distribute(a, BinomialSum(n, a, k - 1), c * t);
    }
  }

  lemma PascalTerm(a: int, c: int, d: int, t: int)
    ensures (c + d) * (a * t) == d * (a * t) + a * (c * t)
  {
  }

  lemma {:induction false} BinomialTheorem(n: nat, a: int)
    ensures Pow(1 + a, n) == BinomialSum(n, a, n + 1)
  {
    if n == 0 {
      assert BinomialSum(0, a, 1) == BinomialSum(0, a, 0) + Choose(0, 0) * Pow(a, 0) == 1;
    } else {
      BinomialTheorem(n - 1, a);
      BinomialStep(n - 1, a, n);
      ChooseTop(n - 1, n);
      assert BinomialSum(n - 1, a, n + 1) == BinomialSum(n - 1, a, n) + Choose(n - 1, n) * Pow(a, n);
      assert (1 + a) * BinomialSum(n - 1, a, n) == BinomialSum(n - 1, a, n) + a * BinomialSum(n - 1, a, n);
    }
  }

  /** Modulo a prime all inner terms of the expansion of (1 + a)^p vanish. */
  lemma {:induction false} BinomialInnerTerms(p: int, a: int, k: nat)
    requires IsPrime(p) && 1 <= k <= p
    ensures Dvd(p, BinomialSum(p, a, k) - 1)
  {
    hide Dvd;
    if k == 1 {
      assert BinomialSum(p, a, 1) == BinomialSum(p, a, 0) + Choose(p, 0) * Pow(a, 0) == 1;
      DvdZero(p);
    } else {
      BinomialInnerTerms(p, a, k - 1);
      ChooseDivisible(p, k - 1);
      DvdMul(p, Choose(p, k - 1), Pow(a, k - 1));
      DvdAdd(p, BinomialSum(p, a, k - 1) - 1, Choose(p, k - 1) * Pow(a, k - 1));
    }
  }

  lemma NotDvdSmall(p: int, k: int)
    requires 0 < k < p
    ensures !Dvd(p, k)
  {
  }

  lemma ChooseDivisible(p: int, k: nat)
    requires IsPrime(p) && 1 <= k < p
    ensures Dvd(p, Choose(p, k))
  {
    hide Dvd;
    hide Choose;
    ChooseAbsorb(p, k);
    DvdWitness(p, k * Choose(p, k), Choose(p - 1, k - 1));
    NotDvdSmall(p, k);
    Euclid(p, k, Choose(p, k));
  }

  /** Fermat's little theorem, first form: p divides a^p - a. */
  lemma {:induction false} Fermat(p: int, a: nat)
    requires IsPrime(p)
    ensures Dvd(p, Pow(a, p) - a)
    decreases a
  {
    hide Dvd;
    if a == 0 {
      assert Pow(0, p) == 0 * Pow(0, p - 1);
      DvdZero(p);
    } else {
      Fermat(p, a - 1);
      FreshmanPower(p, a - 1);
      DvdAdd(p, Pow(a, p) - Pow(a - 1, p) - 1, Pow(a - 1, p) - (a - 1));
    }
  }

  /** (1 + a)^p is 1 + a^p modulo a prime p. */
  lemma FreshmanPower(p: int, a: int)
    requires IsPrime(p)
    ensures Dvd(p, Pow(1 + a, p) - Pow(a, p) - 1)
  {
    hide Dvd;
    BinomialTheorem(p, a);
    BinomialInnerTerms(p, a, p);
    ChooseTop(p, p);
    assert BinomialSum(p, a, p + 1) == BinomialSum(p, a, p) + Pow(a, p);
  }

  /** Fermat's little theorem, second form: a^(p-2) is the inverse of a modulo p. */
  lemma FermatInverse(p: int, a: nat)
    requires IsPrime(p) && !Dvd(p, a)
    ensures (a * Pow(a, p - 2)) % p == 1
  {
    Fermat(p, a);
    assert Pow(a, p) == a * Pow(a, p - 1);
    assert Pow(a, p) - a == a * (Pow(a, p - 1) - 1);
    Euclid(p, a, Pow(a, p - 1) - 1);
    ModUnique(p, Pow(a, p - 1), 1);
  }

  /** Square-and-multiply, as the pipeline computes a^e mod p. */
  method PowerMod(base: nat, exp: nat, p: nat) returns (result: nat)
    requires p >= 2
    ensures result == Pow(base, exp) % p
  {
    hide SameResidue;
    result := 1;
    var b, e := base % p, exp;
    PowMod(p, base, exp);
    while e > 0
      invariant 0 <= result < p && 0 <= b < p
      invariant SameResidue(p, result * Pow(b, e), Pow(base, exp))
      decreases e
    {
      PowerStep(p, result, b, e, Pow(base, exp));
      if e % 2 == 1 {
        result := (result * b) % p;
      }
      b := (b * b) % p;
      e := e / 2;
    }
    ResidueIs(p, result, Pow(base, exp));
  }

  lemma ResidueIs(p: int, r: int, x: int)
    requires p > 0 && 0 <= r < p && SameResidue(p, r, x)
    ensures r == x % p
  {
  }

  /** One round of square-and-multiply keeps result * b^e modulo p. */
  lemma PowerStep(p: int, result: int, b: int, e: nat, target: int)
    requires p > 0 && e > 0 && SameResidue(p, result * Pow(b, e), target)
    ensures SameResidue(p, (if e % 2 == 1 then (result * b) % p else result) * Pow((b * b) % p, e / 2), target)
  {
    hide SameResidue;
    hide Pow;
    var h := e / 2;
    var u, v := Pow((b * b) % p, h), Pow(b * b, h);
    PowMod(p, b * b, h);
    if e % 2 == 1 {
      PowOdd(b, h);
      ResidueOfMod(p, result * b);
      SameResidueMul(p, (result * b) % p, result * b, u, v);
      Associate(result, b, v);
      SameResidueTrans(p, ((result * b) % p) * u, result * Pow(b, e), target);
    } else {
      PowSquare(b, h);
      SameResidueRefl(p, result);
      SameResidueMul(p, result, result, u, v);
      SameResidueTrans(p, result * u, result * Pow(b, e), target);
    }
  }

  lemma PowOdd(b: int, h: nat)
    ensures Pow(b, 2 * h + 1) == b * Pow(b * b, h)
  {
    PowSquare(b, h);
  }

  lemma Associate(a: int, b: int, c: int)
    ensures (a * b) * c == a * (b * c)
  {
  }
}
