/** The trial-division test of include/gnfs/util/primes.hpp (112-142). */
module TrialDivision {
  import opened NumberTheory

  /** The integer square root; `guess` stands for the rounded floating-point root. */
  method IntegerSqrt(n: nat, guess: nat) returns (x: nat)
    ensures x * x <= n < (x + 1) * (x + 1)
  {
    if n < 2 {
      return n;
    }
    x := guess;
    while (x + 1) * (x + 1) <= n
      invariant x == guess || x * x <= n
      decreases n - x
    {
      MulMonotone(x + 1, 1, x + 1);
      x := x + 1;
    }
    while x * x > n
      invariant n < (x + 1) * (x + 1)
      decreases x
    {
      x := x - 1;
    }
  }

  /** No divisor of n lies strictly between 1 and limit. */
  ghost predicate NoDivisorBelow(n: nat, limit: nat) {
    forall k :: 2 <= k < limit ==> !Dvd(k, n)
  }

  lemma NoDivisorBelowRoot(n: nat, s: nat)
    requires n >= 2 && n < (s + 1) * (s + 1) && NoDivisorBelow(n, s + 1)
    ensures IsPrime(n)
  {
    if !IsPrime(n) {
      var q := PrimeFactor(n);
      if q > s {
        MulMonotone(q, s + 1, q);
        MulMonotone(s + 1, s + 1, q);
      }
      assert Dvd(q, n);
    }
  }

  lemma DivisorOfComposite(n: nat, d: int, k: nat)
    requires d > 0 && k > 0 && Dvd(d, k) && !Dvd(d, n)
    ensures !Dvd(k, n)
  {
    if Dvd(k, n) {
      var a := DvdFactor(d, k);
      var b := DvdFactor(k, n);
      assert d * a * b == d * (a * b);
      DvdWitness(d, n, a * b);
    }
  }

  lemma WheelMultiples(i: nat)
    requires i % 6 == 5
    ensures Dvd(2, i + 1) && Dvd(2, i + 3) && Dvd(2, i + 5) && Dvd(3, i + 4)
  {
    hide Dvd;
    var q := i / 6;
    assert i == 6 * q + 5;
    DvdWitness(2, i + 1, 3 * q + 3);
    DvdWitness(2, i + 3, 3 * q + 4);
    DvdWitness(2, i + 5, 3 * q + 5);
    DvdWitness(3, i + 4, 2 * q + 3);
  }

  /** The wheel skips only multiples of two and of three. */
  lemma WheelStep(n: nat, i: nat)
    requires i >= 5 && i % 6 == 5 && NoDivisorBelow(n, i)
    requires !Dvd(i, n) && !Dvd(i + 2, n)
    ensures NoDivisorBelow(n, i + 6)
  {
    hide Dvd;
    WheelMultiples(i);
    assert !Dvd(2, n) && !Dvd(3, n);
    DivisorOfComposite(n, 2, i + 1);
    DivisorOfComposite(n, 2, i + 3);
    DivisorOfComposite(n, 3, i + 4);
    DivisorOfComposite(n, 2, i + 5);
    forall k | 2 <= k < i + 6 ensures !Dvd(k, n) {
      if k >= i {
        assert k == i || k == i + 1 || k == i + 2 || k == i + 3 || k == i + 4 || k == i + 5;
      }
    }
  }

  lemma ProperDivisor(n: nat, k: nat)
    requires 2 <= k < n && Dvd(k, n)
    ensures !IsPrime(n)
  {
  }

  /** Trial division by 2, 3 and the numbers next to multiples of six decides primality. */
  method IsPrimeU32(n: nat, guess: nat) returns (prime: bool)
    ensures prime == IsPrime(n)
  {
    hide IsPrime;
    hide Dvd;
    hide NoDivisorBelow;
    SmallCases(n);
    if n < 2 {
      return false;
    }
    if n < 4 {
      return true;
    }
    if n % 2 == 0 {
      return false;
    }
    if n % 3 == 0 {
      return false;
    }
    var s := IntegerSqrt(n, guess);
    var i := 5;
    while i <= s
      invariant 5 <= i <= s + 6 && i % 6 == 5 && NoDivisorBelow(n, i)
      decreases s + 6 - i
    {
      WheelInside(n, i, s);
      DivisibleIs(n, i);
      DivisibleIs(n, i + 2);
      if n % i == 0 {
        ProperDivisor(n, i);
        return false;
      }
      if n % (i + 2) == 0 {
        ProperDivisor(n, i + 2);
        return false;
      }
      WheelStep(n, i);
      i := i + 6;
    }
    FewerDivisors(n, i, s + 1);
    NoDivisorBelowRoot(n, s);
    prime := true;
  }

  lemma FewerDivisors(n: nat, i: nat, limit: nat)
    requires NoDivisorBelow(n, i) && limit <= i
    ensures NoDivisorBelow(n, limit)
  {
  }

  lemma SmallCases(n: nat)
    ensures IsPrime(n) <==> n == 2 || n == 3 || (n >= 5 && n % 2 != 0 && n % 3 != 0 && IsPrime(n))
    ensures n >= 4 && n % 2 != 0 && n % 3 != 0 ==> NoDivisorBelow(n, 5)
  {
    if n >= 4 && n % 2 != 0 && n % 3 != 0 {
      DivisorOfComposite(n, 2, 4);
    }
  }

  lemma DivisibleIs(n: nat, k: nat)
    requires k > 0
    ensures Dvd(k, n) <==> n % k == 0
  {
  }

  lemma WheelInside(n: nat, i: nat, s: nat)
    requires 5 <= i <= s && s * s <= n
    ensures i + 2 < n
  {
    MulMonotone(s, 5, s);
  }
}
