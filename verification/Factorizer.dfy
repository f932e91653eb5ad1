module Factorizer {
  /**
   Complete factorisation (src/api/factorizer.cpp 105-117, 179-264): a stack of remainders
   driven by a splitter that may return anything at all.
   */

  import opened NumberTheory
  import opened Sorting

  function Product(s: seq<nat>): nat {
    if |s| == 0 then 1 else s[0] * Product(s[1..])
  }

  function Weight(s: seq<nat>): nat {
    if |s| == 0 then 0 else (if s[0] < 1 then 0 else s[0] - 1) + Weight(s[1..])
  }

  lemma {:induction false} ProductConcat(s: seq<nat>, t: seq<nat>)
    ensures Product(s + t) == Product(s) * Product(t)
    ensures Weight(s + t) == Weight(s) + Weight(t)
  {
    if |s| == 0 {
      assert s + t == t;
    } else {
      assert (s + t)[1..] == s[1..] + t;
      ProductConcat(s[1..], t);
      Associate(s[0], Product(s[1..]), Product(t));
    }
  }

  lemma Associate(a: int, b: int, c: int)
    ensures a * (b * c) == (a * b) * c
  {
  }

  /** What a run of the pipeline claims. */
  datatype Split = Split(success: bool, factors: seq<int>)

  /** The splits the driver accepts, in terms of the value that was to be split. */
  predicate Splits(value: nat, factors: seq<int>) {
    && |factors| >= 2
    && (forall i :: 0 <= i < |factors| ==> 1 < factors[i] < value)
    && Product(Naturals(factors)) == value
  }

  function Naturals(s: seq<int>): (r: seq<nat>)
    ensures |r| == |s|
  {
    seq(|s|, i requires 0 <= i < |s| => if s[i] < 0 then 0 else s[i])
  }

  method IsValidSplit(value: nat, split: Split) returns (valid: bool)
    ensures valid <==> split.success && Splits(value, split.factors)
  {
    if !split.success || |split.factors| < 2 {
      return false;
    }
    var product := 1;
    ghost var all := Naturals(split.factors);
    for i := 0 to |split.factors|
      invariant forall k :: 0 <= k < i ==> 1 < split.factors[k] < value
      invariant product == Product(all[..i])
    {
      var factor := split.factors[i];
      if factor <= 1 || factor >= value {
        return false;
      }
      assert all[..i + 1] == all[..i] + [all[i]];
      ProductConcat(all[..i], [all[i]]);
      assert Product([all[i]]) == all[i] * Product([]);
      product := product * factor;
    }
    assert all[..|all|] == all;
    valid := product == value;
  }

  /** A factor list weighs less than its product, so every accepted split makes progress. */
  lemma {:induction false} WeightBelowProduct(s: seq<nat>)
    requires |s| >= 1 && forall i :: 0 <= i < |s| ==> s[i] > 1
    ensures Product(s) >= 2 && Weight(s) + |s| <= Product(s)
  {
    if |s| == 1 {
      assert s[1..] == [];
      assert Product(s) == s[0] * 1;
    } else {
      WeightBelowProduct(s[1..]);
      SumBelowProduct(s[0], Product(s[1..]));
    }
  }

  lemma SumBelowProduct(a: nat, b: nat)
    requires a >= 2 && b >= 2
    ensures a + b <= a * b
  {
    assert (a - 1) * (b - 1) >= 1 by { MulMonotone(a - 1, 1, b - 1); }
    Distribute(a - 1, b, 1);
    Distribute(b, a, 1);
  }

  // ---------- prime factorisations ----------

  predicate AllPrime(s: seq<nat>) {
    forall i :: 0 <= i < |s| ==> IsPrime(s[i])
  }

  predicate IsFactorization(s: seq<nat>, n: int) {
    Ascending(s) && AllPrime(s) && Product(s) == n
  }

  /** A prime that divides a product of primes is one of them. */
  lemma {:induction false} PrimeInProduct(p: nat, s: seq<nat>)
    requires IsPrime(p) && AllPrime(s) && Dvd(p, Product(s))
    ensures p in s
  {
    hide IsPrime;
    assert p >= 2 by { PrimeIsBig(p); }
    OneNotDivisible(p);
    if |s| > 0 {
      Euclid(p, s[0], Product(s[1..]));
      if Dvd(p, s[0]) {
        PrimeDividesPrime(p, s[0]);
      } else {
        PrimeInProduct(p, s[1..]);
      }
    }
  }

  lemma OneNotDivisible(p: nat)
    requires p >= 2
    ensures !Dvd(p, 1)
  {
  }

  lemma PrimeDividesPrime(p: nat, q: nat)
    requires IsPrime(p) && IsPrime(q) && Dvd(p, q)
    ensures p == q
  {
    assert q % p == 0;
  }

  /** Two ascending prime lists with the same product are the same list. */
  lemma {:induction false} FactorizationUnique(s: seq<nat>, t: seq<nat>, n: int)
    requires IsFactorization(s, n) && IsFactorization(t, n)
    ensures s == t
  {
    hide IsPrime;
    hide Dvd;
    if |s| == 0 || |t| == 0 {
      OnlyEmptyIsOne(s);
      OnlyEmptyIsOne(t);
    } else {
      PrimeIsBig(s[0]);
      DvdWitness(s[0], n, Product(s[1..]));
      PrimeIsBig(t[0]);
      DvdWitness(t[0], n, Product(t[1..]));
      PrimeInProduct(s[0], t);
      PrimeInProduct(t[0], s);
      assert s[0] == t[0];
      Cancel(s[0], Product(s[1..]), Product(t[1..]));
      FactorizationUnique(s[1..], t[1..], Product(s[1..]));
    }
  }

  lemma Cancel(a: int, b: int, c: int)
    requires a > 0 && a * b == a * c
    ensures b == c
  {
    Distribute(a, b, c);
    SmallMultiple(a, b - c);
  }

  lemma {:induction false} OnlyEmptyIsOne(s: seq<nat>)
    requires AllPrime(s)
    ensures Product(s) == 1 <==> |s| == 0
  {
    hide IsPrime;
    if |s| > 0 {
      PrimeIsBig(s[0]);
      OnlyEmptyIsOne(s[1..]);
      MulMonotone(s[0], 1, Product(s[1..]));
      if Product(s[1..]) == 0 {
        PrimesPositive(s[1..]);
      }
    }
  }

  lemma {:induction false} PrimesPositive(s: seq<nat>)
    requires AllPrime(s)
    ensures Product(s) > 0
  {
    hide IsPrime;
    if |s| > 0 {
      PrimeIsBig(s[0]);
      PrimesPositive(s[1..]);
      MulMonotone(s[0], 1, Product(s[1..]));
    }
  }

  // ---------- sorting ----------

  lemma {:induction false} InsertProduct(x: nat, s: seq<nat>)
    ensures Product(Insert(x, s)) == x * Product(s)
  {
    hide Product;
    if |s| == 0 || x <= s[0] {
      ProductFirst(x, s);
    } else {
      InsertProduct(x, s[1..]);
      assert s == [s[0]] + s[1..];
      ProductFirst(s[0], s[1..]);
      ProductFirst(s[0], Insert(x, s[1..]));
      Exchange(x, s[0], Product(s[1..]));
    }
  }

  lemma Exchange(a: int, b: int, c: int)
    ensures a * (b * c) == b * (a * c)
  {
  }

  lemma ProductFirst(x: nat, s: seq<nat>)
    ensures Product([x] + s) == x * Product(s)
  {
    assert ([x] + s)[1..] == s;
  }

  lemma {:induction false} SortProduct(s: seq<nat>)
    ensures Product(Sort(s)) == Product(s)
  {
    if |s| > 0 {
      SortProduct(s[1..]);
      InsertProduct(s[0], Sort(s[1..]));
    }
  }

  // ---------- the driver ----------

  datatype Outcome = Complete | NotPositive | Unsplittable(remainder: nat) | ProductMismatch

  datatype FactorResult = FactorResult(outcome: Outcome, factors: seq<nat>)

  lemma CompositeSplits(n: nat)
    requires n >= 2 && !IsPrime(n)
    ensures exists split: Split :: split.success && Splits(n, split.factors)
  {
    var a, b := SplitComposite(n);
    var s := Split(true, [a, b]);
    assert Naturals(s.factors) == [a, b];
    assert Product([a, b]) == a * Product([b]) && Product([b]) == b * Product([]);
    assert s.success && Splits(n, s.factors);
  }

  /** The pipeline: any answer whatever, except that an honest one splits every composite. */
  method RunPipeline(current: nat, honest: bool) returns (split: Split)
    requires current >= 2 && !IsPrime(current)
    ensures honest ==> split.success && Splits(current, split.factors)
  {
    hide IsPrime;
    hide Splits;
    if honest {
      CompositeSplits(current);
      split :| split.success && Splits(current, split.factors);
    } else {
      split := *;
    }
  }

  /**
   The worklist.  It ends for every splitter; a success is the ascending prime factorisation
   of n; a failure with n > 1 names a composite divisor the splitter did not split.  The
   final product check never fails.
   */
  method FactorizeCompletely(n: int, honest: bool) returns (result: FactorResult)
    ensures result.outcome == NotPositive <==> n <= 1
    ensures result.outcome == Complete ==> IsFactorization(result.factors, n) && |result.factors| > 0
    ensures result.outcome != Complete ==> result.factors == []
    ensures result.outcome.Unsplittable? ==> !honest && !IsPrime(result.outcome.remainder)
    ensures result.outcome.Unsplittable? ==> result.outcome.remainder > 1 && n % result.outcome.remainder == 0
    ensures result.outcome != ProductMismatch
  {
    hide IsPrime;
    hide Splits;
    hide Weight;
    hide Product;
    if n <= 1 {
      return FactorResult(NotPositive, []);
    }
    var pending: seq<nat>, primes: seq<nat> := [n], [];
    StartProduct(n);
    while |pending| > 0
      invariant forall i :: 0 <= i < |pending| ==> pending[i] > 1
      invariant AllPrime(primes)
      invariant Product(pending) * Product(primes) == n
      decreases Weight(pending)
    {
      var rest, current := pending[..|pending| - 1], pending[|pending| - 1];
      Popped(pending);
      if IsPrime(current) {
        Grown(primes, current);
        Regroup(Product(rest), current, Product(primes));
        primes := primes + [current];
        pending := rest;
      } else {
        var split := RunPipeline(current, honest);
        var valid := IsValidSplit(current, split);
        if !valid {
          DvdOfProduct(Product(rest), current, Product(primes), n);
          return FactorResult(Unsplittable(current), []);
        }
        SplitProgress(rest, current, split.factors);
        pending := rest + Naturals(split.factors);
      }
    }
    EmptyProduct(pending);
    var sorted := Sort(primes);
    SortFacts(primes);
    SortProduct(primes);
    SortedPrimes(primes, sorted);
    NotEmpty(sorted, n);
    var product := ProductOf(sorted);
    if |sorted| == 0 || product != n {
      return FactorResult(ProductMismatch, []);
    }
    result := FactorResult(Complete, sorted);
  }

  method ProductOf(s: seq<nat>) returns (product: nat)
    ensures product == Product(s)
  {
    product := 1;
    for i := 0 to |s|
      invariant product == Product(s[..i])
    {
      assert s[..i + 1] == s[..i] + [s[i]];
      ProductConcat(s[..i], [s[i]]);
      assert Product([s[i]]) == s[i] * Product([]);
      product := product * s[i];
    }
    assert s[..|s|] == s;
  }

  lemma StartProduct(n: nat)
    ensures Product([n]) * Product([]) == n
  {
    assert Product([n]) == n * Product([]);
  }

  lemma EmptyProduct(s: seq<nat>)
    requires |s| == 0
    ensures Product(s) == 1
  {
  }

  lemma NotEmpty(s: seq<nat>, n: int)
    requires Product(s) == n > 1
    ensures |s| > 0
  {
  }

  lemma SortedPrimes(s: seq<nat>, t: seq<nat>)
    requires AllPrime(s) && forall y {:trigger y in t} :: y in t ==> y in s
    ensures AllPrime(t)
  {
    hide IsPrime;
    forall i | 0 <= i < |t| ensures IsPrime(t[i]) {
      assert t[i] in t;
    }
  }

  lemma Popped(pending: seq<nat>)
    requires |pending| > 0
    ensures var rest, x := pending[..|pending| - 1], pending[|pending| - 1];
      && Product(pending) == Product(rest) * x
      && Weight(pending) == Weight(rest) + if x < 1 then 0 else x - 1
  {
    var rest, x := pending[..|pending| - 1], pending[|pending| - 1];
    assert pending == rest + [x];
    ProductConcat(rest, [x]);
    assert Product([x]) == x * Product([]);
    assert Weight([x]) == (if x < 1 then 0 else x - 1) + Weight([]);
  }

  lemma Grown(primes: seq<nat>, p: nat)
    ensures Product(primes + [p]) == Product(primes) * p
  {
    ProductConcat(primes, [p]);
    assert Product([p]) == p * Product([]);
  }

  lemma Regroup(a: int, b: int, c: int)
    ensures (a * b) * c == a * (c * b)
  {
  }

  lemma DvdOfProduct(a: nat, b: nat, c: nat, n: int)
    requires (a * b) * c == n && b > 0
    ensures n % b == 0
  {
    assert b * (a * c) == n;
    DvdWitness(b, n, a * c);
  }

  lemma SplitProgress(rest: seq<nat>, current: nat, factors: seq<int>)
    requires Splits(current, factors)
    ensures Product(rest + Naturals(factors)) == Product(rest) * current
    ensures Weight(rest + Naturals(factors)) < Weight(rest) + current - 1
    ensures forall i :: 0 <= i < |factors| ==> Naturals(factors)[i] > 1
  {
    ProductConcat(rest, Naturals(factors));
    WeightBelowProduct(Naturals(factors));
  }

  /** Any two runs that succeed, with whatever splitters, return the same list. */
  method TwoRuns(n: int, honest1: bool, honest2: bool) returns (r1: FactorResult, r2: FactorResult)
    ensures r1.outcome == Complete && r2.outcome == Complete ==> r1 == r2
    ensures n > 1 && honest1 ==> r1.outcome == Complete
  {
    hide IsFactorization;
    r1 := FactorizeCompletely(n, honest1);
    r2 := FactorizeCompletely(n, honest2);
    if r1.outcome == Complete && r2.outcome == Complete {
      FactorizationUnique(r1.factors, r2.factors, n);
    }
  }
}
