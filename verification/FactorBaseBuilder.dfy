module FactorBaseBuilder {
  /**
   Construction of a factor base (src/factor_base/builder.cpp 37-79, 384-437, 555-634, 854-897):
   shared sieve, root finding in consecutive chunks on any number of threads, special-Q range.
   */

  import opened Optional
  import opened NumberTheory
  import opened Polynomials
  import opened FieldRoots
  import opened ModularPoly
  import opened RootFinder
  import opened Scheduling
  import opened Sieve
  import opened ByteEncoding
  import opened FactorBases
  import opened FactorBaseWire

  /**
   What a build depends on: the number to factor, the polynomial, the root finder as a pure
   function of the prime (its random generator is seeded by the prime alone; None stands for
   its exception), the fixed-point logarithm, and the floating-point estimate of a number of
   primes, from which memory is reserved.
   */
  datatype Source = Source(n: nat, f: Poly, rootsOf: U32 -> Option<seq<U32>>, logOf: (U32, U8) -> U32,
                           estimate: U32 -> nat)

  /** The contract of RootFinder.FindRootsUnchecked. */
  ghost predicate RootFinderOk(src: Source) {
    && |src.f| > 0 && src.f[|src.f| - 1] != 0
    && forall p: U32 :: IsPrime(p) ==> RootsAnswer(src.rootsOf(p), src.f, p)
  }

  ghost predicate RootsAnswer(answer: Option<seq<U32>>, f: Poly, p: nat)
    requires p > 0
  {
    && (answer.None? <==> p >= 64 && ZeroMod(f, p))
    && (answer.Some? ==> ListsRoots(answer.value, f, p))
  }

  function Leading(src: Source): int {
    if |src.f| == 0 then 0 else src.f[|src.f| - 1]
  }

  predicate HasProjective(src: Source, p: U32) {
    p > 0 && Leading(src) % p == 0
  }

  function AffineEntries(p: U32, roots: seq<U32>, logP: U32): (r: seq<AlgebraicPrime>)
    ensures |r| == |roots|
  {
    seq(|roots|, i requires 0 <= i < |roots| => AlgebraicPrime(p, roots[i], logP, 1))
  }

  /** The entries one prime contributes. */
  function Entries(p: U32, src: Source, scale: U8): seq<AlgebraicPrime> {
    var logP := src.logOf(p, scale);
    (match src.rootsOf(p) case Some(roots) => AffineEntries(p, roots, logP) case None => [])
    + if HasProjective(src, p) then [AlgebraicPrime(p, PROJECTIVE_ROOT, logP, 1)] else []
  }

  /** The entries of a list of primes, in order. */
  function Flat(primes: seq<U32>, src: Source, scale: U8): seq<AlgebraicPrime> {
    if |primes| == 0 then []
    else Flat(primes[..|primes| - 1], src, scale) + Entries(primes[|primes| - 1], src, scale)
  }

  predicate AllFound(primes: seq<U32>, src: Source) {
    forall i :: 0 <= i < |primes| ==> src.rootsOf(primes[i]).Some?
  }

  lemma {:induction false} FlatAdd(a: seq<U32>, b: seq<U32>, src: Source, scale: U8)
    ensures Flat(a + b, src, scale) == Flat(a, src, scale) + Flat(b, src, scale)
  {
    hide Entries;
    if |b| == 0 {
      assert a + b == a;
    } else {
      assert (a + b)[..|a + b| - 1] == a + b[..|b| - 1];
      FlatAdd(a, b[..|b| - 1], src, scale);
    }
  }

  lemma FlatNext(primes: seq<U32>, i: nat, j: nat, src: Source, scale: U8)
    requires i <= j < |primes|
    ensures Flat(primes[i..j + 1], src, scale) == Flat(primes[i..j], src, scale) + Entries(primes[j], src, scale)
  {
    assert primes[i..j + 1][..j - i] == primes[i..j];
  }

  // ---------- chunked assembly ----------

  /** Chunk sizes differ by at most one, the longer chunks first. */
  method BalancedChunks(count: nat, workers: nat) returns (starts: seq<nat>, ends: seq<nat>)
    requires workers > 0
    ensures Consecutive(starts, ends, count) && |starts| == workers
    ensures forall t :: 0 <= t < workers ==> count / workers <= ends[t] - starts[t] <= count / workers + 1
  {
    hide ChunkBegin;
    starts, ends := [], [];
    var size, remainder := count / workers, count % workers;
    assert count == workers * size + remainder;
    ChunkBeginNext(0, size, remainder);
    ghost var b := 0;
    for t := 0 to workers
      invariant |starts| == |ends| == t
      invariant b == ChunkBegin(t, size, remainder)
      invariant if t == 0 then b == 0 else starts[0] == 0 && ends[t - 1] == b
      invariant forall u :: 0 <= u < t ==> ChunkOk(starts[u], ends[u], size, count)
      invariant forall u :: 0 < u < t ==> starts[u] == ends[u - 1]
    {
      var begin := ChunkBegin(t, size, remainder);
      var end := begin + size + if t < remainder then 1 else 0;
      ChunkBeginNext(t, size, remainder);
      ChunkBeginInside(t + 1, workers, count, size, remainder);
      starts, ends := starts + [begin], ends + [end];
      b := end;
    }
    ChunkBeginInside(workers, workers, count, size, remainder);
  }

  predicate ChunkOk(start: nat, end: nat, size: nat, count: nat) {
    start <= end <= count && size <= end - start <= size + 1
  }

  function ChunkBegin(t: nat, size: nat, remainder: nat): nat {
    t * size + if t < remainder then t else remainder
  }

  lemma ChunkBeginNext(t: nat, size: nat, remainder: nat)
    ensures ChunkBegin(0, size, remainder) == 0
    ensures ChunkBegin(t + 1, size, remainder) == ChunkBegin(t, size, remainder) + size + if t < remainder then 1 else 0
  {
    Distribute(size, t, 1);
  }

  lemma ChunkBeginInside(t: nat, workers: nat, count: nat, size: nat, remainder: nat)
    requires t <= workers && remainder < workers && count == workers * size + remainder
    ensures ChunkBegin(t, size, remainder) <= count && ChunkBegin(workers, size, remainder) == count
  {
    MulMonotone(size, t, workers);
  }

  /** Each worker has handled the first part of its own chunk. */
  ghost predicate ChunksFilled(chunks: seq<seq<AlgebraicPrime>>, primes: seq<U32>, starts: seq<nat>, pos: seq<nat>,
                               src: Source, scale: U8) {
    && |chunks| == |starts| == |pos|
    && forall t :: 0 <= t < |starts| ==>
         && starts[t] <= pos[t] <= |primes|
         && chunks[t] == Flat(primes[starts[t]..pos[t]], src, scale)
         && forall i :: starts[t] <= i < pos[t] ==> src.rootsOf(primes[i]).Some?
  }

  lemma ChunksEmpty(primes: seq<U32>, starts: seq<nat>, ends: seq<nat>, src: Source, scale: U8)
    requires Consecutive(starts, ends, |primes|)
    ensures ChunksFilled(seq(|starts|, _ => []), primes, starts, starts, src, scale)
  {
  }

  lemma ChunkStep(chunks: seq<seq<AlgebraicPrime>>, primes: seq<U32>, starts: seq<nat>, pos: seq<nat>, t: nat,
                  src: Source, scale: U8)
    requires ChunksFilled(chunks, primes, starts, pos, src, scale)
    requires t < |pos| && pos[t] < |primes| && src.rootsOf(primes[pos[t]]).Some?
    ensures ChunksFilled(chunks[t := chunks[t] + Entries(primes[pos[t]], src, scale)], primes, starts,
                         pos[t := pos[t] + 1], src, scale)
  {
    hide Entries;
    FlatNext(primes, starts[t], pos[t], src, scale);
    hide Flat;
  }

  lemma ChunksComplete(chunks: seq<seq<AlgebraicPrime>>, primes: seq<U32>, starts: seq<nat>, ends: seq<nat>,
                       src: Source, scale: U8)
    requires ChunksFilled(chunks, primes, starts, ends, src, scale) && Consecutive(starts, ends, |primes|)
    ensures AllFound(primes, src)
  {
    hide Flat;
    forall i | 0 <= i < |primes| ensures src.rootsOf(primes[i]).Some? {
      var t := ChunkOf(i, starts, ends, |primes|);
      assert starts[t] <= i < ends[t];
    }
  }

  lemma ChunkOf(i: nat, starts: seq<nat>, ends: seq<nat>, count: nat) returns (t: nat)
    requires Consecutive(starts, ends, count) && i < count
    ensures t < |starts| && starts[t] <= i < ends[t]
  {
    t := 0;
    while ends[t] <= i
      invariant t < |starts| && starts[t] <= i
      decreases |starts| - t
    {
      t := t + 1;
    }
  }

  /**
   Root finding on a pool: at every turn any unfinished worker handles its next prime; the
   first exception ends the build.
   */
  method FillChunks(primes: seq<U32>, starts: seq<nat>, ends: seq<nat>, src: Source, scale: U8)
    returns (ok: bool, chunks: seq<seq<AlgebraicPrime>>)
    requires Consecutive(starts, ends, |primes|)
    ensures ok <==> AllFound(primes, src)
    ensures ok ==> ChunksFilled(chunks, primes, starts, ends, src, scale)
  {
    hide Flat;
    hide Entries;
    hide ChunksFilled;
    chunks := seq(|starts|, _ => []);
    ChunksEmpty(primes, starts, ends, src, scale);
    var pos := starts;
    while exists t :: 0 <= t < |pos| && pos[t] < ends[t]
      invariant |pos| == |ends| == |chunks|
      invariant ChunksFilled(chunks, primes, starts, pos, src, scale)
      invariant forall t :: 0 <= t < |pos| ==> pos[t] <= ends[t]
      decreases Sum(Left(pos, ends))
    {
      var t :| 0 <= t < |pos| && pos[t] < ends[t];
      if src.rootsOf(primes[pos[t]]).None? {
        return false, [];
      }
      ChunkStep(chunks, primes, starts, pos, t, src, scale);
      LeftDecreases(pos, ends, t);
      chunks := chunks[t := chunks[t] + Entries(primes[pos[t]], src, scale)];
      pos := pos[t := pos[t] + 1];
    }
    assert pos == ends;
    ChunksComplete(chunks, primes, starts, ends, src, scale);
    ok := true;
  }

  /** Whatever the number of workers and their schedule, the entries come out in prime order. */
  method AppendInChunks(fb: FactorBase, primes: seq<U32>, src: Source, scale: U8, parallel: bool, resolved: nat)
    returns (ok: bool)
    requires fb.Valid() && resolved > 0
    modifies fb
    ensures ok <==> AllFound(primes, src) && |old(fb.algebraic)| + |Flat(primes, src, scale)| <= MAX_COUNT
    ensures ok ==> fb.Valid()
    ensures ok ==> fb.Contents() == old(fb.Contents()).(algebraic := old(fb.algebraic) + Flat(primes, src, scale))
  {
    hide Flat;
    hide Entries;
    hide ChunksFilled;
    hide Consecutive;
    var count := |primes|;
    if count == 0 {
      FlatNil(src, scale);
      assert fb.algebraic + [] == fb.algebraic;
      return true;
    }
    var workers := if parallel && count >= 200 then resolved else 1;
    var starts, ends := BalancedChunks(count, workers);
    var filled, chunks := FillChunks(primes, starts, ends, src, scale);
    if !filled {
      return false;
    }
    var flat := Concatenate(chunks, primes, starts, ends, src, scale);
    ok := AddEntries(fb, flat);
  }

  lemma FlatNil(src: Source, scale: U8)
    ensures Flat([], src, scale) == []
  {
  }

  /** Consecutive ranges, flattened in order, give back the whole list. */
  method Concatenate(chunks: seq<seq<AlgebraicPrime>>, ghost primes: seq<U32>, ghost starts: seq<nat>,
                     ghost ends: seq<nat>, ghost src: Source, ghost scale: U8) returns (flat: seq<AlgebraicPrime>)
    requires Consecutive(starts, ends, |primes|) && ChunksFilled(chunks, primes, starts, ends, src, scale)
    ensures flat == Flat(primes, src, scale)
  {
    hide Flat;
    hide Entries;
    flat := [];
    FlatNil(src, scale);
    for c := 0 to |chunks|
      invariant flat == Flat(primes[..if c == 0 then 0 else ends[c - 1]], src, scale)
    {
      ghost var b, e := starts[c], ends[c];
      assert primes[..b] + primes[b..e] == primes[..e];
      FlatAdd(primes[..b], primes[b..e], src, scale);
      flat := flat + chunks[c];
    }
    assert primes[..|primes|] == primes;
  }

  method AddEntries(fb: FactorBase, entries: seq<AlgebraicPrime>) returns (ok: bool)
    requires fb.Valid()
    modifies fb
    ensures ok <==> |old(fb.algebraic)| + |entries| <= MAX_COUNT
    ensures ok ==> fb.Valid()
    ensures ok ==> fb.Contents() == old(fb.Contents()).(algebraic := old(fb.algebraic) + entries)
  {
    for i := 0 to |entries|
      invariant fb.Valid()
      invariant fb.Contents() == old(fb.Contents()).(algebraic := old(fb.algebraic) + entries[..i])
    {
      var e := entries[i];
      var added := fb.AddAlgebraic(e.p, e.r, e.logP, e.degree);
      if !added {
        return false;
      }
      assert entries[..i + 1] == entries[..i] + [e];
    }
    assert entries[..|entries|] == entries;
    ok := true;
  }

  // ---------- lists of primes ----------

  predicate Usable(p: nat, n: nat) {
    IsPrime(p) && n % p != 0
  }

  /** The primes in lo..hi that do not divide n, ascending. */
  function PrimesIn(lo: nat, hi: nat, n: nat): seq<nat> {
    if hi < lo || hi == 0 then [] else PrimesIn(lo, hi - 1, n) + if Usable(hi, n) then [hi] else []
  }

  lemma {:induction false} PrimesInExact(lo: nat, hi: nat, n: nat)
    ensures forall p :: p in PrimesIn(lo, hi, n) <==> lo <= p <= hi && p >= 0 && Usable(p, n)
    ensures forall i, j :: 0 <= i < j < |PrimesIn(lo, hi, n)| ==> PrimesIn(lo, hi, n)[i] < PrimesIn(lo, hi, n)[j]
    ensures |PrimesIn(lo, hi, n)| <= hi
  {
    hide IsPrime;
    assert !Usable(0, n) by { ZeroNotPrime(); }
    if hi >= lo && hi > 0 {
      PrimesInExact(lo, hi - 1, n);
      var before := PrimesIn(lo, hi - 1, n);
      forall i | 0 <= i < |before| ensures before[i] < hi {
        assert before[i] in before;
      }
    }
  }

  lemma ZeroNotPrime()
    ensures !IsPrime(0) && !IsPrime(1)
  {
  }

  lemma PrimesInStart(lo: nat, n: nat)
    ensures lo > 0 ==> PrimesIn(lo, lo - 1, n) == []
    ensures PrimesIn(2, 0, n) == [] && PrimesIn(2, 1, n) == []
  {
  }

  /** The usable primes of lo..hi, read off a sieve. */
  method CollectPrimes(sieve: array<bool>, lo: nat, hi: U32, n: nat) returns (primes: seq<U32>)
    requires sieve.Length > hi && lo >= 2
    requires forall k :: 0 <= k < sieve.Length ==> sieve[k] == IsPrime(k)
    ensures primes == PrimesIn(lo, hi, n)
  {
    hide IsPrime;
    primes := [];
    PrimesInStart(lo, n);
    if hi < lo {
      return;
    }
    var p := lo;
    while p <= hi
      invariant lo <= p <= hi + 1 && primes == PrimesIn(lo, p - 1, n)
    {
      if sieve[p] && n % p != 0 {
        primes := primes + [p];
      }
      p := p + 1;
    }
  }

  // ---------- the build ----------

  datatype Options = Options(rationalBound: U32, algebraicBound: U32, specialQBound: U32, largePrimeBound: U64,
                             logScale: U8, parallel: bool)

  function BaseParams(o: Options): Params {
    Params(o.rationalBound, o.algebraicBound,
           if o.largePrimeBound == 0 then o.rationalBound * 100 else o.largePrimeBound, o.logScale)
  }

  function RationalEntries(primes: seq<U32>, src: Source, scale: U8): (r: seq<RationalPrime>)
    ensures |r| == |primes|
  {
    seq(|primes|, i requires 0 <= i < |primes| => RationalPrime(primes[i], src.logOf(primes[i], scale)))
  }

  function SpecialMin(o: Options): nat {
    if o.algebraicBound + 1 < 2 then 2 else o.algebraicBound + 1
  }

  lemma PrimesAreU32(lo: nat, hi: U32, n: nat)
    ensures forall i :: 0 <= i < |PrimesIn(lo, hi, n)| ==> PrimesIn(lo, hi, n)[i] < 0x1_0000_0000
  {
    PrimesInExact(lo, hi, n);
    forall i | 0 <= i < |PrimesIn(lo, hi, n)| ensures PrimesIn(lo, hi, n)[i] < 0x1_0000_0000 {
      assert PrimesIn(lo, hi, n)[i] in PrimesIn(lo, hi, n);
    }
  }

  function U32Primes(lo: nat, hi: U32, n: nat): seq<U32> {
    PrimesAreU32(lo, hi, n);
    PrimesIn(lo, hi, n)
  }

  /** The primes whose algebraic entries take part in sieving. */
  function SievePrimes(src: Source, o: Options): seq<U32> {
    U32Primes(2, o.algebraicBound, src.n)
  }

  /** The primes of the special-Q range, empty unless it reaches beyond the algebraic bound. */
  function SpecialPrimes(src: Source, o: Options): seq<U32> {
    if o.specialQBound > o.algebraicBound then U32Primes(SpecialMin(o), o.specialQBound, src.n) else []
  }

  function BuiltRational(src: Source, o: Options): seq<RationalPrime> {
    RationalEntries(U32Primes(2, o.rationalBound, src.n), src, o.logScale)
  }

  function BuiltBase(src: Source, o: Options): Base
    requires |Flat(SievePrimes(src, o), src, o.logScale)| <= MAX_COUNT
  {
    var sieved := Flat(SievePrimes(src, o), src, o.logScale);
    Base(BaseParams(o), |sieved|, true, BuiltRational(src, o),
         sieved + Flat(SpecialPrimes(src, o), src, o.logScale))
  }

  const SIZE_MAX: nat := 0xFFFF_FFFF_FFFF_FFFF

  function Degree(src: Source): nat {
    if |src.f| == 0 then 0 else |src.f| - 1
  }

  function AlgebraicBound(o: Options): U32 {
    if o.specialQBound > o.algebraicBound then o.specialQBound else o.algebraicBound
  }

  /** The estimated sizes can be reserved: no product overflows and no list exceeds 32 bits. */
  predicate Reservable(src: Source, o: Options) {
    var rational, algebraic := src.estimate(o.rationalBound), src.estimate(AlgebraicBound(o));
    && rational <= SIZE_MAX && algebraic <= SIZE_MAX
    && rational <= MAX_COUNT && algebraic * Degree(src) <= MAX_COUNT
  }

  /** The sizes can be reserved, every root finding succeeds and the entries can be counted in 32 bits. */
  predicate Buildable(src: Source, o: Options) {
    && Reservable(src, o)
    && AllFound(SievePrimes(src, o), src) && AllFound(SpecialPrimes(src, o), src)
    && |Flat(SievePrimes(src, o), src, o.logScale)| + |Flat(SpecialPrimes(src, o), src, o.logScale)| <= MAX_COUNT
  }

  /** Adds the usable primes up to the bound to the rational side, which never overflows. */
  method FindRationalPrimes(fb: FactorBase, sieve: array<bool>, src: Source, bound: U32, scale: U8)
    requires fb.Valid() && fb.rational == [] && sieve.Length > bound
    requires forall k :: 0 <= k < sieve.Length ==> sieve[k] == IsPrime(k)
    modifies fb
    ensures fb.Valid()
    ensures fb.Contents()
         == old(fb.Contents()).(rational := RationalEntries(U32Primes(2, bound, src.n), src, scale))
  {
    hide IsPrime;
    hide PrimesIn;
    PrimesInStart(2, src.n);
    assert RationalEntries([], src, scale) == [];
    if bound < 2 {
      assert U32Primes(2, bound, src.n) == [];
      return;
    }
    var p: nat := 2;
    while true
      invariant 2 <= p <= bound && fb.Valid()
      invariant fb.Contents() == old(fb.Contents()).(rational := RationalEntries(U32Primes(2, p - 1, src.n), src, scale))
      decreases bound - p
    {
      PrimesInNext(p, src, scale);
      PrimesInExact(2, p - 1, src.n);
      if sieve[p] && src.n % p != 0 {
        var logP := src.logOf(p, scale);
        var added := fb.AddRational(p, logP);
      }
      if p == bound {
        break;
      }
      p := p + 1;
    }
  }

  lemma PrimesInNext(p: U32, src: Source, scale: U8)
    requires p >= 2
    ensures var before := U32Primes(2, p - 1, src.n);
      RationalEntries(U32Primes(2, p, src.n), src, scale)
      == RationalEntries(before, src, scale) + if Usable(p, src.n) then [RationalPrime(p, src.logOf(p, scale))] else []
  {
    hide IsPrime;
  }

  /** The size checks made before anything is built, in their order. */
  method Reserve(src: Source, o: Options) returns (ok: bool)
    ensures ok <==> Reservable(src, o)
    ensures var bound := if o.specialQBound > o.algebraicBound then o.specialQBound else o.algebraicBound;
      var degree := if |src.f| > 0 then |src.f| - 1 else 0;
      ok <==> && src.estimate(o.rationalBound) <= 0xFFFF_FFFF
              && src.estimate(bound) <= 0xFFFF_FFFF_FFFF_FFFF && src.estimate(bound) * degree <= 0xFFFF_FFFF
  {
    var rational, algebraic := src.estimate(o.rationalBound), src.estimate(AlgebraicBound(o));
    if rational > SIZE_MAX || algebraic > SIZE_MAX {
      return false;
    }
    var degree := Degree(src);
    if degree != 0 && algebraic > SIZE_MAX / degree {
      QuotientBound(algebraic, degree, SIZE_MAX);
      return false;
    }
    ok := rational <= MAX_COUNT && algebraic * degree <= MAX_COUNT;
  }

  lemma QuotientBound(x: nat, d: nat, limit: nat)
    requires d > 0 && x > limit / d
    ensures x * d > limit
  {
    assert limit == d * (limit / d) + limit % d;
    MulMonotone(d, limit / d + 1, x);
    Distribute(d, limit / d, 1);
  }

  method SharedSieve(o: Options, hardwareThreads: nat) returns (sieve: array<bool>)
    ensures fresh(sieve) && sieve.Length > o.rationalBound && sieve.Length > o.algebraicBound
    ensures forall k :: 0 <= k < sieve.Length ==> sieve[k] == IsPrime(k)
  {
    hide IsPrime;
    var shared := if o.rationalBound > o.algebraicBound then o.rationalBound else o.algebraicBound;
    SquareRoot(shared);
    var root: nat :| root * root >= shared;
    sieve := EratosthenesSieve(shared, o.parallel, root, hardwareThreads);
  }

  /** The entries that take part in sieving, and their count. */
  method FindAlgebraicPrimes(fb: FactorBase, sieve: array<bool>, src: Source, o: Options, resolved: nat)
    returns (ok: bool)
    requires fb.Valid() && fb.algebraic == [] && resolved > 0 && sieve.Length > o.algebraicBound
    requires forall k :: 0 <= k < sieve.Length ==> sieve[k] == IsPrime(k)
    modifies fb
    ensures var sieved := Flat(SievePrimes(src, o), src, o.logScale);
      && (ok <==> AllFound(SievePrimes(src, o), src) && |sieved| <= MAX_COUNT)
      && (ok ==> fb.Valid() && fb.Contents()
                 == old(fb.Contents()).(algebraic := sieved, sieveCount := |sieved|, sieveCountSet := true))
  {
    hide IsPrime;
    hide PrimesIn;
    hide Flat;
    hide AllFound;
    var primes := CollectPrimes(sieve, 2, o.algebraicBound, src.n);
    ok := AppendInChunks(fb, primes, src, o.logScale, o.parallel, resolved);
    if ok {
      fb.SetSieveCountExplicit(|fb.algebraic|);
    }
  }

  /** The static build; null stands for an exception. */
  method Build(src: Source, o: Options, resolved: nat, hardwareThreads: nat) returns (fb: FactorBase?)
    requires resolved > 0
    ensures fb != null <==> Buildable(src, o)
    ensures fb != null ==> fresh(fb) && fb.Valid() && fb.Contents() == BuiltBase(src, o)
  {
    hide IsPrime;
    hide PrimesIn;
    hide Flat;
    hide AllFound;
    hide RationalEntries;
    hide SievePrimes;
    hide SpecialPrimes;
    var reserved := Reserve(src, o);
    hide Reservable;
    if !reserved {
      return null;
    }
    var sieve := SharedSieve(o, hardwareThreads);
    var result := new FactorBase(BaseParams(o));
    FindRationalPrimes(result, sieve, src, o.rationalBound, o.logScale);
    var ok := FindAlgebraicPrimes(result, sieve, src, o, resolved);
    if !ok {
      return null;
    }
    ok := AddSpecialRange(result, src, o, resolved, hardwareThreads);
    if !ok {
      return null;
    }
    var indexed := result.BuildIndex();
    fb := result;
  }

  method AddSpecialRange(fb: FactorBase, src: Source, o: Options, resolved: nat, hardwareThreads: nat)
    returns (ok: bool)
    requires fb.Valid() && resolved > 0
    modifies fb
    ensures var special := Flat(SpecialPrimes(src, o), src, o.logScale);
      && (ok <==> AllFound(SpecialPrimes(src, o), src) && |old(fb.algebraic)| + |special| <= MAX_COUNT)
      && (ok ==> fb.Valid() && fb.Contents() == old(fb.Contents()).(algebraic := old(fb.algebraic) + special))
  {
    hide IsPrime;
    hide PrimesIn;
    hide Flat;
    hide Entries;
    hide AllFound;
    if o.specialQBound > o.algebraicBound {
      ok := FindPrimesInRange(fb, src, SpecialMin(o), o.specialQBound, o, resolved, hardwareThreads);
    } else {
      NothingSpecial(src, o);
      assert fb.algebraic + [] == fb.algebraic;
      ok := true;
    }
  }

  lemma SquareRoot(x: nat)
    ensures exists root: nat :: root * root >= x
  {
    MulMonotone(x + 1, 1, x + 1);
    assert (x + 1) * (x + 1) >= x;
  }

  lemma NothingSpecial(src: Source, o: Options)
    requires o.specialQBound <= o.algebraicBound
    ensures Flat(SpecialPrimes(src, o), src, o.logScale) == [] && AllFound(SpecialPrimes(src, o), src)
  {
  }

  /** The special-Q range, with a sieve of its own. */
  method FindPrimesInRange(fb: FactorBase, src: Source, minP: nat, maxP: U32, o: Options, resolved: nat,
                           hardwareThreads: nat) returns (ok: bool)
    requires fb.Valid() && resolved > 0 && minP >= 2
    modifies fb
    ensures var primes := U32Primes(minP, maxP, src.n);
      && (ok <==> AllFound(primes, src) && |old(fb.algebraic)| + |Flat(primes, src, o.logScale)| <= MAX_COUNT)
      && (ok ==> fb.Valid() && fb.Contents()
                 == old(fb.Contents()).(algebraic := old(fb.algebraic) + Flat(primes, src, o.logScale)))
  {
    hide IsPrime;
    hide Flat;
    hide Entries;
    if minP > maxP {
      FlatNil(src, o.logScale);
      assert fb.algebraic + [] == fb.algebraic;
      return true;
    }
    SquareRoot(maxP);
    var root: nat :| root * root >= maxP;
    var sieve := EratosthenesSieve(maxP, o.parallel, root, hardwareThreads);
    var primes := CollectPrimes(sieve, minP, maxP, src.n);
    ok := AppendInChunks(fb, primes, src, o.logScale, o.parallel, resolved);
  }

  // ---------- what a built base is ----------

  ghost predicate Ascending(primes: seq<U32>) {
    && (forall i :: 0 <= i < |primes| ==> IsPrime(primes[i]))
    && (forall i, j :: 0 <= i < j < |primes| ==> primes[i] < primes[j])
  }

  /** (p, r) is an affine root of f modulo p, or the marker of a projective one. */
  ghost predicate IsEntry(src: Source, p: U32, r: U32) {
    p > 0 && (r in Roots(src.f, p) || (r == PROJECTIVE_ROOT && Dvd(p, Leading(src))))
  }

  lemma EntriesExact(p: U32, src: Source, scale: U8)
    requires RootFinderOk(src) && IsPrime(p) && src.rootsOf(p).Some?
    ensures AlgebraicOk(Entries(p, src, scale))
    ensures forall a :: a in Entries(p, src, scale) ==> a.p == p
    ensures forall r: U32 :: AlgebraicPrime(p, r, src.logOf(p, scale), 1) in Entries(p, src, scale) <==> IsEntry(src, p, r)
  {
    hide IsPrime;
    hide Eval;
    assert p >= 2 by { PrimeIsBig(p); }
    var roots := src.rootsOf(p).value;
    var logP := src.logOf(p, scale);
    assert RootsAnswer(src.rootsOf(p), src.f, p);
    var es := Entries(p, src, scale);
    forall i | 0 <= i < |roots| ensures roots[i] < p && es[i] == AlgebraicPrime(p, roots[i], logP, 1) {
      assert roots[i] in roots;
    }
    forall r: U32 ensures AlgebraicPrime(p, r, logP, 1) in es <==> IsEntry(src, p, r) {
      if r in roots {
        var i :| 0 <= i < |roots| && roots[i] == r;
        assert es[i] == AlgebraicPrime(p, r, logP, 1);
      }
    }
  }

  lemma {:induction false} FlatExact(primes: seq<U32>, src: Source, scale: U8)
    requires RootFinderOk(src) && Ascending(primes) && AllFound(primes, src)
    ensures AlgebraicOk(Flat(primes, src, scale))
    ensures forall a :: a in Flat(primes, src, scale) ==> a.p in primes
    ensures forall p, r: U32 :: p in primes ==>
      (AlgebraicPrime(p, r, src.logOf(p, scale), 1) in Flat(primes, src, scale) <==> IsEntry(src, p, r))
  {
    hide IsPrime;
    hide RootFinderOk;
    hide Entries;
    hide IsEntry;
    if |primes| > 0 {
      var init, last := primes[..|primes| - 1], primes[|primes| - 1];
      FlatExact(init, src, scale);
      EntriesExact(last, src, scale);
      assert last !in init;
      AlgebraicOkConcat(Flat(init, src, scale), Entries(last, src, scale));
      assert primes == init + [last];
      hide Flat;
      hide AlgebraicOk;
      assert Flat(primes, src, scale) == Flat(init, src, scale) + Entries(last, src, scale) by { FlatLast(primes, src, scale); }
    }
  }

  lemma FlatLast(primes: seq<U32>, src: Source, scale: U8)
    requires |primes| > 0
    ensures Flat(primes, src, scale)
         == Flat(primes[..|primes| - 1], src, scale) + Entries(primes[|primes| - 1], src, scale)
  {
  }

  lemma AlgebraicOkConcat(s: seq<AlgebraicPrime>, t: seq<AlgebraicPrime>)
    requires AlgebraicOk(s) && AlgebraicOk(t)
    requires forall a, b :: a in s && b in t ==> a.p != b.p
    ensures AlgebraicOk(s + t)
  {
    hide IsPrime;
    forall i, j | 0 <= i < j < |s + t| ensures ((s + t)[i].p, (s + t)[i].r) != ((s + t)[j].p, (s + t)[j].r) {
      if i < |s| <= j {
        assert (s + t)[i] in s && (s + t)[j] in t;
      }
    }
  }

  lemma ListsAscend(src: Source, o: Options)
    ensures Ascending(SievePrimes(src, o) + SpecialPrimes(src, o))
    ensures Ascending(U32Primes(2, o.rationalBound, src.n))
    ensures forall p :: p in SievePrimes(src, o) <==> 2 <= p <= o.algebraicBound && Usable(p, src.n)
    ensures forall p :: p in SpecialPrimes(src, o) <==> o.algebraicBound < p <= o.specialQBound && Usable(p, src.n)
  {
    hide PrimesIn;
    PrimesInExact(2, o.algebraicBound, src.n);
    PrimesInExact(SpecialMin(o), o.specialQBound, src.n);
    PrimesInExact(2, o.rationalBound, src.n);
    SmallUnusable(src.n);
    hide IsPrime;
    RangeAscends(2, o.algebraicBound, src.n);
    RangeAscends(SpecialMin(o), o.specialQBound, src.n);
    RangeAscends(2, o.rationalBound, src.n);
    var s, t := SievePrimes(src, o), SpecialPrimes(src, o);
    forall i, j | 0 <= i < j < |s + t| ensures (s + t)[i] < (s + t)[j] {
      if i < |s| <= j {
        assert (s + t)[i] in s && (s + t)[j] in t;
      }
    }
  }

  lemma SmallUnusable(n: nat)
    ensures forall p :: Usable(p, n) ==> p >= 2
  {
  }

  lemma RangeAscends(lo: nat, hi: U32, n: nat)
    ensures Ascending(U32Primes(lo, hi, n))
  {
    hide PrimesIn;
    PrimesInExact(lo, hi, n);
    hide IsPrime;
    forall i | 0 <= i < |PrimesIn(lo, hi, n)| ensures IsPrime(PrimesIn(lo, hi, n)[i]) {
      assert PrimesIn(lo, hi, n)[i] in PrimesIn(lo, hi, n);
    }
  }

  /** Every base the builder can produce passes all of the loader's checks. */
  lemma BuiltBaseAcceptable(src: Source, o: Options)
    requires RootFinderOk(src) && Buildable(src, o)
    ensures Acceptable(BuiltBase(src, o))
  {
    hide IsPrime;
    hide Flat;
    hide PrimesIn;
    hide RootFinderOk;
    ListsAscend(src, o);
    var s, t := SievePrimes(src, o), SpecialPrimes(src, o);
    FlatAdd(s, t, src, o.logScale);
    FlatExact(s + t, src, o.logScale);
    PrimesInExact(2, o.rationalBound, src.n);
  }

  /** Every entry carries degree one and the logarithm of its prime. */
  predicate Labelled(b: Base, src: Source, scale: U8) {
    && (forall i :: 0 <= i < |b.rational| ==> b.rational[i].logP == src.logOf(b.rational[i].p, scale))
    && (forall i :: 0 <= i < |b.algebraic| ==>
          b.algebraic[i].degree == 1 && b.algebraic[i].logP == src.logOf(b.algebraic[i].p, scale))
  }

  /** The keys of a built base, and its sieving prefix. */
  lemma BuiltBaseKeys(src: Source, o: Options)
    requires RootFinderOk(src) && Buildable(src, o)
    ensures var b := BuiltBase(src, o);
      && RationalOk(b.rational) && AlgebraicOk(b.algebraic) && Labelled(b, src, o.logScale)
      && (forall p: U32 :: p in RationalKeys(b.rational) <==> p <= o.rationalBound && Usable(p, src.n))
      && (forall p: U32, r: U32 :: (p, r) in AlgebraicKeys(b.algebraic)
            <==> (p <= o.algebraicBound || p <= o.specialQBound) && Usable(p, src.n) && IsEntry(src, p, r))
      && (forall i :: 0 <= i < |b.algebraic| ==> (i < b.sieveCount <==> b.algebraic[i].p <= o.algebraicBound))
  {
    hide IsPrime;
    hide Flat;
    hide PrimesIn;
    hide RootFinderOk;
    hide IsEntry;
    hide AlgebraicOk;
    BuiltBaseAcceptable(src, o);
    BuiltBaseLabelled(src, o);
    hide RationalOk;
    hide Labelled;
    ListsAscend(src, o);
    var s, t, scale := SievePrimes(src, o), SpecialPrimes(src, o), o.logScale;
    var b := BuiltBase(src, o);
    FlatAdd(s, t, src, scale);
    FlatExact(s + t, src, scale);
    AscendingHalves(s, t);
    FlatExact(s, src, scale);
    FlatExact(t, src, scale);
    SmallUnusable(src.n);
    RationalKeysExact(src, o);
    forall i | 0 <= i < |b.algebraic| ensures i < b.sieveCount <==> b.algebraic[i].p <= o.algebraicBound {
      var fs, ft := Flat(s, src, scale), Flat(t, src, scale);
      assert b.algebraic == fs + ft;
      if i < |fs| {
        assert b.algebraic[i] == fs[i] && fs[i] in fs;
      } else {
        assert b.algebraic[i] == ft[i - |fs|] && ft[i - |fs|] in ft;
      }
    }
    forall p: U32, r: U32 ensures (p, r) in AlgebraicKeys(b.algebraic) <==> p in s + t && IsEntry(src, p, r) {
      FlatKeys(s + t, src, scale, p, r);
    }
  }

  /**
   A built base carries the bounds and the scale of the options.  It holds, each exactly once
   and in the order of the primes, the primes up to the rational bound that do not divide n,
   and for such primes up to the larger algebraic bound the roots of f and, where p divides
   the leading coefficient, the projective one; its sieving prefix is what belongs to primes
   up to the algebraic bound.
   */
  lemma BuiltBaseExact(src: Source, o: Options)
    requires RootFinderOk(src) && Buildable(src, o)
    ensures var q := BuiltBase(src, o).params;
      && q.rationalBound == o.rationalBound && q.algebraicBound == o.algebraicBound && q.logScale == o.logScale
      && q.largePrimeBound == if o.largePrimeBound == 0 then 100 * o.rationalBound else o.largePrimeBound
    ensures var s := BuiltBase(src, o).rational;
      && (forall i, j :: 0 <= i < j < |s| ==> s[i].p < s[j].p)
      && (forall i :: 0 <= i < |s| ==> s[i].logP == src.logOf(s[i].p, o.logScale))
      && (forall p: U32 :: p in RationalKeys(s) <==> p <= o.rationalBound && IsPrime(p) && src.n % p != 0)
    ensures var t := BuiltBase(src, o).algebraic;
      && (forall i, j :: 0 <= i < j < |t| ==> t[i].p <= t[j].p && (t[i].p, t[i].r) != (t[j].p, t[j].r))
      && (forall i :: 0 <= i < |t| ==> t[i].degree == 1 && t[i].logP == src.logOf(t[i].p, o.logScale))
      && (forall p: U32, r: U32 :: (p, r) in AlgebraicKeys(t) <==>
            && (p <= o.algebraicBound || p <= o.specialQBound) && IsPrime(p) && src.n % p != 0
            && ((r < p && Dvd(p, Eval(src.f, r))) || (r == 0xFFFF_FFFF && Dvd(p, src.f[|src.f| - 1]))))
    ensures var b := BuiltBase(src, o);
      && b.sieveCountSet
      && forall i :: 0 <= i < |b.algebraic| ==> (i < b.sieveCount <==> b.algebraic[i].p <= o.algebraicBound)
  {
    hide IsPrime;
    hide Eval;
    hide Flat;
    hide PrimesIn;
    BuiltBaseKeys(src, o);
    AlgebraicAscends(src, o);
    hide Buildable;
    ZeroNotPrime();
    forall p: U32, r: U32 | p > 0 && Usable(p, src.n)
      ensures IsEntry(src, p, r) <==>
        (r < p && Dvd(p, Eval(src.f, r))) || (r == 0xFFFF_FFFF && Dvd(p, src.f[|src.f| - 1]))
    {
      EntryMeans(src, p, r);
    }
    hide RootFinderOk;
    hide IsEntry;
  }

  lemma EntryMeans(src: Source, p: U32, r: U32)
    requires |src.f| > 0 && IsPrime(p)
    ensures IsEntry(src, p, r) <==>
      (r < p && Dvd(p, Eval(src.f, r))) || (r == 0xFFFF_FFFF && Dvd(p, src.f[|src.f| - 1]))
  {
    hide Eval;
    hide IsPrime;
    PrimeIsBig(p);
  }

  lemma {:induction false} FlatAscends(primes: seq<U32>, src: Source, scale: U8)
    requires Ascending(primes)
    ensures forall a :: a in Flat(primes, src, scale) ==> a.p in primes
    ensures forall i, j :: 0 <= i < j < |Flat(primes, src, scale)| ==>
      Flat(primes, src, scale)[i].p <= Flat(primes, src, scale)[j].p
  {
    hide IsPrime;
    if |primes| > 0 {
      var init, last := primes[..|primes| - 1], primes[|primes| - 1];
      FlatAscends(init, src, scale);
      EntriesOfOne(last, src, scale);
      assert primes == init + [last];
      hide Entries;
    }
  }

  lemma EntriesOfOne(p: U32, src: Source, scale: U8)
    ensures forall a :: a in Entries(p, src, scale) ==> a.p == p
  {
  }

  lemma AlgebraicAscends(src: Source, o: Options)
    requires Buildable(src, o)
    ensures var t := BuiltBase(src, o).algebraic; forall i, j :: 0 <= i < j < |t| ==> t[i].p <= t[j].p
  {
    hide IsPrime;
    hide PrimesIn;
    ListsAscend(src, o);
    hide Flat;
    FlatAdd(SievePrimes(src, o), SpecialPrimes(src, o), src, o.logScale);
    FlatAscends(SievePrimes(src, o) + SpecialPrimes(src, o), src, o.logScale);
  }

  /** The pairs of a usable prime up to the larger algebraic bound and a root of f modulo it. */
  ghost function RootPairs(src: Source, o: Options): set<(U32, U32)>
    requires |src.f| > 0
  {
    set p: U32, r: U32 |
      && 0 <= p < 0x1_0000_0000 && 0 <= r < 0x1_0000_0000
      && (p <= o.algebraicBound || p <= o.specialQBound) && IsPrime(p) && src.n % p != 0
      && ((r < p && Dvd(p, Eval(src.f, r))) || (r == 0xFFFF_FFFF && Dvd(p, src.f[|src.f| - 1]))) :: (p, r)
  }

  /** f does not vanish modulo a usable prime of at least 64 in the range. */
  ghost predicate NeverVanishes(src: Source, o: Options) {
    forall p: U32 {:trigger ZeroMod(src.f, p)} ::
      64 <= p && (p <= o.algebraicBound || p <= o.specialQBound) && IsPrime(p) && src.n % p != 0
      ==> !ZeroMod(src.f, p)
  }

  /**
   The build fails for one of three reasons: the estimates cannot be reserved, f vanishes
   modulo a usable prime of at least 64, or there are more than 2^32 - 1 entries.
   */
  lemma BuildableExactly(src: Source, o: Options)
    requires RootFinderOk(src)
    ensures Buildable(src, o) <==>
      Reservable(src, o) && NeverVanishes(src, o) && |RootPairs(src, o)| <= 0xFFFF_FFFF
  {
    hide RootFinderOk;
    hide Reservable;
    hide PrimesIn;
    hide Flat;
    hide AllFound;
    hide RootPairs;
    hide NeverVanishes;
    FoundInRange(src, o);
    if NeverVanishes(src, o) {
      EntriesCounted(src, o);
    }
  }

  lemma FoundInRange(src: Source, o: Options)
    requires RootFinderOk(src)
    ensures AllFound(SievePrimes(src, o), src) && AllFound(SpecialPrimes(src, o), src) <==> NeverVanishes(src, o)
  {
    hide IsPrime;
    hide ZeroMod;
    hide PrimesIn;
    ListsAscend(src, o);
    var s, t := SievePrimes(src, o), SpecialPrimes(src, o);
    ZeroNotPrime();
    SmallUnusable(src.n);
    FoundExactly(s + t, src);
    AllFoundAdd(s, t, src);
    hide RootFinderOk;
    hide AllFound;
    hide Ascending;
  }

  lemma AllFoundAdd(s: seq<U32>, t: seq<U32>, src: Source)
    ensures AllFound(s + t, src) <==> AllFound(s, src) && AllFound(t, src)
  {
    assert forall i :: 0 <= i < |s| ==> (s + t)[i] == s[i];
    assert forall i :: 0 <= i < |t| ==> (s + t)[|s| + i] == t[i];
  }

  lemma FoundExactly(primes: seq<U32>, src: Source)
    requires RootFinderOk(src) && Ascending(primes)
    ensures AllFound(primes, src) <==> forall p: U32 {:trigger ZeroMod(src.f, p)} :: p in primes && p >= 64 ==> !ZeroMod(src.f, p)
  {
    hide IsPrime;
    hide ZeroMod;
    hide ListsRoots;
    forall i | 0 <= i < |primes|
      ensures primes[i] > 0 && (src.rootsOf(primes[i]).None? <==> primes[i] >= 64 && ZeroMod(src.f, primes[i]))
    {
      PrimeIsBig(primes[i]);
      assert RootsAnswer(src.rootsOf(primes[i]), src.f, primes[i]);
    }
  }

  lemma {:induction false} DistinctKeys(s: seq<AlgebraicPrime>)
    requires forall i, j :: 0 <= i < j < |s| ==> (s[i].p, s[i].r) != (s[j].p, s[j].r)
    ensures |AlgebraicKeys(s)| == |s|
  {
    if |s| > 0 {
      var init, key := s[..|s| - 1], (s[|s| - 1].p, s[|s| - 1].r);
      DistinctKeys(init);
      KeysOfLast(s);
      assert key !in AlgebraicKeys(init);
      hide AlgebraicKeys;
    }
  }

  lemma KeysOfLast(s: seq<AlgebraicPrime>)
    requires |s| > 0
    ensures AlgebraicKeys(s) == AlgebraicKeys(s[..|s| - 1]) + {(s[|s| - 1].p, s[|s| - 1].r)}
  {
    var init := s[..|s| - 1];
    forall k | k in AlgebraicKeys(init) ensures k in AlgebraicKeys(s) {
      var i :| 0 <= i < |init| && (init[i].p, init[i].r) == k;
      assert (s[i].p, s[i].r) == k;
    }
  }

  lemma EntriesCounted(src: Source, o: Options)
    requires RootFinderOk(src) && AllFound(SievePrimes(src, o), src) && AllFound(SpecialPrimes(src, o), src)
    ensures |Flat(SievePrimes(src, o), src, o.logScale)| + |Flat(SpecialPrimes(src, o), src, o.logScale)|
         == |RootPairs(src, o)|
  {
    hide IsPrime;
    hide Eval;
    assert |src.f| > 0;
    hide RootFinderOk;
    hide IsEntry;
    hide PrimesIn;
    hide Flat;
    var s, t, scale := SievePrimes(src, o), SpecialPrimes(src, o), o.logScale;
    ListsAscend(src, o);
    AllFoundAdd(s, t, src);
    FlatAdd(s, t, src, scale);
    FlatExact(s + t, src, scale);
    var es := Flat(s + t, src, scale);
    DistinctKeys(es);
    SmallUnusable(src.n);
    forall p: U32, r: U32 ensures (p, r) in AlgebraicKeys(es) <==> p in s + t && IsEntry(src, p, r) {
      FlatKeys(s + t, src, scale, p, r);
    }
    hide AllFound;
    hide AlgebraicOk;
    hide Ascending;
    ZeroNotPrime();
    forall p: U32, r: U32 ensures (p, r) in AlgebraicKeys(es) <==> (p, r) in RootPairs(src, o) {
      if p > 0 && Usable(p, src.n) {
        EntryMeans(src, p, r);
      }
    }
    forall k ensures k in AlgebraicKeys(es) <==> k in RootPairs(src, o) {
      assert k == (k.0, k.1);
    }
    assert AlgebraicKeys(es) == RootPairs(src, o);
  }

  lemma BuiltBaseLabelled(src: Source, o: Options)
    requires Buildable(src, o)
    ensures Labelled(BuiltBase(src, o), src, o.logScale)
  {
    hide IsPrime;
    hide PrimesIn;
    hide Flat;
    hide Buildable;
    assert |Flat(SievePrimes(src, o), src, o.logScale)| <= MAX_COUNT by { FitsCount(src, o); }
    FlatShape(SievePrimes(src, o), src, o.logScale);
    FlatShape(SpecialPrimes(src, o), src, o.logScale);
  }

  lemma FitsCount(src: Source, o: Options)
    requires Buildable(src, o)
    ensures |Flat(SievePrimes(src, o), src, o.logScale)| <= MAX_COUNT
  {
    hide Flat;
    hide PrimesIn;
  }

  lemma AscendingHalves(s: seq<U32>, t: seq<U32>)
    requires Ascending(s + t)
    ensures Ascending(s) && Ascending(t)
  {
    hide IsPrime;
    forall i | 0 <= i < |s| ensures (s + t)[i] == s[i] {}
    forall i | 0 <= i < |t| ensures (s + t)[|s| + i] == t[i] {}
    forall i | 0 <= i < |t| ensures IsPrime(t[i]) { assert IsPrime((s + t)[|s| + i]); }
    forall i, j | 0 <= i < j < |t| ensures t[i] < t[j] { assert (s + t)[|s| + i] < (s + t)[|s| + j]; }
  }

  lemma {:induction false} FlatKeys(primes: seq<U32>, src: Source, scale: U8, p: U32, r: U32)
    requires RootFinderOk(src) && Ascending(primes) && AllFound(primes, src)
    ensures (p, r) in AlgebraicKeys(Flat(primes, src, scale)) <==> p in primes && IsEntry(src, p, r)
  {
    hide IsPrime;
    hide RootFinderOk;
    hide IsEntry;
    hide AlgebraicOk;
    FlatExact(primes, src, scale);
    FlatShape(primes, src, scale);
    hide Flat;
    var es := Flat(primes, src, scale);
    if (p, r) in AlgebraicKeys(es) {
      var i :| 0 <= i < |es| && (es[i].p, es[i].r) == (p, r);
      assert es[i] == AlgebraicPrime(p, r, src.logOf(p, scale), 1);
      assert es[i] in es;
    }
    if p in primes && IsEntry(src, p, r) {
      var i :| 0 <= i < |es| && es[i] == AlgebraicPrime(p, r, src.logOf(p, scale), 1);
      assert (es[i].p, es[i].r) == (p, r);
    }
  }

  lemma {:induction false} FlatShape(primes: seq<U32>, src: Source, scale: U8)
    ensures forall i :: 0 <= i < |Flat(primes, src, scale)| ==>
      var a := Flat(primes, src, scale)[i]; a == AlgebraicPrime(a.p, a.r, src.logOf(a.p, scale), 1)
  {
    if |primes| > 0 {
      FlatShape(primes[..|primes| - 1], src, scale);
    }
  }

  lemma RationalKeysExact(src: Source, o: Options)
    ensures forall p: U32 :: p in RationalKeys(BuiltRational(src, o)) <==> p <= o.rationalBound && Usable(p, src.n)
  {
    hide PrimesIn;
    PrimesInExact(2, o.rationalBound, src.n);
    SmallUnusable(src.n);
    hide IsPrime;
    var primes, es := U32Primes(2, o.rationalBound, src.n), BuiltRational(src, o);
    forall p: U32 ensures p in RationalKeys(es) <==> p in primes {
      if p in primes {
        var i :| 0 <= i < |primes| && primes[i] == p;
        assert es[i].p == p;
      }
      if p in RationalKeys(es) {
        var i :| 0 <= i < |es| && es[i].p == p;
        assert primes[i] == p;
      }
    }
  }

  /** What is built, saved and loaded again is the base that was built. */
  method BuildSaveLoad(src: Source, o: Options, resolved: nat, hardwareThreads: nat, host: ByteOrder, guess: nat)
    returns (back: FactorBase?)
    requires resolved > 0 && RootFinderOk(src)
    ensures back != null <==> Buildable(src, o)
    ensures back != null ==> back.Valid() && back.Contents() == BuiltBase(src, o)
  {
    hide IsPrime;
    hide Flat;
    hide RootFinderOk;
    hide Acceptable;
    var fb := Build(src, o, resolved, hardwareThreads);
    if fb == null {
      return null;
    }
    BuiltBaseAcceptable(src, o);
    back := SaveThenLoad(fb, [], host, guess);
  }
}
