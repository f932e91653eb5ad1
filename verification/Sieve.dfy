module Sieve {
  /**
   The two sieves of src/factor_base/builder.cpp (446-553): the single-threaded one and the
   segmented one, whose worker threads take segments from a shared counter and may be
   interleaved in any way, write by write.
   */

  import opened NumberTheory
  import opened Scheduling

  /** k is crossed out by a prime below limit that starts crossing at its square. */
  ghost predicate Struck(k: int, limit: int) {
    exists q :: 2 <= q < limit && Strikes(q, k)
  }

  ghost predicate Strikes(q: int, k: int) {
    IsPrime(q) && q * q <= k && Dvd(q, k)
  }

  /** Crossing out with enough primes leaves exactly the primes. */
  lemma StruckIsComposite(k: int, limit: int)
    requires k >= 2 && limit >= 0 && k < limit * limit
    ensures Struck(k, limit) <==> !IsPrime(k)
  {
    if Struck(k, limit) {
      var q :| 2 <= q < limit && Strikes(q, k);
      StrikesIsComposite(q, k);
    }
    if !IsPrime(k) {
      var q := StrikingPrime(k, limit);
    }
  }

  lemma StrikingPrime(k: int, limit: int) returns (q: int)
    requires k >= 2 && limit >= 0 && k < limit * limit && !IsPrime(k)
    ensures 2 <= q < limit && Strikes(q, k)
  {
    q := PrimeFactor(k);
    SquareBelow(q, limit, k);
  }

  lemma StrikesIsComposite(q: int, k: int)
    requires Strikes(q, k)
    ensures k >= 2 && !IsPrime(k)
  {
    MulMonotone(q, 2, q);
    assert q < k && k % q == 0;
  }

  lemma SquareBelow(q: int, limit: int, k: int)
    requires q * q <= k < limit * limit && q >= 0 && limit >= 0
    ensures q < limit
  {
    if q >= limit {
      MulMonotone(q, limit, q);
      MulMonotone(limit, limit, q);
    }
  }

  lemma StruckNext(k: int, p: int)
    requires p >= 2
    ensures Struck(k, p + 1) <==> Struck(k, p) || Strikes(p, k)
  {
  }

  // ---------- one thread ----------

  /** The multiples of p from p * p on are crossed out. */
  method CrossOut(a: array<bool>, p: nat)
    requires p >= 2
    modifies a
    ensures forall j :: 0 <= j < a.Length ==> a[j] == (old(a[j]) && !(p * p <= j && Dvd(p, j)))
  {
    hide Dvd;
    var k := p * p;
    DvdWitness(p, k, p);
    while k < a.Length
      invariant p * p <= k && Dvd(p, k)
      invariant forall j :: 0 <= j < a.Length ==> a[j] == (old(a[j]) && !(p * p <= j < k && Dvd(p, j)))
      decreases a.Length - k
    {
      a[k] := false;
      NextMultiple(p, k);
      k := k + p;
    }
  }

  lemma NextMultiple(p: int, k: int)
    requires p >= 2 && Dvd(p, k)
    ensures Dvd(p, k + p)
    ensures forall j :: k < j < k + p ==> !Dvd(p, j)
  {
    hide Dvd;
    DvdWitness(p, p, 1);
    DvdAdd(p, k, p);
    forall j | k < j < k + p ensures !Dvd(p, j) {
      if Dvd(p, j) {
        DvdAdd(p, j, k);
        var t := DvdFactor(p, j - k);
        SmallMultiple(p, t);
      }
    }
  }

  /** The single-threaded sieve, on the indices up to bound. */
  method SimpleSieve(bound: nat) returns (isPrime: array<bool>)
    ensures fresh(isPrime) && isPrime.Length == bound + 1
    ensures forall k :: 0 <= k <= bound ==> isPrime[k] == IsPrime(k)
  {
    hide Dvd;
    hide IsPrime;
    hide Struck;
    isPrime := new bool[bound + 1](_ => true);
    isPrime[0] := false;
    if bound >= 1 {
      isPrime[1] := false;
    }
    NothingStruck();
    var p := 2;
    while p * p <= bound
      invariant 2 <= p <= bound + 2
      invariant forall k :: 0 <= k <= bound ==> isPrime[k] == (k >= 2 && !Struck(k, p))
      decreases bound + 2 - p
    {
      MulMonotone(p, 2, p);
      MulMonotone(p, 1, p);
      StruckIsComposite(p, p);
      if isPrime[p] {
        CrossOut(isPrime, p);
      }
      StruckByNext(p);
      p := p + 1;
    }
    forall k | 2 <= k <= bound ensures Struck(k, p) <==> !IsPrime(k) {
      StruckIsComposite(k, p);
    }
    SmallNumbers();
  }

  lemma SmallNumbers()
    ensures forall k :: k < 2 ==> !IsPrime(k)
  {
  }

  lemma NothingStruck()
    ensures forall k :: !Struck(k, 2)
  {
  }

  lemma StruckByNext(p: int)
    requires p >= 2
    ensures forall k :: Struck(k, p + 1) <==> Struck(k, p) || (IsPrime(p) && p * p <= k && Dvd(p, k))
  {
    forall k ensures Struck(k, p + 1) <==> Struck(k, p) || (IsPrime(p) && p * p <= k && Dvd(p, k)) {
      StruckNext(k, p);
    }
  }

  // ---------- many threads ----------

  const PARALLEL_THRESHOLD := 5_000_000
  const SEGMENT_SIZE := 256 * 1024

  /** A thread between segments, crossing out with primes[used - 1] from next on, or gone. */
  datatype Worker = Idle | Marking(lo: nat, hi: nat, used: nat, next: nat) | Gone

  /** The multiples of p in lo..hi that are p * p or above, as far as position next, are crossed out. */
  ghost predicate CrossedBelow(a: seq<bool>, p: nat, lo: nat, hi: nat, next: nat)
    requires hi < |a| && p > 0
  {
    forall j :: lo <= j <= hi && j < next && p * p <= j && Dvd(p, j) ==> !a[j]
  }

  /** The small primes, all of them, up to root. */
  ghost predicate AreSmallPrimes(primes: seq<nat>, root: nat) {
    && (forall i :: 0 <= i < |primes| ==> IsPrime(primes[i]))
    && (forall q :: 2 <= q <= root && IsPrime(q) ==> q in primes)
  }

  /** What a working thread has done so far. */
  ghost predicate WorkerOk(w: Worker, a: seq<bool>, primes: seq<nat>) {
    w.Marking? ==>
      && w.used <= |primes| && w.lo <= w.hi < |a|
      && (forall i :: 0 <= i < |primes| ==> primes[i] >= 2)
      && (forall i :: 0 <= i < w.used - 1 ==> CrossedBelow(a, primes[i], w.lo, w.hi, |a|))
      && (w.used > 0 ==>
            && CrossedBelow(a, primes[w.used - 1], w.lo, w.hi, w.next)
            && primes[w.used - 1] * primes[w.used - 1] <= w.next
            && Dvd(primes[w.used - 1], w.next) && w.lo <= w.next)
      && (w.used == 0 ==> w.next == w.hi + 1)
  }

  /** Every composite in the segment is crossed out. */
  ghost predicate SegmentDone(a: seq<bool>, s: nat) {
    forall j :: s * SEGMENT_SIZE <= j < (s + 1) * SEGMENT_SIZE && j < |a| && !IsPrime(j) ==> !a[j]
  }

  ghost predicate OwnedBy(w: Worker, s: nat, size: nat) {
    w.Marking? && w.lo == s * SEGMENT_SIZE && w.hi + 1 == SegmentEnd(s, size)
  }

  function SegmentEnd(s: nat, size: nat): nat {
    if (s + 1) * SEGMENT_SIZE < size then (s + 1) * SEGMENT_SIZE else size
  }

  /** No prime is ever crossed out, and every segment handed out is finished or being worked on. */
  ghost predicate SieveInvariant(a: seq<bool>, workers: seq<Worker>, primes: seq<nat>, handedOut: nat) {
    && (forall k :: 0 <= k < |a| && IsPrime(k) ==> a[k])
    && (forall k :: 0 <= k < |a| && k < 2 ==> !a[k])
    && (forall t :: 0 <= t < |workers| ==> WorkerOk(workers[t], a, primes))
    && (forall s :: 0 <= s < handedOut ==> SegmentDone(a, s) || Working(workers, s, |a|))
  }

  ghost predicate Working(workers: seq<Worker>, s: nat, size: nat) {
    exists t :: 0 <= t < |workers| && OwnedBy(workers[t], s, size)
  }

  /** Threads left, primes left and positions left: what the schedule uses up. */
  function Alive(w: Worker): nat { if w.Gone? then 0 else 1 }
  function PrimesLeft(w: Worker, count: nat): nat { if w.Marking? && w.used <= count then count - w.used + 1 else 0 }
  function PositionsLeft(w: Worker): nat { if w.Marking? && w.next <= w.hi then w.hi + 1 - w.next else 0 }

  function AllAlive(ws: seq<Worker>): seq<nat> { seq(|ws|, t requires 0 <= t < |ws| => Alive(ws[t])) }
  function AllPrimesLeft(ws: seq<Worker>, count: nat): seq<nat> {
    seq(|ws|, t requires 0 <= t < |ws| => PrimesLeft(ws[t], count))
  }
  function AllPositionsLeft(ws: seq<Worker>): seq<nat> {
    seq(|ws|, t requires 0 <= t < |ws| => PositionsLeft(ws[t]))
  }

  lemma MeasureUpdate(ws: seq<Worker>, t: nat, w: Worker, count: nat)
    requires t < |ws|
    ensures Sum(AllAlive(ws[t := w])) + Alive(ws[t]) == Sum(AllAlive(ws)) + Alive(w)
    ensures Sum(AllPrimesLeft(ws[t := w], count)) + PrimesLeft(ws[t], count)
         == Sum(AllPrimesLeft(ws, count)) + PrimesLeft(w, count)
    ensures Sum(AllPositionsLeft(ws[t := w])) + PositionsLeft(ws[t]) == Sum(AllPositionsLeft(ws)) + PositionsLeft(w)
  {
    SumUpdate(AllAlive(ws), t, Alive(w));
    SumUpdate(AllPrimesLeft(ws, count), t, PrimesLeft(w, count));
    SumUpdate(AllPositionsLeft(ws), t, PositionsLeft(w));
    assert AllAlive(ws[t := w]) == AllAlive(ws)[t := Alive(w)];
    assert AllPrimesLeft(ws[t := w], count) == AllPrimesLeft(ws, count)[t := PrimesLeft(w, count)];
    assert AllPositionsLeft(ws[t := w]) == AllPositionsLeft(ws)[t := PositionsLeft(w)];
  }

  /** The first multiple of p to cross out in a segment starting at lo. */
  method FirstMultiple(p: nat, lo: nat) returns (start: nat)
    requires p >= 2
    ensures Dvd(p, start) && start >= lo && start >= p * p
    ensures forall j :: lo <= j && p * p <= j && Dvd(p, j) ==> start <= j
  {
    hide Dvd;
    var pp := p * p;
    DvdWitness(p, pp, p);
    if pp >= lo {
      start := pp;
    } else {
      start := (lo + p - 1) / p * p;
      CeilingMultiple(p, lo);
      NextMultiple(p, start - p);
    }
  }

  lemma CeilingMultiple(p: int, lo: int)
    requires p >= 2 && lo >= 0
    ensures var start := (lo + p - 1) / p * p; Dvd(p, start) && Dvd(p, start - p) && lo <= start < lo + p
  {
    hide Dvd;
    var x, q := lo + p - 1, (lo + p - 1) / p;
    assert x == p * q + x % p;
    DvdWitness(p, q * p, q);
    Distribute(p, q, 1);
    DvdWitness(p, q * p - p, q - 1);
  }

  /** One action of a thread that is crossing out: a write, or the move to its next prime. */
  method MarkingStep(a: array<bool>, w: Worker, primes: seq<nat>) returns (w': Worker)
    requires w.Marking? && WorkerOk(w, a[..], primes)
    requires forall i :: 0 <= i < |primes| ==> IsPrime(primes[i])
    requires w.next <= w.hi || w.used < |primes|
    modifies a
    ensures w'.Marking? && w'.lo == w.lo && w'.hi == w.hi
    ensures WorkerOk(w', a[..], primes)
    ensures forall j :: 0 <= j < a.Length ==> a[j] == old(a[j]) || (!a[j] && j >= 2 && !IsPrime(j))
    ensures PrimesLeft(w', |primes|) < PrimesLeft(w, |primes|)
         || (PrimesLeft(w', |primes|) == PrimesLeft(w, |primes|) && PositionsLeft(w') < PositionsLeft(w))
  {
    hide Dvd;
    hide IsPrime;
    if w.next <= w.hi {
      var p := primes[w.used - 1];
      assert Strikes(p, w.next);
      StrikesIsComposite(p, w.next);
      a[w.next] := false;
      NextMultiple(p, w.next);
      w' := w.(next := w.next + p);
    } else {
      var p := primes[w.used];
      var start := FirstMultiple(p, w.lo);
      w' := w.(used := w.used + 1, next := start);
      if w.used > 0 {
        assert CrossedBelow(a[..], primes[w.used - 1], w.lo, w.hi, a.Length);
      }
    }
  }

  /** Writes only cross out composites, so what other threads have done stays done. */
  lemma WriteKeepsInvariant(a: seq<bool>, a': seq<bool>, workers: seq<Worker>, t: nat, w: Worker, primes: seq<nat>,
                            handedOut: nat)
    requires SieveInvariant(a, workers, primes, handedOut) && |a'| == |a| && t < |workers|
    requires forall j :: 0 <= j < |a| ==> a'[j] == a[j] || (!a'[j] && j >= 2 && !IsPrime(j))
    requires workers[t].Marking? && w.Marking? && w.lo == workers[t].lo && w.hi == workers[t].hi
    requires WorkerOk(w, a', primes)
    ensures SieveInvariant(a', workers[t := w], primes, handedOut)
  {
    hide Dvd;
    hide IsPrime;
    var ws := workers[t := w];
    forall u | 0 <= u < |ws| ensures WorkerOk(ws[u], a', primes) {
      if u != t {
        WorkerKept(workers[u], a, a', primes);
      }
    }
    forall s | 0 <= s < handedOut ensures SegmentDone(a', s) || Working(ws, s, |a'|) {
      if Working(workers, s, |a|) {
        var u :| 0 <= u < |workers| && OwnedBy(workers[u], s, |a|);
        assert OwnedBy(ws[u], s, |a'|);
      }
    }
  }

  lemma WorkerKept(w: Worker, a: seq<bool>, a': seq<bool>, primes: seq<nat>)
    requires WorkerOk(w, a, primes) && |a'| == |a|
    requires forall j :: 0 <= j < |a| ==> a'[j] == a[j] || !a'[j]
    ensures WorkerOk(w, a', primes)
  {
    hide Dvd;
    if w.Marking? {
      assert forall p, next :: p > 0 && CrossedBelow(a, p, w.lo, w.hi, next) ==> CrossedBelow(a', p, w.lo, w.hi, next);
    }
  }

  /** A thread that has used all primes on its segment has finished it. */
  lemma FinishSegment(a: seq<bool>, workers: seq<Worker>, t: nat, primes: seq<nat>, root: nat, handedOut: nat)
    requires SieveInvariant(a, workers, primes, handedOut) && t < |workers|
    requires AreSmallPrimes(primes, root) && |a| <= root * root + 1
    requires workers[t].Marking? && workers[t].next > workers[t].hi && workers[t].used == |primes|
    ensures SieveInvariant(a, workers[t := Idle], primes, handedOut)
  {
    hide Dvd;
    hide IsPrime;
    var w, ws := workers[t], workers[t := Idle];
    forall s | 0 <= s < handedOut ensures SegmentDone(a, s) || Working(ws, s, |a|) {
      if Working(workers, s, |a|) {
        var u :| 0 <= u < |workers| && OwnedBy(workers[u], s, |a|);
        if u == t {
          forall j | s * SEGMENT_SIZE <= j < (s + 1) * SEGMENT_SIZE && j < |a| && !IsPrime(j) ensures !a[j] {
            CompositeCrossed(w, a, primes, root, j);
          }
        } else {
          assert OwnedBy(ws[u], s, |a|);
        }
      }
    }
  }

  lemma CompositeCrossed(w: Worker, a: seq<bool>, primes: seq<nat>, root: nat, j: nat)
    requires w.Marking? && WorkerOk(w, a, primes) && w.used == |primes| && w.next > w.hi
    requires AreSmallPrimes(primes, root) && |a| <= root * root + 1
    requires w.lo <= j <= w.hi && !IsPrime(j)
    requires forall k :: 0 <= k < |a| && k < 2 ==> !a[k]
    ensures !a[j]
  {
    hide IsPrime;
    hide Dvd;
    if j >= 2 {
      var q := SmallStrikingPrime(j, root);
      StrikeSeen(w, a, primes, root, j, q);
    }
  }

  lemma SmallStrikingPrime(j: nat, root: nat) returns (q: int)
    requires 2 <= j <= root * root && !IsPrime(j)
    ensures 2 <= q <= root && Strikes(q, j)
  {
    hide IsPrime;
    Distribute(root + 1, root, 1);
    q := StrikingPrime(j, root + 1);
  }

  lemma StrikeSeen(w: Worker, a: seq<bool>, primes: seq<nat>, root: nat, j: nat, q: nat)
    requires w.Marking? && WorkerOk(w, a, primes) && w.used == |primes| && w.next > w.hi
    requires AreSmallPrimes(primes, root)
    requires w.lo <= j <= w.hi && 2 <= q <= root && Strikes(q, j)
    ensures !a[j]
  {
    hide IsPrime;
    hide Dvd;
    assert q in primes;
    var i :| 0 <= i < |primes| && primes[i] == q;
    assert CrossedBelow(a, primes[i], w.lo, w.hi, if i < w.used - 1 then |a| else w.next);
  }

  lemma TakeSegment(a: seq<bool>, workers: seq<Worker>, t: nat, primes: seq<nat>, handedOut: nat)
    requires SieveInvariant(a, workers, primes, handedOut) && t < |workers| && workers[t].Idle?
    requires forall i :: 0 <= i < |primes| ==> primes[i] >= 2
    requires handedOut * SEGMENT_SIZE < |a|
    ensures var lo, hi := handedOut * SEGMENT_SIZE, SegmentEnd(handedOut, |a|) - 1;
      SieveInvariant(a, workers[t := Marking(lo, hi, 0, hi + 1)], primes, handedOut + 1)
  {
    hide Dvd;
    hide IsPrime;
    var lo, hi := handedOut * SEGMENT_SIZE, SegmentEnd(handedOut, |a|) - 1;
    var ws := workers[t := Marking(lo, hi, 0, hi + 1)];
    assert OwnedBy(ws[t], handedOut, |a|);
    forall s | 0 <= s < handedOut ensures SegmentDone(a, s) || Working(ws, s, |a|) {
      if Working(workers, s, |a|) {
        var u :| 0 <= u < |workers| && OwnedBy(workers[u], s, |a|);
        assert OwnedBy(ws[u], s, |a|);
      }
    }
  }

  lemma Leave(a: seq<bool>, workers: seq<Worker>, t: nat, primes: seq<nat>, handedOut: nat)
    requires SieveInvariant(a, workers, primes, handedOut) && t < |workers| && workers[t].Idle?
    ensures SieveInvariant(a, workers[t := Gone], primes, handedOut)
  {
    hide Dvd;
    hide IsPrime;
    var ws := workers[t := Gone];
    forall s | 0 <= s < handedOut ensures SegmentDone(a, s) || Working(ws, s, |a|) {
      if Working(workers, s, |a|) {
        var u :| 0 <= u < |workers| && OwnedBy(workers[u], s, |a|);
        assert OwnedBy(ws[u], s, |a|);
      }
    }
  }

  lemma AllSegmentsDone(a: seq<bool>, workers: seq<Worker>, primes: seq<nat>, segments: nat)
    requires SieveInvariant(a, workers, primes, segments) && |a| <= segments * SEGMENT_SIZE
    requires forall t :: 0 <= t < |workers| ==> workers[t].Gone?
    ensures forall k :: 0 <= k < |a| ==> a[k] == IsPrime(k)
  {
    hide Dvd;
    hide IsPrime;
    forall k | 0 <= k < |a| ensures a[k] == IsPrime(k) {
      var s := k / SEGMENT_SIZE;
      assert s * SEGMENT_SIZE <= k < (s + 1) * SEGMENT_SIZE;
      assert s < segments && !Working(workers, s, |a|);
      assert SegmentDone(a, s);
    }
  }

  method SmallPrimes(root: nat) returns (primes: seq<nat>)
    requires root >= 1
    ensures AreSmallPrimes(primes, root)
  {
    hide IsPrime;
    var small := SimpleSieve(root);
    primes := [];
    var p := 2;
    while p <= root
      invariant 2 <= p <= root + 1
      invariant forall i :: 0 <= i < |primes| ==> IsPrime(primes[i])
      invariant forall q :: 2 <= q < p && IsPrime(q) ==> q in primes
      decreases root + 1 - p
    {
      if small[p] {
        primes := primes + [p];
      }
      p := p + 1;
    }
  }

  /** What a thread does when it is scheduled: one access to the marks or to the counter. */
  method WorkerTurn(a: array<bool>, workers: seq<Worker>, t: nat, primes: seq<nat>, ghost root: nat, handedOut: nat,
                    segments: nat) returns (w: Worker, handedOut': nat)
    requires t < |workers| && !workers[t].Gone? && SieveInvariant(a[..], workers, primes, handedOut)
    requires AreSmallPrimes(primes, root) && a.Length <= root * root + 1
    requires handedOut <= segments && forall s: nat :: s < segments ==> s * SEGMENT_SIZE < a.Length
    modifies a
    ensures SieveInvariant(a[..], workers[t := w], primes, handedOut')
    ensures handedOut <= handedOut' <= segments && (w.Gone? ==> handedOut' == segments)
    ensures Decreased(workers[t], handedOut, w, handedOut', |primes|)
  {
    hide Dvd;
    hide IsPrime;
    hide SieveInvariant;
    hide WorkerOk;
    handedOut' := handedOut;
    w := workers[t];
    SmallPrimesAreBig(primes, root);
    if w.Idle? {
      if handedOut >= segments {
        Leave(a[..], workers, t, primes, handedOut);
        w := Gone;
      } else {
        TakeSegment(a[..], workers, t, primes, handedOut);
        var lo, hi := handedOut * SEGMENT_SIZE, SegmentEnd(handedOut, a.Length) - 1;
        w := Marking(lo, hi, 0, hi + 1);
        handedOut' := handedOut + 1;
      }
    } else {
      WorkerIsOk(a[..], workers, t, primes, handedOut);
      if w.next > w.hi && w.used == |primes| {
        FinishSegment(a[..], workers, t, primes, root, handedOut);
        w := Idle;
      } else {
        ghost var marks := a[..];
        w := MarkingStep(a, w, primes);
        WriteKeepsInvariant(marks, a[..], workers, t, w, primes, handedOut);
      }
    }
  }

  ghost predicate Decreased(w: Worker, handedOut: nat, w': Worker, handedOut': nat, count: nat) {
    || Alive(w') + handedOut < Alive(w) + handedOut'
    || (&& Alive(w') == Alive(w) && handedOut' == handedOut
        && (|| PrimesLeft(w', count) < PrimesLeft(w, count)
            || (PrimesLeft(w', count) == PrimesLeft(w, count) && PositionsLeft(w') < PositionsLeft(w))))
  }

  lemma SmallPrimesAreBig(primes: seq<nat>, root: nat)
    requires AreSmallPrimes(primes, root)
    ensures forall i :: 0 <= i < |primes| ==> primes[i] >= 2
  {
  }

  /** The segmented sieve; root stands for the rounded square root plus one. */
  method SegmentedSieve(bound: nat, root: nat, hardwareThreads: nat) returns (result: array<bool>)
    requires bound >= 1 && root * root >= bound
    ensures fresh(result) && result.Length == bound + 1
    ensures forall k :: 0 <= k <= bound ==> result[k] == IsPrime(k)
  {
    hide Dvd;
    hide IsPrime;
    var primes := SmallPrimes(root) by {
      assert root >= 1;
    }
    var a := new bool[bound + 1](_ => true);
    a[0], a[1] := false, false;
    CrossOutSegments(a, primes, root, hardwareThreads);
    result := new bool[a.Length];
    for i := 0 to a.Length
      invariant forall k :: 0 <= k < i ==> result[k] == a[k]
      invariant forall k :: 0 <= k < a.Length ==> a[k] == IsPrime(k)
    {
      result[i] := a[i];
    }
  }

  method CrossOutSegments(a: array<bool>, primes: seq<nat>, ghost root: nat, hardwareThreads: nat)
    requires a.Length > 0 && forall k :: 0 <= k < a.Length ==> a[k] == (k >= 2)
    requires AreSmallPrimes(primes, root) && a.Length <= root * root + 1
    modifies a
    ensures forall k :: 0 <= k < a.Length ==> a[k] == IsPrime(k)
  {
    hide Dvd;
    hide IsPrime;
    hide SieveInvariant;
    hide WorkerOk;
    hide PrimesLeft;
    hide PositionsLeft;
    hide Alive;
    hide AreSmallPrimes;
    var segments := a.Length / SEGMENT_SIZE + if a.Length % SEGMENT_SIZE != 0 then 1 else 0;
    SegmentsCover(a.Length, segments);
    var threads := if hardwareThreads == 0 then 4 else hardwareThreads;
    threads := if threads > segments then segments else threads;
    var workers := seq(threads, _ => Idle);
    var handedOut := 0;
    StartSieve(a[..], workers, primes);
    while exists t :: 0 <= t < |workers| && !workers[t].Gone?
      invariant |workers| == threads && handedOut <= segments
      invariant SieveInvariant(a[..], workers, primes, handedOut)
      invariant forall t :: 0 <= t < |workers| && workers[t].Gone? ==> handedOut == segments
      decreases segments - handedOut + Sum(AllAlive(workers)), Sum(AllPrimesLeft(workers, |primes|)),
                Sum(AllPositionsLeft(workers))
    {
      var t :| 0 <= t < |workers| && !workers[t].Gone?;
      var w, h := WorkerTurn(a, workers, t, primes, root, handedOut, segments);
      MeasureUpdate(workers, t, w, |primes|);
      workers, handedOut := workers[t := w], h;
    }
    assert workers[0].Gone?;
    AllSegmentsDone(a[..], workers, primes, segments);
  }

  lemma SegmentsCover(size: nat, segments: nat)
    requires segments == size / SEGMENT_SIZE + if size % SEGMENT_SIZE != 0 then 1 else 0
    ensures size <= segments * SEGMENT_SIZE && (size > 0 ==> segments > 0)
    ensures forall s: nat :: s < segments ==> s * SEGMENT_SIZE < size
  {
  }

  lemma StartSieve(a: seq<bool>, workers: seq<Worker>, primes: seq<nat>)
    requires forall k :: 0 <= k < |a| ==> a[k] == (k >= 2)
    requires forall t :: 0 <= t < |workers| ==> workers[t].Idle?
    ensures SieveInvariant(a, workers, primes, 0)
  {
  }

  lemma WorkerIsOk(a: seq<bool>, workers: seq<Worker>, t: nat, primes: seq<nat>, handedOut: nat)
    requires SieveInvariant(a, workers, primes, handedOut) && t < |workers| && workers[t].Marking?
    ensures WorkerOk(workers[t], a, primes) && workers[t].used <= |primes|
  {
  }

  /** The dispatcher: the caller cannot tell which of the two sieves answered. */
  method EratosthenesSieve(bound: nat, parallel: bool, root: nat, hardwareThreads: nat) returns (isPrime: array<bool>)
    requires root * root >= bound
    ensures fresh(isPrime) && isPrime.Length == bound + 1
    ensures forall k :: 0 <= k <= bound ==> isPrime[k] == IsPrime(k)
  {
    hide IsPrime;
    if !parallel || bound < PARALLEL_THRESHOLD {
      isPrime := SimpleSieve(bound);
    } else {
      isPrime := SegmentedSieve(bound, root, hardwareThreads);
    }
  }
}
