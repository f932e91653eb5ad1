module CampaignEvidence {
  /**
   What the campaign of scripts/run_50d_route_campaign.py computes from its slots (608-612,
   987-1103, 1329-1408, 1656-1674): schedule, identity, stability and budget.  Parsing a
   route record, its contract and the digest are fixed but arbitrary functions.
   */

  import opened Optional
  import opened NumberTheory
  import opened Sorting
  import opened ByteEncoding

  datatype Route = Legacy | Structured

  /** A parsed route record: the identity fields, the stability fields, and what the budget reads. */
  datatype Fields = Fields(identity: seq<string>, stable: seq<string>, signedDelta: int, wallMs: U64,
                           rssBackend: string, rssSupported: bool, peakRss: U64, nonzeros: U64)

  /** The deterministic checks: record parser, route contract and digest. */
  datatype Checks = Checks(parse: string -> Option<Fields>, contract: (Fields, Route) -> bool,
                           digest: seq<string> -> string)

  datatype Lifecycle = Cleaned | Retained

  datatype Slot = Slot(ordinal: nat, route: Route, sampleOrdinal: nat, pass: bool, elapsedMs: int,
                       record: Option<string>, fields: Option<Fields>, digest: Option<string>,
                       lifecycle: Lifecycle, failure: Option<string>)

  // ---------- the schedule ----------

  const CYCLE: seq<Route> := [Legacy, Structured, Structured, Legacy, Structured, Legacy, Legacy, Structured]

  function CampaignOrder(samples: nat): (order: seq<Route>)
    ensures |order| == 2 * samples
  {
    seq(2 * samples, i requires 0 <= i < 2 * samples => CYCLE[i % 8])
  }

  /** Place i runs the legacy route exactly when i mod 8 has an even number of binary ones. */
  lemma ScheduleByBits(samples: nat, i: nat)
    requires i < 2 * samples
    ensures CampaignOrder(samples)[i] == if (i % 2 + i / 2 % 2 + i / 4 % 2) % 2 == 0 then Legacy else Structured
  {
    PlaceInOrder(samples, i);
    hide CampaignOrder;
    var r := i % 8;
    BitsOf(i / 8, r, i);
    assert r == 0 || r == 1 || r == 2 || r == 3 || r == 4 || r == 5 || r == 6 || r == 7;
  }

  lemma BitsOf(q: nat, r: nat, i: nat)
    requires i == 8 * q + r && r < 8
    ensures i % 2 == r % 2 && i / 2 % 2 == r / 2 % 2 && i / 4 % 2 == r / 4 % 2
  {
  }

  /** How often the route occurs in the first k places. */
  function Count(order: seq<Route>, k: nat, r: Route): nat
    requires k <= |order|
  {
    if k == 0 then 0 else Count(order, k - 1, r) + if order[k - 1] == r then 1 else 0
  }

  /** Every prefix of even length holds both routes equally often. */
  lemma {:induction false} BalancedSchedule(samples: nat, n: nat)
    requires n <= samples
    ensures Count(CampaignOrder(samples), 2 * n, Legacy) == n && Count(CampaignOrder(samples), 2 * n, Structured) == n
  {
    hide CampaignOrder;
    var o := CampaignOrder(samples);
    if n > 0 {
      BalancedSchedule(samples, n - 1);
      PlaceInOrder(samples, 2 * n - 2);
      PlaceInOrder(samples, 2 * n - 1);
      PairsInCycle(n - 1);
      assert Count(o, 2 * n, Legacy) == Count(o, 2 * n - 1, Legacy) + if o[2 * n - 1] == Legacy then 1 else 0;
      assert Count(o, 2 * n, Structured) == Count(o, 2 * n - 1, Structured) + if o[2 * n - 1] == Structured then 1 else 0;
    }
  }

  lemma PlaceInOrder(samples: nat, i: nat)
    requires i < 2 * samples
    ensures CampaignOrder(samples)[i] == CYCLE[i % 8]
  {
  }

  lemma PairsInCycle(n: nat)
    ensures CYCLE[2 * n % 8] != CYCLE[(2 * n + 1) % 8]
  {
    var m := n % 4;
    assert 2 * n % 8 == 2 * m;
    assert (2 * n + 1) % 8 == 2 * m + 1;
    assert m == 0 || m == 1 || m == 2 || m == 3;
  }

  // ---------- the validator's view of a slot ----------

  predicate PassingSlot(c: Checks, s: Slot) {
    && s.record.Some? && s.fields.Some? && s.digest.Some? && s.lifecycle == Cleaned && s.failure.None?
    && c.parse(s.record.value) == s.fields
    && c.contract(s.fields.value, s.route)
    && s.digest.value == c.digest(s.fields.value.identity)
  }

  /** A failed slot keeps its evidence; its message is checked separately. */
  predicate FailedSlot(c: Checks, s: Slot) {
    && s.lifecycle == Retained && s.failure.Some? && s.digest.None?
    && (s.fields.Some? ==> s.record.Some? && c.parse(s.record.value) == s.fields)
  }

  predicate SlotInPlace(s: Slot, index: nat, order: seq<Route>)
    requires index < |order|
  {
    && s.ordinal == index && s.route == order[index]
    && s.sampleOrdinal == Count(order, index + 1, order[index])
    && s.elapsedMs >= 0
  }

  predicate ValidSlot(c: Checks, s: Slot, index: nat, order: seq<Route>, allowFailure: bool)
    requires index < |order|
  {
    && SlotInPlace(s, index, order)
    && if s.pass then PassingSlot(c, s)
       else allowFailure && FailedSlot(c, s) && s.failure.value != ""
  }

  predicate SlotsRebuild(c: Checks, slots: seq<Slot>, order: seq<Route>, allowFailure: bool) {
    |slots| <= |order| && forall i :: 0 <= i < |slots| ==> ValidSlot(c, slots[i], i, order, allowFailure)
  }

  predicate AllPass(slots: seq<Slot>) {
    forall i :: 0 <= i < |slots| ==> slots[i].pass
  }

  // ---------- identity, stability and budget ----------

  datatype Identity = Identity(values: seq<string>, sha256: string)

  /** None where the source raises: no slot, missing fields, drifting fields or digest. */
  function IdentityObject(c: Checks, slots: seq<Slot>): Option<Identity> {
    if |slots| == 0 || slots[0].fields.None? then None
    else
      var reference := slots[0].fields.value.identity;
      if forall i :: 0 <= i < |slots| ==>
           slots[i].fields.Some? && slots[i].fields.value.identity == reference
           && slots[i].digest == Some(c.digest(reference))
      then Some(Identity(reference, c.digest(reference))) else None
  }

  datatype Mismatch = Mismatch(route: Route, ordinal: nat, field: nat, expected: string, actual: string)

  datatype Stability = Stability(legacySha: string, structuredSha: string, legacyStable: bool, structuredStable: bool,
                                 mismatches: seq<Mismatch>)

  function OfRoute(slots: seq<Slot>, r: Route): seq<Slot> {
    if |slots| == 0 then []
    else OfRoute(slots[..|slots| - 1], r) + if slots[|slots| - 1].route == r then [slots[|slots| - 1]] else []
  }

  function FieldAt(f: Fields, k: nat): string {
    if k < |f.stable| then f.stable[k] else ""
  }

  function Value(s: Slot, k: nat): string {
    if s.fields.Some? then FieldAt(s.fields.value, k) else ""
  }

  /** The fields below k in which slot s differs from the reference. */
  function FieldMismatches(r: Route, s: Slot, reference: seq<string>, k: nat): seq<Mismatch>
    requires k <= |reference|
  {
    if k == 0 then []
    else
      var here := if Value(s, k - 1) == reference[k - 1] then []
                  else [Mismatch(r, s.ordinal, k - 1, reference[k - 1], Value(s, k - 1))];
      FieldMismatches(r, s, reference, k - 1) + here
  }

  function SlotMismatches(r: Route, slots: seq<Slot>, reference: seq<string>): seq<Mismatch> {
    if |slots| == 0 then []
    else
      var last := FieldMismatches(r, slots[|slots| - 1], reference, |reference|);
      SlotMismatches(r, slots[..|slots| - 1], reference) + last
  }

  predicate HaveFields(slots: seq<Slot>) {
    |slots| > 0 && forall i :: 0 <= i < |slots| ==> slots[i].fields.Some?
  }

  function FieldsOf(slots: seq<Slot>): (fs: seq<Fields>)
    requires HaveFields(slots)
    ensures |fs| == |slots|
  {
    seq(|slots|, i requires 0 <= i < |slots| => slots[i].fields.value)
  }

  function RouteStability(c: Checks, slots: seq<Slot>): Option<Stability> {
    var legacy, structured := OfRoute(slots, Legacy), OfRoute(slots, Structured);
    if !HaveFields(legacy) || !HaveFields(structured) then None
    else
      var l, s := legacy[0].fields.value.stable, structured[0].fields.value.stable;
      var lm, sm := SlotMismatches(Legacy, legacy[1..], l), SlotMismatches(Structured, structured[1..], s);
      Some(Stability(c.digest(l), c.digest(s), lm == [], sm == [], lm + sm))
  }

  lemma {:induction false} NoFieldMismatch(r: Route, s: Slot, reference: seq<string>, k: nat)
    requires k <= |reference|
    ensures FieldMismatches(r, s, reference, k) == [] <==> forall f :: 0 <= f < k ==> Value(s, f) == reference[f]
  {
    if k > 0 {
      NoFieldMismatch(r, s, reference, k - 1);
    }
  }

  /** No mismatch is reported if and only if every sample agrees with the first in every field. */
  lemma {:induction false} StableMeansEqual(r: Route, slots: seq<Slot>, reference: seq<string>)
    ensures SlotMismatches(r, slots, reference) == []
       <==> forall i, f :: 0 <= i < |slots| && 0 <= f < |reference| ==> Value(slots[i], f) == reference[f]
  {
    if |slots| > 0 {
      var last := slots[|slots| - 1];
      StableMeansEqual(r, slots[..|slots| - 1], reference);
      NoFieldMismatch(r, last, reference, |reference|);
      assert forall i :: 0 <= i < |slots| - 1 ==> slots[..|slots| - 1][i] == slots[i];
    }
  }

  datatype BudgetStatus = Within | Exceeded | Unavailable

  datatype Budget = Budget(status: BudgetStatus, positive: nat, samples: nat, wall: Option<nat>, wallPass: bool,
                           peak: Option<nat>, peakPass: bool, nonzeros: Option<nat>, nonzerosPass: bool)

  /** Twice the median; zero for no values, which a campaign never asks for. */
  function TwiceMedian(values: seq<nat>): nat {
    var s := Sort(values);
    var m := |s| / 2;
    if |s| == 0 then 0 else if |s| % 2 == 1 then 2 * s[m] else s[m - 1] + s[m]
  }

  ghost predicate AscendingPermutation(s: seq<nat>, values: seq<nat>) {
    Ascending(s) && multiset(s) == multiset(values)
  }

  /** m is the sum of the two middle elements, which coincide when there is an odd number. */
  ghost predicate IsTwiceMedian(values: seq<nat>, m: nat) {
    |values| > 0 && exists s :: AscendingPermutation(s, values) && |s| > 0 && m == s[(|s| - 1) / 2] + s[|s| / 2]
  }

  lemma MinimumFirst(s: seq<nat>, t: seq<nat>)
    requires Ascending(s) && Ascending(t) && multiset(s) == multiset(t) && |s| > 0
    ensures |t| > 0 && s[0] <= t[0]
  {
    assert s[0] in multiset(s);
    assert t[0] in multiset(t);
    assert t[0] in multiset(s);
    var i :| 0 <= i < |s| && s[i] == t[0];
  }

  lemma {:induction false} AscendingUnique(s: seq<nat>, t: seq<nat>)
    requires Ascending(s) && Ascending(t) && multiset(s) == multiset(t)
    ensures s == t
  {
    assert |s| == |multiset(s)| == |multiset(t)| == |t|;
    if |s| > 0 {
      MinimumFirst(s, t);
      MinimumFirst(t, s);
      RestOf(s);
      RestOf(t);
      hide Ascending;
      AscendingUnique(s[1..], t[1..]);
    }
  }

  lemma RestOf(s: seq<nat>)
    requires Ascending(s) && |s| > 0
    ensures Ascending(s[1..]) && multiset(s[1..]) == multiset(s) - multiset{s[0]} && s == [s[0]] + s[1..]
  {
    assert s == [s[0]] + s[1..];
  }

  lemma MedianByOrder(values: seq<nat>, m: nat)
    requires |values| > 0
    ensures IsTwiceMedian(values, m) <==> m == TwiceMedian(values)
  {
    var s := Sort(values);
    SortFacts(values);
    hide Sort;
    hide Ascending;
    assert AscendingPermutation(s, values);
    forall t | AscendingPermutation(t, values) ensures t == s {
      AscendingUnique(t, s);
    }
  }

  lemma PairMedian(x: nat)
    ensures TwiceMedian([x, x]) == 2 * x
  {
    assert Sort([x]) == [x] by { assert [x][1..] == []; }
    assert [x, x][1..] == [x];
  }

  /** The ratio in parts per million, rounded up; None for a zero denominator. */
  function RatioPpm(numerator: nat, denominator: nat): Option<nat> {
    if denominator == 0 then None else Some((numerator * 1_000_000 + denominator - 1) / denominator)
  }

  /** The least number of parts per million that is not below the ratio. */
  lemma RatioIsCeiling(numerator: nat, denominator: nat)
    requires denominator > 0
    ensures var r := RatioPpm(numerator, denominator);
      r.Some? && numerator * 1_000_000 <= r.value * denominator < numerator * 1_000_000 + denominator
  {
    var x := numerator * 1_000_000 + denominator - 1;
    assert x == denominator * (x / denominator) + x % denominator;
  }

  predicate AtMost(r: Option<nat>, limit: nat) {
    r.Some? && r.value <= limit
  }

  lemma RatioFitsExactly(numerator: nat, denominator: nat, limit: nat)
    ensures (RatioPpm(numerator, denominator).Some? ==> RatioPpm(numerator, denominator).value <= limit)
       <==> denominator == 0 || 1_000_000 * numerator <= limit * denominator
  {
    if denominator > 0 {
      RatioIsCeiling(numerator, denominator);
      CeilingBelow(numerator * 1_000_000, denominator, RatioPpm(numerator, denominator).value, limit);
    }
  }

  lemma CeilingBelow(x: int, d: int, q: int, limit: int)
    requires d > 0 && x <= q * d < x + d
    ensures q <= limit <==> x <= limit * d
  {
    MulMonotone(d, q, limit);
    MulMonotone(d, limit, q - 1);
    Distribute(d, q, 1);
  }

  function PositiveDeltas(fs: seq<Fields>): (n: nat)
    ensures n <= |fs|
  {
    if |fs| == 0 then 0
    else PositiveDeltas(fs[..|fs| - 1]) + if fs[|fs| - 1].signedDelta > 0 then 1 else 0
  }

  function Walls(fs: seq<Fields>): (r: seq<nat>)
    ensures |r| == |fs|
  {
    seq(|fs|, i requires 0 <= i < |fs| => fs[i].wallMs)
  }

  function Peaks(fs: seq<Fields>): (r: seq<nat>)
    ensures |r| == |fs|
  {
    seq(|fs|, i requires 0 <= i < |fs| => fs[i].peakRss)
  }

  function Nonzeros(fs: seq<Fields>): (r: seq<nat>)
    ensures |r| == |fs|
  {
    seq(|fs|, i requires 0 <= i < |fs| => fs[i].nonzeros)
  }

  /** One backend everywhere, a usable one, and peak values in every record. */
  predicate RssSupported(fs: seq<Fields>) {
    |fs| > 0 &&
    var backend := fs[0].rssBackend;
    && backend != "unsupported" && backend != "unobserved"
    && forall i :: 0 <= i < |fs| ==> fs[i].rssBackend == backend && fs[i].rssSupported
  }

  function BudgetOf(legacy: seq<Fields>, structured: seq<Fields>, stable: bool): Budget {
    var positive := PositiveDeltas(structured);
    var wall := RatioPpm(TwiceMedian(Walls(structured)), TwiceMedian(Walls(legacy)));
    var supported := RssSupported(legacy + structured);
    var peak := if supported then RatioPpm(TwiceMedian(Peaks(structured)), TwiceMedian(Peaks(legacy))) else None;
    var nonzeros := RatioPpm(TwiceMedian(Nonzeros(structured)), TwiceMedian(Nonzeros(legacy)));
    var wallPass, peakPass, nonzerosPass :=
      AtMost(wall, 1_200_000), AtMost(peak, 1_600_000), AtMost(nonzeros, 30_000_000);
    var all := stable && positive == |structured| && wallPass && peakPass && nonzerosPass;
    Budget(if all then Within else if !supported then Unavailable else Exceeded,
           positive, |structured|, wall, wallPass, peak, peakPass, nonzeros, nonzerosPass)
  }

  // ---------- what a passing budget says about the records ----------

  /** The ratio of the medians is at most `limit` parts per million. */
  ghost predicate WithinLimit(numerator: seq<nat>, denominator: seq<nat>, limit: nat) {
    forall n: nat, d: nat :: IsTwiceMedian(numerator, n) && IsTwiceMedian(denominator, d) ==> d > 0 && 1_000_000 * n <= limit * d
  }

  lemma WithinLimitExactly(numerator: seq<nat>, denominator: seq<nat>, limit: nat)
    requires |numerator| > 0 && |denominator| > 0
    ensures WithinLimit(numerator, denominator, limit)
       <==> AtMost(RatioPpm(TwiceMedian(numerator), TwiceMedian(denominator)), limit)
  {
    hide TwiceMedian;
    hide IsTwiceMedian;
    var n, d := TwiceMedian(numerator), TwiceMedian(denominator);
    MedianByOrder(numerator, n);
    MedianByOrder(denominator, d);
    forall x: nat | IsTwiceMedian(numerator, x) ensures x == n {
      MedianByOrder(numerator, x);
    }
    forall x: nat | IsTwiceMedian(denominator, x) ensures x == d {
      MedianByOrder(denominator, x);
    }
    RatioFitsExactly(n, d, limit);
  }

  /** All records name the same usable backend, and all have peak values. */
  ghost predicate OneBackend(fs: seq<Fields>) {
    && (forall i, j :: 0 <= i < j < |fs| ==> fs[i].rssBackend == fs[j].rssBackend)
    && (forall i :: 0 <= i < |fs| ==>
          fs[i].rssSupported && fs[i].rssBackend != "unsupported" && fs[i].rssBackend != "unobserved")
  }

  /** What the records must be like for the budget to be met. */
  ghost predicate BudgetMet(legacy: seq<Fields>, structured: seq<Fields>) {
    && (forall i :: 0 <= i < |structured| ==> structured[i].signedDelta > 0)
    && OneBackend(legacy + structured)
    && WithinLimit(seq(|structured|, i requires 0 <= i < |structured| => structured[i].wallMs),
                   seq(|legacy|, i requires 0 <= i < |legacy| => legacy[i].wallMs), 1_200_000)
    && WithinLimit(seq(|structured|, i requires 0 <= i < |structured| => structured[i].peakRss),
                   seq(|legacy|, i requires 0 <= i < |legacy| => legacy[i].peakRss), 1_600_000)
    && WithinLimit(seq(|structured|, i requires 0 <= i < |structured| => structured[i].nonzeros),
                   seq(|legacy|, i requires 0 <= i < |legacy| => legacy[i].nonzeros), 30_000_000)
  }

  lemma {:induction false} DeltasCounted(fs: seq<Fields>)
    ensures PositiveDeltas(fs) == |set i | 0 <= i < |fs| && fs[i].signedDelta > 0|
  {
    var all := set i | 0 <= i < |fs| && fs[i].signedDelta > 0;
    if |fs| > 0 {
      var n := |fs| - 1;
      var init := fs[..n];
      DeltasCounted(init);
      var before := set i | 0 <= i < |init| && init[i].signedDelta > 0;
      assert all == before + if fs[n].signedDelta > 0 then {n} else {};
    } else {
      assert all == {};
    }
  }

  lemma {:induction false} AllPositive(fs: seq<Fields>)
    ensures PositiveDeltas(fs) == |fs| <==> forall i :: 0 <= i < |fs| ==> fs[i].signedDelta > 0
  {
    if |fs| > 0 {
      AllPositive(fs[..|fs| - 1]);
      assert forall i :: 0 <= i < |fs| - 1 ==> fs[..|fs| - 1][i] == fs[i];
    }
  }

  lemma BackendExactly(fs: seq<Fields>)
    requires |fs| > 0
    ensures RssSupported(fs) <==> OneBackend(fs)
  {
  }

  /** The budget passes exactly when the records meet it; it is unavailable when peaks are missing. */
  lemma BudgetExactly(legacy: seq<Fields>, structured: seq<Fields>, stable: bool)
    requires |legacy| > 0 && |structured| > 0
    ensures var b := BudgetOf(legacy, structured, stable);
      && (b.status == Within <==> stable && BudgetMet(legacy, structured))
      && (b.status == Unavailable <==> b.status != Within && !OneBackend(legacy + structured))
      && b.samples == |structured|
      && b.positive == |set i | 0 <= i < |structured| && structured[i].signedDelta > 0|
  {
    hide TwiceMedian;
    hide RatioPpm;
    hide RssSupported;
    hide OneBackend;
    hide WithinLimit;
    hide AtMost;
    DeltasCounted(structured);
    AllPositive(structured);
    BackendExactly(legacy + structured);
    WithinLimitExactly(Walls(structured), Walls(legacy), 1_200_000);
    WithinLimitExactly(Peaks(structured), Peaks(legacy), 1_600_000);
    WithinLimitExactly(Nonzeros(structured), Nonzeros(legacy), 30_000_000);
    assert !AtMost(None, 1_600_000) by { NoneNotAtMost(1_600_000); }
  }

  lemma NoneNotAtMost(limit: nat)
    ensures !AtMost(None, limit)
  {
  }

  function DirectionalBudget(slots: seq<Slot>, stability: Stability): Option<Budget> {
    var legacy, structured := OfRoute(slots, Legacy), OfRoute(slots, Structured);
    if !HaveFields(legacy) || !HaveFields(structured) then None
    else Some(BudgetOf(FieldsOf(legacy), FieldsOf(structured), stability.legacyStable && stability.structuredStable))
  }

  // ---------- what can be reported in 64 bits ----------

  const UINT64_MAX: nat := 0xFFFF_FFFF_FFFF_FFFF

  predicate Fits64(r: Option<nat>) {
    r.Some? ==> r.value <= UINT64_MAX
  }

  /** The ratios a budget reports can be read back as 64-bit numbers. */
  predicate RatiosFit(budget: Option<Budget>) {
    budget.Some? ==> Fits64(budget.value.wall) && Fits64(budget.value.peak) && Fits64(budget.value.nonzeros)
  }

  /** A ratio of medians in parts per million stays below 2^64, or has no value at all. */
  predicate Reportable(numerator: seq<nat>, denominator: seq<nat>) {
    || TwiceMedian(denominator) == 0
    || 1_000_000 * TwiceMedian(numerator) <= UINT64_MAX * TwiceMedian(denominator)
  }

  /** What the records must be like for all reported ratios to fit. */
  predicate ReportableRecords(legacy: seq<Fields>, structured: seq<Fields>) {
    && Reportable(Walls(structured), Walls(legacy))
    && Reportable(Nonzeros(structured), Nonzeros(legacy))
    && (RssSupported(legacy + structured) ==> Reportable(Peaks(structured), Peaks(legacy)))
  }

  lemma RatiosFitExactly(legacy: seq<Fields>, structured: seq<Fields>, stable: bool)
    ensures RatiosFit(Some(BudgetOf(legacy, structured, stable))) <==> ReportableRecords(legacy, structured)
  {
    hide TwiceMedian;
    hide RatioPpm;
    hide RssSupported;
    RatioFitsExactly(TwiceMedian(Walls(structured)), TwiceMedian(Walls(legacy)), UINT64_MAX);
    RatioFitsExactly(TwiceMedian(Peaks(structured)), TwiceMedian(Peaks(legacy)), UINT64_MAX);
    RatioFitsExactly(TwiceMedian(Nonzeros(structured)), TwiceMedian(Nonzeros(legacy)), UINT64_MAX);
  }

  /** Every record agrees with the first one in the fields the first one has. */
  predicate AgreeWithFirst(fs: seq<Fields>) {
    forall i, k :: 0 <= i < |fs| && 0 <= k < |fs[0].stable| ==>
      (if k < |fs[i].stable| then fs[i].stable[k] else "") == fs[0].stable[k]
  }

  /** No mismatch is found exactly when all records of both routes agree with the first of their route. */
  lemma StabilityExactly(c: Checks, slots: seq<Slot>)
    requires RouteStability(c, slots).Some?
    ensures var s := RouteStability(c, slots).value;
      var legacy, structured := FieldsOf(OfRoute(slots, Legacy)), FieldsOf(OfRoute(slots, Structured));
      && (s.mismatches == [] <==> AgreeWithFirst(legacy) && AgreeWithFirst(structured))
      && (s.mismatches == [] ==> s.legacyStable && s.structuredStable)
  {
    hide SlotMismatches;
    hide OfRoute;
    RouteAgrees(OfRoute(slots, Legacy), Legacy);
    RouteAgrees(OfRoute(slots, Structured), Structured);
  }

  lemma RouteAgrees(slots: seq<Slot>, r: Route)
    requires HaveFields(slots)
    ensures SlotMismatches(r, slots[1..], slots[0].fields.value.stable) == [] <==> AgreeWithFirst(FieldsOf(slots))
  {
    hide SlotMismatches;
    var reference, fs := slots[0].fields.value.stable, FieldsOf(slots);
    StableMeansEqual(r, slots[1..], reference);
    assert forall i, k :: 0 <= i < |slots| ==> Value(slots[i], k) == FieldAt(fs[i], k);
    if SlotMismatches(r, slots[1..], reference) == [] {
      forall i, k | 0 <= i < |fs| && 0 <= k < |reference| ensures FieldAt(fs[i], k) == reference[k] {
        if i > 0 {
          assert slots[1..][i - 1] == slots[i];
          assert Value(slots[1..][i - 1], k) == reference[k];
        }
      }
    }
    if AgreeWithFirst(fs) {
      forall i, k | 0 <= i < |slots[1..]| && 0 <= k < |reference| ensures Value(slots[1..][i], k) == reference[k] {
        assert fs[0].stable == reference && slots[1..][i] == slots[i + 1];
        assert FieldAt(fs[i + 1], k) == fs[0].stable[k];
      }
    }
  }

  predicate SameIdentity(fs: seq<Fields>) {
    forall i :: 0 <= i < |fs| ==> fs[i].identity == fs[0].identity
  }

  /** Passing slots have one identity exactly when their records do. */
  lemma IdentityExactly(c: Checks, slots: seq<Slot>)
    requires HaveFields(slots)
    requires forall i :: 0 <= i < |slots| ==> slots[i].digest == Some(c.digest(slots[i].fields.value.identity))
    ensures IdentityObject(c, slots).Some? <==> SameIdentity(FieldsOf(slots))
  {
    var fs := FieldsOf(slots);
    assert forall i :: 0 <= i < |slots| ==> fs[i] == slots[i].fields.value;
    if IdentityObject(c, slots).Some? {
      assert forall i :: 0 <= i < |slots| ==> slots[i].fields.value.identity == slots[0].fields.value.identity;
    }
  }
}
