module Campaign {
  /**
   The benchmark campaign driver and its separate validators (scripts/run_50d_route_campaign.py
   1105-1300, 1389-1551, 1677-2075).
   */

  import opened Optional
  import opened CampaignEvidence

  // ---------- documents and their summary ----------

  /**
   The frozen parameters; the flags stand for textual checks on provenance, host and thread
   count.  All but the check of the host are made before the first slot: the driver runs on every
   POSIX host, the validators know only two of them.
   */
  datatype Config = Config(samples: nat, batchWorkers: nat, timeoutS: nat, provenanceOk: bool, hostOk: bool, threadsOk: bool)

  const UINT32_MAX: nat := 0xFFFF_FFFF

  predicate ConfigOk(cfg: Config) {
    && 2 <= cfg.samples <= 9 && 1 <= cfg.batchWorkers <= 4 && 0 < cfg.timeoutS <= UINT32_MAX
    && cfg.provenanceOk && cfg.threadsOk
  }

  datatype Summary = Summary(pass: bool, planned: nat, completed: nat, samples: nat, identity: Option<string>,
                             batchWorkers: nat, timeoutS: nat, stable: bool, positive: Option<nat>,
                             wall: Option<nat>, peak: Option<nat>, nonzeros: Option<nat>,
                             budget: Option<BudgetStatus>, published: bool)

  function SummaryRecord(pass: bool, cfg: Config, planned: nat, completed: nat, identity: Option<Identity>,
                         stability: Option<Stability>, budget: Option<Budget>, published: bool): Summary {
    Summary(pass, planned, completed, cfg.samples,
            if identity.Some? then Some(identity.value.sha256) else None,
            cfg.batchWorkers, cfg.timeoutS,
            stability.Some? && stability.value.legacyStable && stability.value.structuredStable,
            if budget.Some? then Some(budget.value.positive) else None,
            if budget.Some? then budget.value.wall else None,
            if budget.Some? then budget.value.peak else None,
            if budget.Some? then budget.value.nonzeros else None,
            if budget.Some? then Some(budget.value.status) else None,
            published)
  }

  /** The checks of the summary parser. */
  predicate SummaryParses(s: Summary) {
    && s.pass == s.published
    && 2 <= s.samples <= 9 && s.planned == 2 * s.samples && s.completed <= s.planned
    && 1 <= s.batchWorkers <= 4 && 0 < s.timeoutS <= UINT32_MAX
    && Fits64(s.positive) && Fits64(s.wall) && Fits64(s.peak) && Fits64(s.nonzeros)
    && (s.budget == Some(Within) ==>
          s.positive == Some(s.samples) && AtMost(s.wall, 1_200_000) && AtMost(s.peak, 1_600_000)
          && AtMost(s.nonzeros, 30_000_000))
    && (s.budget != Some(Within) && s.positive.Some? ==> s.positive.value <= s.samples)
    && (s.stable ==> s.completed == s.planned)
    && (s.pass ==> s.completed == s.planned && s.identity.Some? && s.stable && s.budget == Some(Within))
  }

  datatype Failure = Failure(stage: string, slotOrdinal: Option<nat>, code: string, message: string, directory: string)

  datatype Document = Document(pass: bool, cfg: Config, order: seq<Route>, slotsCompleted: nat, started: int,
                               completed: int, identity: Option<Identity>, slots: seq<Slot>,
                               stability: Option<Stability>, budget: Option<Budget>, failure: Option<Failure>,
                               summary: Summary)

  predicate ScheduleOk(d: Document) {
    && d.order == CampaignOrder(d.cfg.samples) && d.slotsCompleted <= |d.order| && d.completed >= d.started
  }

  function ExpectedSummary(d: Document): Summary {
    SummaryRecord(d.pass, d.cfg, |d.order|, |d.slots|, d.identity, d.stability, d.budget, d.pass)
  }

  /** The closed validator of a pass artifact. */
  predicate ValidArtifact(c: Checks, d: Document) {
    && d.pass && d.failure.None? && ConfigOk(d.cfg) && d.cfg.hostOk && ScheduleOk(d) && d.slotsCompleted == |d.order|
    && SlotsRebuild(c, d.slots, d.order, false) && |d.slots| == |d.order|
    && d.identity.Some? && d.identity == IdentityObject(c, d.slots)
    && d.stability.Some? && d.stability == RouteStability(c, d.slots)
    && d.budget.Some? && d.budget == DirectionalBudget(d.slots, d.stability.value)
    && d.stability.value.legacyStable && d.stability.value.structuredStable && d.stability.value.mismatches == []
    && d.budget.value.status == Within
    && d.summary == ExpectedSummary(d) && SummaryParses(d.summary)
  }

  /** At most one failed slot, the last; the ordinal names it, or the slot that was to come next. */
  predicate OrdinalFits(slots: seq<Slot>, planned: nat, ordinal: Option<nat>) {
    && (forall i :: 0 <= i < |slots| - 1 ==> slots[i].pass)
    && (ordinal.Some? ==> ordinal.value < planned)
    && if |slots| > 0 && !slots[|slots| - 1].pass then ordinal == Some(slots[|slots| - 1].ordinal)
       else ordinal == if |slots| < planned then Some(|slots|) else None
  }

  /** The closed validator of a failure diagnostic. */
  predicate ValidDiagnostic(c: Checks, d: Document) {
    && !d.pass && ConfigOk(d.cfg) && d.cfg.hostOk && ScheduleOk(d) && d.slotsCompleted == |d.slots|
    && SlotsRebuild(c, d.slots, d.order, true)
    && (d.identity.Some? ==> AllPass(d.slots) && d.identity == IdentityObject(c, d.slots))
    && (d.stability.Some? ==>
          |d.slots| == |d.order| && AllPass(d.slots) && d.stability == RouteStability(c, d.slots))
    && (d.budget.Some? ==> d.stability.Some? && d.budget == DirectionalBudget(d.slots, d.stability.value))
    && d.failure.Some?
    && d.failure.value.stage != "" && d.failure.value.code != "" && d.failure.value.message != ""
    && d.failure.value.directory != ""
    && OrdinalFits(d.slots, |d.order|, d.failure.value.slotOrdinal)
    && d.summary == ExpectedSummary(d) && SummaryParses(d.summary)
  }

  // ---------- the driver ----------

  datatype Error = CampaignError(message: string, stage: string, code: string, slot: Option<nat>)
                 | OsError(message: string) | Interrupted

  /** What happens in one slot, from the source check to the progress line after its commit. */
  datatype SlotEvent =
    | SourceDrift(message: string)
    | SetupFailure(message: string)
    | ProcessError(stage: string, code: string, message: string, elapsedMs: int, record: Option<string>)
    | SystemError(message: string)
    | Interrupt
    | TimedOut(elapsedMs: int)
    | NonzeroExit(elapsedMs: int, record: Option<string>)
    | Exited(elapsedMs: int, record: Option<string>, message: string, cleanup: bool, reported: bool)

  function FailedRun(ordinal: nat, route: Route, sample: nat, elapsedMs: int, record: Option<string>,
                     fields: Option<Fields>, message: string): Slot {
    Slot(ordinal, route, sample, false, if elapsedMs < 0 then 0 else elapsedMs, record, fields, None, Retained,
         Some(message))
  }

  /**
   One slot.  `message` is the text of whatever exception the event raises; a route that
   exits with zero passes when its record parses, meets its contract and is cleaned up.
   */
  method RunSlot(c: Checks, order: seq<Route>, ordinal: nat, sample: nat, event: SlotEvent)
    returns (slot: Option<Slot>, error: Option<Error>)
    requires ordinal < |order| && sample == Count(order, ordinal + 1, order[ordinal])
    requires NonemptyCodes(event)
    ensures slot.Some? ==> SlotInPlace(slot.value, ordinal, order)
    ensures slot.Some? && slot.value.pass ==> PassingSlot(c, slot.value)
    ensures slot.Some? && !slot.value.pass ==>
      && FailedSlot(c, slot.value) && error.Some? && error.value.CampaignError?
      && error.value.slot == Some(ordinal)
      && (slot.value.failure.value == "" <==> error.value.message == "")
    ensures error.Some? && error.value.CampaignError? ==> error.value.slot == Some(ordinal)
    ensures error.Some? && error.value.CampaignError? ==> error.value.stage != "" && error.value.code != ""
    ensures slot.None? <==> event.SourceDrift? || event.SetupFailure? || event.SystemError? || event.Interrupt?
    ensures slot.Some? && slot.value.pass <==> Succeeds(c, event, order[ordinal])
    ensures slot.None? ==> error.Some?
    ensures error.None? <==> Clean(c, event, order[ordinal])
    ensures error.Some? && slot.Some? && slot.value.pass ==> error.value.OsError?
    ensures slot.Some? && slot.value.pass ==> HoldsRecord(c, slot.value, event)
    ensures error.Some? ==> Text(error.value) == EventText(c, event, order[ordinal])
  {
    var route := order[ordinal];
    slot, error := None, None;
    match event
    case SourceDrift(message) =>
      error := Some(CampaignError(message, "source", "source_drift", Some(ordinal)));
    case SetupFailure(message) =>
      error := Some(CampaignError("cannot prepare campaign slot: " + message, "slot_setup", "slot_setup_failure", Some(ordinal)));
    case ProcessError(stage, code, message, elapsedMs, record) =>
      slot := Some(FailedRun(ordinal, route, sample, elapsedMs, record, None, message));
      error := Some(CampaignError(message, stage, code, Some(ordinal)));
    case SystemError(message) =>
      error := Some(OsError(message));
    case Interrupt =>
      error := Some(Interrupted);
    case TimedOut(elapsedMs) =>
      slot := Some(FailedRun(ordinal, route, sample, elapsedMs, None, None, "timeout"));
      error := Some(CampaignError("timed out", "process", "timeout", Some(ordinal)));
    case NonzeroExit(elapsedMs, record) =>
      slot := Some(FailedRun(ordinal, route, sample, elapsedMs, record, None, "exit_code"));
      error := Some(CampaignError("exited", "process", "nonzero_exit", Some(ordinal)));
    case Exited(elapsedMs, record, message, cleanup, reported) =>
      var fields := if record.Some? then c.parse(record.value) else None;
      if record.Some? && fields.Some? && c.contract(fields.value, route) && cleanup {
        var digest := c.digest(fields.value.identity);
        slot := Some(Slot(ordinal, route, sample, true, if elapsedMs < 0 then 0 else elapsedMs, record, fields,
                          Some(digest), Cleaned, None));
        error := if reported then None else Some(OsError(message));
      } else {
        slot := Some(FailedRun(ordinal, route, sample, elapsedMs, record, fields, message));
        error := Some(CampaignError(message, "route_contract", "contract_failure", Some(ordinal)));
      }
  }

  /** The route ran to its end, left valid evidence and was cleaned up. */
  predicate Succeeds(c: Checks, event: SlotEvent, route: Route) {
    && event.Exited? && event.record.Some? && event.cleanup
    && c.parse(event.record.value).Some? && c.contract(c.parse(event.record.value).value, route)
  }

  predicate Clean(c: Checks, event: SlotEvent, route: Route) {
    Succeeds(c, event, route) && event.reported
  }

  /** The record of a slot, when the route left one that parses. */
  function Parsed(c: Checks, event: SlotEvent): Option<Fields> {
    if event.Exited? && event.record.Some? then c.parse(event.record.value) else None
  }

  /** The text of the reported error. */
  function Text(error: Error): string {
    match error
    case CampaignError(message, _, _, _) => message
    case OsError(message) => "campaign filesystem/process operation failed: " + message
    case Interrupted => "campaign interrupted by SIGINT"
  }

  /** The text of the error an event leads to. */
  function EventText(c: Checks, event: SlotEvent, route: Route): string {
    match event
    case SourceDrift(message) => message
    case SetupFailure(message) => "cannot prepare campaign slot: " + message
    case ProcessError(_, _, message, _, _) => message
    case SystemError(message) => Text(OsError(message))
    case Interrupt => Text(Interrupted)
    case TimedOut(_) => "timed out"
    case NonzeroExit(_, _) => "exited"
    case Exited(_, _, message, _, _) => if Succeeds(c, event, route) then Text(OsError(message)) else message
  }

  predicate NonemptyCodes(event: SlotEvent) {
    event.ProcessError? ==> event.stage != "" && event.code != ""
  }

  /** What can go wrong after the last slot. */
  datatype Ending = Ending(sourceDrift: Option<string>, cleanupFailure: Option<string>, publication: Option<Error>,
                           invalidated: bool)

  /** An error of the publication names its stage and code, and no slot. */
  predicate EndingOk(e: Ending) {
    e.publication.Some? && e.publication.value.CampaignError? ==>
      e.publication.value.slot.None? && e.publication.value.stage != "" && e.publication.value.code != ""
  }

  // ---------- what the inputs of a run determine ----------

  /** The first event that does not go through, or the number of events. */
  function FirstUnclean(c: Checks, events: seq<SlotEvent>, order: seq<Route>, k: nat): (n: nat)
    requires k <= |events| == |order|
    ensures k <= n <= |events| && (n < |events| ==> !Clean(c, events[n], order[n]))
    ensures forall i :: k <= i < n ==> Clean(c, events[i], order[i])
    decreases |events| - k
  {
    if k < |events| && Clean(c, events[k], order[k]) then FirstUnclean(c, events, order, k + 1) else k
  }

  /** The records of the first k slots, of the given route or of both. */
  function RecordsOf(c: Checks, events: seq<SlotEvent>, order: seq<Route>, r: Option<Route>, k: nat): seq<Fields>
    requires k <= |events| == |order|
  {
    if k == 0 then []
    else
      var last := Parsed(c, events[k - 1]);
      RecordsOf(c, events, order, r, k - 1)
      + if last.Some? && (r.None? || r.value == order[k - 1]) then [last.value] else []
  }

  /** The first error after a complete schedule, from the source check to the budget. */
  function EvaluationError(all: seq<Fields>, legacy: seq<Fields>, structured: seq<Fields>, ending: Ending): Option<string> {
    if ending.sourceDrift.Some? then ending.sourceDrift
    else if !SameIdentity(all) then Some("51-field identity drift")
    else if !AgreeWithFirst(legacy) || !AgreeWithFirst(structured) then Some("route stability drifted")
    else if BudgetOf(legacy, structured, true).status != Within then Some("directional budget")
    else None
  }

  /** The first error between a passing budget and the published artifact. */
  function PublicationError(cfg: Config, ending: Ending, started: int, artifactTime: int): Option<string> {
    if !cfg.hostOk then Some("campaign source provenance is invalid")
    else if artifactTime < started then Some("campaign artifact timestamps are reversed")
    else if ending.cleanupFailure.Some? then Some("cannot clean the staging directory: " + ending.cleanupFailure.value)
    else if ending.publication.Some? then Some(Text(ending.publication.value))
    else None
  }

  /** The text of the error a run ends with; None for a published artifact. */
  function FirstError(c: Checks, cfg: Config, order: seq<Route>, events: seq<SlotEvent>, ending: Ending, started: int,
                      artifactTime: int): Option<string>
    requires |events| == |order|
  {
    var k := FirstUnclean(c, events, order, 0);
    if k < |events| then Some(EventText(c, events[k], order[k]))
    else
      var evaluation := EvaluationError(RecordsOf(c, events, order, None, k), RecordsOf(c, events, order, Some(Legacy), k),
                                        RecordsOf(c, events, order, Some(Structured), k), ending);
      if evaluation.Some? then evaluation else PublicationError(cfg, ending, started, artifactTime)
  }

  /** The run gets as far as computing the budget. */
  predicate ReachesBudget(c: Checks, order: seq<Route>, events: seq<SlotEvent>, ending: Ending)
    requires |events| == |order|
  {
    && FirstUnclean(c, events, order, 0) == |events|
    && ending.sourceDrift.None?
    && SameIdentity(RecordsOf(c, events, order, None, |events|))
    && AgreeWithFirst(RecordsOf(c, events, order, Some(Legacy), |events|))
    && AgreeWithFirst(RecordsOf(c, events, order, Some(Structured), |events|))
  }

  /**
   What the inputs must be like for a failed run to yield a diagnostic its validator
   accepts: a host the validator knows, a clock that does not run backwards, a first error
   with a text and, when the budget is computed, ratios below 2^64.
   */
  ghost predicate Accepted(c: Checks, cfg: Config, order: seq<Route>, events: seq<SlotEvent>, ending: Ending,
                           started: int, artifactTime: int, completed: int)
    requires |events| == |order|
  {
    && cfg.hostOk && started <= completed
    && !Textless(c, cfg, order, events, ending, started, artifactTime)
    && (ReachesBudget(c, order, events, ending) ==>
          ReportableRecords(RecordsOf(c, events, order, Some(Legacy), |events|),
                            RecordsOf(c, events, order, Some(Structured), |events|)))
  }

  /** The event leaves a valid record, cleans up and reports. */
  ghost predicate Recorded(c: Checks, event: SlotEvent, route: Route) {
    event.Exited? && event.cleanup && event.reported && event.record.Some?
    && c.parse(event.record.value).Some? && c.contract(c.parse(event.record.value).value, route)
  }

  /**
   What the inputs must be like for an artifact: every slot leaves its evidence, all records
   have one identity, those of a route agree in the stability fields, the budget is met, and
   neither the provenance nor the clock nor the file system stands in the way.
   */
  ghost predicate Publishable(c: Checks, cfg: Config, order: seq<Route>, events: seq<SlotEvent>, ending: Ending,
                              started: int, artifactTime: int)
    requires |events| == |order|
  {
    && (forall i :: 0 <= i < |events| ==> Recorded(c, events[i], order[i]))
    && ending.sourceDrift.None? && ending.cleanupFailure.None? && ending.publication.None?
    && cfg.hostOk && started <= artifactTime
    && SameIdentity(RecordsOf(c, events, order, None, |events|))
    && AgreeWithFirst(RecordsOf(c, events, order, Some(Legacy), |events|))
    && AgreeWithFirst(RecordsOf(c, events, order, Some(Structured), |events|))
    && BudgetMet(RecordsOf(c, events, order, Some(Legacy), |events|), RecordsOf(c, events, order, Some(Structured), |events|))
  }

  lemma {:induction false} RecordCount(c: Checks, events: seq<SlotEvent>, order: seq<Route>, r: Route, k: nat)
    requires k <= |events| == |order| && forall i :: 0 <= i < k ==> Parsed(c, events[i]).Some?
    ensures |RecordsOf(c, events, order, Some(r), k)| == Count(order, k, r)
  {
    if k > 0 {
      RecordCount(c, events, order, r, k - 1);
    }
  }

  /** A run ends without an error exactly when its inputs are publishable. */
  lemma PublishableExactly(c: Checks, cfg: Config, order: seq<Route>, events: seq<SlotEvent>, ending: Ending,
                           started: int, artifactTime: int)
    requires ConfigOk(cfg) && order == CampaignOrder(cfg.samples) && |events| == |order|
    ensures FirstError(c, cfg, order, events, ending, started, artifactTime).None?
       <==> Publishable(c, cfg, order, events, ending, started, artifactTime)
  {
    hide CampaignOrder;
    hide RecordsOf;
    hide BudgetOf;
    hide BudgetMet;
    hide SameIdentity;
    hide AgreeWithFirst;
    hide Text;
    var n := |order|;
    var legacy, structured := RecordsOf(c, events, order, Some(Legacy), n), RecordsOf(c, events, order, Some(Structured), n);
    forall i | 0 <= i < n ensures Clean(c, events[i], order[i]) <==> Recorded(c, events[i], order[i]) {}
    if FirstUnclean(c, events, order, 0) == n {
      forall i | 0 <= i < n ensures Parsed(c, events[i]).Some? {
        assert Clean(c, events[i], order[i]);
      }
      RecordCount(c, events, order, Legacy, n);
      RecordCount(c, events, order, Structured, n);
      BalancedSchedule(cfg.samples, cfg.samples);
      BudgetExactly(legacy, structured, true);
    }
    hide Clean;
    hide Recorded;
  }

  /** The first error has no text. */
  ghost predicate Textless(c: Checks, cfg: Config, order: seq<Route>, events: seq<SlotEvent>, ending: Ending,
                           started: int, artifactTime: int)
    requires |events| == |order|
  {
    || (exists k :: 0 <= k < |events| && (forall i :: 0 <= i < k ==> Recorded(c, events[i], order[i]))
          && MessageOnly(c, events[k], order[k]))
    || ((forall i :: 0 <= i < |events| ==> Recorded(c, events[i], order[i])) && ending.sourceDrift == Some(""))
    || (ending.publication.Some? && ending.publication.value.CampaignError? && ending.publication.value.message == ""
        && Publishable(c, cfg, order, events, ending.(publication := None), started, artifactTime))
  }

  /** The event fails with a message of its own, and that is empty. */
  ghost predicate MessageOnly(c: Checks, event: SlotEvent, route: Route) {
    match event
    case SourceDrift(message) => message == ""
    case ProcessError(_, _, message, _, _) => message == ""
    case Exited(_, record, message, cleanup, _) =>
      message == "" && !(cleanup && record.Some? && c.parse(record.value).Some? && c.contract(c.parse(record.value).value, route))
    case _ => false
  }

  /** Texts are empty only where a message of the environment is reported as it is. */
  lemma TextlessExactly(c: Checks, cfg: Config, order: seq<Route>, events: seq<SlotEvent>, ending: Ending,
                        started: int, artifactTime: int)
    requires ConfigOk(cfg) && order == CampaignOrder(cfg.samples) && |events| == |order|
    ensures FirstError(c, cfg, order, events, ending, started, artifactTime) == Some("")
       <==> Textless(c, cfg, order, events, ending, started, artifactTime)
  {
    hide CampaignOrder;
    hide RecordsOf;
    hide BudgetOf;
    hide BudgetMet;
    hide SameIdentity;
    hide AgreeWithFirst;
    var n := |order|;
    PublishableExactly(c, cfg, order, events, ending.(publication := None), started, artifactTime);
    forall i | 0 <= i < n ensures Clean(c, events[i], order[i]) <==> Recorded(c, events[i], order[i]) {}
    forall i | 0 <= i < n
      ensures !Clean(c, events[i], order[i]) && EventText(c, events[i], order[i]) == "" <==> MessageOnly(c, events[i], order[i])
    {}
    var k := FirstUnclean(c, events, order, 0);
    hide Clean;
    hide Recorded;
    hide EventText;
    hide MessageOnly;
  }

  datatype Outcome = Published(artifact: Document) | Diagnosed(diagnostic: Document) | Withheld

  // ---------- what holds of the driver's state ----------

  predicate PassesInPlace(c: Checks, slots: seq<Slot>, order: seq<Route>) {
    && |slots| <= |order|
    && forall i :: 0 <= i < |slots| ==> SlotInPlace(slots[i], i, order) && slots[i].pass && PassingSlot(c, slots[i])
  }

  function NextSlot(slots: seq<Slot>, order: seq<Route>): Option<nat> {
    if |slots| < |order| then Some(|slots|) else None
  }

  /** Where the slots stand when an error reaches the outer handler. */
  predicate StoppedAt(c: Checks, slots: seq<Slot>, order: seq<Route>, active: Option<nat>, error: Error) {
    && |slots| <= |order|
    && (error.CampaignError? ==> error.stage != "" && error.code != "")
    && if AllPass(slots) then
         && PassesInPlace(c, slots, order) && active == NextSlot(slots, order)
         && (error.CampaignError? ==> error.slot == active || error.slot.None?)
       else
         var last := slots[|slots| - 1];
         && PassesInPlace(c, slots[..|slots| - 1], order)
         && SlotInPlace(last, |slots| - 1, order) && !last.pass && FailedSlot(c, last)
         && error.CampaignError? && error.slot == Some(|slots| - 1)
         && (last.failure.value == "" <==> error.message == "")
  }

  /** What has been evaluated of a complete schedule. */
  predicate Evaluated(c: Checks, slots: seq<Slot>, order: seq<Route>, identity: Option<Identity>,
                      stability: Option<Stability>, budget: Option<Budget>) {
    && (identity.Some? ==> AllPass(slots) && |slots| == |order| && identity == IdentityObject(c, slots))
    && (stability.Some? ==> identity.Some? && stability == RouteStability(c, slots))
    && (budget.Some? ==> stability.Some? && budget == DirectionalBudget(slots, stability.value))
  }

  /** The ordinal a failure is reported with. */
  function Attributed(slots: seq<Slot>, order: seq<Route>, active: Option<nat>, error: Error): Option<nat> {
    if !error.CampaignError? then active
    else if error.slot.None? && active.Some? && |slots| < |order| then active
    else error.slot
  }

  function Describe(pass: bool, cfg: Config, order: seq<Route>, started: int, completed: int, identity: Option<Identity>,
                    slots: seq<Slot>, stability: Option<Stability>, budget: Option<Budget>, failure: Option<Failure>): Document {
    Document(pass, cfg, order, |slots|, started, completed, identity, slots, stability, budget, failure,
             SummaryRecord(pass, cfg, |order|, |slots|, identity, stability, budget, pass))
  }

  class Driver {
    const checks: Checks
    const cfg: Config
    const order: seq<Route>
    var slots: seq<Slot>
    var legacyCount: nat
    var structuredCount: nat
    var identity: Option<Identity>
    var stability: Option<Stability>
    var budget: Option<Budget>
    var active: Option<nat>

    /** Nothing has been evaluated yet and every slot so far has passed. */
    predicate Running(done: nat)
      reads this
    {
      && |slots| == done && PassesInPlace(checks, slots, order) && order == CampaignOrder(cfg.samples)
      && legacyCount == Count(order, done, Legacy) && structuredCount == Count(order, done, Structured)
      && active == NextSlot(slots, order)
    }

    predicate Quiet()
      reads this
    {
      identity.None? && stability.None? && budget.None?
    }

    constructor (checks: Checks, cfg: Config)
      ensures this.checks == checks && this.cfg == cfg && Running(0) && Quiet()
    {
      this.checks, this.cfg := checks, cfg;
      order := CampaignOrder(cfg.samples);
      slots, legacyCount, structuredCount := [], 0, 0;
      identity, stability, budget := None, None, None;
      active := if 0 < |CampaignOrder(cfg.samples)| then Some(0) else None;
    }

    method RunSlots(events: seq<SlotEvent>) returns (error: Option<Error>)
      requires |events| == |order| && Running(0) && Quiet()
      requires forall i :: 0 <= i < |events| ==> NonemptyCodes(events[i])
      modifies this
      ensures Quiet() && order == CampaignOrder(cfg.samples)
      ensures error.None? ==> Running(|order|) && HoldRecords(checks, slots, events)
      ensures var k := FirstUnclean(checks, events, order, 0);
        if k < |events| then error.Some? && Text(error.value) == EventText(checks, events[k], order[k]) else error.None?
      ensures error.Some? ==> StoppedAt(checks, slots, order, active, error.value)
    {
      hide PassingSlot;
      hide FailedSlot;
      hide Succeeds;
      hide Clean;
      hide Parsed;
      hide HoldRecords;
      hide HoldsRecord;
      hide EventText;
      hide Text;
      hide FirstUnclean;
      NoRecords(checks, events);
      hide SlotInPlace;
      hide PassesInPlace;
      hide CampaignOrder;
      for ordinal := 0 to |order|
        invariant Running(ordinal) && Quiet()
        invariant forall i :: 0 <= i < ordinal ==> Clean(checks, events[i], order[i])
        invariant HoldRecords(checks, slots, events)
      {
        var route := order[ordinal];
        var sample := (if route == Legacy then legacyCount else structuredCount) + 1;
        active := Some(ordinal);
        var slot;
        slot, error := RunSlot(checks, order, ordinal, sample, events[ordinal]);
        if slot.Some? {
          AppendSlot(checks, slots, order, slot.value);
          AppendRecord(checks, slots, events, slot.value);
          slots := slots + [slot.value];
          if slot.value.pass {
            PassesAllPass(checks, slots, order);
            active := if |slots| < |order| then Some(|slots|) else None;
            if route == Legacy {
              legacyCount := sample;
            } else {
              structuredCount := sample;
            }
          }
        } else {
          PassesAllPass(checks, slots, order);
        }
        if error.Some? {
          FirstIs(checks, events, order, ordinal);
          return;
        }
      }
      AllCleanIs(checks, events, order);
      error := None;
    }

    /** Identity, stability and budget over the complete schedule, in this order. */
    method Evaluate(ending: Ending, ghost legacy: seq<Fields>, ghost structured: seq<Fields>) returns (error: Option<Error>)
      requires ConfigOk(cfg) && Running(|order|) && Quiet() && Sampled(slots, legacy, structured)
      modifies this
      ensures Running(|order|) && Evaluated(checks, slots, order, identity, stability, budget)
      ensures slots == old(slots)
      ensures var failure := EvaluationError(FieldsOf(slots), legacy, structured, ending);
        if failure.Some? then error.Some? && Text(error.value) == failure.value else error.None?
      ensures error.None? ==> budget.Some? && budget.value.status == Within && stability.value.mismatches == []
      ensures error.Some? ==> StoppedAt(checks, slots, order, active, error.value)
      ensures budget.Some? <==>
        ending.sourceDrift.None? && SameIdentity(FieldsOf(slots)) && AgreeWithFirst(legacy) && AgreeWithFirst(structured)
      ensures budget.Some? ==> budget.value == BudgetOf(legacy, structured, true)
    {
      hide PassingSlot;
      hide SlotInPlace;
      hide PassesInPlace;
      hide CampaignOrder;
      hide BudgetOf;
      hide RouteStability;
      hide IdentityObject;
      hide SameIdentity;
      hide AgreeWithFirst;
      PassesAllPass(checks, slots, order);
      PassesAgree(checks, slots, order);
      if ending.sourceDrift.Some? {
        return Some(CampaignError(ending.sourceDrift.value, "source", "source_drift", None));
      }
      identity := IdentityObject(checks, slots);
      if identity.None? {
        return Some(CampaignError("51-field identity drift", "campaign", "contract_failure", None));
      }
      StabilityFound(checks, slots, legacy, structured);
      stability := RouteStability(checks, slots);
      if stability.value.mismatches != [] {
        return Some(CampaignError("route stability drifted", "stability", "route_stability_drift", None));
      }
      budget := DirectionalBudget(slots, stability.value);
      if budget.value.status != Within {
        return Some(CampaignError("directional budget", "budget", "directional_budget_failure", None));
      }
      error := None;
    }

    /** The outer handler: invalidate, rebuild the identity if possible, and describe the failure. */
    method Diagnose(error: Error, started: int, completed: int, directory: string, invalidated: bool)
      returns (outcome: Outcome)
      requires ConfigOk(cfg) && order == CampaignOrder(cfg.samples) && directory != ""
      requires StoppedAt(checks, slots, order, active, error)
      requires Evaluated(checks, slots, order, identity, stability, budget)
      modifies this
      ensures outcome.Withheld? <==> !invalidated
      ensures !outcome.Published? && slots == old(slots) && budget == old(budget)
      ensures outcome.Diagnosed? ==>
        && outcome.diagnostic.slots == slots && outcome.diagnostic.budget == budget
        && outcome.diagnostic.failure.Some? && outcome.diagnostic.failure.value.message == Text(error)
      ensures outcome.Diagnosed? ==>
        (ValidDiagnostic(checks, outcome.diagnostic)
         <==> cfg.hostOk && started <= completed && RatiosFit(budget) && Text(error) != "")
    {
      hide StoppedAt;
      hide ValidDiagnostic;
      hide CampaignOrder;
      hide DirectionalBudget;
      hide RouteStability;
      hide IdentityObject;
      hide AllPass;
      hide Attributed;
      hide RatiosFit;
      hide SummaryRecord;
      if !invalidated {
        return Withheld;
      }
      var failure := Failure(if error.CampaignError? then error.stage else if error.OsError? then "campaign" else "process",
                             Attributed(slots, order, active, error),
                             if error.CampaignError? then error.code else if error.OsError? then "os_error" else "interrupted",
                             Text(error), directory);
      if identity.None? && |slots| > 0 && forall i :: 0 <= i < |slots| ==> slots[i].fields.Some? {
        identity := IdentityObject(checks, slots);
      }
      RecomputedIdentity(checks, slots, order, active, error);
      StoppedKind(checks, slots, order, active, error);
      var diagnostic := Describe(false, cfg, order, started, completed, identity, slots, stability, budget, Some(failure));
      Verdict(checks, diagnostic, active, error);
      outcome := Diagnosed(diagnostic);
    }

    /**
     A whole run, from the first slot to the published artifact or the diagnostic.  It ends in
     the artifact exactly when no error occurs, and which diagnostics are valid is decided by
     the inputs.
     */
    method Execute(events: seq<SlotEvent>, ending: Ending, started: int, artifactTime: int, completed: int, directory: string)
      returns (outcome: Outcome)
      requires ConfigOk(cfg) && |events| == |order| && Running(0) && Quiet() && EndingOk(ending)
      requires forall i :: 0 <= i < |events| ==> NonemptyCodes(events[i])
      requires directory != ""
      modifies this
      ensures outcome.Published? <==> FirstError(checks, cfg, order, events, ending, started, artifactTime).None?
      ensures outcome.Published? <==> Publishable(checks, cfg, order, events, ending, started, artifactTime)
      ensures outcome.Published? ==> ValidArtifact(checks, outcome.artifact)
      ensures outcome.Published? ==>
        && outcome.artifact.cfg == cfg && outcome.artifact.started == started && outcome.artifact.completed == artifactTime
        && |outcome.artifact.slots| == |events| && HoldRecords(checks, outcome.artifact.slots, events)
      ensures !outcome.Published? ==> (outcome.Withheld? <==> !ending.invalidated)
      ensures outcome.Diagnosed? ==>
        outcome.diagnostic.failure.Some?
        && FirstError(checks, cfg, order, events, ending, started, artifactTime) == Some(outcome.diagnostic.failure.value.message)
      ensures outcome.Diagnosed? ==>
        (ValidDiagnostic(checks, outcome.diagnostic)
         <==> Accepted(checks, cfg, order, events, ending, started, artifactTime, completed))
    {
      hide StoppedAt;
      hide PassesInPlace;
      hide BudgetOf;
      hide RouteStability;
      hide IdentityObject;
      hide ValidArtifact;
      hide ValidDiagnostic;
      hide RatiosFit;
      hide ReportableRecords;
      hide SameIdentity;
      hide AgreeWithFirst;
      hide EvaluationError;
      hide RecordsOf;
      hide Evaluated;
      hide CampaignOrder;
      hide Publishable;
      hide Textless;
      hide HoldRecords;
      PublishableExactly(checks, cfg, order, events, ending, started, artifactTime);
      TextlessExactly(checks, cfg, order, events, ending, started, artifactTime);
      hide FirstUnclean;
      ghost var n := |order|;
      ghost var legacy := RecordsOf(checks, events, order, Some(Legacy), n);
      ghost var structured := RecordsOf(checks, events, order, Some(Structured), n);
      var error := RunSlots(events);
      if error.None? {
        RecordsFound(checks, cfg, slots, events, order);
        error := Evaluate(ending, legacy, structured);
        if budget.Some? {
          RatiosFitExactly(legacy, structured, true);
        }
        if error.None? {
          error, outcome := Publish(ending, started, artifactTime);
          if error.None? {
            return;
          }
        }
      }
      NothingEvaluated(checks, slots, order);
      outcome := Diagnose(error.value, started, completed, directory, ending.invalidated);
    }

    /** Validation and publication of the artifact. */
    method Publish(ending: Ending, started: int, artifactTime: int) returns (error: Option<Error>, outcome: Outcome)
      requires ConfigOk(cfg) && Running(|order|) && EndingOk(ending)
      requires Evaluated(checks, slots, order, identity, stability, budget)
      requires budget.Some? && budget.value.status == Within && stability.value.mismatches == []
      ensures var failure := PublicationError(cfg, ending, started, artifactTime);
        if failure.Some? then error.Some? && Text(error.value) == failure.value else error.None?
      ensures error.None? ==> outcome.Published? && ValidArtifact(checks, outcome.artifact)
      ensures error.None? ==>
        && outcome.artifact.cfg == cfg && outcome.artifact.started == started && outcome.artifact.completed == artifactTime
        && outcome.artifact.slots == slots
      ensures error.Some? ==> StoppedAt(checks, slots, order, active, error.value)
    {
      hide PassesInPlace;
      hide StoppedAt;
      hide CampaignOrder;
      hide DirectionalBudget;
      hide RouteStability;
      hide IdentityObject;
      hide ValidArtifact;
      PassesAllPass(checks, slots, order);
      var artifact := Describe(true, cfg, order, started, artifactTime, identity, slots, stability, budget, None);
      ArtifactValidates(checks, artifact);
      outcome := Published(artifact);
      if !cfg.hostOk {
        error := Some(CampaignError("campaign source provenance is invalid", "campaign", "contract_failure", None));
      } else if artifactTime < started {
        error := Some(CampaignError("campaign artifact timestamps are reversed", "campaign", "contract_failure", None));
      } else if ending.cleanupFailure.Some? {
        error := Some(CampaignError("cannot clean the staging directory: " + ending.cleanupFailure.value, "cleanup",
                                    "staging_cleanup_failure", None));
      } else {
        error := ending.publication;
      }
      if error.Some? {
        LateError(checks, slots, order, active, error.value);
      }
    }
  }

  /** The slot holds the record of the event, its parsed fields, and the time it took. */
  predicate HoldsRecord(c: Checks, slot: Slot, event: SlotEvent) {
    && event.Exited? && slot.record == event.record && slot.fields == Parsed(c, event)
    && slot.elapsedMs == if event.elapsedMs < 0 then 0 else event.elapsedMs
  }

  predicate HoldRecords(c: Checks, slots: seq<Slot>, events: seq<SlotEvent>) {
    |slots| <= |events| && forall i :: 0 <= i < |slots| ==> HoldsRecord(c, slots[i], events[i])
  }

  lemma NoRecords(c: Checks, events: seq<SlotEvent>)
    ensures HoldRecords(c, [], events)
  {
  }

  lemma AppendRecord(c: Checks, slots: seq<Slot>, events: seq<SlotEvent>, slot: Slot)
    requires HoldRecords(c, slots, events) && |slots| < |events|
    ensures HoldsRecord(c, slot, events[|slots|]) ==> HoldRecords(c, slots + [slot], events)
  {
    hide HoldsRecord;
  }

  lemma FirstIs(c: Checks, events: seq<SlotEvent>, order: seq<Route>, k: nat)
    requires k < |events| == |order| && !Clean(c, events[k], order[k])
    requires forall i :: 0 <= i < k ==> Clean(c, events[i], order[i])
    ensures FirstUnclean(c, events, order, 0) == k
  {
    hide Clean;
  }

  lemma AllCleanIs(c: Checks, events: seq<SlotEvent>, order: seq<Route>)
    requires |events| == |order| && forall i :: 0 <= i < |events| ==> Clean(c, events[i], order[i])
    ensures FirstUnclean(c, events, order, 0) == |events|
  {
    hide Clean;
  }

  /** The slots and their routes hold these records. */
  predicate Sampled(slots: seq<Slot>, legacy: seq<Fields>, structured: seq<Fields>) {
    && HaveFields(slots) && HaveFields(OfRoute(slots, Legacy)) && HaveFields(OfRoute(slots, Structured))
    && FieldsOf(OfRoute(slots, Legacy)) == legacy && FieldsOf(OfRoute(slots, Structured)) == structured
  }

  lemma NothingEvaluated(c: Checks, slots: seq<Slot>, order: seq<Route>)
    ensures Evaluated(c, slots, order, None, None, None) && RatiosFit(None)
  {
  }

  lemma PassesAgree(c: Checks, slots: seq<Slot>, order: seq<Route>)
    requires PassesInPlace(c, slots, order) && HaveFields(slots)
    ensures IdentityObject(c, slots).Some? <==> SameIdentity(FieldsOf(slots))
  {
    hide IdentityObject;
    hide SameIdentity;
    IdentityExactly(c, slots);
  }

  lemma StabilityFound(c: Checks, slots: seq<Slot>, legacy: seq<Fields>, structured: seq<Fields>)
    requires Sampled(slots, legacy, structured)
    ensures var s := RouteStability(c, slots);
      && s.Some? && (s.value.mismatches == [] <==> AgreeWithFirst(legacy) && AgreeWithFirst(structured))
      && (s.value.mismatches == [] ==> DirectionalBudget(slots, s.value) == Some(BudgetOf(legacy, structured, true)))
  {
    hide OfRoute;
    hide SlotMismatches;
    hide AgreeWithFirst;
    hide BudgetOf;
    StabilityExactly(c, slots);
  }

  lemma {:induction false} RouteRecords(c: Checks, slots: seq<Slot>, events: seq<SlotEvent>, order: seq<Route>, r: Route, k: nat)
    requires k <= |slots| <= |events| == |order| && PassesInPlace(c, slots, order) && HoldRecords(c, slots, events)
    ensures var here := OfRoute(slots[..k], r);
      && |here| == |RecordsOf(c, events, order, Some(r), k)|
      && forall i :: 0 <= i < |here| ==> here[i].fields == Some(RecordsOf(c, events, order, Some(r), k)[i])
  {
    hide Parsed;
    if k > 0 {
      RouteRecords(c, slots, events, order, r, k - 1);
      assert slots[..k][..k - 1] == slots[..k - 1];
    }
  }

  lemma {:induction false} EveryRecord(c: Checks, slots: seq<Slot>, events: seq<SlotEvent>, order: seq<Route>, k: nat)
    requires k <= |slots| <= |events| == |order| && PassesInPlace(c, slots, order) && HoldRecords(c, slots, events)
    ensures |RecordsOf(c, events, order, None, k)| == k
    ensures forall i :: 0 <= i < k ==> slots[i].fields == Some(RecordsOf(c, events, order, None, k)[i])
  {
    hide Parsed;
    if k > 0 {
      EveryRecord(c, slots, events, order, k - 1);
    }
  }

  /** The slots of a complete schedule hold exactly the records of the inputs. */
  lemma RecordsFound(c: Checks, cfg: Config, slots: seq<Slot>, events: seq<SlotEvent>, order: seq<Route>)
    requires ConfigOk(cfg) && order == CampaignOrder(cfg.samples) && |slots| == |events| == |order|
    requires PassesInPlace(c, slots, order) && HoldRecords(c, slots, events)
    ensures Sampled(slots, RecordsOf(c, events, order, Some(Legacy), |order|), RecordsOf(c, events, order, Some(Structured), |order|))
    ensures FieldsOf(slots) == RecordsOf(c, events, order, None, |order|)
  {
    hide CampaignOrder;
    var n := |order|;
    assert slots[..n] == slots;
    RouteRecords(c, slots, events, order, Legacy, n);
    RouteRecords(c, slots, events, order, Structured, n);
    EveryRecord(c, slots, events, order, n);
    RoutesOf(c, slots, order);
    hide PassesInPlace;
    OfRouteCount(slots, order, n, Legacy);
    OfRouteCount(slots, order, n, Structured);
    BalancedSchedule(cfg.samples, cfg.samples);
    hide RecordsOf;
    hide OfRoute;
  }

  lemma RoutesOf(c: Checks, slots: seq<Slot>, order: seq<Route>)
    requires PassesInPlace(c, slots, order)
    ensures forall i :: 0 <= i < |slots| ==> slots[i].route == order[i]
  {
  }

  lemma PassesAllPass(c: Checks, slots: seq<Slot>, order: seq<Route>)
    requires PassesInPlace(c, slots, order)
    ensures AllPass(slots) && |slots| <= |order|
  {
  }

  lemma AppendSlot(c: Checks, slots: seq<Slot>, order: seq<Route>, slot: Slot)
    requires PassesInPlace(c, slots, order) && |slots| < |order| && SlotInPlace(slot, |slots|, order)
    ensures slot.pass && PassingSlot(c, slot) ==> PassesInPlace(c, slots + [slot], order)
    ensures !slot.pass ==> !AllPass(slots + [slot])
    ensures (slots + [slot])[..|slots|] == slots
  {
    hide PassingSlot;
    hide SlotInPlace;
    assert (slots + [slot])[|slots|] == slot;
  }

  /** An error after the schedule is complete names no slot. */
  lemma LateError(c: Checks, slots: seq<Slot>, order: seq<Route>, active: Option<nat>, error: Error)
    requires PassesInPlace(c, slots, order) && |slots| == |order| && active == NextSlot(slots, order)
    requires error.CampaignError? ==> error.slot.None? && error.stage != "" && error.code != ""
    ensures StoppedAt(c, slots, order, active, error)
  {
    PassesAllPass(c, slots, order);
  }

  // ---------- why the validators agree ----------

  /** An identity can only be rebuilt from passing slots. */
  lemma RecomputedIdentity(c: Checks, slots: seq<Slot>, order: seq<Route>, active: Option<nat>, error: Error)
    requires StoppedAt(c, slots, order, active, error)
    ensures IdentityObject(c, slots).Some? ==> AllPass(slots)
  {
    hide PassingSlot;
    hide SlotInPlace;
    hide PassesInPlace;
  }

  lemma StoppedRebuilds(c: Checks, slots: seq<Slot>, order: seq<Route>, active: Option<nat>, error: Error)
    requires StoppedAt(c, slots, order, active, error)
    ensures SlotsRebuild(c, slots, order, true)
       <==> AllPass(slots) || (error.CampaignError? && error.message != "")
    ensures forall i :: 0 <= i < |slots| ==> slots[i].route == order[i]
    ensures OrdinalFits(slots, |order|, Attributed(slots, order, active, error))
  {
    hide PassingSlot;
    if !AllPass(slots) {
      var n := |slots| - 1;
      assert forall i :: 0 <= i < n ==> slots[..n][i] == slots[i];
      assert ValidSlot(c, slots[n], n, order, true)
        <==> slots[n].failure.Some? && slots[n].failure.value != "";
    }
  }

  /** The diagnostic is accepted exactly on a known host, with times in order, ratios that fit 64 bits and a text. */
  lemma Verdict(c: Checks, d: Document, active: Option<nat>, error: Error)
    requires ConfigOk(d.cfg) && d.order == CampaignOrder(d.cfg.samples) && !d.pass
    requires StoppedAt(c, d.slots, d.order, active, error) && d.slotsCompleted == |d.slots|
    requires d.identity.Some? ==> AllPass(d.slots) && d.identity == IdentityObject(c, d.slots)
    requires d.stability.Some? ==>
      |d.slots| == |d.order| && AllPass(d.slots) && d.stability == RouteStability(c, d.slots)
    requires d.budget.Some? ==> d.stability.Some? && d.budget == DirectionalBudget(d.slots, d.stability.value)
    requires d.failure.Some? && d.failure.value.directory != "" && d.failure.value.message == Text(error)
    requires d.failure.value.stage != "" && d.failure.value.code != ""
    requires d.failure.value.slotOrdinal == Attributed(d.slots, d.order, active, error)
    requires d.summary == ExpectedSummary(d)
    ensures ValidDiagnostic(c, d)
       <==> d.cfg.hostOk && d.started <= d.completed && RatiosFit(d.budget) && d.failure.value.message != ""
  {
    StoppedRebuilds(c, d.slots, d.order, active, error);
    StoppedKind(c, d.slots, d.order, active, error);
    SummaryFits(c, d);
    hide StoppedAt;
    hide SlotsRebuild;
    hide OrdinalFits;
    hide RatiosFit;
    hide SummaryParses;
    hide SummaryRecord;
    hide DirectionalBudget;
    hide RouteStability;
    hide IdentityObject;
    hide AllPass;
    hide CampaignOrder;
    hide Attributed;
  }

  lemma StoppedKind(c: Checks, slots: seq<Slot>, order: seq<Route>, active: Option<nat>, error: Error)
    requires StoppedAt(c, slots, order, active, error)
    ensures |slots| <= |order| && (!AllPass(slots) ==> error.CampaignError?)
    ensures error.CampaignError? ==> error.stage != "" && error.code != ""
  {
  }

  lemma {:induction false} OfRouteCount(slots: seq<Slot>, order: seq<Route>, k: nat, r: Route)
    requires k <= |slots| <= |order| && forall i :: 0 <= i < |slots| ==> slots[i].route == order[i]
    ensures |OfRoute(slots[..k], r)| == Count(order, k, r)
  {
    if k > 0 {
      OfRouteCount(slots, order, k - 1, r);
      assert slots[..k][..k - 1] == slots[..k - 1];
    }
  }

  /** The budget of a complete schedule counts every structured sample. */
  lemma BudgetSamples(slots: seq<Slot>, samples: nat, stability: Stability)
    requires |slots| == 2 * samples && DirectionalBudget(slots, stability).Some?
    requires forall i :: 0 <= i < |slots| ==> slots[i].route == CampaignOrder(samples)[i]
    ensures var b := DirectionalBudget(slots, stability).value;
      && b.samples == samples && b.positive <= samples
      && (b.status == Within ==>
            b.positive == samples && AtMost(b.wall, 1_200_000) && AtMost(b.peak, 1_600_000)
            && AtMost(b.nonzeros, 30_000_000) && stability.legacyStable && stability.structuredStable)
  {
    OfRouteCount(slots, CampaignOrder(samples), |slots|, Structured);
    assert slots[..|slots|] == slots;
    BalancedSchedule(samples, samples);
  }

  /** The rebuilt summary of a diagnostic parses exactly when its ratios fit 64 bits. */
  lemma SummaryFits(c: Checks, d: Document)
    requires ConfigOk(d.cfg) && d.order == CampaignOrder(d.cfg.samples) && |d.slots| <= |d.order| && !d.pass
    requires forall i :: 0 <= i < |d.slots| ==> d.slots[i].route == d.order[i]
    requires d.stability.Some? ==> |d.slots| == |d.order|
    requires d.budget.Some? ==> d.stability.Some? && d.budget == DirectionalBudget(d.slots, d.stability.value)
    ensures SummaryParses(ExpectedSummary(d)) <==> RatiosFit(d.budget)
  {
    if d.budget.Some? {
      BudgetSamples(d.slots, d.cfg.samples, d.stability.value);
    }
    hide DirectionalBudget;
  }

  /** An artifact built after a passing budget validates exactly on a known host and with times in order. */
  lemma ArtifactValidates(c: Checks, d: Document)
    requires d.pass && d.failure.None? && ConfigOk(d.cfg)
    requires d.order == CampaignOrder(d.cfg.samples) && |d.slots| == |d.order| == d.slotsCompleted
    requires PassesInPlace(c, d.slots, d.order)
    requires d.identity.Some? && d.identity == IdentityObject(c, d.slots)
    requires d.stability.Some? && d.stability == RouteStability(c, d.slots) && d.stability.value.mismatches == []
    requires d.budget.Some? && d.budget == DirectionalBudget(d.slots, d.stability.value) && d.budget.value.status == Within
    requires d.summary == ExpectedSummary(d)
    ensures ValidArtifact(c, d) <==> d.cfg.hostOk && d.started <= d.completed
  {
    hide PassingSlot;
    hide RouteStability;
    hide IdentityObject;
    BudgetSamples(d.slots, d.cfg.samples, d.stability.value);
    hide DirectionalBudget;
  }

  // ---------- what an accepted document proves ----------

  /** Slot i of a campaign: its number, its route by the bits of i, its number on that route. */
  ghost predicate Placed(s: Slot, i: nat) {
    && s.ordinal == i && s.sampleOrdinal == i / 2 + 1 && s.elapsedMs >= 0
    && s.route == if (i % 2 + i / 2 % 2 + i / 4 % 2) % 2 == 0 then Legacy else Structured
  }

  /** The slot holds a record that parses to its fields and meets its contract, and their digest. */
  ghost predicate Evidenced(c: Checks, s: Slot) {
    && s.record.Some? && s.fields.Some? && c.parse(s.record.value) == s.fields && c.contract(s.fields.value, s.route)
    && s.digest == Some(c.digest(s.fields.value.identity)) && s.lifecycle == Cleaned && s.failure.None?
  }

  lemma PlacedInOrder(slots: seq<Slot>, samples: nat, i: nat)
    requires i < 2 * samples && i < |slots| && SlotInPlace(slots[i], i, CampaignOrder(samples))
    ensures Placed(slots[i], i)
  {
    hide CampaignOrder;
    ScheduleByBits(samples, i);
    SampleNumber(samples, i);
  }

  /** Both routes run once in every pair of slots. */
  lemma SampleNumber(samples: nat, i: nat)
    requires i < 2 * samples
    ensures Count(CampaignOrder(samples), i + 1, CampaignOrder(samples)[i]) == i / 2 + 1
  {
    hide CampaignOrder;
    var n := i / 2;
    if i == 2 * n {
      BalancedSchedule(samples, n);
    } else {
      assert i + 1 == 2 * (n + 1);
      BalancedSchedule(samples, n + 1);
    }
  }

  /**
   The validator of artifacts accepts only complete evidence: every slot in its place with a
   valid record, one identity, stable routes, a budget that is met, and a summary of just that.
   */
  lemma ArtifactMeans(c: Checks, d: Document)
    requires ValidArtifact(c, d)
    ensures 2 <= d.cfg.samples <= 9 && 1 <= d.cfg.batchWorkers <= 4 && 0 < d.cfg.timeoutS < 0x1_0000_0000
    ensures d.cfg.hostOk && d.started <= d.completed && |d.slots| == 2 * d.cfg.samples
    ensures forall i :: 0 <= i < |d.slots| ==> Placed(d.slots[i], i) && Evidenced(c, d.slots[i])
    ensures forall i, j :: 0 <= i < j < |d.slots| ==>
      d.slots[i].fields.value.identity == d.slots[j].fields.value.identity
    ensures HaveFields(OfRoute(d.slots, Legacy)) && HaveFields(OfRoute(d.slots, Structured))
    ensures var legacy, structured := FieldsOf(OfRoute(d.slots, Legacy)), FieldsOf(OfRoute(d.slots, Structured));
      AgreeWithFirst(legacy) && AgreeWithFirst(structured) && BudgetMet(legacy, structured)
    ensures d.identity.Some? && d.budget.Some? && d.summary.pass && d.summary.identity == Some(d.identity.value.sha256)
    ensures d.summary.planned == d.summary.completed == |d.slots| && d.summary.samples == d.cfg.samples
    ensures d.summary.wall == d.budget.value.wall && d.summary.peak == d.budget.value.peak
    ensures d.summary.nonzeros == d.budget.value.nonzeros
  {
    hide OfRoute;
    hide CampaignOrder;
    hide BudgetOf;
    hide BudgetMet;
    hide AgreeWithFirst;
    forall i | 0 <= i < |d.slots| ensures Placed(d.slots[i], i) && Evidenced(c, d.slots[i]) {
      assert ValidSlot(c, d.slots[i], i, d.order, false);
      PlacedInOrder(d.slots, d.cfg.samples, i);
    }
    assert HaveFields(OfRoute(d.slots, Legacy)) && HaveFields(OfRoute(d.slots, Structured));
    hide SlotMismatches;
    StabilityExactly(c, d.slots);
    BudgetExactly(FieldsOf(OfRoute(d.slots, Legacy)), FieldsOf(OfRoute(d.slots, Structured)), true);
  }

  /**
   The validator of diagnostics accepts only slots in their places, all but the last with
   their evidence, and a failure that names the slot that failed or was to come next.
   */
  lemma DiagnosticMeans(c: Checks, d: Document)
    requires ValidDiagnostic(c, d)
    ensures !d.pass && !d.summary.pass && d.cfg.hostOk && d.started <= d.completed && |d.slots| <= 2 * d.cfg.samples
    ensures forall i :: 0 <= i < |d.slots| ==> Placed(d.slots[i], i)
    ensures forall i :: 0 <= i < |d.slots| && d.slots[i].pass ==> Evidenced(c, d.slots[i])
    ensures forall i :: 0 <= i < |d.slots| && !d.slots[i].pass ==>
      i == |d.slots| - 1 && d.slots[i].failure.Some? && d.slots[i].failure.value != "" && d.slots[i].lifecycle == Retained
    ensures d.failure.Some? && d.failure.value.message != ""
    ensures d.failure.value.slotOrdinal
         == if AllPass(d.slots) then (if |d.slots| < 2 * d.cfg.samples then Some(|d.slots|) else None)
            else Some(|d.slots| - 1)
  {
    hide CampaignOrder;
    forall i | 0 <= i < |d.slots|
      ensures Placed(d.slots[i], i) && (d.slots[i].pass ==> Evidenced(c, d.slots[i]))
    {
      assert ValidSlot(c, d.slots[i], i, d.order, true);
      PlacedInOrder(d.slots, d.cfg.samples, i);
    }
  }

  // ---------- failures whose diagnostics are refused ----------

  /** A slot that succeeds with the given record. */
  function SlotWith(record: string): SlotEvent {
    Exited(0, Some(record), "", true, true)
  }

  lemma FirstOrder()
    ensures CampaignOrder(2) == [Legacy, Structured, Structured, Legacy]
  {
    assert CampaignOrder(2) == [Legacy, Structured, Structured, Legacy];
  }

  /** The records of four clean slots, in order and by route. */
  lemma FourRecords(c: Checks, records: seq<string>, fs: seq<Fields>)
    requires |records| == |fs| == 4 && forall i :: 0 <= i < 4 ==> c.parse(records[i]) == Some(fs[i])
    requires forall i :: 0 <= i < 4 ==> c.contract(fs[i], CampaignOrder(2)[i])
    ensures var events := [SlotWith(records[0]), SlotWith(records[1]), SlotWith(records[2]), SlotWith(records[3])];
      var order := CampaignOrder(2);
      && |events| == |order| && FirstUnclean(c, events, order, 0) == 4
      && RecordsOf(c, events, order, None, 4) == fs
      && RecordsOf(c, events, order, Some(Legacy), 4) == [fs[0], fs[3]]
      && RecordsOf(c, events, order, Some(Structured), 4) == [fs[1], fs[2]]
  {
    FirstOrder();
    hide CampaignOrder;
    var events := [SlotWith(records[0]), SlotWith(records[1]), SlotWith(records[2]), SlotWith(records[3])];
    var order := CampaignOrder(2);
    forall i | 0 <= i < 4 ensures Clean(c, events[i], order[i]) && Parsed(c, events[i]) == Some(fs[i]) {}
    hide Clean;
    hide Parsed;
    forall r: Option<Route>
      ensures RecordsOf(c, events, order, r, 4) == RecordsOf(c, events, order, r, 3)
                + (if r.None? || r.value == Legacy then [fs[3]] else [])
      ensures RecordsOf(c, events, order, r, 3) == RecordsOf(c, events, order, r, 2)
                + (if r.None? || r.value == Structured then [fs[2]] else [])
      ensures RecordsOf(c, events, order, r, 2) == RecordsOf(c, events, order, r, 1)
                + (if r.None? || r.value == Structured then [fs[1]] else [])
      ensures RecordsOf(c, events, order, r, 1) == if r.None? || r.value == Legacy then [fs[0]] else []
    {
    }
  }

  /**
   Any four records that agree in identity and stability fields, with legacy routes of one
   millisecond and structured routes of the longest time a record can hold: the diagnostic is
   refused, although the host is known, the clock runs forwards and the error has a text.
   */
  lemma OverflowingRatio(c: Checks, cfg: Config, records: seq<string>, fs: seq<Fields>, ending: Ending, started: int,
                         artifactTime: int, completed: int)
    requires cfg.hostOk && started <= artifactTime && started <= completed && ending.sourceDrift.None?
    requires |records| == |fs| == 4 && forall i :: 0 <= i < 4 ==> c.parse(records[i]) == Some(fs[i])
    requires forall i :: 0 <= i < 4 ==> c.contract(fs[i], CampaignOrder(2)[i])
    requires forall i :: 0 <= i < 4 ==> fs[i].identity == fs[0].identity && fs[i].rssBackend == "linux_getrusage"
    requires fs[3].stable == fs[0].stable && fs[2].stable == fs[1].stable
    requires fs[0].wallMs == fs[3].wallMs == 1 && fs[1].wallMs == fs[2].wallMs == UINT64_MAX
    ensures var events := [SlotWith(records[0]), SlotWith(records[1]), SlotWith(records[2]), SlotWith(records[3])];
      && FirstError(c, cfg, CampaignOrder(2), events, ending, started, artifactTime) == Some("directional budget")
      && !Accepted(c, cfg, CampaignOrder(2), events, ending, started, artifactTime, completed)
  {
    hide Textless;
    hide BudgetOf;
    hide FirstUnclean;
    hide CampaignOrder;
    hide RecordsOf;
    FourRecords(c, records, fs);
    hide TwiceMedian;
    hide Reportable;
    var legacy, structured := [fs[0], fs[3]], [fs[1], fs[2]];
    assert Walls(legacy) == [1, 1] && Walls(structured) == [UINT64_MAX, UINT64_MAX];
    WallOverflow(legacy, structured);
    BudgetNotWithin(legacy, structured);
  }

  lemma WallOverflow(legacy: seq<Fields>, structured: seq<Fields>)
    requires Walls(legacy) == [1, 1] && Walls(structured) == [UINT64_MAX, UINT64_MAX]
    ensures !Reportable(Walls(structured), Walls(legacy))
  {
    hide TwiceMedian;
    PairMedian(1);
    PairMedian(UINT64_MAX);
  }

  lemma BudgetNotWithin(legacy: seq<Fields>, structured: seq<Fields>)
    requires !Reportable(Walls(structured), Walls(legacy))
    ensures BudgetOf(legacy, structured, true).status != Within
  {
    hide TwiceMedian;
    hide RatioPpm;
    hide RssSupported;
    RatioFitsExactly(TwiceMedian(Walls(structured)), TwiceMedian(Walls(legacy)), UINT64_MAX);
  }

  /** A route that leaves no record, with an error that has no text: the diagnostic is refused. */
  lemma EmptyText(c: Checks, cfg: Config, events: seq<SlotEvent>, elapsedMs: int, ending: Ending, started: int,
                  artifactTime: int, completed: int)
    requires |events| == |CampaignOrder(cfg.samples)| > 0 && events[0] == Exited(elapsedMs, None, "", false, false)
    ensures FirstError(c, cfg, CampaignOrder(cfg.samples), events, ending, started, artifactTime) == Some("")
    ensures !Accepted(c, cfg, CampaignOrder(cfg.samples), events, ending, started, artifactTime, completed)
  {
    hide CampaignOrder;
    assert MessageOnly(c, events[0], CampaignOrder(cfg.samples)[0]);
  }
}
