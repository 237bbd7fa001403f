/** The marker chain of the deadline calibration (analysis/freeze_p9_deadline.py:896-908,
    1103-1197, 1200-1412, 1424-1688, 1691-1840, 2164-2397). */
module DeadlineChain {
  import opened Common
  import opened Telemetry
  import opened ThermalWindow
  import opened Accounting
  import opened Streaks
  import opened ActiveStability
  import opened Labels

  const MAX_ATTEMPTS: nat := 3
  const HANDOFF_NS: int := 500000000

  datatype Extra =
    | Bare
    | Successful
    | CheckEntries(index: int, sampleNs: int, passed: bool, consecutive: int, window: Option<Window>)
    | BoundaryEntries(sampleNs: int, consecutive: int, window: Option<Window>)
    | QualificationEntries(boundaryNs: int, cleanupNs: int, sample: Option<int>)
    | ResultEntries(repetition: nat, qualificationNs: int, passed: bool, failure: Option<string>)
    | Stage(repetition: nat)
    | WindowEntries(repetition: nat, startNs: int, endNs: int)
    | ActualEntries(repetition: nat, startNs: int, sample: Option<int>, passed: bool, failure: Option<string>)
    | OtherEntries

  /** The pre-calibration attempt that a label names. */
  datatype DeadlineKey = DeadlineKey(repetition: nat, attempt: nat)

  type DeadlineMarker = Marker<Extra>
  type DeadlineEvidence = Evidence<Extra, DeadlineKey>

  function DeadlineTag(k: DeadlineKey): string { DeadlineLabel(k.repetition, k.attempt) }

  datatype Precondition = Precondition(
    tag: string, startNs: int, endNs: int, cleanupNs: int, lastWindow: Option<Window>,
    checks: seq<Extra>, conforms: bool)

  datatype Qualification = Qualification(
    attempt: int, boundaryNs: int, cleanupNs: int, qualificationNs: int, outcome: Outcome,
    passed: bool, failure: Option<string>)

  datatype Attempt = Attempt(attempt: int, precondition: Precondition, qualification: Qualification, resultNs: int,
      conforms: bool)

  /** One isolated calibration block. */
  datatype Calibration = Calibration(
    attempts: seq<Attempt>, releaseNs: int, startNs: int, endNs: int, actual: Outcome,
    actualFailure: Option<string>, conforms: bool)

  // ------------------------------------------------------------------
  // Metadata
  // ------------------------------------------------------------------

  function OfTag(tag: string, rest: Extra): Metadata<Extra> { Metadata(None, None, Some(tag), None, None, rest) }

  function OfAttempt(tag: string, attempt: nat, rest: Extra): Metadata<Extra> { Metadata(None, None, Some(tag),
      Some(attempt), None, rest) }

  function OfStage(rest: Extra): Metadata<Extra> { Metadata(None, None, None, None, None, rest) }

  function TagQuery(name: Name, tag: string): Query { Query(name, None, None, Some(tag), None, None) }

  // ------------------------------------------------------------------
  // Active stability checks
  // ------------------------------------------------------------------

  function CheckPositions(markers: seq<DeadlineMarker>, tag: string): seq<nat> {
    Found(markers, TagQuery(ThermalActiveStabilityCheck, tag))
  }

  function EndpointOf(x: Extra): Endpoint {
    if x.CheckEntries? then Endpoint(x.sampleNs, x.passed) else Endpoint(0, false)
  }

  function Endpoints(checks: seq<Extra>): (endpoints: seq<Endpoint>)
    ensures |endpoints| == |checks| && forall i :: 0 <= i < |checks| ==> endpoints[i] == EndpointOf(checks[i])
  {
    seq(|checks|, i requires 0 <= i < |checks| => EndpointOf(checks[i]))
  }

  /** Stored check `i` repeats its marker, is causal inside the precondition, and claims the window,
      outcome and counter that the raw samples give. */
  predicate CheckReplays(e: DeadlineEvidence, tag: string, x: Extra, k: nat, i: nat, startNs: int,
      boundaryNs: int, consecutive: nat) {
    && k < |e.markers|
    && x.CheckEntries?
    && e.markers[k].metadata == OfTag(tag, x)
    && x.index == i
    && startNs <= x.sampleNs < boundaryNs
    && x.sampleNs < e.markers[k].ns < boundaryNs
    && e.window(x.sampleNs, startNs).Some?
    && x.window == e.window(x.sampleNs, startNs)
    && x.passed == e.stable(x.sampleNs, startNs)
    && x.consecutive == consecutive
  }

  /** Turn `i` of the loop over the checks. */
  ghost function CheckTurn(e: DeadlineEvidence, tag: string, checks: seq<Extra>, startNs: int,
      boundaryNs: int): nat -> bool {
    (i: nat) => i < |checks| && i < |CheckPositions(e.markers, tag)|
      && CheckReplays(e, tag, checks[i], CheckPositions(e.markers, tag)[i], i, startNs, boundaryNs,
        Streak(Flags(Endpoints(checks)), i + 1))
      && (i > 0 ==> EndpointOf(checks[i]).sampleNs - EndpointOf(checks[i - 1]).sampleNs >= SPACING_NS)
  }

  /** `replay_active_stability_checks` returns. */
  ghost predicate ChecksReplay(e: DeadlineEvidence, tag: string, checks: seq<Extra>, startNs: int, boundaryNs: int) {
    && checks != []
    && |CheckPositions(e.markers, tag)| == |checks|
    && UpTo(CheckTurn(e, tag, checks, startNs, boundaryNs), |checks|)
    && Streak(Flags(Endpoints(checks)), |checks|) == ENDPOINTS
  }

  lemma TurnOf(e: DeadlineEvidence, tag: string, checks: seq<Extra>, startNs: int, boundaryNs: int, i: nat)
    requires i < |checks| == |CheckPositions(e.markers, tag)|
    ensures CheckTurn(e, tag, checks, startNs, boundaryNs)(i) <==>
      (CheckReplays(e, tag, checks[i], CheckPositions(e.markers, tag)[i], i, startNs, boundaryNs,
        Streak(Flags(Endpoints(checks)), i + 1))
      && (i > 0 ==> EndpointOf(checks[i]).sampleNs - EndpointOf(checks[i - 1]).sampleNs >= SPACING_NS))
  {
    hide CheckReplays, CheckPositions;
  }

  method ReplayChecks(e: DeadlineEvidence, tag: string, checks: seq<Extra>, startNs: int,
      boundaryNs: int) returns (ok: bool)
    ensures ok <==> ChecksReplay(e, tag, checks, startNs, boundaryNs)
  {
    hide CheckReplays, CheckPositions, CheckTurn;
    var positions := CheckPositions(e.markers, tag);
    if checks == [] || |positions| != |checks| {
      return false;
    }
    ghost var turn := CheckTurn(e, tag, checks, startNs, boundaryNs);
    var consecutive := 0;
    var previous: Option<int> := None;
    for i := 0 to |checks|
      invariant UpTo(turn, i)
      invariant consecutive == Streak(Flags(Endpoints(checks)), i)
      invariant previous == if i == 0 then None else Some(EndpointOf(checks[i - 1]).sampleNs)
    {
      var endpoint := EndpointOf(checks[i]);
      assert Flags(Endpoints(checks))[i] == endpoint.passed;
      consecutive := if endpoint.passed then consecutive + 1 else 0;
      var replays := CheckReplays(e, tag, checks[i], positions[i], i, startNs, boundaryNs, consecutive);
      var spaced := previous.None? || endpoint.sampleNs - previous.value >= SPACING_NS;
      TurnOf(e, tag, checks, startNs, boundaryNs, i);
      if !replays || !spaced {
        UpToStops(turn, i, |checks|);
        return false;
      }
      previous := Some(endpoint.sampleNs);
    }
    ok := consecutive == ENDPOINTS;
  }

  /** The replayed checks are stable by the deadline's rule, hence by the guard's. */
  lemma ReplayedChecksStable(e: DeadlineEvidence, tag: string, checks: seq<Extra>, startNs: int, boundaryNs: int)
    requires ChecksReplay(e, tag, checks, startNs, boundaryNs)
    ensures DeadlineStable(Endpoints(checks)) && GuardStable(Endpoints(checks))
  {
    hide CheckReplays, CheckPositions;
    forall i | 0 < i < |checks|
      ensures Endpoints(checks)[i].sampleNs - Endpoints(checks)[i - 1].sampleNs >= SPACING_NS
    {
      UpToEach(CheckTurn(e, tag, checks, startNs, boundaryNs), i, |checks|);
    }
    FinalFlagsNeverReject(Endpoints(checks));
    DeadlineStableImpliesGuardStable(Endpoints(checks));
  }

  // ------------------------------------------------------------------
  // One thermal attempt
  // ------------------------------------------------------------------

  function PrepareNs(markers: seq<DeadlineMarker>, tag: string): int { ExactNs(markers, ThermalPrepare,
      OfTag(tag, Bare)) }

  function BoundaryAt(markers: seq<DeadlineMarker>, tag: string): nat { At(markers,
      TagQuery(ThermalMeasurementEnd, tag)) }

  /** The four base markers exist, at the clocks the record states. */
  predicate BaseMarkers(markers: seq<DeadlineMarker>, p: Precondition, tag: string) {
    && Exact(markers, ThermalPrepare, OfTag(tag, Bare))
    && Exact(markers, ThermalStart, OfTag(tag, Bare))
    && Answered(markers, TagQuery(ThermalMeasurementEnd, tag))
    && Exact(markers, ThermalEnd, OfTag(tag, Successful))
    && PrepareNs(markers, tag) < ExactNs(markers, ThermalStart, OfTag(tag, Bare)) == p.startNs
    && p.startNs < NsAt(markers, BoundaryAt(markers, tag)) == p.endNs
    && p.endNs <= ExactNs(markers, ThermalEnd, OfTag(tag, Successful)) == p.cleanupNs
  }

  /** The boundary binds a fresh last check, whose window the record repeats. */
  predicate BoundaryBinds(e: DeadlineEvidence, p: Precondition, tag: string) {
    && p.checks != []
    && var last := p.checks[|p.checks| - 1];
    && last.CheckEntries?
    && Answered(e.markers, TagQuery(ThermalMeasurementEnd, tag))
    && Answer(e.markers, TagQuery(ThermalMeasurementEnd, tag)).metadata == OfTag(tag,
      BoundaryEntries(last.sampleNs, ENDPOINTS, last.window))
    && 0 <= p.endNs - last.sampleNs < e.staleNs
    && e.window(last.sampleNs, p.startNs).Some?
    && p.lastWindow == e.window(last.sampleNs, p.startNs)
    && e.stable(last.sampleNs, p.startNs)
  }

  /** `replay_deadline_precondition` returns. */
  ghost predicate PreconditionReplays(e: DeadlineEvidence, p: Precondition, tag: string) {
    && p.tag == tag && p.conforms
    && e.healthy(p.startNs, p.endNs)
    && BaseMarkers(e.markers, p, tag)
    && ChecksReplay(e, tag, p.checks, p.startNs, p.endNs)
    && BoundaryBinds(e, p, tag)
  }

  /** The envelope test after the checks never raises: the last check already passed it. */
  lemma FinalEnvelopeNeverRejects(e: DeadlineEvidence, tag: string, checks: seq<Extra>, startNs: int, boundaryNs: int)
    requires ChecksReplay(e, tag, checks, startNs, boundaryNs)
    ensures checks[|checks| - 1].CheckEntries? && e.stable(checks[|checks| - 1].sampleNs, startNs)
    ensures e.window(checks[|checks| - 1].sampleNs, startNs).Some?
  {
    hide CheckPositions;
    var n := |checks|;
    UpToEach(CheckTurn(e, tag, checks, startNs, boundaryNs), n - 1, n);
    FinalFlagsNeverReject(Endpoints(checks));
    assert Endpoints(checks)[n - 1].passed;
  }

  function QualificationMetadata(q: Qualification, tag: string, n: nat): Metadata<Extra> {
    OfAttempt(tag, n, QualificationEntries(q.boundaryNs, q.cleanupNs, q.outcome.sampleNs))
  }

  function ResultMetadata(q: Qualification, tag: string, repetition: nat, n: nat): Metadata<Extra> {
    OfAttempt(tag, n, ResultEntries(repetition, q.qualificationNs, q.passed, q.failure))
  }

  /** `replay_deadline_qualification` returns the attempt's result clock. */
  predicate QualificationReplays(e: DeadlineEvidence, a: Attempt, tag: string, repetition: nat, n: nat) {
    var q := a.qualification;
    && q.attempt == n
    && q.boundaryNs == a.precondition.endNs && q.cleanupNs == a.precondition.cleanupNs
    && q.boundaryNs < q.cleanupNs < q.qualificationNs
    && Exact(e.markers, ThermalStartQualification, QualificationMetadata(q, tag, n))
    && ExactNs(e.markers, ThermalStartQualification, QualificationMetadata(q, tag, n)) == q.qualificationNs
    && q.outcome == e.causal(q.qualificationNs, q.cleanupNs, true)
    && q.outcome.failure != Some(Incomplete)
    && q.passed == q.outcome.failure.None?
    && (if q.passed then q.failure.None? else q.failure.Some? && q.failure.value != "")
    && Exact(e.markers, ThermalStartQualificationResult, ResultMetadata(q, tag, repetition, n))
    && ExactNs(e.markers, ThermalStartQualificationResult, ResultMetadata(q, tag, repetition, n)) == a.resultNs
    && q.qualificationNs < a.resultNs
  }

  function Tag(e: DeadlineEvidence, repetition: nat, n: nat): string { e.tag(DeadlineKey(repetition, n)) }

  /** One turn of the attempt loop: attempt `n` of a block of `total`, after `priorEndNs`. */
  ghost predicate AttemptReplays(e: DeadlineEvidence, repetition: nat, a: Attempt, n: nat, total: nat,
      priorEndNs: int) {
    var tag := Tag(e, repetition, n);
    && a.attempt == n && a.conforms
    && PreconditionReplays(e, a.precondition, tag)
    && QualificationReplays(e, a, tag, repetition, n)
    && priorEndNs < PrepareNs(e.markers, tag)
    && a.qualification.passed == (n == total)
  }

  method ReplayPrecondition(e: DeadlineEvidence, p: Precondition, tag: string) returns (ok: bool)
    ensures ok <==> PreconditionReplays(e, p, tag)
  {
    hide BaseMarkers, BoundaryBinds, ChecksReplay;
    if p.tag != tag || !p.conforms || !e.healthy(p.startNs, p.endNs) || !BaseMarkers(e.markers, p, tag) {
      return false;
    }
    ok := ReplayChecks(e, tag, p.checks, p.startNs, p.endNs);
    ok := ok && BoundaryBinds(e, p, tag);
  }

  // ------------------------------------------------------------------
  // One calibration block
  // ------------------------------------------------------------------

  /** The clock the next attempt must follow: the block's prepare marker, or the last result. */
  function PriorEnd(markers: seq<DeadlineMarker>, attempts: seq<Attempt>, repetition: nat, n: nat): int
    requires n <= |attempts|
  {
    if n == 0 then ExactNs(markers, CalibrationPrepare, OfStage(Stage(repetition))) else attempts[n - 1].resultNs
  }

  /** The first `n` attempts replay. */
  ghost predicate AttemptsReplay(e: DeadlineEvidence, attempts: seq<Attempt>, repetition: nat, n: nat)
    requires n <= |attempts|
  {
    n == 0 || (AttemptsReplay(e, attempts, repetition, n - 1)
      && AttemptReplays(e, repetition, attempts[n - 1], n, |attempts|,
        PriorEnd(e.markers, attempts, repetition, n - 1)))
  }

  lemma {:induction false} AttemptsReplayPrefix(e: DeadlineEvidence, attempts: seq<Attempt>, repetition: nat,
      k: nat, n: nat)
    requires k <= n <= |attempts| && AttemptsReplay(e, attempts, repetition, n)
    ensures AttemptsReplay(e, attempts, repetition, k)
  {
    hide AttemptReplays;
    if k < n {
      AttemptsReplayPrefix(e, attempts, repetition, k, n - 1);
    }
  }

  function WindowMetadata(c: Calibration, repetition: nat): Metadata<Extra> { OfStage(WindowEntries(repetition,
      c.startNs, c.endNs)) }

  function ActualMetadata(c: Calibration, repetition: nat): Metadata<Extra> {
    OfStage(ActualEntries(repetition, c.startNs, c.actual.sampleNs, c.actual.failure.None?, c.actualFailure))
  }

  /** The five markers of a block exist. */
  predicate BlockMarkers(markers: seq<DeadlineMarker>, c: Calibration, repetition: nat) {
    && Exact(markers, CalibrationPrepare, OfStage(Stage(repetition)))
    && Exact(markers, CalibrationStart, OfStage(Stage(repetition)))
    && Exact(markers, CalibrationMeasurementWindow, WindowMetadata(c, repetition))
    && Exact(markers, CalibrationEnd, OfStage(Stage(repetition)))
    && Exact(markers, ThermalActualStartQualificationResult, ActualMetadata(c, repetition))
  }

  function BlockEnd(markers: seq<DeadlineMarker>, repetition: nat): int { ExactNs(markers, CalibrationEnd,
      OfStage(Stage(repetition))) }

  /** The block's clocks follow its last attempt and each other. */
  predicate BlockOrdered(markers: seq<DeadlineMarker>, c: Calibration, repetition: nat, lastResultNs: int) {
    var actual := ExactNs(markers, ThermalActualStartQualificationResult, ActualMetadata(c, repetition));
    var window := ExactNs(markers, CalibrationMeasurementWindow, WindowMetadata(c, repetition));
    && ExactNs(markers, CalibrationPrepare, OfStage(Stage(repetition))) < lastResultNs
    && lastResultNs < ExactNs(markers, CalibrationStart, OfStage(Stage(repetition))) == c.releaseNs
    && c.releaseNs <= c.startNs < c.endNs <= window <= BlockEnd(markers, repetition)
    && c.endNs < actual <= window
  }

  /** `replay_actual_start_qualification` returns and passes. */
  predicate ActualStartReplays(e: DeadlineEvidence, c: Calibration, q: Qualification) {
    && c.actual == e.causal(c.startNs, q.cleanupNs, false)
    && q.outcome.sampleNs.Some? && c.actual.sampleNs.Some?
    && q.cleanupNs < q.outcome.sampleNs.value <= c.actual.sampleNs.value <= c.startNs
    && c.actual.failure.None? && c.actualFailure.None?
  }

  /** `replay_thermal_handoff` returns.  The clocks increase, so the bound on the last one bounds
      them all. */
  predicate HandoffReplays(c: Calibration, q: Qualification, resultNs: int) {
    && q.boundaryNs < q.cleanupNs < q.qualificationNs < resultNs < c.releaseNs <= c.startNs
    && c.startNs - q.boundaryNs < HANDOFF_NS
  }

  /** The loop body for one block returns to its head. */
  ghost predicate BlockReplays(e: DeadlineEvidence, c: Calibration, repetition: nat, previousEnd: Option<int>) {
    && 1 <= |c.attempts| <= MAX_ATTEMPTS
    && c.conforms
    && BlockMarkers(e.markers, c, repetition)
    && AttemptsReplay(e, c.attempts, repetition, |c.attempts|)
    && var last := c.attempts[|c.attempts| - 1];
    && BlockOrdered(e.markers, c, repetition, last.resultNs)
    && (previousEnd.Some? ==> previousEnd.value < ExactNs(e.markers, CalibrationPrepare, OfStage(Stage(repetition))))
    && ActualStartReplays(e, c, last.qualification)
    && HandoffReplays(c, last.qualification, last.resultNs)
  }

  method ReplayBlock(e: DeadlineEvidence, c: Calibration, repetition: nat,
      previousEnd: Option<int>) returns (endNs: Option<int>)
    ensures endNs.Some? <==> BlockReplays(e, c, repetition, previousEnd)
    ensures endNs.Some? ==> endNs.value == BlockEnd(e.markers, repetition)
  {
    hide BlockMarkers, BlockOrdered, ActualStartReplays, HandoffReplays, PreconditionReplays, QualificationReplays;
    hide ExactNs, PrepareNs;
    if !(1 <= |c.attempts| <= MAX_ATTEMPTS) || !c.conforms || !BlockMarkers(e.markers, c, repetition) {
      return None;
    }
    var prior := ExactNs(e.markers, CalibrationPrepare, OfStage(Stage(repetition)));
    if previousEnd.Some? && prior <= previousEnd.value {
      return None;
    }
    for n := 0 to |c.attempts|
      invariant AttemptsReplay(e, c.attempts, repetition, n)
      invariant prior == PriorEnd(e.markers, c.attempts, repetition, n)
    {
      var a, tag := c.attempts[n], Tag(e, repetition, n + 1);
      var replayed := ReplayPrecondition(e, a.precondition, tag);
      if a.attempt != n + 1 || !a.conforms || !replayed || !QualificationReplays(e, a, tag, repetition, n + 1)
        || PrepareNs(e.markers, tag) <= prior || a.qualification.passed != (n + 1 == |c.attempts|)
      {
        if AttemptsReplay(e, c.attempts, repetition, |c.attempts|) { AttemptsReplayPrefix(e, c.attempts, repetition,
          n + 1, |c.attempts|); }
        return None;
      }
      prior := a.resultNs;
    }
    var last := c.attempts[|c.attempts| - 1];
    if !BlockOrdered(e.markers, c, repetition, last.resultNs) || !ActualStartReplays(e, c,
      last.qualification) || !HandoffReplays(c, last.qualification, last.resultNs) {
      return None;
    }
    endNs := Some(BlockEnd(e.markers, repetition));
  }
}
