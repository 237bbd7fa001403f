/** Replay of the thermal attempts of one block-attempt: `_validate_thermal_precondition` and
    `_replay_qualification_attempts` (analysis/freeze_p9_guard.py:1521-1722, 1939-2168). */
module GuardAttempts {
  import opened Common
  import opened Telemetry
  import opened Accounting
  import opened Chains
  import opened GuardRecords
  import opened Streaks
  import opened ActiveStability

  // ------------------------------------------------------------------
  // Active stability checks
  // ------------------------------------------------------------------

  /** The check markers of a thermal attempt, in log order. */
  function CheckMarkers(markers: seq<GuardMarker>, tag: string): (checks: seq<GuardMarker>)
    ensures |checks| == |Found(markers, ByTag(ThermalActiveStabilityCheck, tag))|
  {
    var found := Found(markers, ByTag(ThermalActiveStabilityCheck, tag));
    seq(|found|, i requires 0 <= i < |found| => assert found[i] in found; markers[found[i]])
  }

  /** The sample and outcome a check marker claims. */
  function EndpointOf(m: GuardMarker): Endpoint {
    if m.metadata.rest.CheckEntries? then Endpoint(m.metadata.rest.sampleNs, m.metadata.rest.passed) else Endpoint(0,
      false)
  }

  function Endpoints(checks: seq<GuardMarker>): (endpoints: seq<Endpoint>)
    ensures |endpoints| == |checks| && forall i :: 0 <= i < |checks| ==> endpoints[i] == EndpointOf(checks[i])
  {
    seq(|checks|, i requires 0 <= i < |checks| => EndpointOf(checks[i]))
  }

  /** Check `i` is well-formed, causal, and claims the window, outcome and counter that the raw
      samples give. */
  predicate CheckReplays(e: GuardEvidence, tag: string, m: GuardMarker, i: nat, startNs: int, consecutive: nat)
  {
    && m.metadata.rest.CheckEntries?
    && m.metadata == TagMetadata(tag, m.metadata.rest)
    && m.metadata.rest.index == i
    && var sample := m.metadata.rest.sampleNs;
    && startNs < sample <= m.ns
    && m.metadata.rest.window == e.window(sample, startNs)
    && m.metadata.rest.passed == e.stable(sample, startNs)
    && m.metadata.rest.consecutive == consecutive
  }

  /** Turn `i` of the loop over the check markers. */
  ghost function CheckTurn(e: GuardEvidence, tag: string, checks: seq<GuardMarker>, startNs: int): nat -> bool
  {
    (i: nat) => i < |checks|
      && CheckReplays(e, tag, checks[i], i, startNs, Streak(Flags(Endpoints(checks)), i + 1))
      && (i > 0 ==> !Crowded(EndpointOf(checks[i - 1]), EndpointOf(checks[i])))
  }

  ghost predicate ChecksReplay(e: GuardEvidence, tag: string, checks: seq<GuardMarker>, startNs: int)
  {
    UpTo(CheckTurn(e, tag, checks, startNs), |checks|)
  }

  lemma ReplayedChecksSpaced(e: GuardEvidence, tag: string, checks: seq<GuardMarker>, startNs: int)
    requires ChecksReplay(e, tag, checks, startNs)
    ensures GuardSpaced(Endpoints(checks))
  {
    forall i | 0 < i < |checks|
      ensures !Crowded(Endpoints(checks)[i - 1], Endpoints(checks)[i])
    {
      UpToEach(CheckTurn(e, tag, checks, startNs), i, |checks|);
    }
  }

  /** The loop over the check markers. */
  method ReplayChecks(e: GuardEvidence, tag: string, checks: seq<GuardMarker>, startNs: int) returns (ok: bool,
      consecutive: nat)
    ensures ok <==> ChecksReplay(e, tag, checks, startNs)
    ensures ok ==> consecutive == Streak(Flags(Endpoints(checks)), |checks|)
  {
    ghost var turn := CheckTurn(e, tag, checks, startNs);
    consecutive := 0;
    var lastSuccess: Option<int> := None;
    for i := 0 to |checks|
      invariant UpTo(turn, i)
      invariant consecutive == Streak(Flags(Endpoints(checks)), i)
      invariant lastSuccess ==
        if i > 0 && EndpointOf(checks[i - 1]).passed then Some(EndpointOf(checks[i - 1]).sampleNs) else None
    {
      var endpoint := EndpointOf(checks[i]);
      assert Flags(Endpoints(checks))[i] == endpoint.passed;
      consecutive := if endpoint.passed then consecutive + 1 else 0;
      var replays := CheckReplays(e, tag, checks[i], i, startNs, consecutive);
      var tooSoon := endpoint.passed && lastSuccess.Some? && endpoint.sampleNs - lastSuccess.value < SPACING_NS;
      assert turn(i) == (replays && !tooSoon);
      if !replays || tooSoon {
        UpToStops(turn, i, |checks|);
        return false, consecutive;
      }
      lastSuccess := if endpoint.passed then Some(endpoint.sampleNs) else None;
    }
    ok := true;
  }

  // ------------------------------------------------------------------
  // The thermal precondition
  // ------------------------------------------------------------------

  function Clocks(checks: seq<GuardMarker>): seq<int> { MarkerClocks(checks) }

  /** The marker clocks of a precondition: prepare, start, checks, measurement end, end. */
  function PreconditionTimes(markers: seq<GuardMarker>, tag: string): seq<int> {
    [AnswerNs(markers, ByTag(ThermalPrepare, tag)), AnswerNs(markers, ByTag(ThermalStart, tag))]
    + Clocks(CheckMarkers(markers, tag))
    + [AnswerNs(markers, ByTag(ThermalMeasurementEnd, tag)), AnswerNs(markers, ByTag(ThermalEnd, tag))]
  }

  /** The metadata entries of the check markers. */
  function CheckRecords(checks: seq<GuardMarker>): seq<Extra> {
    seq(|checks|, i requires 0 <= i < |checks| => checks[i].metadata.rest)
  }

  /** The four base markers exist, once each, with the right metadata. */
  predicate BaseMarkers(markers: seq<GuardMarker>, tag: string) {
    && AnsweredWith(markers, ByTag(ThermalPrepare, tag), TagMetadata(tag, NoMore))
    && AnsweredWith(markers, ByTag(ThermalStart, tag), TagMetadata(tag, NoMore))
    && Answered(markers, ByTag(ThermalMeasurementEnd, tag))
    && AnsweredWith(markers, ByTag(ThermalEnd, tag), TagMetadata(tag, Successful(true)))
  }

  /** The boundary marker binds the final check, and the stored record repeats the markers. */
  predicate BoundaryBinds(markers: seq<GuardMarker>, p: Precondition, tag: string, checks: seq<GuardMarker>) {
    && checks != []
    && var last := checks[|checks| - 1].metadata.rest;
    && last.CheckEntries?
    && AnsweredWith(markers, ByTag(ThermalMeasurementEnd, tag),
      TagMetadata(tag, BoundaryEntries(last.sampleNs, ENDPOINTS, last.window)))
    && p.startNs == AnswerNs(markers, ByTag(ThermalStart, tag))
    && p.endNs == AnswerNs(markers, ByTag(ThermalMeasurementEnd, tag))
    && p.cleanupNs == AnswerNs(markers, ByTag(ThermalEnd, tag))
    && p.lastWindow == last.window
    && p.checks == CheckRecords(checks)
  }

  /** `_validate_thermal_precondition` returns. */
  ghost predicate PreconditionReplays(e: GuardEvidence, p: Precondition, tag: string)
  {
    var markers := e.markers;
    var checks := CheckMarkers(markers, tag);
    && p.tag == tag
    && BaseMarkers(markers, tag)
    && |checks| >= ENDPOINTS
    && ChecksReplay(e, tag, checks, AnswerNs(markers, ByTag(ThermalStart, tag)))
    && Streak(Flags(Endpoints(checks)), |checks|) == ENDPOINTS
    && BoundaryBinds(markers, p, tag, checks)
    && Chain(PreconditionTimes(markers, tag))
    && e.healthy(p.startNs, p.endNs)
    && p.conforms
  }

  method ReplayPrecondition(e: GuardEvidence, p: Precondition, tag: string) returns (times: Option<seq<int>>)
    ensures times.Some? <==> PreconditionReplays(e, p, tag)
    ensures times.Some? ==> times.value == PreconditionTimes(e.markers, tag)
  {
    var markers := e.markers;
    var checks := CheckMarkers(markers, tag);
    if p.tag != tag || !BaseMarkers(markers, tag) || |checks| < ENDPOINTS {
      return None;
    }
    var ok, consecutive := ReplayChecks(e, tag, checks, AnswerNs(markers, ByTag(ThermalStart, tag)));
    if !ok || consecutive != ENDPOINTS || !BoundaryBinds(markers, p, tag, checks) {
      return None;
    }
    if !Chain(PreconditionTimes(markers, tag)) || !e.healthy(p.startNs, p.endNs) || !p.conforms {
      return None;
    }
    times := Some(PreconditionTimes(markers, tag));
  }

  lemma PreconditionParts(e: GuardEvidence, p: Precondition, tag: string)
    requires PreconditionReplays(e, p, tag)
    ensures var checks := CheckMarkers(e.markers, tag);
      && ChecksReplay(e, tag, checks, AnswerNs(e.markers, ByTag(ThermalStart, tag)))
      && Streak(Flags(Endpoints(checks)), |checks|) == ENDPOINTS
      && BoundaryBinds(e.markers, p, tag, checks) && Chain(PreconditionTimes(e.markers, tag))
  {
    hide ChecksReplay, CheckMarkers, AnswerNs, PreconditionTimes, BoundaryBinds, Streak, Answered, Answer;
  }

  /** A replayed precondition ends in exactly three spaced passes. */
  lemma PreconditionEndsStable(e: GuardEvidence, p: Precondition, tag: string)
    requires PreconditionReplays(e, p, tag)
    ensures GuardStable(Endpoints(CheckMarkers(e.markers, tag)))
  {
    hide PreconditionReplays, ChecksReplay, CheckMarkers, AnswerNs, Streak, Chain, PreconditionTimes, BoundaryBinds;
    hide Endpoints;
    var checks := CheckMarkers(e.markers, tag);
    PreconditionParts(e, p, tag);
    ReplayedChecksSpaced(e, tag, checks, AnswerNs(e.markers, ByTag(ThermalStart, tag)));
    FinalFlagsNeverReject(Endpoints(checks));
  }

  function SampleOf(m: GuardMarker): int { EndpointOf(m).sampleNs }

  lemma CheckIsReplayed(e: GuardEvidence, tag: string, checks: seq<GuardMarker>, startNs: int, i: nat)
    requires ChecksReplay(e, tag, checks, startNs) && i < |checks|
    ensures startNs < SampleOf(checks[i]) <= checks[i].ns
    ensures EndpointOf(checks[i]).passed == e.stable(SampleOf(checks[i]), startNs)
    ensures checks[i].metadata.rest.CheckEntries?
    ensures checks[i].metadata.rest.window == e.window(SampleOf(checks[i]), startNs)
  {
    hide Streak, Crowded;
    UpToEach(CheckTurn(e, tag, checks, startNs), i, |checks|);
  }

  /** The last check comes before the boundary. */
  lemma BoundaryAfterChecks(markers: seq<GuardMarker>, tag: string, checks: seq<GuardMarker>)
    requires checks == CheckMarkers(markers, tag) && checks != [] && Chain(PreconditionTimes(markers, tag))
    ensures checks[|checks| - 1].ns < AnswerNs(markers, ByTag(ThermalMeasurementEnd, tag))
  {
    hide CheckMarkers, AnswerNs;
    var times, n := PreconditionTimes(markers, tag), |checks|;
    assert times[n + 1] == checks[n - 1].ns && times[n + 2] == AnswerNs(markers, ByTag(ThermalMeasurementEnd, tag));
  }

  /** What an accepted heating ends on: the boundary marker carries the sample and the raw window of
      the last of exactly three stable endpoints, each a second or more after the one before, all
      after the start and before the boundary; an endpoint before those three was not stable. */
  lemma BoundaryRestsOnThreePasses(e: GuardEvidence, p: Precondition, tag: string)
    requires PreconditionReplays(e, p, tag)
    ensures var checks, startNs := CheckMarkers(e.markers, tag), AnswerNs(e.markers, ByTag(ThermalStart, tag));
      var n := |checks|;
      && n >= 3
      && Answer(e.markers, ByTag(ThermalMeasurementEnd, tag)).metadata.rest
        == BoundaryEntries(SampleOf(checks[n - 1]), 3, e.window(SampleOf(checks[n - 1]), startNs))
      && (forall i :: n - 3 <= i < n ==> e.stable(SampleOf(checks[i]), startNs))
      && (n > 3 ==> !e.stable(SampleOf(checks[n - 4]), startNs))
      && SampleOf(checks[n - 1]) >= SampleOf(checks[n - 2]) + 1000000000
      && SampleOf(checks[n - 2]) >= SampleOf(checks[n - 3]) + 1000000000
      && startNs < SampleOf(checks[n - 3])
      && SampleOf(checks[n - 1]) <= checks[n - 1].ns < AnswerNs(e.markers, ByTag(ThermalMeasurementEnd, tag))
  {
    hide PreconditionReplays, ChecksReplay, CheckMarkers, AnswerNs, EndpointOf, PreconditionTimes, GuardStable;
    hide BoundaryBinds;
    hide Answered, Answer;
    var checks, startNs := CheckMarkers(e.markers, tag), AnswerNs(e.markers, ByTag(ThermalStart, tag));
    var n := |checks|;
    PreconditionParts(e, p, tag);
    PreconditionEndsStable(e, p, tag);
    AtLeastThree(Endpoints(checks));
    StableEndsInThree(Endpoints(checks));
    BoundaryAfterChecks(e.markers, tag, checks);
    CheckIsReplayed(e, tag, checks, startNs, n - 1);
    CheckIsReplayed(e, tag, checks, startNs, n - 2);
    CheckIsReplayed(e, tag, checks, startNs, n - 3);
    if n > 3 {
      CheckIsReplayed(e, tag, checks, startNs, n - 4);
    }
    LastCheckBound(e.markers, p, tag, checks);
  }

  lemma AtLeastThree(endpoints: seq<Endpoint>)
    requires GuardStable(endpoints)
    ensures |endpoints| >= 3
  {
  }

  lemma LastCheckBound(markers: seq<GuardMarker>, p: Precondition, tag: string, checks: seq<GuardMarker>)
    requires BoundaryBinds(markers, p, tag, checks)
    ensures checks != [] && Answered(markers, ByTag(ThermalMeasurementEnd, tag))
    ensures var last := checks[|checks| - 1].metadata.rest;
      last.CheckEntries? && Answer(markers, ByTag(ThermalMeasurementEnd, tag)).metadata.rest
        == BoundaryEntries(SampleOf(checks[|checks| - 1]), 3, last.window)
  {
  }

  // ------------------------------------------------------------------
  // One thermal attempt
  // ------------------------------------------------------------------

  function PausedStates(workers: seq<int>, critical: int): map<int, string> {
    map pid | pid in workers + [critical] :: "T"
  }

  function Tag(e: GuardEvidence, id: Identity, thermal: nat): string { e.tag(ThermalKey(id.caseId, id.block,
      id.attempt, thermal)) }

  /** The clocks whose distance from the boundary decides the pre-release outcome. */
  function BoundaryClocks(q: Qualification, resultNs: int, startNs: int, releaseNs: int): seq<int>
    requires q.outcome.sampleNs.Some?
  {
    [q.cleanupNs, q.outcome.sampleNs.value, q.qualificationNs, resultNs, startNs, releaseNs]
  }

  predicate WithinHandoff(boundaryNs: int, clocks: seq<int>) {
    && (forall i :: 0 <= i < |clocks| ==> boundaryNs < clocks[i] && clocks[i] - boundaryNs < HANDOFF_MAX_NS)
    && forall i :: 0 <= i < |clocks| - 1 ==> clocks[i] <= clocks[i + 1]
  }

  /** The pre-release outcome that the raw clocks give. */
  predicate PreReleasePasses(markers: seq<GuardMarker>, id: Identity, a: ThermalAttempt, thermal: nat) {
    && a.qualification.passed
    && a.qualification.outcome.sampleNs.Some?
    && WithinHandoff(a.qualification.boundaryNs, BoundaryClocks(a.qualification, a.resultNs,
      AnswerNs(markers, ByThermal(GuardBlockStart, id, thermal)), AnswerNs(markers,
        ByThermal(GuardBlockMeasurementRelease, id, thermal))))
  }

  function PreReleaseFailureOf(markers: seq<GuardMarker>, id: Identity, a: ThermalAttempt,
      thermal: nat): Option<PreReleaseFailure> {
    if PreReleasePasses(markers, id, a, thermal) then None
    else if !a.qualification.passed && a.qualification.outcome.failure.Some? then
      Some(QualificationFailed(a.qualification.outcome.failure.value))
    else Some(HandoffExceeded)
  }

  /** The marker clocks of one thermal attempt. */
  function ThermalTimes(e: GuardEvidence, id: Identity, a: ThermalAttempt, thermal: nat): seq<int> {
    var markers, tag := e.markers, Tag(e, id, thermal);
    PreconditionTimes(markers, tag)
    + [AnswerNs(markers, QualificationQuery(tag, thermal)),
      AnswerNs(markers, QualificationResultQuery(id, tag, thermal))]
    + if a.qualification.passed
      then [AnswerNs(markers, ByThermal(GuardBlockStart, id, thermal)),
        AnswerNs(markers, ByThermal(GuardBlockMeasurementRelease, id, thermal))]
      else []
  }

  /** The qualification marker and record replay. */
  predicate QualificationReplays(e: GuardEvidence, a: ThermalAttempt, tag: string, thermal: nat) {
    var markers, q := e.markers, a.qualification;
    && AnsweredWith(markers, QualificationQuery(tag, thermal),
      Metadata(None, None, Some(tag), Some(thermal), None,
        QualificationEntries(a.precondition.endNs, a.precondition.cleanupNs, q.outcome.sampleNs)))
    && q.attempt == thermal
    && q.boundaryNs == a.precondition.endNs
    && q.cleanupNs == a.precondition.cleanupNs
    && q.qualificationNs == AnswerNs(markers, QualificationQuery(tag, thermal))
    && q.cleanupNs < q.qualificationNs
    && q.outcome == e.causal(q.qualificationNs, q.cleanupNs, true)
    && q.passed == q.outcome.failure.None?
  }

  /** The qualification result marker replays. */
  predicate ResultReplays(markers: seq<GuardMarker>, id: Identity, a: ThermalAttempt, tag: string, thermal: nat) {
    var q := a.qualification;
    && AnsweredWith(markers, QualificationResultQuery(id, tag, thermal),
      Metadata(Some(id.caseId), Some(id.block), Some(tag), Some(id.attempt), Some(thermal),
        QualificationResultEntries(id.heldOut, q.boundaryNs, q.cleanupNs, q.qualificationNs, q.outcome.sampleNs,
          q.passed, q.outcome.failure)))
    && a.resultNs == AnswerNs(markers, QualificationResultQuery(id, tag, thermal))
  }

  /** A passed qualification released the block; a failed one did not. */
  predicate ReleaseReplays(markers: seq<GuardMarker>, id: Identity, a: ThermalAttempt, workers: seq<int>,
      critical: int, thermal: nat) {
    if a.qualification.passed then
      && AnsweredWith(markers, ByThermal(GuardBlockStart, id, thermal),
        ThermalMetadata(id, thermal, StartEntries(id.heldOut, workers, critical, a.qualification.boundaryNs)))
      && AnsweredWith(markers, ByThermal(GuardBlockMeasurementRelease, id, thermal),
        ThermalMetadata(id, thermal, ReleaseEntries(id.heldOut, critical, a.qualification.boundaryNs)))
      && a.startNs == Some(AnswerNs(markers, ByThermal(GuardBlockStart, id, thermal)))
      && a.releaseNs == Some(AnswerNs(markers, ByThermal(GuardBlockMeasurementRelease, id, thermal)))
    else
      a.startNs.None? && a.releaseNs.None?
  }

  /** One turn of the attempt loop, apart from its order against the other turns. */
  ghost predicate ThermalReplays(e: GuardEvidence, id: Identity, workers: seq<int>, critical: int,
      a: ThermalAttempt, thermal: nat)
  {
    var markers, tag := e.markers, Tag(e, id, thermal);
    && a.attempt == thermal
    && a.tag == tag
    && PreconditionReplays(e, a.precondition, tag)
    && QualificationReplays(e, a, tag, thermal)
    && ResultReplays(markers, id, a, tag, thermal)
    && a.paused == PausedStates(workers, critical)
    && ReleaseReplays(markers, id, a, workers, critical, thermal)
    && a.preReleasePassed == PreReleasePasses(markers, id, a, thermal)
    && a.failure == PreReleaseFailureOf(markers, id, a, thermal)
    && Chain(ThermalTimes(e, id, a, thermal))
  }

  method ReplayThermalAttempt(e: GuardEvidence, id: Identity, workers: seq<int>, critical: int,
      a: ThermalAttempt, thermal: nat)
      returns (times: Option<seq<int>>)
    ensures times.Some? <==> ThermalReplays(e, id, workers, critical, a, thermal)
    ensures times.Some? ==> times.value == ThermalTimes(e, id, a, thermal)
  {
    var markers, tag := e.markers, Tag(e, id, thermal);
    if a.attempt != thermal || a.tag != tag {
      return None;
    }
    var precondition := ReplayPrecondition(e, a.precondition, tag);
    if precondition.None? || !QualificationReplays(e, a, tag, thermal) || !ResultReplays(markers, id, a, tag, thermal) {
      return None;
    }
    if a.paused != PausedStates(workers, critical) || !ReleaseReplays(markers, id, a, workers, critical, thermal) {
      return None;
    }
    if a.preReleasePassed != PreReleasePasses(markers, id, a, thermal) || a.failure != PreReleaseFailureOf(markers, id,
      a, thermal) {
      return None;
    }
    var mine := ThermalTimes(e, id, a, thermal);
    times := if Chain(mine) then Some(mine) else None;
  }

  // ------------------------------------------------------------------
  // All thermal attempts of a block-attempt
  // ------------------------------------------------------------------

  /** The clocks of the first `n` attempts, in order. */
  function TimesUpTo(e: GuardEvidence, id: Identity, attempts: seq<ThermalAttempt>, n: nat): seq<int>
    requires n <= |attempts|
  {
    if n == 0 then [] else TimesUpTo(e, id, attempts, n - 1) + ThermalTimes(e, id, attempts[n - 1], n)
  }

  /** Attempt `n` starts after everything before it. */
  predicate StartsAfter(before: seq<int>, mine: seq<int>) {
    before == [] || mine == [] || Last(before) < mine[0]
  }

  /** Turn `t` of the loop returns to its head. */
  ghost predicate AttemptReplays(e: GuardEvidence, id: Identity, workers: seq<int>, critical: int,
      attempts: seq<ThermalAttempt>, t: nat)
    requires t < |attempts|
  {
    && ThermalReplays(e, id, workers, critical, attempts[t], t + 1)
    && StartsAfter(TimesUpTo(e, id, attempts, t), ThermalTimes(e, id, attempts[t], t + 1))
    && attempts[t].preReleasePassed == (t + 1 == |attempts|)
  }

  ghost function AttemptTurn(e: GuardEvidence, id: Identity, workers: seq<int>, critical: int,
      attempts: seq<ThermalAttempt>): nat -> bool
  {
    (t: nat) => t < |attempts| && AttemptReplays(e, id, workers, critical, attempts, t)
  }

  /** `_replay_qualification_attempts` returns. */
  ghost predicate AttemptsReplay(e: GuardEvidence, id: Identity, workers: seq<int>, critical: int,
      attempts: seq<ThermalAttempt>, selected: int)
  {
    && 1 <= |attempts| <= THERMAL_MAX_ATTEMPTS
    && UpTo(AttemptTurn(e, id, workers, critical, attempts), |attempts|)
    && selected == |attempts|
  }

  /** One turn, after the clocks `before` of the turns before it. */
  method ReplayAttempt(e: GuardEvidence, id: Identity, workers: seq<int>, critical: int,
      attempts: seq<ThermalAttempt>, t: nat, before: seq<int>)
      returns (mine: Option<seq<int>>)
    requires t < |attempts|
    requires before == TimesUpTo(e, id, attempts, t)
    ensures mine.Some? <==> AttemptTurn(e, id, workers, critical, attempts)(t)
    ensures mine.Some? ==> mine.value == ThermalTimes(e, id, attempts[t], t + 1)
  {
    hide ThermalReplays, ThermalTimes, TimesUpTo;
    mine := ReplayThermalAttempt(e, id, workers, critical, attempts[t], t + 1);
    if mine.Some? && !(StartsAfter(before, mine.value) && attempts[t].preReleasePassed == (t + 1 == |attempts|)) {
      mine := None;
    }
  }

  method ReplayAttempts(e: GuardEvidence, id: Identity, workers: seq<int>, critical: int,
      attempts: seq<ThermalAttempt>, selected: int)
      returns (times: Option<seq<int>>)
    ensures times.Some? <==> AttemptsReplay(e, id, workers, critical, attempts, selected)
    ensures times.Some? ==> times.value == TimesUpTo(e, id, attempts, |attempts|)
  {
    hide AttemptReplays, ThermalTimes;
    if !(1 <= |attempts| <= THERMAL_MAX_ATTEMPTS) {
      return None;
    }
    var all: seq<int> := [];
    for t := 0 to |attempts|
      invariant UpTo(AttemptTurn(e, id, workers, critical, attempts), t)
      invariant all == TimesUpTo(e, id, attempts, t)
    {
      var mine := ReplayAttempt(e, id, workers, critical, attempts, t, all);
      if mine.None? {
        UpToStops(AttemptTurn(e, id, workers, critical, attempts), t, |attempts|);
        return None;
      }
      all := all + mine.value;
    }
    times := if selected == |attempts| then Some(all) else None;
  }
}
