/** What exactly the deadline calibration replay accepts (analysis/freeze_p9_deadline.py:1072-1197,
    1200-1412, 1424-1840, 2229-2463): conditions on the markers of the log and on the clocks of the
    record alone, each met if and only if the replay of that layer returns. */
module DeadlineExactly {
  import opened Common
  import opened Telemetry
  import opened ThermalWindow
  import opened Accounting
  import opened Streaks
  import opened ActiveStability
  import opened DeadlineChain
  import opened DeadlineAccounting
  import opened DeadlineClocks
  import opened DeadlineWindow
  import opened Labels

  // ------------------------------------------------------------------
  // Markers and loops
  // ------------------------------------------------------------------

  /** The log holds this marker, and no other one with its name and metadata. */
  ghost predicate Sole(markers: seq<DeadlineMarker>, m: DeadlineMarker) {
    exists k: nat :: k < |markers| && markers[k] == m && forall j: nat :: j < |markers| ==>
      (markers[j].name == m.name && markers[j].metadata == m.metadata <==> j == k)
  }

  lemma SoleExactly(markers: seq<DeadlineMarker>, name: Name, metadata: Metadata<Extra>, ns: int)
    ensures Exact(markers, name, metadata) && ExactNs(markers, name, metadata) == ns <==>
      Sole(markers, Marker(ns, name, metadata))
  {
    hide Exact, ExactAt;
    if Exact(markers, name, metadata) {
      ExactAnswer(markers, name, metadata);
      ExactIsOnly(markers, name, metadata, ExactAt(markers, name, metadata));
    }
    if Sole(markers, Marker(ns, name, metadata)) {
      var k: nat :| k < |markers| && markers[k] == Marker(ns, name, metadata) && forall j: nat :: j < |markers| ==>
        (markers[j].name == name && markers[j].metadata == metadata <==> j == k);
      ExactIsOnly(markers, name, metadata, k);
    }
  }

  /** The log holds this marker, and no other one with its name and this label. */
  ghost predicate SoleTagged(markers: seq<DeadlineMarker>, tag: string, m: DeadlineMarker) {
    exists k: nat :: k < |markers| && markers[k] == m && forall j: nat :: j < |markers| ==>
      (markers[j].name == m.name && markers[j].metadata.tag == Some(tag) <==> j == k)
  }

  lemma SoleTaggedExactly(markers: seq<DeadlineMarker>, name: Name, tag: string, metadata: Metadata<Extra>, ns: int)
    requires metadata.tag == Some(tag)
    ensures (Answered(markers, TagQuery(name, tag)) && Answer(markers, TagQuery(name, tag)).metadata == metadata
      && NsAt(markers, At(markers, TagQuery(name, tag))) == ns) <==>
      SoleTagged(markers, tag, Marker(ns, name, metadata))
  {
    hide Lookup;
    var q := TagQuery(name, tag);
    if Answered(markers, q) {
      TagIsOnly(markers, name, tag, Lookup(markers, q).value);
    }
    if SoleTagged(markers, tag, Marker(ns, name, metadata)) {
      var k: nat :| k < |markers| && markers[k] == Marker(ns, name, metadata) && forall j: nat :: j < |markers| ==>
        (markers[j].name == name && markers[j].metadata.tag == Some(tag) <==> j == k);
      TagIsOnly(markers, name, tag, k);
    }
  }

  lemma {:induction false} AllTurns(turn: nat -> bool, n: nat)
    ensures UpTo(turn, n) <==> forall k: nat :: k < n ==> turn(k)
  {
    if n > 0 {
      AllTurns(turn, n - 1);
    }
  }

  // ------------------------------------------------------------------
  // The checks of a heating
  // ------------------------------------------------------------------

  /** `count` is the number of stable endpoints up to endpoint `i` since the last unstable one. */
  ghost predicate Counts(e: DeadlineEvidence, checks: seq<Extra>, startNs: int, i: nat, count: int)
    requires i < |checks|
  {
    && 0 <= count <= i + 1
    && (forall j :: i + 1 - count <= j <= i ==> e.stable(SampleOf(checks[j]), startNs))
    && (count <= i ==> !e.stable(SampleOf(checks[i - count]), startNs))
  }

  /** Check `i` stands as marker `k` of the log, inside the heating and after its own sample; it claims
      what the raw samples say and the number of stable endpoints in a row, and keeps its distance. */
  ghost predicate CheckStands(e: DeadlineEvidence, checks: seq<Extra>, tag: string, startNs: int, boundaryNs: int,
      i: nat, k: nat)
    requires i < |checks|
  {
    var sampleNs := SampleOf(checks[i]);
    && k < |e.markers| && e.markers[k].metadata == Metadata(None, None, Some(tag), None, None, checks[i])
    && (exists count: int ::
      && Counts(e, checks, startNs, i, count)
      && checks[i] == CheckEntries(i, sampleNs, e.stable(sampleNs, startNs), count, e.window(sampleNs, startNs)))
    && e.window(sampleNs, startNs).Some?
    && startNs <= sampleNs < e.markers[k].ns < boundaryNs
    && (i > 0 ==> sampleNs >= SampleOf(checks[i - 1]) + 1000000000)
  }

  ghost predicate Honest(e: DeadlineEvidence, checks: seq<Extra>, startNs: int) {
    forall j :: 0 <= j < |checks| ==> EndpointOf(checks[j]).passed == e.stable(SampleOf(checks[j]), startNs)
  }

  lemma CountIsStreak(e: DeadlineEvidence, checks: seq<Extra>, startNs: int, i: nat, count: int)
    requires i < |checks| && Honest(e, checks, startNs)
    ensures Counts(e, checks, startNs, i, count) <==> count == Streak(Flags(Endpoints(checks)), i + 1)
  {
    var flags := Flags(Endpoints(checks));
    StreakIsPassingSuffix(flags, i + 1);
    hide Streak, EndpointOf, SampleOf;
    assert forall j :: 0 <= j < |checks| ==> flags[j] == e.stable(SampleOf(checks[j]), startNs);
  }

  lemma CheckExactly(e: DeadlineEvidence, tag: string, checks: seq<Extra>, startNs: int, boundaryNs: int, i: nat)
    requires i < |checks| == |CheckPositions(e.markers, tag)| && Honest(e, checks, startNs)
    ensures CheckTurn(e, tag, checks, startNs, boundaryNs)(i) <==>
      CheckStands(e, checks, tag, startNs, boundaryNs, i, CheckPositions(e.markers, tag)[i])
  {
    hide Counts, Honest, CheckPositions, Streak;
    TurnOf(e, tag, checks, startNs, boundaryNs, i);
    forall count: int
      ensures Counts(e, checks, startNs, i, count) <==> count == Streak(Flags(Endpoints(checks)), i + 1)
    {
      CountIsStreak(e, checks, startNs, i, count);
    }
    hide CheckTurn;
    OutcomeOf(e, checks, startNs, i);
  }

  lemma OutcomeOf(e: DeadlineEvidence, checks: seq<Extra>, startNs: int, i: nat)
    requires i < |checks| && Honest(e, checks, startNs)
    ensures EndpointOf(checks[i]).passed == e.stable(SampleOf(checks[i]), startNs)
  {
  }

  /** The check markers of the log are the stored checks, one for one; they stand, and three stable
      endpoints in a row end them. */
  ghost predicate ChecksStand(e: DeadlineEvidence, checks: seq<Extra>, tag: string, startNs: int, boundaryNs: int) {
    && checks != [] && |CheckPositions(e.markers, tag)| == |checks|
    && (forall i: nat :: i < |checks| ==>
      CheckStands(e, checks, tag, startNs, boundaryNs, i, CheckPositions(e.markers, tag)[i]))
    && Counts(e, checks, startNs, |checks| - 1, 3)
  }

  lemma ReplayedHonest(e: DeadlineEvidence, tag: string, checks: seq<Extra>, startNs: int, boundaryNs: int)
    requires ChecksReplay(e, tag, checks, startNs, boundaryNs)
    ensures Honest(e, checks, startNs)
  {
    hide ChecksReplay, SampleOf;
    forall j | 0 <= j < |checks|
      ensures EndpointOf(checks[j]).passed == e.stable(SampleOf(checks[j]), startNs)
    {
      CheckIsReplayed(e, tag, checks, startNs, boundaryNs, j);
    }
  }

  lemma StandingHonest(e: DeadlineEvidence, tag: string, checks: seq<Extra>, startNs: int, boundaryNs: int)
    requires ChecksStand(e, checks, tag, startNs, boundaryNs)
    ensures Honest(e, checks, startNs)
  {
    hide CheckPositions, Counts;
    forall j: nat | j < |checks|
      ensures EndpointOf(checks[j]).passed == e.stable(SampleOf(checks[j]), startNs)
    {
      assert CheckStands(e, checks, tag, startNs, boundaryNs, j, CheckPositions(e.markers, tag)[j]);
    }
  }

  /** `replay_active_stability_checks` returns exactly for the checks that stand. */
  lemma ChecksExactly(e: DeadlineEvidence, tag: string, checks: seq<Extra>, startNs: int, boundaryNs: int)
    ensures ChecksReplay(e, tag, checks, startNs, boundaryNs) <==>
      ChecksStand(e, checks, tag, startNs, boundaryNs)
  {
    var turn := CheckTurn(e, tag, checks, startNs, boundaryNs);
    AllTurns(turn, |checks|);
    hide CheckTurn, CheckStands, Honest, UpTo, CheckPositions, Counts, Streak;
    if ChecksReplay(e, tag, checks, startNs, boundaryNs) {
      ReplayedHonest(e, tag, checks, startNs, boundaryNs);
    }
    if ChecksStand(e, checks, tag, startNs, boundaryNs) {
      StandingHonest(e, tag, checks, startNs, boundaryNs);
    }
    if Honest(e, checks, startNs) && checks != [] && |CheckPositions(e.markers, tag)| == |checks| {
      forall i: nat | i < |checks|
        ensures turn(i) <==> CheckStands(e, checks, tag, startNs, boundaryNs, i, CheckPositions(e.markers, tag)[i])
      {
        CheckExactly(e, tag, checks, startNs, boundaryNs, i);
      }
      CountIsStreak(e, checks, startNs, |checks| - 1, 3);
    }
  }

  // ------------------------------------------------------------------
  // A thermal attempt
  // ------------------------------------------------------------------

  /** The record of a heating stands in the log: its four outer markers are the only ones, its checks
      stand, its boundary carries the last one, which is fresh, and its clocks are in order. */
  ghost predicate HeatingStands(e: DeadlineEvidence, p: Precondition, tag: string, prepareNs: int) {
    var markers, checks, n := e.markers, p.checks, |p.checks|;
    && p.tag == tag && p.conforms && e.healthy(p.startNs, p.endNs)
    && Sole(markers, Marker(prepareNs, ThermalPrepare, Metadata(None, None, Some(tag), None, None, Bare)))
    && Sole(markers, Marker(p.startNs, ThermalStart, Metadata(None, None, Some(tag), None, None, Bare)))
    && Sole(markers, Marker(p.cleanupNs, ThermalEnd, Metadata(None, None, Some(tag), None, None, Successful)))
    && prepareNs < p.startNs < p.endNs <= p.cleanupNs
    && ChecksStand(e, checks, tag, p.startNs, p.endNs)
    && p.lastWindow == e.window(SampleOf(checks[n - 1]), p.startNs)
    && SoleTagged(markers, tag, Marker(p.endNs, ThermalMeasurementEnd, Metadata(None, None, Some(tag), None, None,
      BoundaryEntries(SampleOf(checks[n - 1]), 3, p.lastWindow))))
    && p.endNs - SampleOf(checks[n - 1]) < e.staleNs
  }

  /** What standing checks say about the last one. */
  lemma LastStands(e: DeadlineEvidence, tag: string, checks: seq<Extra>, startNs: int, boundaryNs: int)
    requires ChecksStand(e, checks, tag, startNs, boundaryNs)
    ensures var last := checks[|checks| - 1];
      && last.CheckEntries? && last.sampleNs == SampleOf(last) < boundaryNs
      && last.window == e.window(SampleOf(last), startNs) && last.window.Some? && e.stable(SampleOf(last), startNs)
  {
    hide CheckPositions;
    var n := |checks|;
    assert CheckStands(e, checks, tag, startNs, boundaryNs, n - 1, CheckPositions(e.markers, tag)[n - 1]);
  }

  /** The boundary of checks that stand. */
  lemma BoundaryExactly(e: DeadlineEvidence, p: Precondition, tag: string)
    requires ChecksStand(e, p.checks, tag, p.startNs, p.endNs)
    ensures (BoundaryBinds(e, p, tag) && NsAt(e.markers, BoundaryAt(e.markers, tag)) == p.endNs) <==>
      var sampleNs := SampleOf(p.checks[|p.checks| - 1]);
      && p.lastWindow == e.window(sampleNs, p.startNs) && p.endNs - sampleNs < e.staleNs
      && SoleTagged(e.markers, tag, Marker(p.endNs, ThermalMeasurementEnd,
        Metadata(None, None, Some(tag), None, None, BoundaryEntries(sampleNs, 3, p.lastWindow))))
  {
    SomeChecks(e, p, tag);
    hide ChecksStand, SoleTagged, Lookup, SampleOf;
    LastStands(e, tag, p.checks, p.startNs, p.endNs);
    var last := p.checks[|p.checks| - 1];
    SoleTaggedExactly(e.markers, ThermalMeasurementEnd, tag, OfTag(tag,
      BoundaryEntries(last.sampleNs, 3, e.window(last.sampleNs, p.startNs))), p.endNs);
  }

  /** `replay_deadline_precondition` returns exactly for the heatings that stand. */
  lemma HeatingExactly(e: DeadlineEvidence, p: Precondition, tag: string)
    ensures PreconditionReplays(e, p, tag) <==> HeatingStands(e, p, tag, PrepareNs(e.markers, tag))
  {
    hide Sole, SoleTagged, ChecksStand, ChecksReplay, Exact, ExactAt, At, Answered, Answer, SampleOf;
    var markers := e.markers;
    SoleExactly(markers, ThermalPrepare, OfTag(tag, Bare), PrepareNs(markers, tag));
    SoleExactly(markers, ThermalStart, OfTag(tag, Bare), p.startNs);
    SoleExactly(markers, ThermalEnd, OfTag(tag, Successful), p.cleanupNs);
    hide ExactNs;
    ChecksExactly(e, tag, p.checks, p.startNs, p.endNs);
    if ChecksStand(e, p.checks, tag, p.startNs, p.endNs) {
      SomeChecks(e, p, tag);
      BoundaryExactly(e, p, tag);
      BoundaryAnswered(e, p, tag);
    }
    hide BoundaryBinds;
  }

  lemma SomeChecks(e: DeadlineEvidence, p: Precondition, tag: string)
    requires ChecksStand(e, p.checks, tag, p.startNs, p.endNs)
    ensures p.checks != []
  {
    hide CheckPositions;
  }

  lemma BoundaryAnswered(e: DeadlineEvidence, p: Precondition, tag: string)
    ensures BoundaryBinds(e, p, tag) ==> Answered(e.markers, TagQuery(ThermalMeasurementEnd, tag))
  {
    hide Answered, Answer, At;
  }

  /** The qualification of attempt `n` and its result stand in the log, at increasing clocks after the
      cleanup; a failed one, and no other, has a reason. */
  ghost predicate QualificationStands(e: DeadlineEvidence, a: Attempt, tag: string, repetition: nat, n: nat) {
    var p, q := a.precondition, a.qualification;
    && q.attempt == n && q.boundaryNs == p.endNs && q.cleanupNs == p.cleanupNs
    && p.endNs < p.cleanupNs < q.qualificationNs < a.resultNs
    && q.outcome == e.causal(q.qualificationNs, p.cleanupNs, true) && q.outcome.failure != Some(Incomplete)
    && (q.passed <==> q.outcome.failure.None?) && (q.passed <==> q.failure.None?) && q.failure != Some("")
    && Sole(e.markers, Marker(q.qualificationNs, ThermalStartQualification,
      Metadata(None, None, Some(tag), Some(n), None, QualificationEntries(p.endNs, p.cleanupNs, q.outcome.sampleNs))))
    && Sole(e.markers, Marker(a.resultNs, ThermalStartQualificationResult,
      Metadata(None, None, Some(tag), Some(n), None,
        ResultEntries(repetition, q.qualificationNs, q.passed, q.failure))))
  }

  lemma QualificationExactly(e: DeadlineEvidence, a: Attempt, tag: string, repetition: nat, n: nat)
    ensures QualificationReplays(e, a, tag, repetition, n) <==> QualificationStands(e, a, tag, repetition, n)
  {
    hide Sole, Exact, ExactNs;
    SoleExactly(e.markers, ThermalStartQualification, QualificationMetadata(a.qualification, tag, n),
      a.qualification.qualificationNs);
    SoleExactly(e.markers, ThermalStartQualificationResult, ResultMetadata(a.qualification, tag, repetition, n),
      a.resultNs);
  }

  /** Attempt `n` of `total` stands, was prepared after `priorEndNs`, and qualified exactly when it is the
      last. */
  ghost predicate AttemptStands(e: DeadlineEvidence, repetition: nat, a: Attempt, n: nat, total: nat,
      priorEndNs: int) {
    var tag := e.tag(DeadlineKey(repetition, n));
    && a.attempt == n && a.conforms
    && HeatingStands(e, a.precondition, tag, PrepareNs(e.markers, tag)) && priorEndNs < PrepareNs(e.markers, tag)
    && QualificationStands(e, a, tag, repetition, n)
    && (a.qualification.outcome.failure.None? <==> n == total)
  }

  lemma AttemptExactly(e: DeadlineEvidence, repetition: nat, a: Attempt, n: nat, total: nat, priorEndNs: int)
    ensures AttemptReplays(e, repetition, a, n, total, priorEndNs) <==>
      AttemptStands(e, repetition, a, n, total, priorEndNs)
  {
    var tag := e.tag(DeadlineKey(repetition, n));
    HeatingExactly(e, a.precondition, tag);
    QualificationExactly(e, a, tag, repetition, n);
    hide PreconditionReplays, HeatingStands, QualificationReplays, PrepareNs, Sole;
  }

  // ------------------------------------------------------------------
  // A block
  // ------------------------------------------------------------------

  /** Attempt `t + 1` of a block stands, after the block's preparation or the result before it. */
  ghost predicate TurnStands(e: DeadlineEvidence, c: Calibration, repetition: nat, prepareNs: int, t: nat)
    requires t < |c.attempts|
  {
    AttemptStands(e, repetition, c.attempts[t], t + 1, |c.attempts|,
      if t == 0 then prepareNs else c.attempts[t - 1].resultNs)
  }

  /** The five markers of the block are the only ones, in order around its measurement. */
  ghost predicate OuterStands(markers: seq<DeadlineMarker>, c: Calibration, repetition: nat, prepareNs: int,
      actualNs: int, windowNs: int, endNs: int) {
    && Sole(markers, Marker(prepareNs, CalibrationPrepare, Metadata(None, None, None, None, None, Stage(repetition))))
    && Sole(markers, Marker(c.releaseNs, CalibrationStart, Metadata(None, None, None, None, None, Stage(repetition))))
    && Sole(markers, Marker(actualNs, ThermalActualStartQualificationResult, Metadata(None, None, None, None, None,
      ActualEntries(repetition, c.startNs, c.actual.sampleNs, c.actual.failure.None?, c.actualFailure))))
    && Sole(markers, Marker(windowNs, CalibrationMeasurementWindow, Metadata(None, None, None, None, None,
      WindowEntries(repetition, c.startNs, c.endNs))))
    && Sole(markers, Marker(endNs, CalibrationEnd, Metadata(None, None, None, None, None, Stage(repetition))))
    && c.startNs < c.endNs < actualNs <= windowNs <= endNs
  }

  /** The measurement follows the release after its last attempt `last`, begins less than 500 ms after the
      boundary, and rests on a qualified sample no earlier than the one of the qualification. */
  ghost predicate StartStands(e: DeadlineEvidence, c: Calibration, last: Attempt) {
    var p, q := last.precondition, last.qualification;
    && last.resultNs < c.releaseNs <= c.startNs < p.endNs + 500000000
    && c.actual == e.causal(c.startNs, p.cleanupNs, false) && c.actual.failure.None? && c.actualFailure.None?
    && q.outcome.sampleNs.Some? && c.actual.sampleNs.Some?
    && p.cleanupNs < q.outcome.sampleNs.value <= c.actual.sampleNs.value <= c.startNs
  }

  ghost predicate BlockStands(e: DeadlineEvidence, c: Calibration, repetition: nat, previousEnd: Option<int>,
      prepareNs: int, actualNs: int, windowNs: int) {
    && 1 <= |c.attempts| <= 3 && c.conforms
    && (previousEnd.Some? ==> previousEnd.value < prepareNs)
    && OuterStands(e.markers, c, repetition, prepareNs, actualNs, windowNs, BlockEnd(e.markers, repetition))
    && (forall t: nat :: t < |c.attempts| ==> TurnStands(e, c, repetition, prepareNs, t))
    && StartStands(e, c, c.attempts[|c.attempts| - 1])
  }

  lemma {:induction false} TurnsExactly(e: DeadlineEvidence, c: Calibration, repetition: nat, prepareNs: int, n: nat)
    requires n <= |c.attempts| && prepareNs == ExactNs(e.markers, CalibrationPrepare, OfStage(Stage(repetition)))
    ensures AttemptsReplay(e, c.attempts, repetition, n) <==>
      forall t: nat :: t < n ==> TurnStands(e, c, repetition, prepareNs, t)
  {
    hide AttemptReplays, AttemptStands, ExactNs;
    if n > 0 {
      TurnsExactly(e, c, repetition, prepareNs, n - 1);
      AttemptExactly(e, repetition, c.attempts[n - 1], n, |c.attempts|,
        PriorEnd(e.markers, c.attempts, repetition, n - 1));
      assert TurnStands(e, c, repetition, prepareNs, n - 1) <==>
        AttemptReplays(e, repetition, c.attempts[n - 1], n, |c.attempts|,
          PriorEnd(e.markers, c.attempts, repetition, n - 1));
      hide TurnStands;
      if forall t: nat :: t < n ==> TurnStands(e, c, repetition, prepareNs, t) {
        assert TurnStands(e, c, repetition, prepareNs, n - 1);
      }
    }
  }

  lemma LastTurn(e: DeadlineEvidence, c: Calibration, repetition: nat, prepareNs: int)
    requires c.attempts != [] && TurnStands(e, c, repetition, prepareNs, |c.attempts| - 1)
    ensures var last := c.attempts[|c.attempts| - 1];
      && last.qualification.boundaryNs == last.precondition.endNs
      && last.qualification.cleanupNs == last.precondition.cleanupNs
      && last.precondition.endNs < last.precondition.cleanupNs < last.qualification.qualificationNs < last.resultNs
      && (if |c.attempts| == 1 then prepareNs else c.attempts[|c.attempts| - 2].resultNs) < last.resultNs
  {
    hide Sole, SoleTagged, ChecksStand, PrepareNs;
  }

  lemma TurnSpan(e: DeadlineEvidence, c: Calibration, repetition: nat, prepareNs: int, t: nat)
    requires t < |c.attempts| && TurnStands(e, c, repetition, prepareNs, t)
    ensures (if t == 0 then prepareNs else c.attempts[t - 1].resultNs) < c.attempts[t].resultNs
  {
    hide Sole, SoleTagged, ChecksStand, PrepareNs;
  }

  /** The preparation of a block comes before all its results. */
  lemma {:induction false} PreparedFirst(e: DeadlineEvidence, c: Calibration, repetition: nat, prepareNs: int, t: nat)
    requires t < |c.attempts|
    requires forall k: nat :: k <= t ==> TurnStands(e, c, repetition, prepareNs, k)
    ensures prepareNs < c.attempts[t].resultNs
  {
    hide TurnStands;
    TurnSpan(e, c, repetition, prepareNs, t);
    if t > 0 {
      PreparedFirst(e, c, repetition, prepareNs, t - 1);
    }
  }

  lemma OuterExactly(markers: seq<DeadlineMarker>, c: Calibration, repetition: nat, lastResultNs: int, prepareNs: int,
      actualNs: int, windowNs: int)
    requires prepareNs == ExactNs(markers, CalibrationPrepare, OfStage(Stage(repetition)))
    requires actualNs == ExactNs(markers, ThermalActualStartQualificationResult, ActualMetadata(c, repetition))
    requires windowNs == ExactNs(markers, CalibrationMeasurementWindow, WindowMetadata(c, repetition))
    ensures (BlockMarkers(markers, c, repetition) && BlockOrdered(markers, c, repetition, lastResultNs)) <==>
      OuterStands(markers, c, repetition, prepareNs, actualNs, windowNs, BlockEnd(markers, repetition))
      && prepareNs < lastResultNs < c.releaseNs <= c.startNs
  {
    hide Sole, Exact, ExactNs;
    var stage := OfStage(Stage(repetition));
    SoleExactly(markers, CalibrationPrepare, stage, prepareNs);
    SoleExactly(markers, CalibrationStart, stage, c.releaseNs);
    SoleExactly(markers, ThermalActualStartQualificationResult, ActualMetadata(c, repetition), actualNs);
    SoleExactly(markers, CalibrationMeasurementWindow, WindowMetadata(c, repetition), windowNs);
    SoleExactly(markers, CalibrationEnd, stage, BlockEnd(markers, repetition));
  }

  lemma StartExactly(e: DeadlineEvidence, c: Calibration, last: Attempt)
    requires var p, q := last.precondition, last.qualification;
      && q.boundaryNs == p.endNs && q.cleanupNs == p.cleanupNs
      && p.endNs < p.cleanupNs < q.qualificationNs < last.resultNs
    ensures StartStands(e, c, last) <==>
      ActualStartReplays(e, c, last.qualification) && HandoffReplays(c, last.qualification, last.resultNs)
  {
  }

  /** The loop body for one block returns exactly for the blocks that stand. */
  lemma BlockExactly(e: DeadlineEvidence, c: Calibration, repetition: nat, previousEnd: Option<int>)
    ensures BlockReplays(e, c, repetition, previousEnd) <==>
      BlockStands(e, c, repetition, previousEnd,
        ExactNs(e.markers, CalibrationPrepare, OfStage(Stage(repetition))),
        ExactNs(e.markers, ThermalActualStartQualificationResult, ActualMetadata(c, repetition)),
        ExactNs(e.markers, CalibrationMeasurementWindow, WindowMetadata(c, repetition)))
  {
    var markers, n := e.markers, |c.attempts|;
    var prepareNs := ExactNs(markers, CalibrationPrepare, OfStage(Stage(repetition)));
    hide BlockMarkers, BlockOrdered, ActualStartReplays, HandoffReplays, StartStands, OuterStands, TurnStands;
    hide AttemptsReplay, ExactNs, BlockEnd, ActualMetadata, WindowMetadata;
    TurnsExactly(e, c, repetition, prepareNs, n);
    if n > 0 && AttemptsReplay(e, c.attempts, repetition, n) {
      var last := c.attempts[n - 1];
      OuterExactly(markers, c, repetition, last.resultNs, prepareNs,
        ExactNs(markers, ThermalActualStartQualificationResult, ActualMetadata(c, repetition)),
        ExactNs(markers, CalibrationMeasurementWindow, WindowMetadata(c, repetition)));
      LastTurn(e, c, repetition, prepareNs);
      PreparedFirst(e, c, repetition, prepareNs, n - 1);
      StartExactly(e, c, last);
      ReleasedFirst(e, c, last);
    }
  }

  lemma ReleasedFirst(e: DeadlineEvidence, c: Calibration, last: Attempt)
    ensures StartStands(e, c, last) ==> last.resultNs < c.releaseNs <= c.startNs
  {
  }

  /** The names that the marker count of a calibration is about. */
  lemma ChainNamesExactly(name: Name)
    ensures IsChainName(name) <==>
      name in [CalibrationPrepare, CalibrationStart, CalibrationMeasurementWindow, CalibrationEnd, ThermalPrepare,
        ThermalStart, ThermalActiveStabilityCheck, ThermalMeasurementEnd, ThermalEnd, ThermalStartQualification,
        ThermalStartQualificationResult, ThermalActualStartQualificationResult]
  {
  }

  // ------------------------------------------------------------------
  // What the log answers
  // ------------------------------------------------------------------

  /** What the replay asks of the log it gets from the samples, as `WindowReadings` and `SampleVerdicts`
      describe them: a window only at the clock of a sample, stable when its envelope is; a heating is
      healthy when it lasts 99 % of the stability window and its own window, without its end, is
      reported; causal outcomes; and the label of the attempt. */
  lemma CalibrationAnswers(context: Context<Extra>, reference: int, notBefore: int, first: bool, k: DeadlineKey)
    requires context.lock.intervalMs > 0.0
    ensures var e, samples, lock := CalibrationEvidence(context), context.log.samples, context.lock;
      var w := e.window(reference, notBefore);
      var seconds := (reference - notBefore) as real / 1000000000.0;
      && e.markers == context.log.markers
      && (w.Some? <==>
        (exists i :: 0 <= i < |samples| && samples[i].ns == reference)
        && RawWindow(samples, lock, reference, notBefore, lock.windowSeconds, true).Some?)
      && (w.Some? ==> w == RawWindow(samples, lock, reference, notBefore, lock.windowSeconds, true))
      && (e.stable(reference, notBefore) <==> w.Some? && EnvelopeStable(w.value, lock))
      && (e.healthy(notBefore, reference) <==>
        seconds >= lock.windowSeconds * 0.99
        && RawWindow(samples, lock, reference, notBefore, seconds, false).Some?)
      && e.causal(reference, notBefore, first) == DeadlineOutcome(context, reference, notBefore, first)
      && e.staleNs == (lock.maximumGapMs * 1000000.0).Floor
      && e.tag(k) == "pre-pre-calibration-r" + Decimal(k.repetition) + "-attempt-" + TwoDigits(k.attempt)
  {
    hide RawWindow, EnvelopeStable, DeadlineOutcome, DeadlineLabel;
    DeadlineLabelReads(k.repetition, k.attempt);
  }
}
