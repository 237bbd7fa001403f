/** What an accepted calibration block says in the clocks and names of its own record and log
    (analysis/freeze_p9_deadline.py:896-908, 1103-1197, 1200-1412, 1424-1840, 2229-2463). */
module DeadlineClocks {
  import opened Common
  import opened Telemetry
  import opened ThermalWindow
  import opened Chains
  import opened Accounting
  import opened Streaks
  import opened ActiveStability
  import opened DeadlineChain
  import opened DeadlineAccounting

  // ------------------------------------------------------------------
  // What the lookups ask for
  // ------------------------------------------------------------------

  lemma {:induction false} EachExactFound(markers: seq<DeadlineMarker>, name: Name, metadata: Metadata<Extra>, n: nat,
      k: nat)
    requires k < n <= |markers| && markers[k].name == name && markers[k].metadata == metadata
    ensures k in ExactUpTo(markers, name, metadata, n)
  {
    if k < n - 1 {
      EachExactFound(markers, name, metadata, n - 1, k);
    }
  }

  /** A lookup by metadata returns a clock exactly when one marker, and no other, has this name and this
      metadata. */
  lemma ExactIsOnly(markers: seq<DeadlineMarker>, name: Name, metadata: Metadata<Extra>, k: nat)
    ensures Exact(markers, name, metadata) && ExactAt(markers, name, metadata) == k <==>
      k < |markers| && forall j: nat :: j < |markers| ==>
        (markers[j].name == name && markers[j].metadata == metadata <==> j == k)
  {
    if Exact(markers, name, metadata) && ExactAt(markers, name, metadata) == k {
      ExactAnswer(markers, name, metadata);
      forall j: nat | j < |markers| && markers[j].name == name && markers[j].metadata == metadata
        ensures j == k
      {
        EachExactFound(markers, name, metadata, |markers|, j);
      }
    }
    if k < |markers| && forall j: nat :: j < |markers| ==>
      (markers[j].name == name && markers[j].metadata == metadata <==> j == k)
    {
      assert forall j: nat :: j < |markers| && IsExactly(markers[j], name, metadata) ==> j == k;
      ExactWhenUnique(markers, name, metadata, k);
    }
  }

  /** A lookup by label returns a marker exactly when no other has its name and label. */
  lemma TagIsOnly(markers: seq<DeadlineMarker>, name: Name, tag: string, k: nat)
    ensures Lookup(markers, TagQuery(name, tag)) == Some(k) <==>
      k < |markers| && forall j: nat :: j < |markers| ==>
        (markers[j].name == name && markers[j].metadata.tag == Some(tag) <==> j == k)
  {
    assert forall j: nat :: j < |markers| ==>
      (Matches(markers[j], TagQuery(name, tag)) <==>
        markers[j].name == name && markers[j].metadata.tag == Some(tag));
    hide Matches, Lookup;
    if k < |markers| && Matches(markers[k], TagQuery(name, tag)) {
      LookupIsUnique(markers, TagQuery(name, tag), k);
    }
  }

  lemma ExactStands(markers: seq<DeadlineMarker>, name: Name, metadata: Metadata<Extra>)
    requires Exact(markers, name, metadata)
    ensures Marker(ExactNs(markers, name, metadata), name, metadata) in markers
  {
    ExactAnswer(markers, name, metadata);
    assert markers[ExactAt(markers, name, metadata)]
      == Marker(ExactNs(markers, name, metadata), name, metadata);
  }

  lemma AnswerStands(markers: seq<DeadlineMarker>, name: Name, tag: string, metadata: Metadata<Extra>)
    requires Answered(markers, TagQuery(name, tag)) && Answer(markers, TagQuery(name, tag)).metadata == metadata
    ensures Marker(NsAt(markers, At(markers, TagQuery(name, tag))), name, metadata) in markers
  {
    assert Answer(markers, TagQuery(name, tag))
      == Marker(NsAt(markers, At(markers, TagQuery(name, tag))), name, metadata);
  }

  // ------------------------------------------------------------------
  // One thermal attempt
  // ------------------------------------------------------------------

  /** What the record of attempt `n` says stands in the log, and its clocks are in order. */
  ghost predicate AttemptLogged(e: DeadlineEvidence, repetition: nat, a: Attempt, n: nat) {
    var p, q, markers := a.precondition, a.qualification, e.markers;
    && a.attempt == n && q.attempt == n && p.tag == e.tag(DeadlineKey(repetition, n)) && a.conforms && p.conforms
    && Marker(p.startNs, ThermalStart, Metadata(None, None, Some(p.tag), None, None, Bare)) in markers
    && Marker(p.cleanupNs, ThermalEnd, Metadata(None, None, Some(p.tag), None, None, Successful)) in markers
    && Marker(q.qualificationNs, ThermalStartQualification, Metadata(None, None, Some(p.tag), Some(n), None,
      QualificationEntries(p.endNs, p.cleanupNs, q.outcome.sampleNs))) in markers
    && Marker(a.resultNs, ThermalStartQualificationResult, Metadata(None, None, Some(p.tag), Some(n), None,
      ResultEntries(repetition, q.qualificationNs, q.outcome.failure.None?, q.failure))) in markers
    && p.startNs < p.endNs < p.cleanupNs < q.qualificationNs < a.resultNs
    && q.outcome == e.causal(q.qualificationNs, p.cleanupNs, true) && q.outcome.failure != Some(Incomplete)
    && (q.failure.None? <==> q.outcome.failure.None?) && q.failure != Some("")
    && e.healthy(p.startNs, p.endNs)
  }

  lemma ReplayedParts(e: DeadlineEvidence, repetition: nat, a: Attempt, n: nat, total: nat, priorEndNs: int)
    requires AttemptReplays(e, repetition, a, n, total, priorEndNs)
    ensures a.attempt == n && a.conforms && a.precondition.conforms
    ensures a.precondition.tag == e.tag(DeadlineKey(repetition, n))
    ensures e.healthy(a.precondition.startNs, a.precondition.endNs)
    ensures BaseMarkers(e.markers, a.precondition, a.precondition.tag)
    ensures ChecksReplay(e, a.precondition.tag, a.precondition.checks, a.precondition.startNs, a.precondition.endNs)
    ensures BoundaryBinds(e, a.precondition, a.precondition.tag)
    ensures QualificationReplays(e, a, a.precondition.tag, repetition, n)
    ensures a.qualification.passed == (n == total)
    ensures priorEndNs < PrepareNs(e.markers, a.precondition.tag)
  {
    hide BaseMarkers, ChecksReplay, BoundaryBinds, QualificationReplays, PrepareNs;
  }

  /** A replayed attempt repeats its markers. */
  lemma AttemptIsLogged(e: DeadlineEvidence, repetition: nat, a: Attempt, n: nat, total: nat, priorEndNs: int)
    requires AttemptReplays(e, repetition, a, n, total, priorEndNs)
    ensures AttemptLogged(e, repetition, a, n)
    ensures a.qualification.outcome.failure.None? <==> n == total
    ensures priorEndNs < a.precondition.startNs
  {
    hide AttemptReplays, ChecksReplay, BoundaryBinds, Exact, ExactNs, Answered, At;
    ReplayedParts(e, repetition, a, n, total, priorEndNs);
    var markers, p, q := e.markers, a.precondition, a.qualification;
    ExactStands(markers, ThermalStart, OfTag(p.tag, Bare));
    ExactStands(markers, ThermalEnd, OfTag(p.tag, Successful));
    ExactStands(markers, ThermalStartQualification, QualificationMetadata(q, p.tag, n));
    ExactStands(markers, ThermalStartQualificationResult, ResultMetadata(q, p.tag, repetition, n));
  }

  function SampleOf(x: Extra): int { EndpointOf(x).sampleNs }

  /** The heating of an attempt ends on exactly three stable endpoints, each a second or more after the
      one before it, as every endpoint is; the boundary marker carries the last one, which is fresh. */
  ghost predicate EndsOnThreePasses(e: DeadlineEvidence, p: Precondition) {
    var checks, n := p.checks, |p.checks|;
    && n >= 3
    && (forall i :: 0 < i < n ==> SampleOf(checks[i]) >= SampleOf(checks[i - 1]) + 1000000000)
    && (forall i :: n - 3 <= i < n ==> e.stable(SampleOf(checks[i]), p.startNs))
    && (n > 3 ==> !e.stable(SampleOf(checks[n - 4]), p.startNs))
    && p.startNs <= SampleOf(checks[0]) && SampleOf(checks[n - 1]) < p.endNs
    && p.endNs - SampleOf(checks[n - 1]) < e.staleNs
    && p.lastWindow == e.window(SampleOf(checks[n - 1]), p.startNs) && p.lastWindow.Some?
    && Marker(p.endNs, ThermalMeasurementEnd, Metadata(None, None, Some(p.tag), None, None,
      BoundaryEntries(SampleOf(checks[n - 1]), 3, p.lastWindow))) in e.markers
  }

  lemma CheckIsReplayed(e: DeadlineEvidence, tag: string, checks: seq<Extra>, startNs: int, boundaryNs: int, i: nat)
    requires ChecksReplay(e, tag, checks, startNs, boundaryNs) && i < |checks|
    ensures startNs <= SampleOf(checks[i]) < boundaryNs
    ensures EndpointOf(checks[i]).passed == e.stable(SampleOf(checks[i]), startNs)
    ensures checks[i].CheckEntries? && checks[i].window == e.window(SampleOf(checks[i]), startNs)
    ensures checks[i].window.Some?
    ensures i > 0 ==> SampleOf(checks[i]) >= SampleOf(checks[i - 1]) + 1000000000
  {
    hide Streak, CheckPositions;
    UpToEach(CheckTurn(e, tag, checks, startNs, boundaryNs), i, |checks|);
  }

  lemma LastThree(e: DeadlineEvidence, tag: string, checks: seq<Extra>, startNs: int, boundaryNs: int)
    requires ChecksReplay(e, tag, checks, startNs, boundaryNs)
    ensures var n := |checks|;
      && n >= 3 && (forall i :: n - 3 <= i < n ==> EndpointOf(checks[i]).passed)
      && (n > 3 ==> !EndpointOf(checks[n - 4]).passed)
  {
    hide ChecksReplay, EndpointOf;
    ReplayedChecksStable(e, tag, checks, startNs, boundaryNs);
    StableEndsInThree(Endpoints(checks));
    var n := |checks|;
    assert n >= 3;
    assert forall i :: 0 <= i < n ==> Endpoints(checks)[i] == EndpointOf(checks[i]);
  }

  /** What the boundary of a replayed heating rests on. */
  lemma HeatingEndsStable(e: DeadlineEvidence, repetition: nat, a: Attempt, n: nat, total: nat, priorEndNs: int)
    requires AttemptReplays(e, repetition, a, n, total, priorEndNs)
    ensures EndsOnThreePasses(e, a.precondition)
  {
    hide AttemptReplays, ChecksReplay, BaseMarkers, QualificationReplays, Answered, Answer, At, SampleOf, PrepareNs;
    ReplayedParts(e, repetition, a, n, total, priorEndNs);
    var p := a.precondition;
    var checks, count := p.checks, |p.checks|;
    LastThree(e, p.tag, checks, p.startNs, p.endNs);
    forall i | 0 <= i < count
      ensures p.startNs <= SampleOf(checks[i]) < p.endNs
      ensures EndpointOf(checks[i]).passed == e.stable(SampleOf(checks[i]), p.startNs)
      ensures i > 0 ==> SampleOf(checks[i]) >= SampleOf(checks[i - 1]) + 1000000000
    {
      CheckIsReplayed(e, p.tag, checks, p.startNs, p.endNs, i);
    }
    BoundaryStands(e, p);
  }

  lemma BoundaryStands(e: DeadlineEvidence, p: Precondition)
    requires BaseMarkers(e.markers, p, p.tag) && ChecksReplay(e, p.tag, p.checks, p.startNs, p.endNs)
    requires BoundaryBinds(e, p, p.tag)
    ensures p.checks != []
    ensures var sampleNs := SampleOf(p.checks[|p.checks| - 1]);
      && p.endNs - sampleNs < e.staleNs
      && p.lastWindow == e.window(sampleNs, p.startNs) && p.lastWindow.Some?
      && Marker(p.endNs, ThermalMeasurementEnd, Metadata(None, None, Some(p.tag), None, None,
        BoundaryEntries(sampleNs, 3, p.lastWindow))) in e.markers
  {
    hide ChecksReplay, Exact, ExactNs, Answered, Answer, At;
    var last := p.checks[|p.checks| - 1];
    CheckIsReplayed(e, p.tag, p.checks, p.startNs, p.endNs, |p.checks| - 1);
    AnswerStands(e.markers, ThermalMeasurementEnd, p.tag, OfTag(p.tag, BoundaryEntries(last.sampleNs, 3, last.window)));
  }

  // ------------------------------------------------------------------
  // One block
  // ------------------------------------------------------------------

  /** The block's own markers: preparation and start, a window of the measurement, the qualification of
      its actual start, and the end, each in the log. */
  ghost predicate BlockLogged(markers: seq<DeadlineMarker>, c: Calibration, repetition: nat, prepareNs: int,
      windowNs: int, actualNs: int, endNs: int) {
    && Marker(prepareNs, CalibrationPrepare, Metadata(None, None, None, None, None, Stage(repetition))) in markers
    && Marker(c.releaseNs, CalibrationStart, Metadata(None, None, None, None, None, Stage(repetition))) in markers
    && Marker(actualNs, ThermalActualStartQualificationResult, Metadata(None, None, None, None, None,
      ActualEntries(repetition, c.startNs, c.actual.sampleNs, c.actual.failure.None?, c.actualFailure))) in markers
    && Marker(windowNs, CalibrationMeasurementWindow, Metadata(None, None, None, None, None,
      WindowEntries(repetition, c.startNs, c.endNs))) in markers
    && Marker(endNs, CalibrationEnd, Metadata(None, None, None, None, None, Stage(repetition))) in markers
  }

  lemma BlockParts(e: DeadlineEvidence, c: Calibration, repetition: nat, previousEnd: Option<int>)
    requires BlockReplays(e, c, repetition, previousEnd)
    ensures 1 <= |c.attempts| <= 3 && c.conforms && BlockMarkers(e.markers, c, repetition)
    ensures AttemptsReplay(e, c.attempts, repetition, |c.attempts|)
    ensures var last := c.attempts[|c.attempts| - 1];
      && BlockOrdered(e.markers, c, repetition, last.resultNs)
      && ActualStartReplays(e, c, last.qualification) && HandoffReplays(c, last.qualification, last.resultNs)
    ensures previousEnd.Some? ==>
      previousEnd.value < ExactNs(e.markers, CalibrationPrepare, OfStage(Stage(repetition)))
  {
    hide BlockMarkers, AttemptsReplay, BlockOrdered, ActualStartReplays, HandoffReplays, ExactNs;
  }

  /** A replayed block repeats its own markers, in order around its measurement. */
  lemma BlockIsLogged(e: DeadlineEvidence, c: Calibration, repetition: nat, previousEnd: Option<int>)
    returns (prepareNs: int, windowNs: int, actualNs: int, endNs: int)
    requires BlockReplays(e, c, repetition, previousEnd)
    ensures BlockLogged(e.markers, c, repetition, prepareNs, windowNs, actualNs, endNs)
    ensures previousEnd.Some? ==> previousEnd.value < prepareNs
    ensures prepareNs < c.attempts[|c.attempts| - 1].resultNs < c.releaseNs <= c.startNs < c.endNs
    ensures c.endNs < actualNs <= windowNs <= endNs && endNs == BlockEnd(e.markers, repetition)
  {
    hide BlockReplays, AttemptsReplay, ActualStartReplays, HandoffReplays, Exact, ExactNs;
    BlockParts(e, c, repetition, previousEnd);
    var markers, stage := e.markers, OfStage(Stage(repetition));
    prepareNs := ExactNs(markers, CalibrationPrepare, stage);
    windowNs := ExactNs(markers, CalibrationMeasurementWindow, WindowMetadata(c, repetition));
    actualNs := ExactNs(markers, ThermalActualStartQualificationResult, ActualMetadata(c, repetition));
    endNs := ExactNs(markers, CalibrationEnd, stage);
    ExactStands(markers, CalibrationPrepare, stage);
    ExactStands(markers, CalibrationStart, stage);
    ExactStands(markers, CalibrationMeasurementWindow, WindowMetadata(c, repetition));
    ExactStands(markers, ThermalActualStartQualificationResult, ActualMetadata(c, repetition));
    ExactStands(markers, CalibrationEnd, stage);
  }

  /** Attempt `k` of the first `n` replays after the one before it. */
  lemma {:induction false} EachAttempt(e: DeadlineEvidence, attempts: seq<Attempt>, repetition: nat, n: nat, k: nat)
    requires k < n <= |attempts| && AttemptsReplay(e, attempts, repetition, n)
    ensures AttemptReplays(e, repetition, attempts[k], k + 1, |attempts|, PriorEnd(e.markers, attempts, repetition, k))
  {
    hide AttemptReplays, PriorEnd;
    if k < n - 1 {
      EachAttempt(e, attempts, repetition, n - 1, k);
    }
  }

  /** An accepted calibration block in its clocks.  It has one to three thermal attempts, all of them
      logged and ended on three stable endpoints, of which the last, and no earlier one, qualified; the
      measurement was released after its result, began less than 500 ms after its boundary, and rests
      on a causally qualified sample no earlier than the one of the qualification. */
  lemma BlockInClocks(e: DeadlineEvidence, c: Calibration, repetition: nat, previousEnd: Option<int>)
    requires BlockReplays(e, c, repetition, previousEnd)
    ensures 1 <= |c.attempts| <= 3
    ensures forall k: nat :: k < |c.attempts| ==>
      && AttemptLogged(e, repetition, c.attempts[k], k + 1) && EndsOnThreePasses(e, c.attempts[k].precondition)
      && (c.attempts[k].qualification.outcome.failure.None? <==> k + 1 == |c.attempts|)
    ensures var last := c.attempts[|c.attempts| - 1];
      var p, q := last.precondition, last.qualification;
      && p.endNs < p.cleanupNs < q.qualificationNs < last.resultNs < c.releaseNs <= c.startNs < c.endNs
      && c.startNs < p.endNs + 500000000
      && c.actual == e.causal(c.startNs, p.cleanupNs, false) && c.actual.failure.None? && c.actualFailure.None?
      && q.outcome.sampleNs.Some? && c.actual.sampleNs.Some?
      && p.cleanupNs < q.outcome.sampleNs.value <= c.actual.sampleNs.value <= c.startNs
  {
    hide BlockReplays, AttemptReplays, AttemptLogged, EndsOnThreePasses, BlockMarkers, BlockOrdered, PriorEnd;
    hide AttemptsReplay;
    BlockParts(e, c, repetition, previousEnd);
    forall k: nat | k < |c.attempts|
      ensures AttemptLogged(e, repetition, c.attempts[k], k + 1) && EndsOnThreePasses(e, c.attempts[k].precondition)
      ensures c.attempts[k].qualification.outcome.failure.None? <==> k + 1 == |c.attempts|
    {
      EachAttempt(e, c.attempts, repetition, |c.attempts|, k);
      var prior := PriorEnd(e.markers, c.attempts, repetition, k);
      AttemptIsLogged(e, repetition, c.attempts[k], k + 1, |c.attempts|, prior);
      HeatingEndsStable(e, repetition, c.attempts[k], k + 1, |c.attempts|, prior);
    }
    LastClocks(e, c, repetition, previousEnd);
  }

  lemma LastClocks(e: DeadlineEvidence, c: Calibration, repetition: nat, previousEnd: Option<int>)
    requires BlockReplays(e, c, repetition, previousEnd)
    ensures c.attempts != []
    ensures var last := c.attempts[|c.attempts| - 1];
      && last.qualification.boundaryNs == last.precondition.endNs
      && last.qualification.cleanupNs == last.precondition.cleanupNs
      && c.startNs < c.endNs
  {
    hide BlockReplays, AttemptReplays, BlockMarkers, AttemptsReplay, ActualStartReplays, HandoffReplays, ExactNs;
    hide PriorEnd, BaseMarkers, ChecksReplay, BoundaryBinds;
    BlockParts(e, c, repetition, previousEnd);
    var n := |c.attempts|;
    EachAttempt(e, c.attempts, repetition, n, n - 1);
    ReplayedParts(e, repetition, c.attempts[n - 1], n, n, PriorEnd(e.markers, c.attempts, repetition, n - 1));
  }

  /** Every block of an accepted calibration replays, after the one before it. */
  lemma EachBlock(e: DeadlineEvidence, blocks: seq<Calibration>, k: nat)
    requires k < |blocks| && BlocksReplay(e, blocks, |blocks|)
    ensures BlockReplays(e, blocks[k], k + 1, if k == 0 then None else Some(BlockEnd(e.markers, k)))
  {
    hide BlockReplays, BlockEnd;
    BlocksReplayPrefix(e, blocks, k + 1, |blocks|);
  }
}
