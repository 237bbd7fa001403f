/** What exactly the guard campaign replay accepts (analysis/freeze_p9_guard.py:1521-1722, 1939-2168,
    2211-2456): conditions on the markers of the log and on the clocks of the record alone, each met
    if and only if the replay of that layer returns. */
module GuardExactly {
  import opened Common
  import opened Telemetry
  import opened ThermalWindow
  import opened Accounting
  import opened Chains
  import opened Streaks
  import opened ActiveStability
  import opened GuardRecords
  import opened GuardAttempts
  import opened GuardBlocks
  import opened GuardCampaign
  import opened GuardAccounting
  import opened Registry
  import opened GuardClocks

  // ------------------------------------------------------------------
  // Markers and loops
  // ------------------------------------------------------------------

  /** The log holds this marker, and no other one is wanted. */
  ghost predicate Sole(markers: seq<GuardMarker>, wanted: GuardMarker -> bool, m: GuardMarker) {
    exists k: nat :: Only(markers, wanted, k) && markers[k] == m
  }

  lemma SoleExactly(markers: seq<GuardMarker>, q: Query, wanted: GuardMarker -> bool, ns: int,
      metadata: Metadata<Extra>)
    requires forall j: nat :: j < |markers| ==> (Matches(markers[j], q) <==> wanted(markers[j]))
    ensures AnsweredWith(markers, q, metadata) && AnswerNs(markers, q) == ns <==>
      Sole(markers, wanted, Marker(ns, q.name, metadata))
  {
    hide Matches, Lookup;
    forall k: nat
      ensures Lookup(markers, q) == Some(k) <==> Only(markers, wanted, k)
    {
      LookupFinds(markers, q, wanted, k);
    }
    hide Only;
    if Answered(markers, q) {
      var k := Lookup(markers, q).value;
      LookupName(markers, q);
      assert Only(markers, wanted, k);
      forall l: nat | Only(markers, wanted, l)
        ensures l == k
      {
        assert Lookup(markers, q) == Some(l);
      }
    }
    if Sole(markers, wanted, Marker(ns, q.name, metadata)) {
      var k: nat :| Only(markers, wanted, k) && markers[k] == Marker(ns, q.name, metadata);
      assert Lookup(markers, q) == Some(k);
    }
  }

  lemma LookupName(markers: seq<GuardMarker>, q: Query)
    requires Answered(markers, q)
    ensures Answer(markers, q).name == q.name
  {
  }

  lemma {:induction false} AllTurns(turn: nat -> bool, n: nat)
    ensures UpTo(turn, n) <==> forall k: nat :: k < n ==> turn(k)
  {
    if n > 0 {
      AllTurns(turn, n - 1);
    }
  }

  // ------------------------------------------------------------------
  // The checks of a heating
  // ------------------------------------------------------------------

  /** `count` is the number of stable endpoints up to endpoint `i` since the last unstable one. */
  ghost predicate Counts(e: GuardEvidence, checks: seq<GuardMarker>, startNs: int, i: nat, count: int)
    requires i < |checks|
  {
    && 0 <= count <= i + 1
    && (forall j :: i + 1 - count <= j <= i ==> e.stable(SampleOf(checks[j]), startNs))
    && (count <= i ==> !e.stable(SampleOf(checks[i - count]), startNs))
  }

  /** Check `i` claims its own sample, taken after the start and no later than the check, what the raw
      samples say at it and the number of stable endpoints in a row; and it keeps its distance. */
  ghost predicate CheckStands(e: GuardEvidence, checks: seq<GuardMarker>, tag: string, startNs: int, i: nat)
    requires i < |checks|
  {
    var sampleNs := SampleOf(checks[i]);
    && (exists count: int ::
      && Counts(e, checks, startNs, i, count)
      && checks[i].metadata == Metadata(None, None, Some(tag), None, None,
        CheckEntries(i, sampleNs, e.stable(sampleNs, startNs), count, e.window(sampleNs, startNs))))
    && startNs < sampleNs <= checks[i].ns
    && (i > 0 && e.stable(SampleOf(checks[i - 1]), startNs) && e.stable(sampleNs, startNs) ==>
      sampleNs >= SampleOf(checks[i - 1]) + 1000000000)
  }

  /** The outcomes that the checks claim are those of the raw samples. */
  ghost predicate Honest(e: GuardEvidence, checks: seq<GuardMarker>, startNs: int) {
    forall j :: 0 <= j < |checks| ==> EndpointOf(checks[j]).passed == e.stable(SampleOf(checks[j]), startNs)
  }

  lemma CountIsStreak(e: GuardEvidence, checks: seq<GuardMarker>, startNs: int, i: nat, count: int)
    requires i < |checks| && Honest(e, checks, startNs)
    ensures Counts(e, checks, startNs, i, count) <==> count == Streak(Flags(Endpoints(checks)), i + 1)
  {
    var flags := Flags(Endpoints(checks));
    StreakIsPassingSuffix(flags, i + 1);
    var s := Streak(flags, i + 1);
    hide Streak, EndpointOf, SampleOf;
    assert forall j :: 0 <= j < |checks| ==> flags[j] == e.stable(SampleOf(checks[j]), startNs);
  }

  lemma CheckExactly(e: GuardEvidence, tag: string, checks: seq<GuardMarker>, startNs: int, i: nat)
    requires i < |checks| && Honest(e, checks, startNs)
    ensures CheckTurn(e, tag, checks, startNs)(i) <==> CheckStands(e, checks, tag, startNs, i)
  {
    hide Counts, Honest;
    forall count: int
      ensures Counts(e, checks, startNs, i, count) <==> count == Streak(Flags(Endpoints(checks)), i + 1)
    {
      CountIsStreak(e, checks, startNs, i, count);
    }
    OutcomeOf(e, checks, startNs, i);
    if i > 0 {
      OutcomeOf(e, checks, startNs, i - 1);
    }
    hide Streak;
  }

  lemma OutcomeOf(e: GuardEvidence, checks: seq<GuardMarker>, startNs: int, i: nat)
    requires i < |checks| && Honest(e, checks, startNs)
    ensures EndpointOf(checks[i]).passed == e.stable(SampleOf(checks[i]), startNs)
  {
  }

  /** The checks of a heating stand. */
  ghost predicate ChecksStand(e: GuardEvidence, checks: seq<GuardMarker>, tag: string, startNs: int) {
    forall i: nat :: i < |checks| ==> CheckStands(e, checks, tag, startNs, i)
  }

  /** The loop over the check markers accepts exactly the checks that stand. */
  lemma ChecksExactly(e: GuardEvidence, tag: string, checks: seq<GuardMarker>, startNs: int)
    ensures ChecksReplay(e, tag, checks, startNs) <==> ChecksStand(e, checks, tag, startNs)
  {
    var turn := CheckTurn(e, tag, checks, startNs);
    AllTurns(turn, |checks|);
    hide CheckTurn, CheckStands, Honest, UpTo;
    if ChecksReplay(e, tag, checks, startNs) {
      forall j | 0 <= j < |checks|
        ensures EndpointOf(checks[j]).passed == e.stable(SampleOf(checks[j]), startNs)
      {
        CheckIsReplayed(e, tag, checks, startNs, j);
      }
      AllHonest(e, checks, startNs);
    }
    if ChecksStand(e, checks, tag, startNs) {
      forall j | 0 <= j < |checks|
        ensures EndpointOf(checks[j]).passed == e.stable(SampleOf(checks[j]), startNs)
      {
        StandingOutcome(e, checks, tag, startNs, j);
      }
      AllHonest(e, checks, startNs);
    }
    if Honest(e, checks, startNs) {
      forall i: nat | i < |checks|
        ensures turn(i) <==> CheckStands(e, checks, tag, startNs, i)
      {
        CheckExactly(e, tag, checks, startNs, i);
      }
    }
  }

  lemma AllHonest(e: GuardEvidence, checks: seq<GuardMarker>, startNs: int)
    requires forall j :: 0 <= j < |checks| ==> EndpointOf(checks[j]).passed == e.stable(SampleOf(checks[j]), startNs)
    ensures Honest(e, checks, startNs)
  {
  }

  lemma StandingOutcome(e: GuardEvidence, checks: seq<GuardMarker>, tag: string, startNs: int, i: nat)
    requires i < |checks| && CheckStands(e, checks, tag, startNs, i)
    ensures EndpointOf(checks[i]).passed == e.stable(SampleOf(checks[i]), startNs)
  {
  }

  // ------------------------------------------------------------------
  // A heating
  // ------------------------------------------------------------------

  function Records(checks: seq<GuardMarker>): (records: seq<Extra>)
    ensures |records| == |checks| && forall i :: 0 <= i < |checks| ==> records[i] == checks[i].metadata.rest
  {
    seq(|checks|, i requires 0 <= i < |checks| => checks[i].metadata.rest)
  }

  /** The clocks of the checks increase between two others. */
  ghost predicate Between(from: int, checks: seq<GuardMarker>, to: int) {
    && (forall i :: 0 <= i < |checks| ==> from < checks[i].ns < to)
    && forall i, j :: 0 <= i < j < |checks| ==> checks[i].ns < checks[j].ns
  }

  /** The record of a heating stands in the log: its four outer markers are the only ones with their
      names and label, its checks stand, three stable endpoints in a row end it, its boundary carries the
      last of them, and its clocks increase. */
  ghost predicate HeatingStands(e: GuardEvidence, p: Precondition, tag: string, checks: seq<GuardMarker>,
      prepareNs: int) {
    var markers, n := e.markers, |checks|;
    && p.tag == tag && p.conforms && e.healthy(p.startNs, p.endNs)
    && Sole(markers, Labelled(ThermalPrepare, tag),
      Marker(prepareNs, ThermalPrepare, Metadata(None, None, Some(tag), None, None, NoMore)))
    && Sole(markers, Labelled(ThermalStart, tag),
      Marker(p.startNs, ThermalStart, Metadata(None, None, Some(tag), None, None, NoMore)))
    && Sole(markers, Labelled(ThermalEnd, tag),
      Marker(p.cleanupNs, ThermalEnd, Metadata(None, None, Some(tag), None, None, Successful(true))))
    && n >= 3 && ChecksStand(e, checks, tag, p.startNs) && Counts(e, checks, p.startNs, n - 1, 3)
    && p.checks == Records(checks) && p.lastWindow == e.window(SampleOf(checks[n - 1]), p.startNs)
    && Sole(markers, Labelled(ThermalMeasurementEnd, tag),
      Marker(p.endNs, ThermalMeasurementEnd, Metadata(None, None, Some(tag), None, None,
        BoundaryEntries(SampleOf(checks[n - 1]), 3, p.lastWindow))))
    && prepareNs < p.startNs < p.endNs < p.cleanupNs && Between(p.startNs, checks, p.endNs)
  }

  lemma TagSole(markers: seq<GuardMarker>, name: Name, tag: string, ns: int, metadata: Metadata<Extra>)
    ensures AnsweredWith(markers, ByTag(name, tag), metadata) && AnswerNs(markers, ByTag(name, tag)) == ns <==>
      Sole(markers, Labelled(name, tag), Marker(ns, name, metadata))
  {
    hide Sole, Lookup;
    SoleExactly(markers, ByTag(name, tag), Labelled(name, tag), ns, metadata);
  }

  lemma {:induction false} IncreasingChecks(prepareNs: int, startNs: int, checks: seq<GuardMarker>, endNs: int,
      cleanupNs: int)
    requires checks != [] && Increasing([prepareNs, startNs] + Clocks(checks) + [endNs, cleanupNs])
    ensures prepareNs < startNs < endNs < cleanupNs && Between(startNs, checks, endNs)
  {
    hide Increasing;
    var n, xs := |checks|, [prepareNs, startNs] + Clocks(checks) + [endNs, cleanupNs];
    EntriesIncrease(xs, 0, 1);
    EntriesIncrease(xs, 1, n + 2);
    EntriesIncrease(xs, n + 2, n + 3);
    forall i | 0 <= i < n
      ensures startNs < checks[i].ns < endNs
    {
      EntriesIncrease(xs, 1, i + 2);
      EntriesIncrease(xs, i + 2, n + 2);
    }
    forall i, j | 0 <= i < j < n
      ensures checks[i].ns < checks[j].ns
    {
      EntriesIncrease(xs, i + 2, j + 2);
    }
  }

  lemma EntriesIncrease(xs: seq<int>, i: nat, j: nat)
    requires Increasing(xs) && i < j < |xs|
    ensures xs[i] < xs[j]
  {
  }

  lemma ChainOfChecks(prepareNs: int, startNs: int, checks: seq<GuardMarker>, endNs: int, cleanupNs: int)
    requires checks != [] && prepareNs < startNs < endNs < cleanupNs && Between(startNs, checks, endNs)
    ensures Chain([prepareNs, startNs] + Clocks(checks) + [endNs, cleanupNs])
  {
    var clocks := Clocks(checks);
    assert Chain([prepareNs, startNs]) && Chain(clocks) && Chain([endNs, cleanupNs]);
    assert Last([prepareNs, startNs]) == startNs && Last(clocks) == checks[|checks| - 1].ns;
    ChainConcat([prepareNs, startNs], clocks);
    hide Chain, Between;
    assert Last([prepareNs, startNs] + clocks) == Last(clocks);
    ChainConcat([prepareNs, startNs] + clocks, [endNs, cleanupNs]);
  }

  lemma TimesExactly(prepareNs: int, startNs: int, checks: seq<GuardMarker>, endNs: int, cleanupNs: int)
    requires checks != []
    ensures Chain([prepareNs, startNs] + Clocks(checks) + [endNs, cleanupNs]) <==>
      prepareNs < startNs < endNs < cleanupNs && Between(startNs, checks, endNs)
  {
    hide Chain, Between, Increasing, Clocks;
    ChainIsIncreasing([prepareNs, startNs] + Clocks(checks) + [endNs, cleanupNs]);
    if Chain([prepareNs, startNs] + Clocks(checks) + [endNs, cleanupNs]) {
      IncreasingChecks(prepareNs, startNs, checks, endNs, cleanupNs);
    }
    if prepareNs < startNs < endNs < cleanupNs && Between(startNs, checks, endNs) {
      ChainOfChecks(prepareNs, startNs, checks, endNs, cleanupNs);
    }
  }

  /** `_validate_thermal_precondition` returns exactly for the heatings that stand, with the labelled
      check markers of the log as their checks. */
  lemma HeatingExactly(e: GuardEvidence, p: Precondition, tag: string)
    ensures PreconditionReplays(e, p, tag) <==>
      HeatingStands(e, p, tag, CheckMarkers(e.markers, tag), AnswerNs(e.markers, ByTag(ThermalPrepare, tag)))
  {
    hide Sole, ChecksStand, ChecksReplay, CheckMarkers, AnswerNs, Answered, Answer, Counts, Chain, Between, Clocks;
    hide Streak, SampleOf, ByTag, Labelled, Endpoints, Flags;
    var markers, checks := e.markers, CheckMarkers(e.markers, tag);
    var prepareNs := AnswerNs(markers, ByTag(ThermalPrepare, tag));
    TagSole(markers, ThermalPrepare, tag, prepareNs, TagMetadata(tag, NoMore));
    TagSole(markers, ThermalStart, tag, p.startNs, TagMetadata(tag, NoMore));
    TagSole(markers, ThermalEnd, tag, p.cleanupNs, TagMetadata(tag, Successful(true)));
    ChecksExactly(e, tag, checks, p.startNs);
    if |checks| >= 3 {
      LastOfChecks(e, p, tag, checks);
      TimesExactly(prepareNs, p.startNs, checks, p.endNs, p.cleanupNs);
    }
  }

  /** What the last check and the boundary must say to each other. */
  lemma LastOfChecks(e: GuardEvidence, p: Precondition, tag: string, checks: seq<GuardMarker>)
    requires |checks| >= 3
    ensures var n := |checks|;
      var last := checks[n - 1].metadata.rest;
      ChecksReplay(e, tag, checks, p.startNs) ==>
        && last.CheckEntries? && last.sampleNs == SampleOf(checks[n - 1])
        && last.window == e.window(SampleOf(checks[n - 1]), p.startNs)
        && (Counts(e, checks, p.startNs, n - 1, 3) <==> Streak(Flags(Endpoints(checks)), n) == 3)
        && ((AnsweredWith(e.markers, ByTag(ThermalMeasurementEnd, tag),
          TagMetadata(tag, BoundaryEntries(last.sampleNs, 3, last.window)))
          && AnswerNs(e.markers, ByTag(ThermalMeasurementEnd, tag)) == p.endNs) <==>
          Sole(e.markers, Labelled(ThermalMeasurementEnd, tag), Marker(p.endNs, ThermalMeasurementEnd,
            Metadata(None, None, Some(tag), None, None,
              BoundaryEntries(SampleOf(checks[n - 1]), 3, e.window(SampleOf(checks[n - 1]), p.startNs))))))
  {
    hide Sole, ChecksReplay, Lookup, Counts, Streak, Honest;
    var n := |checks|;
    if ChecksReplay(e, tag, checks, p.startNs) {
      forall j | 0 <= j < n
        ensures EndpointOf(checks[j]).passed == e.stable(SampleOf(checks[j]), p.startNs)
      {
        CheckIsReplayed(e, tag, checks, p.startNs, j);
      }
      AllHonest(e, checks, p.startNs);
      CheckIsReplayed(e, tag, checks, p.startNs, n - 1);
      CountIsStreak(e, checks, p.startNs, n - 1, 3);
      TagSole(e.markers, ThermalMeasurementEnd, tag, p.endNs, TagMetadata(tag,
        BoundaryEntries(SampleOf(checks[n - 1]), 3, e.window(SampleOf(checks[n - 1]), p.startNs))));
    }
  }

  // ------------------------------------------------------------------
  // A thermal attempt
  // ------------------------------------------------------------------

  /** Exactly the measured processes were paused. */
  ghost predicate PausedExactly(paused: map<int, string>, workers: seq<int>, critical: int) {
    && (forall pid :: pid in paused <==> pid in workers || pid == critical)
    && forall pid :: pid in paused ==> paused[pid] == "T"
  }

  /** The qualification of attempt `n` and its result stand in the log. */
  ghost predicate QualificationStands(e: GuardEvidence, id: Identity, a: ThermalAttempt, tag: string, n: nat) {
    var markers, p, q := e.markers, a.precondition, a.qualification;
    && q.attempt == n && q.boundaryNs == p.endNs && q.cleanupNs == p.cleanupNs
    && q.outcome == e.causal(q.qualificationNs, p.cleanupNs, true) && (q.passed <==> q.outcome.failure.None?)
    && Sole(markers, Qualifying(tag, n), Marker(q.qualificationNs, ThermalStartQualification,
      Metadata(None, None, Some(tag), Some(n), None, QualificationEntries(p.endNs, p.cleanupNs, q.outcome.sampleNs))))
    && Sole(markers, QualifyingResult(id, tag, n), Marker(a.resultNs, ThermalStartQualificationResult,
      Metadata(Some(id.caseId), Some(id.block), Some(tag), Some(id.attempt), Some(n),
        QualificationResultEntries(id.heldOut, p.endNs, p.cleanupNs, q.qualificationNs, q.outcome.sampleNs, q.passed,
          q.outcome.failure))))
    && p.cleanupNs < q.qualificationNs < a.resultNs
  }

  /** A qualified attempt started and released its processes, at clocks that stand in the log; another
      one did neither. */
  ghost predicate ReleaseStands(markers: seq<GuardMarker>, id: Identity, workers: seq<int>, critical: int,
      a: ThermalAttempt, n: nat) {
    if a.qualification.passed then
      && a.startNs.Some? && a.releaseNs.Some?
      && Sole(markers, OfThermalAttempt(GuardBlockStart, id, n), Marker(a.startNs.value, GuardBlockStart,
        Metadata(Some(id.caseId), Some(id.block), None, Some(id.attempt), Some(n),
          StartEntries(id.heldOut, workers, critical, a.qualification.boundaryNs))))
      && Sole(markers, OfThermalAttempt(GuardBlockMeasurementRelease, id, n),
        Marker(a.releaseNs.value, GuardBlockMeasurementRelease,
          Metadata(Some(id.caseId), Some(id.block), None, Some(id.attempt), Some(n),
            ReleaseEntries(id.heldOut, critical, a.qualification.boundaryNs))))
      && a.resultNs < a.startNs.value < a.releaseNs.value
    else
      a.startNs.None? && a.releaseNs.None?
  }

  /** The reason of a failed attempt. */
  function ReasonOf(a: ThermalAttempt): Option<PreReleaseFailure> {
    if a.qualification.outcome.failure.Some? then Some(QualificationFailed(a.qualification.outcome.failure.value))
    else Some(HandoffExceeded)
  }

  ghost predicate ThermalStands(e: GuardEvidence, id: Identity, workers: seq<int>, critical: int, a: ThermalAttempt,
      n: nat) {
    && a.attempt == n && a.tag == Tag(e, id, n)
    && PreconditionReplays(e, a.precondition, a.tag)
    && QualificationStands(e, id, a, a.tag, n)
    && PausedExactly(a.paused, workers, critical)
    && ReleaseStands(e.markers, id, workers, critical, a, n)
    && (a.preReleasePassed <==> ReleasedInTime(a))
    && a.failure == if ReleasedInTime(a) then None else ReasonOf(a)
  }

  lemma ChainSplits(xs: seq<int>, ys: seq<int>)
    requires xs != [] && ys != []
    ensures Chain(xs + ys) <==> Chain(xs) && Chain(ys) && Last(xs) < ys[0]
  {
    var all, n := xs + ys, |xs|;
    if Chain(all) {
      assert all[n - 1] < all[n - 1 + 1];
      forall i | 0 <= i < n - 1
        ensures xs[i] < xs[i + 1]
      {
        assert all[i] < all[i + 1];
      }
      TailChain(xs, ys);
    }
    if Chain(xs) && Chain(ys) && Last(xs) < ys[0] {
      ChainConcat(xs, ys);
    }
  }

  lemma PausedIs(paused: map<int, string>, workers: seq<int>, critical: int)
    ensures paused == PausedStates(workers, critical) <==> PausedExactly(paused, workers, critical)
  {
    var states := PausedStates(workers, critical);
    assert forall pid :: pid in states <==> pid in workers || pid == critical;
    assert forall pid :: pid in states ==> states[pid] == "T";
    hide PausedStates;
    if PausedExactly(paused, workers, critical) {
      forall pid
        ensures pid in paused.Keys <==> pid in states.Keys
      {
        assert pid in paused <==> pid in workers || pid == critical;
        assert pid in states <==> pid in workers || pid == critical;
      }
      assert forall pid :: pid in paused ==> paused[pid] == states[pid];
    }
  }

  lemma ThermalSoles(markers: seq<GuardMarker>, id: Identity, tag: string, n: nat, name: Name, ns: int,
      metadata: Metadata<Extra>)
    ensures (AnsweredWith(markers, QualificationQuery(tag, n), metadata)
      && AnswerNs(markers, QualificationQuery(tag, n)) == ns) <==>
      Sole(markers, Qualifying(tag, n), Marker(ns, ThermalStartQualification, metadata))
    ensures (AnsweredWith(markers, QualificationResultQuery(id, tag, n), metadata)
      && AnswerNs(markers, QualificationResultQuery(id, tag, n)) == ns) <==>
      Sole(markers, QualifyingResult(id, tag, n), Marker(ns, ThermalStartQualificationResult, metadata))
    ensures (AnsweredWith(markers, ByThermal(name, id, n), metadata)
      && AnswerNs(markers, ByThermal(name, id, n)) == ns) <==>
      Sole(markers, OfThermalAttempt(name, id, n), Marker(ns, name, metadata))
  {
    hide Sole, Lookup;
    SoleExactly(markers, QualificationQuery(tag, n), Qualifying(tag, n), ns, metadata);
    SoleExactly(markers, QualificationResultQuery(id, tag, n), QualifyingResult(id, tag, n), ns, metadata);
    SoleExactly(markers, ByThermal(name, id, n), OfThermalAttempt(name, id, n), ns, metadata);
  }

  lemma QualificationExactly(e: GuardEvidence, id: Identity, a: ThermalAttempt, tag: string, n: nat)
    ensures QualificationStands(e, id, a, tag, n) <==>
      QualificationReplays(e, a, tag, n) && ResultReplays(e.markers, id, a, tag, n)
      && a.qualification.qualificationNs < a.resultNs
  {
    hide Sole, Answered, Answer, AnswerNs, QualificationQuery, QualificationResultQuery;
    var p, q := a.precondition, a.qualification;
    ThermalSoles(e.markers, id, tag, n, GuardBlockStart, q.qualificationNs,
      Metadata(None, None, Some(tag), Some(n), None, QualificationEntries(p.endNs, p.cleanupNs, q.outcome.sampleNs)));
    ThermalSoles(e.markers, id, tag, n, GuardBlockStart, a.resultNs,
      Metadata(Some(id.caseId), Some(id.block), Some(tag), Some(id.attempt), Some(n),
        QualificationResultEntries(id.heldOut, q.boundaryNs, q.cleanupNs, q.qualificationNs, q.outcome.sampleNs,
          q.passed, q.outcome.failure)));
  }

  lemma ReleaseExactly(markers: seq<GuardMarker>, id: Identity, workers: seq<int>, critical: int, a: ThermalAttempt,
      n: nat)
    ensures ReleaseStands(markers, id, workers, critical, a, n) <==>
      ReleaseReplays(markers, id, a, workers, critical, n)
      && (a.qualification.passed ==>
        a.startNs.Some? && a.releaseNs.Some? && a.resultNs < a.startNs.value < a.releaseNs.value)
  {
    hide Sole, Answered, Answer, AnswerNs, ByThermal;
    if a.startNs.Some? && a.releaseNs.Some? {
      ThermalSoles(markers, id, "", n, GuardBlockStart, a.startNs.value,
        ThermalMetadata(id, n, StartEntries(id.heldOut, workers, critical, a.qualification.boundaryNs)));
      ThermalSoles(markers, id, "", n, GuardBlockMeasurementRelease, a.releaseNs.value,
        ThermalMetadata(id, n, ReleaseEntries(id.heldOut, critical, a.qualification.boundaryNs)));
    }
  }

  /** The clocks that the replay of an attempt compares increase exactly when these do. */
  lemma ThermalOrder(e: GuardEvidence, id: Identity, workers: seq<int>, critical: int, a: ThermalAttempt, n: nat)
    requires a.tag == Tag(e, id, n) && PreconditionReplays(e, a.precondition, a.tag)
    requires QualificationReplays(e, a, a.tag, n) && ResultReplays(e.markers, id, a, a.tag, n)
    requires ReleaseReplays(e.markers, id, a, workers, critical, n)
    ensures Chain(ThermalTimes(e, id, a, n)) <==>
      a.precondition.cleanupNs < a.qualification.qualificationNs < a.resultNs
      && (a.qualification.passed ==>
        a.startNs.Some? && a.releaseNs.Some? && a.resultNs < a.startNs.value < a.releaseNs.value)
  {
    hide PreconditionReplays, QualificationReplays, ResultReplays, ReleaseReplays, PreconditionTimes, ThermalTimes;
    hide Chain;
    var before := PreconditionTimes(e.markers, a.tag);
    CleanupIsLast(e, a.precondition, a.tag);
    var tail := TailOf(e, id, workers, critical, a, n);
    ChainSplits(before, tail);
    ShortChain(tail);
  }

  /** What follows the heating in the clocks of an attempt. */
  lemma TailOf(e: GuardEvidence, id: Identity, workers: seq<int>, critical: int, a: ThermalAttempt, n: nat)
    returns (tail: seq<int>)
    requires a.tag == Tag(e, id, n) && QualificationReplays(e, a, a.tag, n)
    requires ResultReplays(e.markers, id, a, a.tag, n) && ReleaseReplays(e.markers, id, a, workers, critical, n)
    ensures ThermalTimes(e, id, a, n) == PreconditionTimes(e.markers, a.tag) + tail
    ensures a.qualification.passed ==> a.startNs.Some? && a.releaseNs.Some?
    ensures a.qualification.passed ==>
      tail == [a.qualification.qualificationNs, a.resultNs, a.startNs.value, a.releaseNs.value]
    ensures !a.qualification.passed ==> tail == [a.qualification.qualificationNs, a.resultNs]
  {
    hide PreconditionTimes, Answered, Answer, AnswerNs, QualificationQuery, QualificationResultQuery, ByThermal;
    tail := [a.qualification.qualificationNs, a.resultNs]
      + if a.qualification.passed then [a.startNs.value, a.releaseNs.value] else [];
  }

  lemma ShortChain(xs: seq<int>)
    ensures |xs| == 2 ==> (Chain(xs) <==> xs[0] < xs[1])
    ensures |xs| == 4 ==> (Chain(xs) <==> xs[0] < xs[1] < xs[2] < xs[3])
  {
    if |xs| == 4 && Chain(xs) {
      assert xs[0] < xs[0 + 1] && xs[1] < xs[1 + 1] && xs[2] < xs[2 + 1];
    }
  }

  lemma CleanupIsLast(e: GuardEvidence, p: Precondition, tag: string)
    requires PreconditionReplays(e, p, tag)
    ensures var times := PreconditionTimes(e.markers, tag);
      times != [] && Chain(times) && Last(times) == p.cleanupNs && times[0] == AnswerNs(e.markers,
        ByTag(ThermalPrepare, tag))
  {
    hide ChecksReplay, CheckMarkers, Answered, Answer, AnswerNs, Streak, Chain;
  }

  /** A turn of `_replay_qualification_attempts` accepts exactly the attempts that stand. */
  lemma ThermalExactly(e: GuardEvidence, id: Identity, workers: seq<int>, critical: int, a: ThermalAttempt, n: nat)
    ensures ThermalReplays(e, id, workers, critical, a, n) <==> ThermalStands(e, id, workers, critical, a, n)
  {
    hide PreconditionReplays, QualificationReplays, ResultReplays, ReleaseReplays, PreReleasePasses, ThermalTimes;
    hide PreReleaseFailureOf, QualificationStands, ReleaseStands, PausedExactly, PausedStates, ReleasedInTime, Chain;
    hide Tag;
    PausedIs(a.paused, workers, critical);
    QualificationExactly(e, id, a, a.tag, n);
    ReleaseExactly(e.markers, id, workers, critical, a, n);
    if a.tag == Tag(e, id, n) && PreconditionReplays(e, a.precondition, a.tag)
      && QualificationReplays(e, a, a.tag, n) && ReleaseReplays(e.markers, id, a, workers, critical, n)
    {
      VerdictFromClocks(e, id, workers, critical, a, a.tag, n);
      if ResultReplays(e.markers, id, a, a.tag, n) {
        ThermalOrder(e, id, workers, critical, a, n);
        CleanupBefore(e, a, a.tag, n);
      }
    }
  }

  lemma CleanupBefore(e: GuardEvidence, a: ThermalAttempt, tag: string, n: nat)
    requires QualificationReplays(e, a, tag, n)
    ensures a.precondition.cleanupNs < a.qualification.qualificationNs
  {
    hide Answered, Answer, AnswerNs, QualificationQuery;
  }

  // ------------------------------------------------------------------
  // The attempts of a block-attempt
  // ------------------------------------------------------------------

  /** The last marker clock of an attempt. */
  function LastClock(a: ThermalAttempt): int {
    if a.qualification.passed && a.releaseNs.Some? then a.releaseNs.value else a.resultNs
  }

  /** The prepare clock of attempt `n`. */
  function PrepareClock(e: GuardEvidence, id: Identity, n: nat): int {
    AnswerNs(e.markers, ByTag(ThermalPrepare, Tag(e, id, n)))
  }

  /** Attempt `t + 1` stands, was prepared after the last clock of the one before it, and was released
      in time exactly when it is the last. */
  ghost predicate TurnStands(e: GuardEvidence, id: Identity, workers: seq<int>, critical: int,
      attempts: seq<ThermalAttempt>, t: nat)
    requires t < |attempts|
  {
    && ThermalStands(e, id, workers, critical, attempts[t], t + 1)
    && (ReleasedInTime(attempts[t]) <==> t == |attempts| - 1)
    && (t > 0 ==> LastClock(attempts[t - 1]) < PrepareClock(e, id, t + 1))
  }

  /** One to three such attempts, of which the last is the selected one. */
  ghost predicate AttemptsStand(e: GuardEvidence, id: Identity, workers: seq<int>, critical: int,
      attempts: seq<ThermalAttempt>, selected: int) {
    && 1 <= |attempts| <= 3 && selected == |attempts|
    && forall t: nat :: t < |attempts| ==> TurnStands(e, id, workers, critical, attempts, t)
  }

  lemma ThermalEnds(e: GuardEvidence, id: Identity, workers: seq<int>, critical: int, a: ThermalAttempt, n: nat)
    requires ThermalReplays(e, id, workers, critical, a, n)
    ensures var times := ThermalTimes(e, id, a, n);
      times != [] && times[0] == PrepareClock(e, id, n) && Last(times) == LastClock(a)
  {
    hide ThermalReplays, QualificationReplays, ResultReplays, ReleaseReplays, PreconditionReplays, PreReleasePasses;
    hide AnswerNs, PreconditionTimes, ThermalTimes, PreReleaseFailureOf, BaseMarkers, BoundaryBinds;
    ThermalParts(e, id, workers, critical, a, n);
    HeatingOf(e, id, workers, critical, a, n);
    CleanupIsLast(e, a.precondition, a.tag);
    var tail := TailOf(e, id, workers, critical, a, n);
  }

  lemma HeatingOf(e: GuardEvidence, id: Identity, workers: seq<int>, critical: int, a: ThermalAttempt, n: nat)
    requires ThermalReplays(e, id, workers, critical, a, n)
    ensures PreconditionReplays(e, a.precondition, a.tag)
  {
    hide QualificationReplays, ResultReplays, ReleaseReplays, PreconditionReplays, PreReleasePasses, ThermalTimes;
    hide PreReleaseFailureOf, Chain;
  }

  lemma TimesEnd(e: GuardEvidence, id: Identity, attempts: seq<ThermalAttempt>, t: nat)
    requires 1 <= t <= |attempts| && ThermalTimes(e, id, attempts[t - 1], t) != []
    ensures TimesUpTo(e, id, attempts, t) != []
    ensures Last(TimesUpTo(e, id, attempts, t)) == Last(ThermalTimes(e, id, attempts[t - 1], t))
  {
    hide ThermalTimes;
  }

  /** One turn of the loop over the attempts, when they all replay. */
  lemma TurnExactly(e: GuardEvidence, id: Identity, workers: seq<int>, critical: int, attempts: seq<ThermalAttempt>,
      t: nat)
    requires t < |attempts|
    requires forall k: nat :: k <= t ==> ThermalReplays(e, id, workers, critical, attempts[k], k + 1)
    ensures AttemptTurn(e, id, workers, critical, attempts)(t) <==>
      (ReleasedInTime(attempts[t]) <==> t == |attempts| - 1)
      && (t > 0 ==> LastClock(attempts[t - 1]) < PrepareClock(e, id, t + 1))
  {
    hide ThermalReplays, ThermalTimes, ReleasedInTime, LastClock, PrepareClock, TimesUpTo;
    ThermalEnds(e, id, workers, critical, attempts[t], t + 1);
    ReleasedExactly(e, id, workers, critical, attempts[t], t + 1);
    if t > 0 {
      ThermalEnds(e, id, workers, critical, attempts[t - 1], t);
      TimesEnd(e, id, attempts, t);
    } else {
      NoTimes(e, id, attempts);
    }
  }

  lemma NoTimes(e: GuardEvidence, id: Identity, attempts: seq<ThermalAttempt>)
    ensures TimesUpTo(e, id, attempts, 0) == []
  {
  }

  lemma StandingTurn(e: GuardEvidence, id: Identity, workers: seq<int>, critical: int, attempts: seq<ThermalAttempt>,
      t: nat)
    requires t < |attempts|
    requires forall k: nat :: k < t ==> ThermalReplays(e, id, workers, critical, attempts[k], k + 1)
    ensures TurnStands(e, id, workers, critical, attempts, t) <==> AttemptTurn(e, id, workers, critical, attempts)(t)
    ensures TurnStands(e, id, workers, critical, attempts, t) ==>
      ThermalReplays(e, id, workers, critical, attempts[t], t + 1)
  {
    hide ThermalReplays, ThermalStands, ReleasedInTime, LastClock, PrepareClock, ThermalTimes, TimesUpTo, StartsAfter;
    ThermalExactly(e, id, workers, critical, attempts[t], t + 1);
    if ThermalReplays(e, id, workers, critical, attempts[t], t + 1) {
      TurnExactly(e, id, workers, critical, attempts, t);
    }
  }

  lemma {:induction false} StandingTurns(e: GuardEvidence, id: Identity, workers: seq<int>, critical: int,
      attempts: seq<ThermalAttempt>, n: nat)
    requires n <= |attempts|
    ensures UpTo(AttemptTurn(e, id, workers, critical, attempts), n) <==>
      forall t: nat :: t < n ==> TurnStands(e, id, workers, critical, attempts, t)
    ensures UpTo(AttemptTurn(e, id, workers, critical, attempts), n) ==>
      forall t: nat :: t < n ==> ThermalReplays(e, id, workers, critical, attempts[t], t + 1)
  {
    hide AttemptTurn, ThermalReplays, TurnStands;
    if n > 0 {
      StandingTurns(e, id, workers, critical, attempts, n - 1);
      if UpTo(AttemptTurn(e, id, workers, critical, attempts), n - 1) {
        StandingTurn(e, id, workers, critical, attempts, n - 1);
      }
    }
  }

  /** `_replay_qualification_attempts` returns exactly for the lists that stand. */
  lemma AttemptsExactly(e: GuardEvidence, id: Identity, workers: seq<int>, critical: int,
      attempts: seq<ThermalAttempt>, selected: int)
    ensures AttemptsReplay(e, id, workers, critical, attempts, selected) <==>
      AttemptsStand(e, id, workers, critical, attempts, selected)
  {
    hide AttemptTurn, TurnStands, UpTo;
    StandingTurns(e, id, workers, critical, attempts, |attempts|);
  }

  // ------------------------------------------------------------------
  // A block-attempt
  // ------------------------------------------------------------------

  /** Its files say what `GuardClocks.AttemptFiled` says, one for each worker. */
  ghost predicate FilesStand(files: Files, s: Step) {
    && MeasurementFiled(files, s.attempt) && |s.attempt.workerJson| == s.workers
    && (forall k :: 0 <= k < |s.attempt.workerJson| ==> WorkerFiled(files, s.attempt, s.attempt.workerJson[k]))
    && PidsFiled(files, s.attempt, WorkerPids(files, s))
  }

  /** Its prepare, resume, actual-start, result and end markers are the only ones of this block-attempt. */
  ghost predicate OuterStands(markers: seq<GuardMarker>, id: Identity, a: BlockAttempt, workers: seq<int>,
      critical: int, boundaryNs: int) {
    && Sole(markers, OfBlockAttempt(GuardBlockPrepare, id), Marker(a.prepareNs, GuardBlockPrepare,
      Metadata(Some(id.caseId), Some(id.block), None, Some(id.attempt), None, PrepareEntries(id.heldOut))))
    && Sole(markers, OfBlockAttempt(GuardBlockResume, id), Marker(a.resumeNs, GuardBlockResume,
      Metadata(Some(id.caseId), Some(id.block), None, Some(id.attempt), Some(a.selected),
        ResumeEntries(id.heldOut, critical, workers, boundaryNs))))
    && Sole(markers, OfBlockAttempt(GuardActualStartQualification, id),
      Marker(a.actualNs, GuardActualStartQualification,
        Metadata(Some(id.caseId), Some(id.block), None, Some(id.attempt), None,
          ActualStartEntries(id.heldOut, a.actual.startNs, a.actual.outcome, a.actual.passed))))
    && Sole(markers, OfBlockAttempt(GuardBlockResult, id), Marker(a.resultNs, GuardBlockResult,
      Metadata(Some(id.caseId), Some(id.block), None, Some(id.attempt), None,
        BlockResultEntries(id.heldOut, a.measurementStartNs, a.measurementEndNs, a.actualNs, a.handoff, a.valid))))
    && Sole(markers, OfBlockAttempt(GuardBlockEnd, id), Marker(a.endNs, GuardBlockEnd,
      Metadata(Some(id.caseId), Some(id.block), None, Some(id.attempt), None, EndEntries(id.heldOut, a.valid))))
  }

  /** Its handoff records the boundary and eight clocks of its last heating `t` and says whether they are
      strictly ordered and within 500 ms; it is valid when they are and the sample at the start of the
      measurement is causally qualified. */
  ghost predicate HandoffStands(e: GuardEvidence, a: BlockAttempt, t: ThermalAttempt) {
    var p, q := t.precondition, t.qualification;
    && q.outcome.sampleNs.Some? && t.startNs == Some(a.startNs) && t.releaseNs == Some(a.releaseNs)
    && a.handoff.boundaryNs == p.endNs
    && a.handoff.clocks == [p.cleanupNs, q.outcome.sampleNs.value, q.qualificationNs, t.resultNs, a.startNs,
      a.releaseNs, a.resumeNs, a.measurementStartNs]
    && (a.handoff.within <==>
      p.cleanupNs < q.outcome.sampleNs.value < q.qualificationNs && a.measurementStartNs < p.endNs + 500000000)
    && a.actual.startNs == a.measurementStartNs
    && a.actual.outcome == e.causal(a.measurementStartNs, p.cleanupNs, false)
    && (a.actual.passed <==> a.actual.outcome.failure.None?)
    && (a.valid <==> a.handoff.within && a.actual.passed)
  }

  ghost predicate StepStands(e: GuardEvidence, files: Files, s: Step, priorEndNs: int) {
    var id, a, workers, critical := s.id, s.attempt, WorkerPids(files, s), Critical(files, s);
    && a.attempt == id.attempt && a.conforms && a.thermalAttempts != []
    && FilesStand(files, s)
    && AttemptsReplay(e, id, workers, critical, a.thermalAttempts, a.selected)
    && OuterStands(e.markers, id, a, workers, critical, LastThermal(a).precondition.endNs)
    && HandoffStands(e, a, LastThermal(a))
    && priorEndNs < a.prepareNs < PrepareClock(e, id, 1)
    && a.releaseNs < a.resumeNs < a.measurementStartNs < a.measurementEndNs < a.actualNs < a.resultNs < a.endNs
    && e.healthy(a.measurementStartNs, a.measurementEndNs)
  }

  lemma FilesExactly(files: Files, s: Step)
    ensures FilesReplay(files, s) <==> FilesStand(files, s)
  {
    hide MeasurementFiled, WorkerFiled, PidsFiled, WorkerPids, FilesReplay;
    if FilesReplay(files, s) {
      TwoFiled(files, s);
      EveryPidFiled(files, s);
      forall k | 0 <= k < |s.attempt.workerJson|
        ensures WorkerFiled(files, s.attempt, s.attempt.workerJson[k])
      {
        OneWorkerFiled(files, s, k);
      }
    }
    if FilesStand(files, s) {
      StandingFiles(files, s);
    }
  }

  lemma StandingFiles(files: Files, s: Step)
    requires FilesStand(files, s)
    ensures FilesReplay(files, s)
  {
    hide WorkerPids;
    forall k | 0 <= k < |s.attempt.workerJson|
      ensures WorkerReplays(ContentOf(files, s.attempt.workerJson[k]), s.attempt)
    {
      assert WorkerFiled(files, s.attempt, s.attempt.workerJson[k]);
    }
  }

  lemma BlockSole(markers: seq<GuardMarker>, name: Name, id: Identity, ns: int, metadata: Metadata<Extra>)
    ensures (AnsweredWith(markers, ByAttempt(name, id), metadata) && AnswerNs(markers, ByAttempt(name, id)) == ns) <==>
      Sole(markers, OfBlockAttempt(name, id), Marker(ns, name, metadata))
  {
    hide Sole, Lookup;
    SoleExactly(markers, ByAttempt(name, id), OfBlockAttempt(name, id), ns, metadata);
  }

  /** The own markers of a block-attempt replay exactly when they stand. */
  lemma OuterExactly(markers: seq<GuardMarker>, s: Step, workers: seq<int>, critical: int, t: ThermalAttempt)
    requires t.startNs == Some(s.attempt.startNs) && t.releaseNs == Some(s.attempt.releaseNs)
    requires s.attempt.selected >= 0 && t.qualification.passed
    requires ReleaseReplays(markers, s.id, t, workers, critical, s.attempt.selected)
    ensures OuterStands(markers, s.id, s.attempt, workers, critical, t.qualification.boundaryNs) <==>
      MarkersReplay(markers, s)
      && AnsweredWith(markers, ByAttempt(GuardBlockResume, s.id), ThermalMetadata(s.id, s.attempt.selected,
        ResumeEntries(s.id.heldOut, critical, workers, t.qualification.boundaryNs)))
      && AnsweredWith(markers, ByAttempt(GuardActualStartQualification, s.id), AttemptMetadata(s.id,
        ActualStartEntries(s.id.heldOut, s.attempt.actual.startNs, s.attempt.actual.outcome, s.attempt.actual.passed)))
      && AnsweredWith(markers, ByAttempt(GuardBlockResult, s.id), AttemptMetadata(s.id,
        BlockResultEntries(s.id.heldOut, s.attempt.measurementStartNs, s.attempt.measurementEndNs, s.attempt.actualNs,
          s.attempt.handoff, s.attempt.valid)))
      && AnsweredWith(markers, ByAttempt(GuardBlockEnd, s.id), AttemptMetadata(s.id, EndEntries(s.id.heldOut,
        s.attempt.valid)))
  {
    hide Sole, Lookup, Answer, AnswerNs, ByAttempt, ByThermal;
    var id, a := s.id, s.attempt;
    BlockSole(markers, GuardBlockPrepare, id, a.prepareNs, AttemptMetadata(id, PrepareEntries(id.heldOut)));
    BlockSole(markers, GuardBlockResume, id, a.resumeNs, ThermalMetadata(id, a.selected,
      ResumeEntries(id.heldOut, critical, workers, t.qualification.boundaryNs)));
    BlockSole(markers, GuardActualStartQualification, id, a.actualNs, AttemptMetadata(id,
      ActualStartEntries(id.heldOut, a.actual.startNs, a.actual.outcome, a.actual.passed)));
    BlockSole(markers, GuardBlockResult, id, a.resultNs, AttemptMetadata(id,
      BlockResultEntries(id.heldOut, a.measurementStartNs, a.measurementEndNs, a.actualNs, a.handoff, a.valid)));
    BlockSole(markers, GuardBlockEnd, id, a.endNs, AttemptMetadata(id, EndEntries(id.heldOut, a.valid)));
  }

  /** What a step that replays, and a step that stands, both say about their last thermal attempt. */
  lemma LastAttemptStands(e: GuardEvidence, s: Step, workers: seq<int>, critical: int)
    requires AttemptsReplay(e, s.id, workers, critical, s.attempt.thermalAttempts, s.attempt.selected)
    ensures s.attempt.thermalAttempts != [] && s.attempt.selected == |s.attempt.thermalAttempts|
    ensures var t, n := LastThermal(s.attempt), |s.attempt.thermalAttempts|;
      && ReleaseReplays(e.markers, s.id, t, workers, critical, n) && t.qualification.passed
      && t.qualification.boundaryNs == t.precondition.endNs && t.qualification.cleanupNs == t.precondition.cleanupNs
      && t.precondition.endNs < t.precondition.cleanupNs < t.qualification.qualificationNs < t.resultNs
      && t.startNs.Some? && t.releaseNs.Some? && t.resultNs < t.startNs.value < t.releaseNs.value
      && t.qualification.outcome.sampleNs.Some?
      && ThermalReplays(e, s.id, workers, critical, t, n)
  {
    hide AttemptsReplay, ThermalReplays, Answered, Answer, AnswerNs;
    var n := |s.attempt.thermalAttempts|;
    FirstReleasedInTime(e, s.id, workers, critical, s.attempt.thermalAttempts, s.attempt.selected);
    SelectedReplays(e, s, workers, critical);
    LastRelease(e, s.id, workers, critical, LastThermal(s.attempt), n);
    ReleasedClocks(e, s.id, workers, critical, LastThermal(s.attempt), n);
  }

  lemma LastRelease(e: GuardEvidence, id: Identity, workers: seq<int>, critical: int, t: ThermalAttempt, n: nat)
    requires ThermalReplays(e, id, workers, critical, t, n)
    ensures ReleaseReplays(e.markers, id, t, workers, critical, n)
  {
    hide ThermalReplays, ReleaseReplays, BaseMarkers, BoundaryBinds, QualificationReplays, ResultReplays;
    hide PreReleasePasses, PreReleaseFailureOf, PausedStates;
    ThermalParts(e, id, workers, critical, t, n);
  }

  /** The first and the last clock of the thermal attempts. */
  lemma {:induction false} FirstTime(e: GuardEvidence, id: Identity, attempts: seq<ThermalAttempt>, n: nat)
    requires 1 <= n <= |attempts| && ThermalTimes(e, id, attempts[0], 1) != []
    ensures TimesUpTo(e, id, attempts, n) != []
    ensures TimesUpTo(e, id, attempts, n)[0] == ThermalTimes(e, id, attempts[0], 1)[0]
  {
    hide ThermalTimes;
    if n > 1 {
      FirstTime(e, id, attempts, n - 1);
    }
  }

  lemma ThermalEdges(e: GuardEvidence, s: Step, workers: seq<int>, critical: int)
    requires AttemptsReplay(e, s.id, workers, critical, s.attempt.thermalAttempts, s.attempt.selected)
    ensures s.attempt.thermalAttempts != []
    ensures var times := ThermalClocks(e, s);
      && times != [] && times[0] == PrepareClock(e, s.id, 1) && Some(Last(times)) == LastThermal(s.attempt).releaseNs
  {
    hide AttemptsReplay, ThermalReplays, ThermalTimes, PrepareClock, TimesUpTo, ReleaseReplays;
    var attempts, n := s.attempt.thermalAttempts, |s.attempt.thermalAttempts|;
    LastAttemptStands(e, s, workers, critical);
    FirstReleasedInTime(e, s.id, workers, critical, attempts, s.attempt.selected);
    ThermalEnds(e, s.id, workers, critical, attempts[0], 1);
    ThermalEnds(e, s.id, workers, critical, attempts[n - 1], n);
    FirstTime(e, s.id, attempts, n);
    TimesEnd(e, s.id, attempts, n);
  }

  /** The handoff and the verdict replay exactly when they stand, once the clocks are in order. */
  lemma HandoffExactly(e: GuardEvidence, s: Step, t: ThermalAttempt)
    requires t.startNs == Some(s.attempt.startNs) && t.releaseNs == Some(s.attempt.releaseNs)
    requires t.qualification.boundaryNs == t.precondition.endNs && t.qualification.cleanupNs == t.precondition.cleanupNs
    requires t.qualification.outcome.sampleNs.Some?
    requires var a, p, q := s.attempt, t.precondition, t.qualification;
      && p.endNs < p.cleanupNs < q.qualificationNs < t.resultNs < a.startNs < a.releaseNs < a.resumeNs
      && a.resumeNs < a.measurementStartNs
    ensures HandoffStands(e, s.attempt, t) <==>
      && s.attempt.handoff == Handoff(t.qualification.boundaryNs, HandoffClocks(s.attempt, t),
        StrictlyWithin(t.qualification.boundaryNs, HandoffClocks(s.attempt, t)))
      && s.attempt.valid == (s.attempt.handoff.within && s.attempt.actual.passed)
      && var outcome := e.causal(s.attempt.measurementStartNs, t.qualification.cleanupNs, false);
      s.attempt.actual == ActualStart(s.attempt.measurementStartNs, outcome, outcome.failure.None?)
  {
    hide StrictlyWithin;
    HandoffInClocks(t.qualification.boundaryNs, HandoffClocks(s.attempt, t));
  }

  /** The clocks, once the thermal attempts replay. */
  lemma OrderExactly(e: GuardEvidence, s: Step, workers: seq<int>, critical: int, priorEndNs: int)
    requires AttemptsReplay(e, s.id, workers, critical, s.attempt.thermalAttempts, s.attempt.selected)
    requires s.attempt.thermalAttempts != []
    requires LastThermal(s.attempt).startNs == Some(s.attempt.startNs)
    requires LastThermal(s.attempt).releaseNs == Some(s.attempt.releaseNs)
    ensures var a := s.attempt;
      Ordered(a, ThermalClocks(e, s), priorEndNs) <==>
        priorEndNs < a.prepareNs < PrepareClock(e, s.id, 1)
        && a.releaseNs < a.resumeNs < a.measurementStartNs < a.measurementEndNs < a.actualNs < a.resultNs < a.endNs
  {
    hide AttemptsReplay, ThermalReplays, ReleaseReplays, PrepareClock, ThermalClocks;
    ThermalEdges(e, s, workers, critical);
    LastAttemptStands(e, s, workers, critical);
  }

  /** `_replay_block_attempt` returns, its claims on the registry apart, exactly for the block-attempts
      that stand. */
  lemma StepExactly(e: GuardEvidence, files: Files, s: Step, priorEndNs: int)
    ensures StepReplays(e, files, s, priorEndNs) <==> StepStands(e, files, s, priorEndNs)
  {
    hide StepReplays, FilesReplay, FilesStand, AttemptsReplay, OuterStands, HandoffStands, WorkerPids, Critical;
    hide PrepareClock;
    if StepReplays(e, files, s, priorEndNs) {
      ReplayedStands(e, files, s, priorEndNs);
    }
    if StepStands(e, files, s, priorEndNs) {
      StandingReplays(e, files, s, priorEndNs);
    }
  }

  lemma ReplayedHandoff(e: GuardEvidence, files: Files, s: Step, priorEndNs: int)
    requires StepReplays(e, files, s, priorEndNs)
    ensures s.attempt.thermalAttempts != [] && HandoffStands(e, s.attempt, LastThermal(s.attempt))
  {
    hide StepReplays, StrictlyWithin, BlockAttemptLogged, WorkerPids, Critical;
    AttemptTimeline(e, files, s, priorEndNs);
    BlockAttemptRecorded(e, files, s, priorEndNs);
    ValidExactly(e, files, s, priorEndNs);
  }

  lemma ReplayedOuter(e: GuardEvidence, files: Files, s: Step, priorEndNs: int)
    requires StepReplays(e, files, s, priorEndNs)
    ensures s.attempt.thermalAttempts != []
    ensures OuterStands(e.markers, s.id, s.attempt, WorkerPids(files, s), Critical(files, s),
      LastThermal(s.attempt).precondition.endNs)
  {
    hide StepReplays, FilesReplay, AttemptsReplay, OuterStands, WorkerPids, Critical, MarkersReplay, Ordered;
    hide ThermalReplays, ReleaseReplays, StrictlyWithin, ThermalClocks, Answered, Answer, AnswerNs;
    StepParts(e, files, s, priorEndNs);
    LastAttemptStands(e, s, WorkerPids(files, s), Critical(files, s));
    OuterExactly(e.markers, s, WorkerPids(files, s), Critical(files, s), LastThermal(s.attempt));
  }

  lemma ReplayedStands(e: GuardEvidence, files: Files, s: Step, priorEndNs: int)
    requires StepReplays(e, files, s, priorEndNs)
    ensures StepStands(e, files, s, priorEndNs)
  {
    hide StepReplays, FilesReplay, FilesStand, AttemptsReplay, OuterStands, WorkerPids, Critical, HandoffReplays;
    hide MarkersReplay, VerdictReplays, Ordered, PrepareClock, ThermalClocks;
    StepParts(e, files, s, priorEndNs);
    StepConforms(e, files, s, priorEndNs);
    FilesExactly(files, s);
    ReplayedHandoff(e, files, s, priorEndNs);
    ReplayedOuter(e, files, s, priorEndNs);
    CarriedClocks(e, s.attempt, LastThermal(s.attempt));
    OrderExactly(e, s, WorkerPids(files, s), Critical(files, s), priorEndNs);
    hide HandoffStands;
  }

  lemma StepConforms(e: GuardEvidence, files: Files, s: Step, priorEndNs: int)
    requires StepReplays(e, files, s, priorEndNs)
    ensures s.attempt.conforms
  {
    hide FilesReplay, AttemptsReplay, WorkerPids, Critical, MarkersReplay, HandoffReplays, VerdictReplays, Ordered;
    hide ThermalClocks;
  }

  lemma StandingReplays(e: GuardEvidence, files: Files, s: Step, priorEndNs: int)
    requires StepStands(e, files, s, priorEndNs)
    ensures StepReplays(e, files, s, priorEndNs)
  {
    var a, workers, critical := s.attempt, WorkerPids(files, s), Critical(files, s);
    hide FilesReplay, FilesStand, AttemptsReplay, OuterStands, WorkerPids, Critical, HandoffStands;
    hide MarkersReplay, Ordered, ThermalReplays, ReleaseReplays, PrepareClock, StrictlyWithin, ThermalClocks;
    hide Answered, Answer, AnswerNs;
    FilesExactly(files, s);
    LastAttemptStands(e, s, workers, critical);
    CarriedClocks(e, a, LastThermal(a));
    OrderExactly(e, s, workers, critical, priorEndNs);
    HandoffExactly(e, s, LastThermal(a));
    OuterExactly(e.markers, s, workers, critical, LastThermal(a));
  }

  lemma CarriedClocks(e: GuardEvidence, a: BlockAttempt, t: ThermalAttempt)
    requires HandoffStands(e, a, t)
    ensures t.startNs == Some(a.startNs) && t.releaseNs == Some(a.releaseNs)
  {
  }

  // ------------------------------------------------------------------
  // The files a block-attempt claims
  // ------------------------------------------------------------------

  /** The entry of a claimed file. */
  ghost predicate EntryStands(files: Files, entry: Entry, raw: string, kind: string, id: Identity) {
    && raw in files && entry.claim == Claim(raw, kind, id.caseId, id.block)
    && entry.path == files[raw].path && entry.dev == files[raw].dev && entry.ino == files[raw].ino
    && entry.sha == files[raw].sha
  }

  /** The entries that a block-attempt adds: its trace, its result, and one for each worker, in order. */
  ghost predicate EntriesStand(files: Files, added: seq<Entry>, s: Step) {
    && |added| == 2 + |s.attempt.workerJson|
    && EntryStands(files, added[0], s.attempt.criticalTrace, "critical-csv", s.id)
    && EntryStands(files, added[1], s.attempt.criticalJson, "critical-json", s.id)
    && forall k :: 0 <= k < |s.attempt.workerJson| ==>
      EntryStands(files, added[k + 2], s.attempt.workerJson[k], "worker-json", s.id)
  }

  lemma {:induction false} EntryAt(files: Files, manifest: seq<Entry>, s: Step, k: nat, n: nat)
    requires n <= ClaimCount(s) && Claimed(files, manifest, s, n)
    ensures |Registered(files, manifest, s, n)| == |manifest| + n && manifest <= Registered(files, manifest, s, n)
    ensures k < n ==> ClaimAt(s, k).raw in files
    ensures k < n ==> Registered(files, manifest, s, n)[|manifest| + k] == EntryOf(files, ClaimAt(s, k))
  {
    hide ClaimAt, EntryOf, Independent;
    if n > 0 {
      EntryAt(files, manifest, s, k, n - 1);
    }
  }

  /** When all claims of a block-attempt succeed, it adds exactly these entries to the manifest, and no
      two of the manifest then share a path, an inode or a hash. */
  lemma ClaimsInOrder(files: Files, manifest: seq<Entry>, s: Step)
    requires AllClaimed(files, manifest, s)
    ensures var after := Registered(files, manifest, s, ClaimCount(s));
      && Independent(after) && manifest <= after && EntriesStand(files, after[|manifest|..], s)
  {
    hide EntryStands, Claimed, Independent, Registered;
    var after, count := Registered(files, manifest, s, ClaimCount(s)), ClaimCount(s);
    ClaimedIndependent(files, manifest, s);
    EntryAt(files, manifest, s, 0, count);
    EntryAt(files, manifest, s, 1, count);
    EntryIs(files, s, 0);
    EntryIs(files, s, 1);
    forall k | 0 <= k < |s.attempt.workerJson|
      ensures EntryStands(files, after[|manifest|..][k + 2], s.attempt.workerJson[k], "worker-json", s.id)
    {
      EntryAt(files, manifest, s, k + 2, count);
      EntryIs(files, s, k + 2);
    }
  }

  lemma EntryIs(files: Files, s: Step, k: nat)
    requires k < ClaimCount(s) && ClaimAt(s, k).raw in files
    ensures EntryStands(files, EntryOf(files, ClaimAt(s, k)), ClaimAt(s, k).raw,
      if k == 0 then "critical-csv" else if k == 1 then "critical-json" else "worker-json", s.id)
  {
  }

  lemma ClaimedIndependent(files: Files, manifest: seq<Entry>, s: Step)
    requires AllClaimed(files, manifest, s)
    ensures Independent(Registered(files, manifest, s, ClaimCount(s)))
  {
    hide Independent, Registered, ClaimAt;
  }

  // ------------------------------------------------------------------
  // A campaign
  // ------------------------------------------------------------------

  function Named(name: Name): GuardMarker -> bool { (m: GuardMarker) => m.name == name }

  /** The markers of the campaign itself are the only ones with their names, the collector was ready
      before the start, and no marker of the log has another name than these. */
  ghost predicate CampaignStands(markers: seq<GuardMarker>, p: Profile) {
    && (exists m :: Sole(markers, Named(CollectorReady), m) && m.ns < p.startNs)
    && Sole(markers, Named(GuardCampaignStart), Marker(p.startNs, GuardCampaignStart,
      Metadata(None, None, None, None, None, ProtocolEntries(true))))
    && Sole(markers, Named(GuardCampaignEnd), Marker(p.endNs, GuardCampaignEnd,
      Metadata(None, None, None, None, None, NoMore)))
    && p.startNs < p.endNs
    && forall m :: m in markers ==>
      m.name in [CollectorReady, GuardCampaignStart, ThermalPrepare, ThermalStart, ThermalActiveStabilityCheck,
        ThermalMeasurementEnd, ThermalEnd, ThermalStartQualification, ThermalStartQualificationResult,
        GuardBlockPrepare, GuardBlockStart, GuardBlockMeasurementRelease, GuardBlockResume,
        GuardActualStartQualification, GuardBlockResult, GuardBlockEnd, GuardCampaignEnd]
  }

  lemma NamedSole(markers: seq<GuardMarker>, name: Name, ns: int, metadata: Metadata<Extra>)
    ensures (AnsweredWith(markers, ByName(name), metadata) && AnswerNs(markers, ByName(name)) == ns) <==>
      Sole(markers, Named(name), Marker(ns, name, metadata))
  {
    hide Sole, Lookup;
    SoleExactly(markers, ByName(name), Named(name), ns, metadata);
  }

  lemma ReadyExactly(markers: seq<GuardMarker>, startNs: int)
    ensures (Answered(markers, ByName(CollectorReady)) && AnswerNs(markers, ByName(CollectorReady)) < startNs) <==>
      exists m :: Sole(markers, Named(CollectorReady), m) && m.ns < startNs
  {
    hide Sole, Lookup;
    if Answered(markers, ByName(CollectorReady)) {
      var m := Answer(markers, ByName(CollectorReady));
      LookupName(markers, ByName(CollectorReady));
      NamedSole(markers, CollectorReady, m.ns, m.metadata);
      assert m == Marker(m.ns, CollectorReady, m.metadata);
    }
    if m :| Sole(markers, Named(CollectorReady), m) && m.ns < startNs {
      SoleName(markers, CollectorReady, m);
      NamedSole(markers, CollectorReady, m.ns, m.metadata);
    }
  }

  lemma SoleName(markers: seq<GuardMarker>, name: Name, m: GuardMarker)
    requires Sole(markers, Named(name), m)
    ensures m == Marker(m.ns, name, m.metadata)
  {
  }

  lemma CampaignMarkersExactly(markers: seq<GuardMarker>, p: Profile)
    ensures CampaignMarkers(markers, p) <==> CampaignStands(markers, p)
  {
    hide Sole, Lookup, Answer, AnswerNs;
    ReadyExactly(markers, p.startNs);
    NamedSole(markers, GuardCampaignStart, p.startNs, Metadata(None, None, None, None, None, ProtocolEntries(true)));
    NamedSole(markers, GuardCampaignEnd, p.endNs, Metadata(None, None, None, None, None, NoMore));
    hide Answered;
  }

  ghost predicate BlockStands(b: Block, i: nat) {
    && b.block == i + 1 && 1 <= |b.attempts| <= 3 && b.selected == |b.attempts|
    && forall j :: 0 <= j < |b.attempts| ==> (b.attempts[j].valid <==> j == |b.attempts| - 1)
  }

  lemma BlockExactly(b: Block, i: nat)
    ensures BlockSelects(b, i) <==> BlockStands(b, i)
  {
    BlockShapeOf(b, i);
    hide BlockSelects;
  }

  /** The cases are those of the protocol, in order, with ten blocks each. */
  ghost predicate CasesStand(protocol: seq<Case>, entries: seq<CaseEntry>) {
    && |entries| == |protocol|
    && (forall k :: 0 <= k < |entries| ==> entries[k].identity == protocol[k] && |entries[k].blocks| == 10)
    && forall k, i :: 0 <= k < |entries| && 0 <= i < |entries[k].blocks| ==> BlockStands(entries[k].blocks[i], i)
  }

  /** Everything the replay checks of a campaign but the number of markers holds exactly when its markers
      and cases stand, its block-attempts replay one after the other from its start, and it ends after
      the last of them. */
  lemma CampaignExactly(e: GuardEvidence, files: Files, protocol: seq<Case>, p: Profile)
    ensures CampaignReplays(e, files, protocol, p) <==>
      && CampaignStands(e.markers, p) && CasesStand(protocol, p.entries)
      && Accepted(e, files, RunOf(protocol, p)) && EndOf(RunOf(protocol, p)) < p.endNs
  {
    CampaignMarkersExactly(e.markers, p);
    CasesExactly(protocol, p.entries);
    hide CampaignMarkers, CampaignStands, Accepted, RunOf, EndOf, CasesSelect, CasesStand, CaseOrder;
  }

  lemma CasesExactly(protocol: seq<Case>, entries: seq<CaseEntry>)
    ensures CaseOrder(protocol, entries) && CasesSelect(protocol, entries, |entries|) <==>
      CasesStand(protocol, entries)
  {
    hide BlockSelects, BlockStands;
    forall b: Block, i: nat
      ensures BlockSelects(b, i) <==> BlockStands(b, i)
    {
      BlockExactly(b, i);
    }
    if CaseOrder(protocol, entries) && CasesSelect(protocol, entries, |entries|) {
      forall k | 0 <= k < |entries|
        ensures CaseSelects(protocol[k], entries[k])
      {
      }
    }
    if CasesStand(protocol, entries) {
      forall k | 0 <= k < |entries|
        ensures CaseSelects(protocol[k], entries[k])
      {
      }
    }
  }

  // ------------------------------------------------------------------
  // The length of its run
  // ------------------------------------------------------------------

  function AttemptsIn(blocks: seq<Block>, n: nat): nat
    requires n <= |blocks|
  {
    if n == 0 then 0 else AttemptsIn(blocks, n - 1) + |blocks[n - 1].attempts|
  }

  function AttemptsOf(entries: seq<CaseEntry>, n: nat): nat
    requires n <= |entries|
  {
    if n == 0 then 0 else AttemptsOf(entries, n - 1) + AttemptsIn(entries[n - 1].blocks, |entries[n - 1].blocks|)
  }

  lemma {:induction false} LengthOfAttempts(run: Run, c: Case, block: nat, attempts: seq<BlockAttempt>, n: nat)
    requires n <= |attempts|
    ensures Length(WithAttempts(run, c, block, attempts, n)) == Length(run) + n
  {
    if n > 0 {
      LengthOfAttempts(run, c, block, attempts, n - 1);
    }
  }

  lemma {:induction false} LengthOfBlocks(run: Run, c: Case, blocks: seq<Block>, n: nat)
    requires n <= |blocks|
    ensures Length(WithBlocks(run, c, blocks, n)) == Length(run) + AttemptsIn(blocks, n)
  {
    hide WithAttempts;
    if n > 0 {
      LengthOfBlocks(run, c, blocks, n - 1);
      LengthOfAttempts(WithBlocks(run, c, blocks, n - 1), c, n, blocks[n - 1].attempts, |blocks[n - 1].attempts|);
    }
  }

  lemma {:induction false} LengthOfCases(run: Run, protocol: seq<Case>, entries: seq<CaseEntry>, n: nat)
    requires n <= |protocol| && n <= |entries|
    ensures Length(WithCases(run, protocol, entries, n)) == Length(run) + AttemptsOf(entries, n)
  {
    hide WithBlocks;
    if n > 0 {
      LengthOfCases(run, protocol, entries, n - 1);
      LengthOfBlocks(WithCases(run, protocol, entries, n - 1), protocol[n - 1], entries[n - 1].blocks,
        |entries[n - 1].blocks|);
    }
  }

  /** A run has as many steps as the profile stores block-attempts. */
  lemma RunLength(protocol: seq<Case>, p: Profile)
    requires |p.entries| == |protocol|
    ensures Length(RunOf(protocol, p)) == AttemptsOf(p.entries, |p.entries|)
  {
    LengthOfCases(Begun(p.startNs), protocol, p.entries, |p.entries|);
  }
}
