/** What an accepted guard campaign says about its log as a whole.  No single check of
    analysis/freeze_p9_guard.py states any of this: the replay reads the markers of the log once
    each, in log order, and all its intervals lie on one strictly increasing line. */
module GuardAccounting {
  import opened Common
  import opened Telemetry
  import opened Registry
  import opened Accounting
  import opened Chains
  import opened GuardRecords
  import opened GuardAttempts
  import opened GuardBlocks
  import opened GuardCampaign

  // ------------------------------------------------------------------
  // The markers a replay reads
  // ------------------------------------------------------------------

  function PreconditionRefs(markers: seq<GuardMarker>, tag: string): seq<nat> {
    [At(markers, ByTag(ThermalPrepare, tag)), At(markers, ByTag(ThermalStart, tag))]
    + Found(markers, ByTag(ThermalActiveStabilityCheck, tag))
    + [At(markers, ByTag(ThermalMeasurementEnd, tag)), At(markers, ByTag(ThermalEnd, tag))]
  }

  /** The positions one thermal attempt reads. */
  function ThermalRefs(e: GuardEvidence, id: Identity, t: ThermalAttempt, n: nat): seq<nat> {
    var markers, tag := e.markers, Tag(e, id, n);
    PreconditionRefs(markers, tag)
    + [At(markers, QualificationQuery(tag, n)), At(markers, QualificationResultQuery(id, tag, n))]
    + if t.qualification.passed
      then [At(markers, ByThermal(GuardBlockStart, id, n)), At(markers, ByThermal(GuardBlockMeasurementRelease, id, n))]
      else []
  }

  function ThermalsRefs(e: GuardEvidence, id: Identity, attempts: seq<ThermalAttempt>, n: nat): seq<nat>
    requires n <= |attempts|
  {
    if n == 0 then [] else ThermalsRefs(e, id, attempts, n - 1) + ThermalRefs(e, id, attempts[n - 1], n)
  }

  /** The positions one block-attempt reads. */
  function StepRefs(e: GuardEvidence, s: Step): seq<nat> {
    [At(e.markers, ByAttempt(GuardBlockPrepare, s.id))]
    + ThermalsRefs(e, s.id, s.attempt.thermalAttempts, |s.attempt.thermalAttempts|)
    + [At(e.markers, ByAttempt(GuardBlockResume, s.id)), At(e.markers, ByAttempt(GuardActualStartQualification, s.id)),
       At(e.markers, ByAttempt(GuardBlockResult, s.id)), At(e.markers, ByAttempt(GuardBlockEnd, s.id))]
  }

  function RunRefs(e: GuardEvidence, run: Run): seq<nat> {
    if run.Begun? then [At(e.markers, ByName(CollectorReady)), At(e.markers, ByName(GuardCampaignStart))]
    else RunRefs(e, run.before) + StepRefs(e, run.step)
  }

  /** The positions that the replay of a campaign reads, in the order it reads them. */
  function CampaignRefs(e: GuardEvidence, protocol: seq<Case>, p: Profile): seq<nat>
    requires |p.entries| == |protocol|
  {
    RunRefs(e, RunOf(protocol, p)) + [At(e.markers, ByName(GuardCampaignEnd))]
  }

  // ------------------------------------------------------------------
  // Their clocks
  // ------------------------------------------------------------------

  /** The positions of the check markers carry their clocks. */
  lemma CheckClocks(markers: seq<GuardMarker>, tag: string)
    ensures Within(Found(markers, ByTag(ThermalActiveStabilityCheck, tag)), |markers|)
    ensures NsOf(markers, Found(markers, ByTag(ThermalActiveStabilityCheck, tag))) == Clocks(CheckMarkers(markers, tag))
  {
    var found := Found(markers, ByTag(ThermalActiveStabilityCheck, tag));
    forall i | 0 <= i < |found|
      ensures found[i] < |markers|
    {
      assert found[i] in found;
    }
  }

  lemma PreconditionRefClocks(markers: seq<GuardMarker>, tag: string)
    requires BaseMarkers(markers, tag)
    ensures Within(PreconditionRefs(markers, tag), |markers|)
    ensures NsOf(markers, PreconditionRefs(markers, tag)) == PreconditionTimes(markers, tag)
    ensures |PreconditionRefs(markers, tag)| == 4 + |CheckMarkers(markers, tag)|
  {
    CheckClocks(markers, tag);
    AnswerAt(markers, ByTag(ThermalPrepare, tag));
    AnswerAt(markers, ByTag(ThermalStart, tag));
    AnswerAt(markers, ByTag(ThermalMeasurementEnd, tag));
    AnswerAt(markers, ByTag(ThermalEnd, tag));
    hide Found, Lookup, Answered, At, AnswerNs, CheckMarkers;
  }

  /** A replayed thermal attempt reads as many markers as `build_lock` counts for it, and their
      clocks are the ones whose order it checked. */
  lemma ThermalRefClocks(e: GuardEvidence, id: Identity, workers: seq<int>, critical: int, t: ThermalAttempt, n: nat)
    requires ThermalReplays(e, id, workers, critical, t, n)
    ensures Within(ThermalRefs(e, id, t, n), |e.markers|)
    ensures NsOf(e.markers, ThermalRefs(e, id, t, n)) == ThermalTimes(e, id, t, n)
    ensures |ThermalRefs(e, id, t, n)| == ThermalCount(t)
  {
    hide Found, Lookup, At, AnswerNs, CheckMarkers, Chain, ChecksReplay, PreReleasePasses, PreReleaseFailureOf;
    hide PreconditionRefs, PreconditionTimes, PausedStates;
    var markers, tag := e.markers, Tag(e, id, n);
    assert BaseMarkers(markers, tag);
    assert |t.precondition.checks| == |CheckMarkers(markers, tag)|;
    PreconditionRefClocks(markers, tag);
    AnswerAt(markers, QualificationQuery(tag, n));
    AnswerAt(markers, QualificationResultQuery(id, tag, n));
    if t.qualification.passed {
      AnswerAt(markers, ByThermal(GuardBlockStart, id, n));
      AnswerAt(markers, ByThermal(GuardBlockMeasurementRelease, id, n));
    }
  }

  /** The same for all thermal attempts of a block-attempt, whose clocks form one chain. */
  lemma {:induction false} ThermalsRefClocks(e: GuardEvidence, id: Identity, workers: seq<int>, critical: int,
      attempts: seq<ThermalAttempt>, n: nat)
    requires n <= |attempts| && UpTo(AttemptTurn(e, id, workers, critical, attempts), n)
    ensures Within(ThermalsRefs(e, id, attempts, n), |e.markers|)
    ensures NsOf(e.markers, ThermalsRefs(e, id, attempts, n)) == TimesUpTo(e, id, attempts, n)
    ensures |ThermalsRefs(e, id, attempts, n)| == ThermalCounts(attempts, n)
    ensures Chain(TimesUpTo(e, id, attempts, n))
  {
    hide ThermalRefs, ThermalTimes, ThermalCount, Chain, StartsAfter, ThermalReplays;
    if n == 0 {
      EmptyChain();
    } else {
      ThermalsRefClocks(e, id, workers, critical, attempts, n - 1);
      var before, mine := TimesUpTo(e, id, attempts, n - 1), ThermalTimes(e, id, attempts[n - 1], n);
      assert AttemptReplays(e, id, workers, critical, attempts, n - 1);
      assert ThermalReplays(e, id, workers, critical, attempts[n - 1], n) && StartsAfter(before, mine);
      ThermalRefClocks(e, id, workers, critical, attempts[n - 1], n);
      NsOfConcat(e.markers, ThermalsRefs(e, id, attempts, n - 1), ThermalRefs(e, id, attempts[n - 1], n));
      ThermalTimesChain(e, id, workers, critical, attempts[n - 1], n);
      ChainJoin(before, mine);
    }
  }

  lemma ThermalTimesChain(e: GuardEvidence, id: Identity, workers: seq<int>, critical: int, t: ThermalAttempt, n: nat)
    requires ThermalReplays(e, id, workers, critical, t, n)
    ensures Chain(ThermalTimes(e, id, t, n))
  {
    hide Found, Lookup, At, AnswerNs, CheckMarkers, Chain, ChecksReplay, PreReleasePasses, PreReleaseFailureOf;
    hide PreconditionTimes, ThermalTimes, PausedStates;
  }

  lemma ChainJoin(before: seq<int>, mine: seq<int>)
    requires Chain(before) && Chain(mine) && StartsAfter(before, mine)
    ensures Chain(before + mine)
  {
    ChainConcat(before, mine);
  }

  // ------------------------------------------------------------------
  // One block-attempt on the line
  // ------------------------------------------------------------------

  /** Every clock of a block-attempt: markers and measurement window. */
  function StepTimes(e: GuardEvidence, s: Step): seq<int> {
    [s.attempt.prepareNs] + ThermalClocks(e, s)
    + [s.attempt.resumeNs, s.attempt.measurementStartNs, s.attempt.measurementEndNs, s.attempt.actualNs,
      s.attempt.resultNs, s.attempt.endNs]
  }

  lemma ThermalPart(e: GuardEvidence, files: Files, s: Step, priorEndNs: int)
    requires StepReplays(e, files, s, priorEndNs)
    ensures var refs := ThermalsRefs(e, s.id, s.attempt.thermalAttempts, |s.attempt.thermalAttempts|);
      && Within(refs, |e.markers|) && NsOf(e.markers, refs) == ThermalClocks(e, s) && |refs| + 5 == StepCount(s)
    ensures Chain(ThermalClocks(e, s)) && Ordered(s.attempt, ThermalClocks(e, s), priorEndNs)
  {
    hide MarkersReplay, FilesReplay, HandoffReplays, VerdictReplays, Ordered, Chain, ThermalsRefs, TimesUpTo;
    ThermalsRefClocks(e, s.id, WorkerPids(files, s), Critical(files, s), s.attempt.thermalAttempts,
      |s.attempt.thermalAttempts|);
  }

  /** The own markers of a block-attempt are answered, at the clocks it records. */
  lemma OwnPart(e: GuardEvidence, files: Files, s: Step, priorEndNs: int)
    requires StepReplays(e, files, s, priorEndNs)
    ensures NsOf(e.markers, [At(e.markers, ByAttempt(GuardBlockPrepare, s.id))]) == [s.attempt.prepareNs]
    ensures var tail := [At(e.markers, ByAttempt(GuardBlockResume, s.id)),
      At(e.markers, ByAttempt(GuardActualStartQualification, s.id)),
        At(e.markers, ByAttempt(GuardBlockResult, s.id)), At(e.markers, ByAttempt(GuardBlockEnd, s.id))];
      && NsOf(e.markers, tail) == [s.attempt.resumeNs, s.attempt.actualNs, s.attempt.resultNs, s.attempt.endNs]
      && Within(tail, |e.markers|) && At(e.markers, ByAttempt(GuardBlockPrepare, s.id)) < |e.markers|
  {
    hide FilesReplay, ThermalAttemptsReplay, HandoffReplays, VerdictReplays, Ordered, At, AnswerNs, Answered;
    hide ThermalClocks;
    AnswerAt(e.markers, ByAttempt(GuardBlockPrepare, s.id));
    AnswerAt(e.markers, ByAttempt(GuardBlockResume, s.id));
    AnswerAt(e.markers, ByAttempt(GuardActualStartQualification, s.id));
    AnswerAt(e.markers, ByAttempt(GuardBlockResult, s.id));
    AnswerAt(e.markers, ByAttempt(GuardBlockEnd, s.id));
  }

  /** A replayed block-attempt reads as many markers as `build_lock` counts for it, at increasing
      clocks between the previous end and its own end. */
  lemma StepRefClocks(e: GuardEvidence, files: Files, s: Step, priorEndNs: int)
    requires StepReplays(e, files, s, priorEndNs)
    ensures Within(StepRefs(e, s), |e.markers|) && |StepRefs(e, s)| == StepCount(s) >= 1
    ensures Chain(NsOf(e.markers, StepRefs(e, s)))
    ensures priorEndNs < NsOf(e.markers, StepRefs(e, s))[0] && Last(NsOf(e.markers, StepRefs(e, s))) == s.attempt.endNs
  {
    hide StepReplays, ThermalsRefs, ThermalClocks, At;
    ThermalPart(e, files, s, priorEndNs);
    OwnPart(e, files, s, priorEndNs);
    var a := s.attempt;
    var head := [At(e.markers, ByAttempt(GuardBlockPrepare, s.id))];
    var refs := ThermalsRefs(e, s.id, a.thermalAttempts, |a.thermalAttempts|);
    var tail := [At(e.markers, ByAttempt(GuardBlockResume, s.id)),
      At(e.markers, ByAttempt(GuardActualStartQualification, s.id)),
      At(e.markers, ByAttempt(GuardBlockResult, s.id)), At(e.markers, ByAttempt(GuardBlockEnd, s.id))];
    NsOfConcat(e.markers, head, refs);
    NsOfConcat(e.markers, head + refs, tail);
    ChainAround(a.prepareNs, ThermalClocks(e, s), [a.resumeNs, a.actualNs, a.resultNs, a.endNs]);
  }

  /** All clocks of a block-attempt, its measurement window included, form one chain. */
  lemma StepTimesChain(e: GuardEvidence, files: Files, s: Step, priorEndNs: int)
    requires StepReplays(e, files, s, priorEndNs)
    ensures StepTimes(e, s) != [] && Chain(StepTimes(e, s)) && priorEndNs < StepTimes(e, s)[0]
    ensures Last(StepTimes(e, s)) == s.attempt.endNs
  {
    hide StepReplays, ThermalsRefs, ThermalClocks;
    ThermalPart(e, files, s, priorEndNs);
    var a := s.attempt;
    ChainAround(a.prepareNs, ThermalClocks(e, s),
      [a.resumeNs, a.measurementStartNs, a.measurementEndNs, a.actualNs, a.resultNs, a.endNs]);
  }

  // ------------------------------------------------------------------
  // The whole campaign on the line
  // ------------------------------------------------------------------

  function StartOf(run: Run): int {
    if run.Begun? then run.startNs else StartOf(run.before)
  }

  /** The opening markers exist and the run starts at the second. */
  predicate Opened(e: GuardEvidence, run: Run) {
    && Answered(e.markers, ByName(CollectorReady)) && Answered(e.markers, ByName(GuardCampaignStart))
    && AnswerNs(e.markers, ByName(CollectorReady)) < AnswerNs(e.markers, ByName(GuardCampaignStart)) == StartOf(run)
  }

  lemma {:induction false} RunRefClocks(e: GuardEvidence, files: Files, run: Run)
    requires Accepted(e, files, run) && Opened(e, run)
    ensures Within(RunRefs(e, run), |e.markers|) && |RunRefs(e, run)| == 2 + RunCount(run)
    ensures Chain(NsOf(e.markers, RunRefs(e, run))) && Last(NsOf(e.markers, RunRefs(e, run))) == EndOf(run)
  {
    hide StepReplays, AllClaimed, Registered, StepRefs, StepCount, At;
    if run.Begun? {
      AnswerAt(e.markers, ByName(CollectorReady));
      AnswerAt(e.markers, ByName(GuardCampaignStart));
    } else {
      RunRefClocks(e, files, run.before);
      StepRefClocks(e, files, run.step, EndOf(run.before));
      NsOfConcat(e.markers, RunRefs(e, run.before), StepRefs(e, run.step));
      ChainConcat(NsOf(e.markers, RunRefs(e, run.before)), NsOf(e.markers, StepRefs(e, run.step)));
    }
  }

  /** Every clock of the run, from the campaign start. */
  function RunTimes(e: GuardEvidence, run: Run): seq<int> {
    if run.Begun? then [run.startNs] else RunTimes(e, run.before) + StepTimes(e, run.step)
  }

  /** Any accepted run is one strictly increasing line of clocks. */
  lemma {:induction false} RunIsOneLine(e: GuardEvidence, files: Files, run: Run)
    requires Accepted(e, files, run)
    ensures RunTimes(e, run) != [] && Chain(RunTimes(e, run)) && RunTimes(e, run)[0] == StartOf(run)
    ensures Last(RunTimes(e, run)) == EndOf(run)
  {
    hide StepReplays, AllClaimed, Registered, StepTimes;
    if run.Then? {
      RunIsOneLine(e, files, run.before);
      StepTimesChain(e, files, run.step, EndOf(run.before));
      ChainConcat(RunTimes(e, run.before), StepTimes(e, run.step));
    }
  }

  lemma {:induction false} StartOfAttempts(run: Run, c: Case, block: nat, attempts: seq<BlockAttempt>, n: nat)
    requires n <= |attempts|
    ensures StartOf(WithAttempts(run, c, block, attempts, n)) == StartOf(run)
  {
    if n > 0 {
      StartOfAttempts(run, c, block, attempts, n - 1);
    }
  }

  lemma {:induction false} StartOfBlocks(run: Run, c: Case, blocks: seq<Block>, n: nat)
    requires n <= |blocks|
    ensures StartOf(WithBlocks(run, c, blocks, n)) == StartOf(run)
  {
    if n > 0 {
      StartOfBlocks(run, c, blocks, n - 1);
      StartOfAttempts(WithBlocks(run, c, blocks, n - 1), c, n, blocks[n - 1].attempts, |blocks[n - 1].attempts|);
    }
  }

  lemma {:induction false} StartOfCases(run: Run, protocol: seq<Case>, entries: seq<CaseEntry>, n: nat)
    requires n <= |protocol| && n <= |entries|
    ensures StartOf(WithCases(run, protocol, entries, n)) == StartOf(run)
  {
    if n > 0 {
      StartOfCases(run, protocol, entries, n - 1);
      StartOfBlocks(WithCases(run, protocol, entries, n - 1), protocol[n - 1], entries[n - 1].blocks,
        |entries[n - 1].blocks|);
    }
  }

  /** The clocks of an accepted campaign, from its start marker to its end marker, are one strictly
      increasing sequence. */
  lemma CampaignIsOneLine(e: GuardEvidence, files: Files, protocol: seq<Case>, p: Profile)
    requires CampaignReplays(e, files, protocol, p)
    ensures Increasing(RunTimes(e, RunOf(protocol, p)) + [p.endNs]) && RunTimes(e, RunOf(protocol, p))[0] == p.startNs
  {
    hide Accepted, CampaignMarkers, CasesSelect, RunTimes, WithCases;
    var run := RunOf(protocol, p);
    RunIsOneLine(e, files, run);
    StartOfCases(Begun(p.startNs), protocol, p.entries, |p.entries|);
    assert StartOf(Begun(p.startNs)) == p.startNs;
    ChainConcat(RunTimes(e, run), [p.endNs]);
    ChainIsIncreasing(RunTimes(e, run) + [p.endNs]);
  }

  // ------------------------------------------------------------------
  // Every marker accounted for
  // ------------------------------------------------------------------

  /** The positions that a replayed campaign reads increase through the log, and there are as many
      as `build_lock` expects. */
  lemma CampaignRefsIncrease(e: GuardEvidence, files: Files, protocol: seq<Case>, p: Profile)
    requires CampaignReplays(e, files, protocol, p) && Increasing(MarkerClocks(e.markers))
    ensures Within(CampaignRefs(e, protocol, p), |e.markers|)
    ensures Ascending(CampaignRefs(e, protocol, p))
    ensures |CampaignRefs(e, protocol, p)| == 3 + RunCount(RunOf(protocol, p))
  {
    hide Accepted, CasesSelect, RunRefs, WithCases, At, AnswerNs, Answered, Chain, Increasing, RunCount;
    var run := RunOf(protocol, p);
    StartOfCases(Begun(p.startNs), protocol, p.entries, |p.entries|);
    assert StartOf(Begun(p.startNs)) == p.startNs;
    RunRefClocks(e, files, run);
    AnswerAt(e.markers, ByName(GuardCampaignEnd));
    var last := [At(e.markers, ByName(GuardCampaignEnd))];
    NsOfConcat(e.markers, RunRefs(e, run), last);
    JoinedLine(NsOf(e.markers, RunRefs(e, run)), p.endNs);
    assert NsOf(e.markers, last) == [p.endNs];
    PositionsAscend(e.markers, CampaignRefs(e, protocol, p));
  }

  /** No orphan markers: in an accepted campaign the i-th marker that the replay reads is the i-th
      marker of the log. */
  lemma EveryMarkerRead(e: GuardEvidence, files: Files, protocol: seq<Case>, p: Profile)
    requires CampaignReplays(e, files, protocol, p) && CountMatches(e, protocol, p)
    requires Increasing(MarkerClocks(e.markers))
    ensures |CampaignRefs(e, protocol, p)| == |e.markers|
    ensures forall k :: 0 <= k < |e.markers| ==> CampaignRefs(e, protocol, p)[k] == k
  {
    hide Accepted, CampaignReplays, CampaignRefs, RunOf;
    CampaignRefsIncrease(e, files, protocol, p);
    FullExactlyWhen(CampaignRefs(e, protocol, p), |e.markers|);
  }

  /** The marker count is exactly the test for orphans: once everything else replays, it holds if
      and only if every marker of the log is read. */
  lemma CountIsTheOrphanTest(e: GuardEvidence, files: Files, protocol: seq<Case>, p: Profile)
    requires CampaignReplays(e, files, protocol, p) && Increasing(MarkerClocks(e.markers))
    ensures CountMatches(e, protocol, p) <==> forall k: nat :: k < |e.markers| ==> k in CampaignRefs(e, protocol, p)
  {
    hide Accepted, CampaignRefs, RunOf, CampaignMarkers, CasesSelect;
    CampaignRefsIncrease(e, files, protocol, p);
    FullExactlyWhen(CampaignRefs(e, protocol, p), |e.markers|);
  }

  // ------------------------------------------------------------------
  // Measurement windows
  // ------------------------------------------------------------------

  function Length(run: Run): nat {
    if run.Begun? then 0 else Length(run.before) + 1
  }

  /** Block-attempt `i` of a run. */
  function StepAt(run: Run, i: nat): Step
    requires i < Length(run)
  {
    if i == Length(run) - 1 then run.step else StepAt(run.before, i)
  }

  /** The clocks of the steps before a point are at most its end. */
  lemma {:induction false} EarlierStepsEnd(e: GuardEvidence, files: Files, run: Run, i: nat)
    requires Accepted(e, files, run) && i < Length(run)
    ensures StepAt(run, i).attempt.endNs <= EndOf(run)
  {
    hide StepReplays, AllClaimed, Registered, StepTimes;
    if i < Length(run) - 1 {
      EarlierStepsEnd(e, files, run.before, i);
      StepTimesChain(e, files, run.step, EndOf(run.before));
      ChainIsIncreasing(StepTimes(e, run.step));
    }
  }

  /** Everything one block-attempt does lies between its prepare and its end marker. */
  lemma StepInside(e: GuardEvidence, files: Files, s: Step, priorEndNs: int)
    requires StepReplays(e, files, s, priorEndNs)
    ensures priorEndNs < s.attempt.prepareNs < s.attempt.measurementStartNs
    ensures s.attempt.measurementStartNs < s.attempt.measurementEndNs < s.attempt.endNs
    ensures forall t :: t in ThermalClocks(e, s) ==> s.attempt.prepareNs < t < s.attempt.measurementStartNs
  {
    hide StepReplays, ThermalsRefs, ThermalClocks;
    ThermalPart(e, files, s, priorEndNs);
    ChainIsIncreasing(ThermalClocks(e, s));
  }

  /** Measurement windows of different block-attempts are disjoint, and no thermal preconditioning
      of any block-attempt overlaps the measurement window of any other or of its own. */
  lemma {:induction false} MeasurementsNeverOverlap(e: GuardEvidence, files: Files, run: Run, i: nat, j: nat)
    requires Accepted(e, files, run) && i < j < Length(run)
    ensures StepAt(run, i).attempt.measurementEndNs < StepAt(run, j).attempt.measurementStartNs
    ensures forall t :: t in ThermalClocks(e, StepAt(run, i)) ==> t < StepAt(run, i).attempt.measurementStartNs
    ensures forall t :: t in ThermalClocks(e, StepAt(run, j)) ==>
      StepAt(run, i).attempt.measurementEndNs < t < StepAt(run, j).attempt.measurementStartNs
  {
    hide StepReplays, AllClaimed, Registered, ThermalClocks;
    if j == Length(run) - 1 {
      EarlierStepsEnd(e, files, run.before, i);
      StepInside(e, files, run.step, EndOf(run.before));
      StepsInside(e, files, run.before, i);
    } else {
      MeasurementsNeverOverlap(e, files, run.before, i, j);
    }
  }

  lemma {:induction false} StepsInside(e: GuardEvidence, files: Files, run: Run, i: nat)
    requires Accepted(e, files, run) && i < Length(run)
    ensures var a := StepAt(run, i).attempt;
      && a.prepareNs < a.measurementStartNs < a.measurementEndNs < a.endNs
      && forall t :: t in ThermalClocks(e, StepAt(run, i)) ==> a.prepareNs < t < a.measurementStartNs
  {
    hide StepReplays, AllClaimed, Registered, ThermalClocks;
    if i == Length(run) - 1 {
      StepInside(e, files, run.step, EndOf(run.before));
    } else {
      StepsInside(e, files, run.before, i);
    }
  }

  // ------------------------------------------------------------------
  // What a measurement rests on
  // ------------------------------------------------------------------

  /** The measurement of a block-attempt was healthy; and if it counts as thermally valid, it began
      less than 500 ms after the boundary of its last thermal attempt, after clocks that increase
      strictly from that boundary, with a passed causal qualification. */
  ghost predicate SoundMeasurement(e: GuardEvidence, a: BlockAttempt) {
    && e.healthy(a.measurementStartNs, a.measurementEndNs)
    && a.thermalAttempts != []
    && var q := a.thermalAttempts[|a.thermalAttempts| - 1].qualification;
    && (a.valid ==>
      && 0 < a.measurementStartNs - q.boundaryNs < HANDOFF_MAX_NS
      && Chain([q.boundaryNs] + a.handoff.clocks)
      && e.causal(a.measurementStartNs, q.cleanupNs, false).failure.None?)
  }

  lemma StepIsSound(e: GuardEvidence, files: Files, s: Step, priorEndNs: int)
    requires StepReplays(e, files, s, priorEndNs)
    ensures SoundMeasurement(e, s.attempt)
  {
    hide MarkersReplay, FilesReplay, ThermalAttemptsReplay, Ordered, AnsweredWith, Chain, StrictlyWithin;
    var a := s.attempt;
    var t := a.thermalAttempts[|a.thermalAttempts| - 1];
    WithinByLastClock(t.qualification.boundaryNs, HandoffClocks(a, t));
    if a.valid {
      ChainBounds(t.qualification.boundaryNs, HandoffClocks(a, t));
    }
  }

  lemma ChainBounds(first: int, rest: seq<int>)
    requires rest != [] && Chain([first] + rest)
    ensures first < Last(rest)
  {
    ChainIsIncreasing([first] + rest);
    assert ([first] + rest)[0] < ([first] + rest)[|rest|];
  }

  /** Every measurement of an accepted run is sound in this sense. */
  lemma {:induction false} MeasurementsAreSound(e: GuardEvidence, files: Files, run: Run, i: nat)
    requires Accepted(e, files, run) && i < Length(run)
    ensures SoundMeasurement(e, StepAt(run, i).attempt)
  {
    hide StepReplays, AllClaimed, Registered, SoundMeasurement;
    if i == Length(run) - 1 {
      StepIsSound(e, files, run.step, EndOf(run.before));
    } else {
      MeasurementsAreSound(e, files, run.before, i);
    }
  }

  // ------------------------------------------------------------------
  // Retries and the manifest
  // ------------------------------------------------------------------

  /** The last thermal attempt is the first whose pre-release handoff passed. */
  lemma ThermalAttemptIsFirstPassing(e: GuardEvidence, id: Identity, workers: seq<int>, critical: int,
      attempts: seq<ThermalAttempt>, selected: int)
    requires AttemptsReplay(e, id, workers, critical, attempts, selected)
    ensures selected == |attempts| && attempts[selected - 1].preReleasePassed
    ensures forall i :: 0 <= i < |attempts| - 1 ==> !attempts[i].preReleasePassed
  {
    hide ThermalReplays, StartsAfter;
    forall i | 0 <= i < |attempts|
      ensures attempts[i].preReleasePassed == (i + 1 == |attempts|)
    {
      UpToEach(AttemptTurn(e, id, workers, critical, attempts), i, |attempts|);
      assert AttemptReplays(e, id, workers, critical, attempts, i);
    }
  }

  /** The number of claims of a run: two for each block-attempt and one for each of its workers. */
  function ClaimsOf(run: Run): nat {
    if run.Begun? then 0 else ClaimsOf(run.before) + 2 + run.step.workers
  }

  /** The manifest of an accepted run holds two files for each block-attempt and one for each
      worker its case expands to, and no two of them share a path, an inode or a hash. */
  lemma {:induction false} ManifestOfRun(e: GuardEvidence, files: Files, run: Run)
    requires Accepted(e, files, run)
    ensures |Manifest(files, run)| == ClaimsOf(run) && Independent(Manifest(files, run))
  {
    hide MarkersReplay, ThermalAttemptsReplay, HandoffReplays, VerdictReplays, Ordered, Independent;
    if run.Begun? {
      NothingRegistered();
    } else {
      ManifestOfRun(e, files, run.before);
      assert FilesReplay(files, run.step);
      ClaimedSize(files, Manifest(files, run.before), run.step, ClaimCount(run.step));
    }
  }

  lemma NothingRegistered()
    ensures Independent([])
  {
  }
}
