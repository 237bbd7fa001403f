/** What an accepted block-attempt of the guard campaign says in the clocks and names of its own
    record and log (analysis/freeze_p9_guard.py:963-997, 1960-2168, 2237-2441): which markers stand
    in the log, when a process was released, and when a measurement is thermally valid. */
module GuardClocks {
  import opened Common
  import opened Telemetry
  import opened ThermalWindow
  import opened Accounting
  import opened Chains
  import opened GuardRecords
  import opened GuardAttempts
  import opened GuardBlocks
  import opened GuardCampaign
  import opened GuardAccounting
  import opened WindowReadings

  // ------------------------------------------------------------------
  // What the lookups of the replay ask for
  // ------------------------------------------------------------------

  /** Marker `k` is the only one wanted. */
  ghost predicate Only(markers: seq<GuardMarker>, wanted: GuardMarker -> bool, k: nat) {
    k < |markers| && forall j: nat :: j < |markers| ==> (wanted(markers[j]) <==> j == k)
  }

  function Labelled(name: Name, tag: string): GuardMarker -> bool {
    (m: GuardMarker) => m.name == name && m.metadata.tag == Some(tag)
  }

  function OfBlockAttempt(name: Name, id: Identity): GuardMarker -> bool {
    (m: GuardMarker) => m.name == name && m.metadata.caseId == Some(id.caseId) && m.metadata.block == Some(id.block)
      && m.metadata.attempt == Some(id.attempt)
  }

  function OfThermalAttempt(name: Name, id: Identity, n: int): GuardMarker -> bool {
    (m: GuardMarker) => m.name == name && m.metadata.caseId == Some(id.caseId) && m.metadata.block == Some(id.block)
      && m.metadata.attempt == Some(id.attempt) && m.metadata.thermalAttempt == Some(n)
  }

  function Qualifying(tag: string, n: int): GuardMarker -> bool {
    (m: GuardMarker) => m.name == ThermalStartQualification && m.metadata.tag == Some(tag)
      && m.metadata.attempt == Some(n)
  }

  function QualifyingResult(id: Identity, tag: string, n: int): GuardMarker -> bool {
    (m: GuardMarker) => m.name == ThermalStartQualificationResult && m.metadata.caseId == Some(id.caseId)
      && m.metadata.block == Some(id.block) && m.metadata.tag == Some(tag) && m.metadata.attempt == Some(id.attempt)
      && m.metadata.thermalAttempt == Some(n)
  }

  lemma LookupFinds(markers: seq<GuardMarker>, q: Query, wanted: GuardMarker -> bool, k: nat)
    requires forall j: nat :: j < |markers| ==> (Matches(markers[j], q) <==> wanted(markers[j]))
    ensures Lookup(markers, q) == Some(k) <==> Only(markers, wanted, k)
  {
    hide Matches, Lookup;
    if k < |markers| && Matches(markers[k], q) {
      LookupIsUnique(markers, q, k);
    }
  }

  /** Each lookup of the replay finds a marker exactly when it is the only one with its name and with
      the identity of its attempt, so a marker of another attempt neither answers nor blocks it. */
  lemma LookupsByIdentity(markers: seq<GuardMarker>, name: Name, id: Identity, tag: string, n: nat, k: nat)
    ensures Lookup(markers, ByTag(name, tag)) == Some(k) <==> Only(markers, Labelled(name, tag), k)
    ensures Lookup(markers, ByAttempt(name, id)) == Some(k) <==> Only(markers, OfBlockAttempt(name, id), k)
    ensures Lookup(markers, ByThermal(name, id, n)) == Some(k) <==> Only(markers, OfThermalAttempt(name, id, n), k)
    ensures Lookup(markers, QualificationQuery(tag, n)) == Some(k) <==> Only(markers, Qualifying(tag, n), k)
    ensures Lookup(markers, QualificationResultQuery(id, tag, n)) == Some(k) <==>
      Only(markers, QualifyingResult(id, tag, n), k)
  {
    hide Lookup, Only;
    LookupFinds(markers, ByTag(name, tag), Labelled(name, tag), k);
    LookupFinds(markers, ByAttempt(name, id), OfBlockAttempt(name, id), k);
    LookupFinds(markers, ByThermal(name, id, n), OfThermalAttempt(name, id, n), k);
    LookupFinds(markers, QualificationQuery(tag, n), Qualifying(tag, n), k);
    LookupFinds(markers, QualificationResultQuery(id, tag, n), QualifyingResult(id, tag, n), k);
  }

  lemma AnswerStands(markers: seq<GuardMarker>, q: Query, metadata: Metadata<Extra>)
    requires AnsweredWith(markers, q, metadata)
    ensures Marker(AnswerNs(markers, q), q.name, metadata) in markers
  {
    assert Answer(markers, q) == Marker(AnswerNs(markers, q), q.name, metadata);
  }

  // ------------------------------------------------------------------
  // One thermal attempt
  // ------------------------------------------------------------------

  /** What the record of thermal attempt `n` says about its heating and qualification stands in the log. */
  ghost predicate QualificationLogged(markers: seq<GuardMarker>, id: Identity, a: ThermalAttempt, n: nat) {
    var p, q := a.precondition, a.qualification;
    && Marker(p.startNs, ThermalStart, Metadata(None, None, Some(a.tag), None, None, NoMore)) in markers
    && Marker(p.cleanupNs, ThermalEnd, Metadata(None, None, Some(a.tag), None, None, Successful(true))) in markers
    && Marker(q.qualificationNs, ThermalStartQualification,
      Metadata(None, None, Some(a.tag), Some(n), None,
        QualificationEntries(p.endNs, p.cleanupNs, q.outcome.sampleNs))) in markers
    && Marker(a.resultNs, ThermalStartQualificationResult,
      Metadata(Some(id.caseId), Some(id.block), Some(a.tag), Some(id.attempt), Some(n),
        QualificationResultEntries(id.heldOut, p.endNs, p.cleanupNs, q.qualificationNs, q.outcome.sampleNs,
          q.outcome.failure.None?, q.outcome.failure))) in markers
  }

  /** So does its release. */
  ghost predicate ReleaseLogged(markers: seq<GuardMarker>, id: Identity, workers: seq<int>, critical: int,
      a: ThermalAttempt, n: nat)
    requires a.startNs.Some? && a.releaseNs.Some?
  {
    && Marker(a.startNs.value, GuardBlockStart,
      Metadata(Some(id.caseId), Some(id.block), None, Some(id.attempt), Some(n),
        StartEntries(id.heldOut, workers, critical, a.precondition.endNs))) in markers
    && Marker(a.releaseNs.value, GuardBlockMeasurementRelease,
      Metadata(Some(id.caseId), Some(id.block), None, Some(id.attempt), Some(n),
        ReleaseEntries(id.heldOut, critical, a.precondition.endNs))) in markers
  }

  lemma ThermalParts(e: GuardEvidence, id: Identity, workers: seq<int>, critical: int, a: ThermalAttempt, n: nat)
    requires ThermalReplays(e, id, workers, critical, a, n)
    ensures a.attempt == n && a.tag == Tag(e, id, n) && BaseMarkers(e.markers, a.tag)
    ensures exists checks :: BoundaryBinds(e.markers, a.precondition, a.tag, checks)
    ensures QualificationReplays(e, a, a.tag, n) && ResultReplays(e.markers, id, a, a.tag, n)
    ensures a.paused == PausedStates(workers, critical) && ReleaseReplays(e.markers, id, a, workers, critical, n)
    ensures e.healthy(a.precondition.startNs, a.precondition.endNs)
    ensures a.preReleasePassed == PreReleasePasses(e.markers, id, a, n)
    ensures a.failure == PreReleaseFailureOf(e.markers, id, a, n)
  {
    hide BaseMarkers, BoundaryBinds, QualificationReplays, ResultReplays, PausedStates, ReleaseReplays, Chain;
    hide PreReleasePasses, PreReleaseFailureOf, ThermalTimes, ChecksReplay, CheckMarkers, PreconditionTimes, AnswerNs;
  }

  /** A replayed thermal attempt repeats its markers: each stands in the log at the recorded clock,
      with the identity and the outcome of the attempt. */
  lemma ThermalAttemptLogged(e: GuardEvidence, id: Identity, workers: seq<int>, critical: int, a: ThermalAttempt,
      n: nat)
    requires ThermalReplays(e, id, workers, critical, a, n)
    ensures a.attempt == n && a.tag == e.tag(ThermalKey(id.caseId, id.block, id.attempt, n))
    ensures QualificationLogged(e.markers, id, a, n)
    ensures a.startNs.Some? <==> a.qualification.outcome.failure.None?
    ensures a.releaseNs.Some? <==> a.qualification.outcome.failure.None?
    ensures a.startNs.Some? ==> ReleaseLogged(e.markers, id, workers, critical, a, n)
    ensures a.qualification.outcome == e.causal(a.qualification.qualificationNs, a.precondition.cleanupNs, true)
    ensures forall pid :: pid in a.paused <==> pid in workers || pid == critical
    ensures forall pid :: pid in a.paused ==> a.paused[pid] == "T"
  {
    hide ThermalReplays, Lookup, Answer, AnswerNs, PreReleasePasses, PreReleaseFailureOf;
    ThermalParts(e, id, workers, critical, a, n);
    var markers, tag, q := e.markers, a.tag, a.qualification;
    AnswerStands(markers, ByTag(ThermalStart, tag), TagMetadata(tag, NoMore));
    AnswerStands(markers, ByTag(ThermalEnd, tag), TagMetadata(tag, Successful(true)));
    AnswerStands(markers, QualificationQuery(tag, n), Metadata(None, None, Some(tag), Some(n), None,
      QualificationEntries(a.precondition.endNs, a.precondition.cleanupNs, q.outcome.sampleNs)));
    AnswerStands(markers, QualificationResultQuery(id, tag, n),
      Metadata(Some(id.caseId), Some(id.block), Some(tag), Some(id.attempt), Some(n),
        QualificationResultEntries(id.heldOut, q.boundaryNs, q.cleanupNs, q.qualificationNs, q.outcome.sampleNs,
          q.passed, q.outcome.failure)));
    if q.passed {
      AnswerStands(markers, ByThermal(GuardBlockStart, id, n),
        ThermalMetadata(id, n, StartEntries(id.heldOut, workers, critical, q.boundaryNs)));
      AnswerStands(markers, ByThermal(GuardBlockMeasurementRelease, id, n),
        ThermalMetadata(id, n, ReleaseEntries(id.heldOut, critical, q.boundaryNs)));
    }
  }

  /** The qualification passed, and cleanup, sample, qualification, result, start and release follow
      the boundary in this order, the last of them less than 500 ms after it. */
  predicate ReleasedInTime(a: ThermalAttempt) {
    var boundaryNs, q := a.precondition.endNs, a.qualification;
    && q.outcome.failure.None? && q.outcome.sampleNs.Some? && a.startNs.Some? && a.releaseNs.Some?
    && boundaryNs < a.precondition.cleanupNs <= q.outcome.sampleNs.value <= q.qualificationNs <= a.resultNs
    && a.resultNs <= a.startNs.value <= a.releaseNs.value < boundaryNs + 500000000
  }

  /** Clocks that never decrease are within the handoff exactly when the first comes after the
      boundary and the last less than 500 ms after it. */
  lemma WithinByEnds(boundaryNs: int, a: int, b: int, c: int, d: int, f: int, g: int)
    ensures WithinHandoff(boundaryNs, [a, b, c, d, f, g]) <==>
      boundaryNs < a <= b <= c <= d <= f <= g < boundaryNs + 500000000
  {
    var clocks := [a, b, c, d, f, g];
    if WithinHandoff(boundaryNs, clocks) {
      assert clocks[0] <= clocks[0 + 1] && clocks[1] <= clocks[1 + 1] && clocks[2] <= clocks[2 + 1];
      assert clocks[3] <= clocks[3 + 1] && clocks[4] <= clocks[4 + 1];
    }
  }

  /** The verdict that the raw clocks give is the one that the recorded clocks give. */
  lemma VerdictFromClocks(e: GuardEvidence, id: Identity, workers: seq<int>, critical: int, a: ThermalAttempt,
      tag: string, n: nat)
    requires QualificationReplays(e, a, tag, n) && ReleaseReplays(e.markers, id, a, workers, critical, n)
    ensures PreReleasePasses(e.markers, id, a, n) <==> ReleasedInTime(a)
    ensures PreReleaseFailureOf(e.markers, id, a, n) == if ReleasedInTime(a) then None
      else if a.qualification.outcome.failure.Some? then
        Some(QualificationFailed(a.qualification.outcome.failure.value))
      else Some(HandoffExceeded)
  {
    hide Answered, Answer, AnswerNs, WithinHandoff, QualificationQuery;
    var q := a.qualification;
    if q.passed && q.outcome.sampleNs.Some? {
      WithinByEnds(q.boundaryNs, q.cleanupNs, q.outcome.sampleNs.value, q.qualificationNs, a.resultNs,
        a.startNs.value, a.releaseNs.value);
    }
  }

  /** The pre-release outcome of a replayed thermal attempt is the one that its clocks give, and a
      failed attempt names the failed qualification or the exceeded handoff. */
  lemma ReleasedExactly(e: GuardEvidence, id: Identity, workers: seq<int>, critical: int, a: ThermalAttempt, n: nat)
    requires ThermalReplays(e, id, workers, critical, a, n)
    ensures a.preReleasePassed <==> ReleasedInTime(a)
    ensures a.failure == if ReleasedInTime(a) then None
      else if a.qualification.outcome.failure.Some? then
        Some(QualificationFailed(a.qualification.outcome.failure.value))
      else Some(HandoffExceeded)
  {
    hide ThermalReplays, QualificationReplays, ReleaseReplays, PreReleasePasses, PreReleaseFailureOf, ReleasedInTime;
    hide BaseMarkers, BoundaryBinds;
    ThermalParts(e, id, workers, critical, a, n);
    VerdictFromClocks(e, id, workers, critical, a, a.tag, n);
  }

  /** Of the one to three thermal attempts of a block-attempt the last, and no earlier one, was
      released in time: an earlier one failed its qualification or was too slow. */
  lemma FirstReleasedInTime(e: GuardEvidence, id: Identity, workers: seq<int>, critical: int,
      attempts: seq<ThermalAttempt>, selected: int)
    requires AttemptsReplay(e, id, workers, critical, attempts, selected)
    ensures 1 <= |attempts| <= 3 && selected == |attempts|
    ensures forall i :: 0 <= i < |attempts| ==> (ReleasedInTime(attempts[i]) <==> i == |attempts| - 1)
    ensures forall i: nat :: i < |attempts| ==> ThermalReplays(e, id, workers, critical, attempts[i], i + 1)
  {
    hide AttemptTurn, UpTo, ThermalReplays, ReleasedInTime;
    forall i: nat | i < |attempts|
      ensures ReleasedInTime(attempts[i]) <==> i == |attempts| - 1
      ensures ThermalReplays(e, id, workers, critical, attempts[i], i + 1)
    {
      UpToEach(AttemptTurn(e, id, workers, critical, attempts), i, |attempts|);
      TurnReleased(e, id, workers, critical, attempts, i);
    }
  }

  lemma TurnReleased(e: GuardEvidence, id: Identity, workers: seq<int>, critical: int, attempts: seq<ThermalAttempt>,
      i: nat)
    requires i < |attempts| && AttemptTurn(e, id, workers, critical, attempts)(i)
    ensures ReleasedInTime(attempts[i]) <==> i == |attempts| - 1
    ensures ThermalReplays(e, id, workers, critical, attempts[i], i + 1)
  {
    hide ThermalReplays, StartsAfter, ReleasedInTime, ThermalTimes, TimesUpTo;
    assert AttemptReplays(e, id, workers, critical, attempts, i);
    ReleasedExactly(e, id, workers, critical, attempts[i], i + 1);
  }

  // ------------------------------------------------------------------
  // How long a heating lasts
  // ------------------------------------------------------------------

  lemma StableNotEarly<X>(context: Context<X>, sampleNs: int, startNs: int)
    requires context.lock.intervalMs > 0.0 && context.lock.windowSeconds > 0.0 && startNs < sampleNs
    requires Increasing(SampleClocks(context.log.samples)) && WindowPasses(context, sampleNs, startNs)
    ensures (sampleNs - startNs) as real / 1000000000.0 >= context.lock.windowSeconds * 0.99
  {
    hide WindowPasses, Steady, GapsWithin, Read;
    var rs := StableExactly(context, sampleNs, startNs);
    RecentSpan(rs, context.log.samples, StabilitySensor, sampleNs, startNs, context.lock.windowSeconds);
  }

  lemma ThirdLastStable(e: GuardEvidence, p: Precondition, tag: string) returns (sampleNs: int)
    requires PreconditionReplays(e, p, tag)
    ensures p.startNs < sampleNs && e.stable(sampleNs, p.startNs) && sampleNs + 2000000000 < p.endNs
  {
    hide PreconditionReplays, ChecksReplay, CheckMarkers, AnswerNs, SampleOf, Answered, Answer, PreconditionTimes;
    BoundaryRestsOnThreePasses(e, p, tag);
    PreconditionParts(e, p, tag);
    var checks := CheckMarkers(e.markers, tag);
    sampleNs := SampleOf(checks[|checks| - 3]);
  }

  lemma StableIsPass(context: Context<Extra>, naming: ThermalKey -> string, reference: int, notBefore: int)
    requires context.lock.intervalMs > 0.0
    ensures EvidenceOf(context, naming).stable(reference, notBefore) == WindowPasses(context, reference, notBefore)
  {
    hide WindowPasses;
  }

  /** On the samples of a log no heating is accepted before 99 % of the stability window and two more
      seconds have passed since it began: samples from before it never count. */
  lemma HeatingLastsAWindow(context: Context<Extra>, naming: ThermalKey -> string, p: Precondition, tag: string)
    requires context.lock.intervalMs > 0.0 && context.lock.windowSeconds > 0.0
    requires Increasing(SampleClocks(context.log.samples))
    requires PreconditionReplays(EvidenceOf(context, naming), p, tag)
    ensures (p.endNs - p.startNs) as real / 1000000000.0 > context.lock.windowSeconds * 0.99 + 2.0
  {
    hide PreconditionReplays, WindowPasses, EvidenceOf;
    var sampleNs := ThirdLastStable(EvidenceOf(context, naming), p, tag);
    StableIsPass(context, naming, sampleNs, p.startNs);
    StableNotEarly(context, sampleNs, p.startNs);
  }

  // ------------------------------------------------------------------
  // One block-attempt
  // ------------------------------------------------------------------

  function LastThermal(a: BlockAttempt): ThermalAttempt
    requires a.thermalAttempts != []
  {
    a.thermalAttempts[|a.thermalAttempts| - 1]
  }

  /** What the record of a block-attempt says about its resume, its actual start, its result and its
      end stands in the log. */
  ghost predicate BlockAttemptLogged(markers: seq<GuardMarker>, id: Identity, a: BlockAttempt, workers: seq<int>,
      critical: int, boundaryNs: int) {
    && Marker(a.prepareNs, GuardBlockPrepare,
      Metadata(Some(id.caseId), Some(id.block), None, Some(id.attempt), None, PrepareEntries(id.heldOut))) in markers
    && Marker(a.resumeNs, GuardBlockResume,
      Metadata(Some(id.caseId), Some(id.block), None, Some(id.attempt), Some(a.selected),
        ResumeEntries(id.heldOut, critical, workers, boundaryNs))) in markers
    && Marker(a.actualNs, GuardActualStartQualification,
      Metadata(Some(id.caseId), Some(id.block), None, Some(id.attempt), None,
        ActualStartEntries(id.heldOut, a.measurementStartNs, a.actual.outcome,
          a.actual.outcome.failure.None?))) in markers
    && Marker(a.resultNs, GuardBlockResult,
      Metadata(Some(id.caseId), Some(id.block), None, Some(id.attempt), None,
        BlockResultEntries(id.heldOut, a.measurementStartNs, a.measurementEndNs, a.actualNs, a.handoff,
          a.valid))) in markers
    && Marker(a.endNs, GuardBlockEnd,
      Metadata(Some(id.caseId), Some(id.block), None, Some(id.attempt), None,
        EndEntries(id.heldOut, a.valid))) in markers
  }

  lemma StepParts(e: GuardEvidence, files: Files, s: Step, priorEndNs: int)
    requires StepReplays(e, files, s, priorEndNs)
    ensures s.attempt.attempt == s.id.attempt && s.attempt.thermalAttempts != []
    ensures MarkersReplay(e.markers, s) && VerdictReplays(e.markers, s)
    ensures HandoffReplays(e, s, Critical(files, s), WorkerPids(files, s), LastThermal(s.attempt))
    ensures AttemptsReplay(e, s.id, WorkerPids(files, s), Critical(files, s), s.attempt.thermalAttempts,
      s.attempt.selected)
    ensures FilesReplay(files, s) && Ordered(s.attempt, ThermalClocks(e, s), priorEndNs)
    ensures e.healthy(s.attempt.measurementStartNs, s.attempt.measurementEndNs)
  {
    hide MarkersReplay, FilesReplay, HandoffReplays, VerdictReplays, Ordered, AttemptsReplay, WorkerPids, Critical;
    hide ThermalClocks;
  }

  /** A replayed block-attempt repeats its own markers, and carries the clocks of its last thermal
      attempt's release. */
  lemma BlockAttemptRecorded(e: GuardEvidence, files: Files, s: Step, priorEndNs: int)
    requires StepReplays(e, files, s, priorEndNs)
    ensures s.attempt.thermalAttempts != []
    ensures BlockAttemptLogged(e.markers, s.id, s.attempt, WorkerPids(files, s), Critical(files, s),
      LastThermal(s.attempt).precondition.endNs)
    ensures var a, t := s.attempt, LastThermal(s.attempt);
      && t.startNs == Some(a.startNs) && t.releaseNs == Some(a.releaseNs)
      && a.actual.startNs == a.measurementStartNs && a.actual.passed == a.actual.outcome.failure.None?
      && a.actual.outcome == e.causal(a.measurementStartNs, t.precondition.cleanupNs, false)
  {
    hide StepReplays, FilesReplay, AttemptsReplay, Ordered, Lookup, Answer, AnswerNs, WorkerPids, Critical;
    hide ThermalClocks, StrictlyWithin;
    StepParts(e, files, s, priorEndNs);
    var markers, id, a, t := e.markers, s.id, s.attempt, LastThermal(s.attempt);
    SelectedReplays(e, s, WorkerPids(files, s), Critical(files, s));
    AnswerStands(markers, ByAttempt(GuardBlockPrepare, id), AttemptMetadata(id, PrepareEntries(id.heldOut)));
    AnswerStands(markers, ByAttempt(GuardBlockResume, id), ThermalMetadata(id, a.selected,
      ResumeEntries(id.heldOut, Critical(files, s), WorkerPids(files, s), t.qualification.boundaryNs)));
    AnswerStands(markers, ByAttempt(GuardActualStartQualification, id),
      AttemptMetadata(id, ActualStartEntries(id.heldOut, a.actual.startNs, a.actual.outcome, a.actual.passed)));
    AnswerStands(markers, ByAttempt(GuardBlockResult, id), AttemptMetadata(id,
      BlockResultEntries(id.heldOut, a.measurementStartNs, a.measurementEndNs, a.actualNs, a.handoff, a.valid)));
    AnswerStands(markers, ByAttempt(GuardBlockEnd, id), AttemptMetadata(id, EndEntries(id.heldOut, a.valid)));
  }

  lemma SelectedReplays(e: GuardEvidence, s: Step, workers: seq<int>, critical: int)
    requires AttemptsReplay(e, s.id, workers, critical, s.attempt.thermalAttempts, s.attempt.selected)
    ensures var t, n := LastThermal(s.attempt), |s.attempt.thermalAttempts|;
      && ThermalReplays(e, s.id, workers, critical, t, n) && ReleasedInTime(t) && t.qualification.passed
      && t.qualification.boundaryNs == t.precondition.endNs && t.qualification.cleanupNs == t.precondition.cleanupNs
  {
    hide AttemptsReplay, ThermalReplays, Answered, Answer, AnswerNs;
    var n := |s.attempt.thermalAttempts|;
    FirstReleasedInTime(e, s.id, workers, critical, s.attempt.thermalAttempts, s.attempt.selected);
    ThermalParts(e, s.id, workers, critical, s.attempt.thermalAttempts[n - 1], n);
  }

  lemma TailChain(before: seq<int>, tail: seq<int>)
    requires Chain(before + tail)
    ensures Chain(tail)
  {
    forall i | 0 <= i < |tail| - 1
      ensures tail[i] < tail[i + 1]
    {
      assert (before + tail)[|before| + i] < (before + tail)[|before| + i + 1];
    }
  }

  /** The last six marker clocks of an attempt that passed its qualification. */
  lemma TailOfTimes(e: GuardEvidence, id: Identity, a: ThermalAttempt, n: nat, before: seq<int>, tail: seq<int>)
    requires a.qualification.passed && var markers, tag := e.markers, Tag(e, id, n);
      && before == [AnswerNs(markers, ByTag(ThermalPrepare, tag)), AnswerNs(markers, ByTag(ThermalStart, tag))]
        + Clocks(CheckMarkers(markers, tag))
      && tail == [AnswerNs(markers, ByTag(ThermalMeasurementEnd, tag)), AnswerNs(markers, ByTag(ThermalEnd, tag)),
        AnswerNs(markers, QualificationQuery(tag, n)), AnswerNs(markers, QualificationResultQuery(id, tag, n)),
        AnswerNs(markers, ByThermal(GuardBlockStart, id, n)),
        AnswerNs(markers, ByThermal(GuardBlockMeasurementRelease, id, n))]
    ensures ThermalTimes(e, id, a, n) == before + tail
  {
    hide AnswerNs, Clocks, CheckMarkers, ByTag, QualificationQuery, QualificationResultQuery, ByThermal;
  }

  lemma RecordedClocks(e: GuardEvidence, id: Identity, workers: seq<int>, critical: int, a: ThermalAttempt, n: nat)
    requires ThermalReplays(e, id, workers, critical, a, n) && a.qualification.passed
    ensures var markers, tag := e.markers, Tag(e, id, n);
      && a.precondition.endNs == AnswerNs(markers, ByTag(ThermalMeasurementEnd, tag))
      && a.precondition.cleanupNs == AnswerNs(markers, ByTag(ThermalEnd, tag))
      && a.qualification.qualificationNs == AnswerNs(markers, QualificationQuery(tag, n))
      && a.resultNs == AnswerNs(markers, QualificationResultQuery(id, tag, n))
      && a.startNs == Some(AnswerNs(markers, ByThermal(GuardBlockStart, id, n)))
      && a.releaseNs == Some(AnswerNs(markers, ByThermal(GuardBlockMeasurementRelease, id, n)))
  {
    ThermalParts(e, id, workers, critical, a, n);
    hide ThermalReplays, Answered, Answer, AnswerNs, PreReleasePasses, PreReleaseFailureOf, BaseMarkers;
  }

  /** The marker clocks of an attempt that passed its qualification, from its boundary on. */
  lemma ReleasedClocks(e: GuardEvidence, id: Identity, workers: seq<int>, critical: int, a: ThermalAttempt, n: nat)
    requires ThermalReplays(e, id, workers, critical, a, n) && a.qualification.passed
    ensures a.startNs.Some? && a.releaseNs.Some?
    ensures a.precondition.endNs < a.precondition.cleanupNs < a.qualification.qualificationNs < a.resultNs
    ensures a.resultNs < a.startNs.value < a.releaseNs.value
  {
    hide ThermalReplays, Answered, AnswerNs, Clocks, CheckMarkers, Chain, ThermalTimes, Tag;
    hide ByTag, QualificationQuery, QualificationResultQuery, ByThermal;
    var markers, tag := e.markers, Tag(e, id, n);
    var tail := [AnswerNs(markers, ByTag(ThermalMeasurementEnd, tag)), AnswerNs(markers, ByTag(ThermalEnd, tag)),
      AnswerNs(markers, QualificationQuery(tag, n)), AnswerNs(markers, QualificationResultQuery(id, tag, n)),
      AnswerNs(markers, ByThermal(GuardBlockStart, id, n)),
      AnswerNs(markers, ByThermal(GuardBlockMeasurementRelease, id, n))];
    var before := [AnswerNs(markers, ByTag(ThermalPrepare, tag)), AnswerNs(markers, ByTag(ThermalStart, tag))]
      + Clocks(CheckMarkers(markers, tag));
    ThermalTimesChain(e, id, workers, critical, a, n);
    TailOfTimes(e, id, a, n, before, tail);
    TailChain(before, tail);
    SixClocks(tail);
    RecordedClocks(e, id, workers, critical, a, n);
  }

  lemma SixClocks(xs: seq<int>)
    requires Chain(xs) && |xs| == 6
    ensures xs[0] < xs[1] < xs[2] < xs[3] < xs[4] < xs[5]
  {
    ChainIsIncreasing(xs);
  }

  lemma OrderedClocks(e: GuardEvidence, files: Files, s: Step, priorEndNs: int)
    requires StepReplays(e, files, s, priorEndNs)
    ensures var a := s.attempt;
      && priorEndNs < a.prepareNs < a.measurementStartNs
      && a.releaseNs < a.resumeNs < a.measurementStartNs < a.measurementEndNs < a.actualNs < a.resultNs < a.endNs
  {
    StepParts(e, files, s, priorEndNs);
    StepInside(e, files, s, priorEndNs);
    hide StepReplays, FilesReplay, MarkersReplay, VerdictReplays, AttemptsReplay, WorkerPids, Critical, HandoffReplays;
    hide ThermalClocks;
  }

  /** Everything between the end of the heating and the end of a block-attempt happens at strictly
      increasing clocks. */
  lemma AttemptTimeline(e: GuardEvidence, files: Files, s: Step, priorEndNs: int)
    requires StepReplays(e, files, s, priorEndNs)
    ensures s.attempt.thermalAttempts != []
    ensures var a, t := s.attempt, LastThermal(s.attempt);
      && priorEndNs < a.prepareNs < a.measurementStartNs
      && t.precondition.endNs < t.precondition.cleanupNs < t.qualification.qualificationNs < t.resultNs < a.startNs
      && a.startNs < a.releaseNs < a.resumeNs < a.measurementStartNs < a.measurementEndNs
      && a.measurementEndNs < a.actualNs < a.resultNs < a.endNs
  {
    OrderedClocks(e, files, s, priorEndNs);
    BlockAttemptRecorded(e, files, s, priorEndNs);
    StepParts(e, files, s, priorEndNs);
    hide StepReplays, FilesReplay, MarkersReplay, VerdictReplays, AttemptsReplay, WorkerPids, Critical, HandoffReplays;
    hide ThermalReplays, BlockAttemptLogged, Ordered;
    SelectedReplays(e, s, WorkerPids(files, s), Critical(files, s));
    ReleasedClocks(e, s.id, WorkerPids(files, s), Critical(files, s), LastThermal(s.attempt),
      |s.attempt.thermalAttempts|);
  }

  /** The eight clocks of a handoff and whether they make it valid. */
  lemma HandoffInClocks(boundaryNs: int, clocks: seq<int>)
    requires |clocks| == 8
    ensures StrictlyWithin(boundaryNs, clocks) <==>
      && boundaryNs < clocks[0] < clocks[1] < clocks[2] < clocks[3] < clocks[4] < clocks[5] < clocks[6] < clocks[7]
      && clocks[7] < boundaryNs + 500000000
  {
    hide StrictlyWithin, Chain;
    WithinByLastClock(boundaryNs, clocks);
    NineClocks([boundaryNs] + clocks);
  }

  lemma NineClocks(xs: seq<int>)
    requires |xs| == 9
    ensures Chain(xs) <==> xs[0] < xs[1] < xs[2] < xs[3] < xs[4] < xs[5] < xs[6] < xs[7] < xs[8]
  {
    if Chain(xs) {
      ChainIsIncreasing(xs);
    }
  }

  lemma RecordedHandoff(e: GuardEvidence, s: Step, critical: int, workers: seq<int>, t: ThermalAttempt)
    requires HandoffReplays(e, s, critical, workers, t) && VerdictReplays(e.markers, s)
    requires t.qualification.boundaryNs == t.precondition.endNs && t.qualification.cleanupNs == t.precondition.cleanupNs
    ensures t.qualification.outcome.sampleNs.Some?
    ensures var a, q := s.attempt, t.qualification;
      var clocks := [t.precondition.cleanupNs, q.outcome.sampleNs.value, q.qualificationNs, t.resultNs, a.startNs,
        a.releaseNs, a.resumeNs, a.measurementStartNs];
      && a.handoff == Handoff(t.precondition.endNs, clocks, StrictlyWithin(t.precondition.endNs, clocks))
      && a.valid == (a.handoff.within && a.actual.outcome.failure.None?)
  {
    hide StrictlyWithin, Answered, Answer, AnswerNs;
  }

  lemma HandoffOfStep(e: GuardEvidence, files: Files, s: Step, priorEndNs: int)
    requires StepReplays(e, files, s, priorEndNs)
    ensures s.attempt.thermalAttempts != [] && LastThermal(s.attempt).qualification.outcome.sampleNs.Some?
    ensures var a, t := s.attempt, LastThermal(s.attempt); var q := t.qualification;
      var clocks := [t.precondition.cleanupNs, q.outcome.sampleNs.value, q.qualificationNs, t.resultNs, a.startNs,
        a.releaseNs, a.resumeNs, a.measurementStartNs];
      && a.handoff == Handoff(t.precondition.endNs, clocks, StrictlyWithin(t.precondition.endNs, clocks))
      && a.valid == (a.handoff.within && a.actual.outcome.failure.None?)
  {
    StepParts(e, files, s, priorEndNs);
    hide StepReplays, FilesReplay, MarkersReplay, VerdictReplays, AttemptsReplay, WorkerPids, Critical, HandoffReplays;
    hide ThermalReplays, Ordered, StrictlyWithin, ReleasedInTime, ThermalClocks;
    SelectedReplays(e, s, WorkerPids(files, s), Critical(files, s));
    RecordedHandoff(e, s, Critical(files, s), WorkerPids(files, s), LastThermal(s.attempt));
  }

  /** When a measurement is thermally valid.  The handoff records the boundary and eight clocks; the
      order of the markers is checked anyway, so its verdict, whether each clock follows the one
      before it within the bound, comes down to the sample and the measurement start. */
  lemma ValidExactly(e: GuardEvidence, files: Files, s: Step, priorEndNs: int)
    requires StepReplays(e, files, s, priorEndNs)
    ensures s.attempt.thermalAttempts != [] && LastThermal(s.attempt).qualification.outcome.sampleNs.Some?
    ensures var a, t := s.attempt, LastThermal(s.attempt);
      var cleanupNs, sampleNs := t.precondition.cleanupNs, t.qualification.outcome.sampleNs.value;
      && a.handoff.boundaryNs == t.precondition.endNs
      && a.handoff.clocks == [cleanupNs, sampleNs, t.qualification.qualificationNs, t.resultNs, a.startNs, a.releaseNs,
        a.resumeNs, a.measurementStartNs]
      && (a.handoff.within <==>
        cleanupNs < sampleNs < t.qualification.qualificationNs
        && a.measurementStartNs < t.precondition.endNs + 500000000)
      && (a.valid <==> a.handoff.within && e.causal(a.measurementStartNs, cleanupNs, false).failure.None?)
  {
    hide StepReplays, StrictlyWithin, BlockAttemptLogged, WorkerPids, Critical;
    AttemptTimeline(e, files, s, priorEndNs);
    BlockAttemptRecorded(e, files, s, priorEndNs);
    HandoffOfStep(e, files, s, priorEndNs);
    HandoffInClocks(s.attempt.handoff.boundaryNs, s.attempt.handoff.clocks);
  }

  // ------------------------------------------------------------------
  // Its files
  // ------------------------------------------------------------------

  /** The trace of a block-attempt holds exactly 1000 positive drains, and its critical result spans
      the measurement. */
  ghost predicate MeasurementFiled(files: Files, a: BlockAttempt) {
    && a.criticalTrace in files && a.criticalJson in files
    && var trace, result := files[a.criticalTrace].content, files[a.criticalJson].content;
    && trace.CriticalCsv? && |trace.drains| == 1000 && (forall i :: 0 <= i < 1000 ==> trace.drains[i] > 0.0)
    && result.CriticalResult? && result.conforms
    && 0 <= result.startNs == a.measurementStartNs < result.endNs == a.measurementEndNs
  }

  /** Worker `k` was released before it started, ran through the end of the measurement and ended
      before the result. */
  ghost predicate WorkerFiled(files: Files, a: BlockAttempt, raw: string) {
    && raw in files
    && var worker := files[raw].content;
    && worker.WorkerResult? && worker.conforms
    && 0 <= worker.startNs && a.releaseNs <= worker.startNs
    && worker.startNs < a.measurementEndNs <= worker.endNs <= a.resultNs
  }

  /** Process identifiers of the workers, as their files state them. */
  ghost predicate PidsFiled(files: Files, a: BlockAttempt, workers: seq<int>) {
    && |workers| == |a.workerJson|
    && (forall k :: 0 <= k < |workers| ==>
      a.workerJson[k] in files && files[a.workerJson[k]].content.WorkerResult?
      && files[a.workerJson[k]].content.pid == workers[k])
    && (forall k, l :: 0 <= k < l < |workers| ==> workers[k] != workers[l])
  }

  lemma {:induction false} PidsAre(files: Files, s: Step, n: nat)
    requires n <= |s.attempt.workerJson|
    ensures |PidsUpTo(files, s, n)| == n
    ensures forall k :: 0 <= k < n ==> PidsUpTo(files, s, n)[k] == PidOf(ContentOf(files, s.attempt.workerJson[k]))
  {
    hide ContentOf, PidOf;
    if n > 0 {
      PidsAre(files, s, n - 1);
    }
  }

  lemma TwoFiled(files: Files, s: Step)
    requires FilesReplay(files, s)
    ensures MeasurementFiled(files, s.attempt) && |s.attempt.workerJson| == s.workers
    ensures files[s.attempt.criticalJson].content.pid == Critical(files, s)
  {
    hide WorkersReplay, Distinct, WorkerPids;
  }

  lemma OneWorkerFiled(files: Files, s: Step, k: nat)
    requires FilesReplay(files, s) && k < |s.attempt.workerJson|
    ensures WorkerFiled(files, s.attempt, s.attempt.workerJson[k])
    ensures PidOf(ContentOf(files, s.attempt.workerJson[k])) == files[s.attempt.workerJson[k]].content.pid
  {
    hide TraceReplays, CriticalReplays, Distinct, WorkerPids;
    assert WorkerReplays(ContentOf(files, s.attempt.workerJson[k]), s.attempt);
  }

  lemma EveryPidFiled(files: Files, s: Step)
    requires FilesReplay(files, s)
    ensures PidsFiled(files, s.attempt, WorkerPids(files, s))
  {
    hide PidsUpTo, ContentOf, PidOf, WorkersReplay, TraceReplays, CriticalReplays;
    PidsAre(files, s, |s.attempt.workerJson|);
    forall k | 0 <= k < |s.attempt.workerJson|
      ensures s.attempt.workerJson[k] in files && files[s.attempt.workerJson[k]].content.WorkerResult?
      ensures files[s.attempt.workerJson[k]].content.pid == WorkerPids(files, s)[k]
    {
      hide FilesReplay;
      OneWorkerFiled(files, s, k);
    }
  }

  /** What the files of a replayed block-attempt say. */
  lemma AttemptFiled(e: GuardEvidence, files: Files, s: Step, priorEndNs: int)
    requires StepReplays(e, files, s, priorEndNs)
    ensures MeasurementFiled(files, s.attempt) && |s.attempt.workerJson| == s.workers
    ensures forall k :: 0 <= k < s.workers ==> WorkerFiled(files, s.attempt, s.attempt.workerJson[k])
    ensures PidsFiled(files, s.attempt, WorkerPids(files, s))
    ensures files[s.attempt.criticalJson].content.pid == Critical(files, s)
  {
    hide StepReplays, FilesReplay, MeasurementFiled, WorkerFiled, PidsFiled, WorkerPids, Critical;
    StepParts(e, files, s, priorEndNs);
    TwoFiled(files, s);
    EveryPidFiled(files, s);
    forall k | 0 <= k < s.workers
      ensures WorkerFiled(files, s.attempt, s.attempt.workerJson[k])
    {
      OneWorkerFiled(files, s, k);
    }
  }

  // ------------------------------------------------------------------
  // Whole runs
  // ------------------------------------------------------------------

  /** Every block-attempt of an accepted run replays after the one before it. */
  lemma {:induction false} EachReplays(e: GuardEvidence, files: Files, run: Run, i: nat) returns (priorEndNs: int)
    requires Accepted(e, files, run) && i < Length(run)
    ensures StepReplays(e, files, StepAt(run, i), priorEndNs)
    ensures priorEndNs == if i == 0 then StartOf(run) else StepAt(run, i - 1).attempt.endNs
  {
    hide StepReplays, AllClaimed, Registered;
    if i == Length(run) - 1 {
      priorEndNs := EndOf(run.before);
    } else {
      priorEndNs := EachReplays(e, files, run.before, i);
    }
  }

  /** What every block-attempt of an accepted run, whatever came before it, says in its own clocks:
      it has one to three thermal attempts of which the last, and no earlier one, was released in
      time; it counts as valid exactly when the sample of that last one lies between its cleanup and
      its qualification, the measurement starts less than 500 ms after the boundary, and the sample
      at that start is causally qualified; its trace holds 1000 positive drains, and each worker ran
      from the release through the end of the measurement. */
  lemma EveryAttemptInClocks(e: GuardEvidence, files: Files, run: Run, i: nat)
    requires Accepted(e, files, run) && i < Length(run)
    ensures 1 <= |StepAt(run, i).attempt.thermalAttempts| <= 3
    ensures var s := StepAt(run, i);
      var ts := s.attempt.thermalAttempts;
      forall k :: 0 <= k < |ts| ==> (ReleasedInTime(ts[k]) <==> k == |ts| - 1)
    ensures LastThermal(StepAt(run, i).attempt).qualification.outcome.sampleNs.Some?
    ensures var a := StepAt(run, i).attempt;
      var t := LastThermal(a);
      var cleanupNs, sampleNs := t.precondition.cleanupNs, t.qualification.outcome.sampleNs.value;
      a.valid <==>
        cleanupNs < sampleNs < t.qualification.qualificationNs
        && a.measurementStartNs < t.precondition.endNs + 500000000
        && e.causal(a.measurementStartNs, cleanupNs, false).failure.None?
    ensures var s := StepAt(run, i);
      && MeasurementFiled(files, s.attempt) && |s.attempt.workerJson| == s.workers
      && forall k :: 0 <= k < s.workers ==> WorkerFiled(files, s.attempt, s.attempt.workerJson[k])
  {
    hide StepReplays, Accepted, ReleasedInTime, MeasurementFiled, WorkerFiled, PidsFiled, WorkerPids, Critical;
    hide AttemptsReplay, StepAt;
    var priorEndNs := EachReplays(e, files, run, i);
    var s := StepAt(run, i);
    ThermalsInTime(e, files, s, priorEndNs);
    ValidExactly(e, files, s, priorEndNs);
    AttemptFiled(e, files, s, priorEndNs);
  }

  lemma ThermalsInTime(e: GuardEvidence, files: Files, s: Step, priorEndNs: int)
    requires StepReplays(e, files, s, priorEndNs)
    ensures var ts := s.attempt.thermalAttempts;
      1 <= |ts| <= 3 && s.attempt.selected == |ts|
      && forall k :: 0 <= k < |ts| ==> (ReleasedInTime(ts[k]) <==> k == |ts| - 1)
  {
    StepParts(e, files, s, priorEndNs);
    hide StepReplays, ReleasedInTime, AttemptsReplay, HandoffReplays, VerdictReplays, MarkersReplay, FilesReplay;
    hide Ordered, WorkerPids, Critical;
    FirstReleasedInTime(e, s.id, WorkerPids(files, s), Critical(files, s), s.attempt.thermalAttempts,
      s.attempt.selected);
  }

  // ------------------------------------------------------------------
  // The whole campaign
  // ------------------------------------------------------------------

  /** The run replays this block-attempt at some point. */
  predicate Occurs(run: Run, s: Step) {
    run.Then? && (run.step == s || Occurs(run.before, s))
  }

  lemma {:induction false} OccursAt(run: Run, s: Step) returns (i: nat)
    requires Occurs(run, s)
    ensures i < Length(run) && StepAt(run, i) == s
  {
    if run.step == s {
      i := Length(run) - 1;
    } else {
      i := OccursAt(run.before, s);
    }
  }

  lemma {:induction false} OccursAmongAttempts(run: Run, c: Case, block: nat, attempts: seq<BlockAttempt>, n: nat,
      s: Step)
    requires n <= |attempts|
    requires Occurs(run, s) || exists k: nat :: k < n && s == StepOf(c, block, attempts[k], k + 1)
    ensures Occurs(WithAttempts(run, c, block, attempts, n), s)
  {
    if n > 0 && s != StepOf(c, block, attempts[n - 1], n) {
      OccursAmongAttempts(run, c, block, attempts, n - 1, s);
    }
  }

  lemma {:induction false} OccursAmongBlocks(run: Run, c: Case, blocks: seq<Block>, n: nat, s: Step)
    requires n <= |blocks|
    requires Occurs(run, s) || exists i: nat, k: nat ::
      i < n && k < |blocks[i].attempts| && s == StepOf(c, i + 1, blocks[i].attempts[k], k + 1)
    ensures Occurs(WithBlocks(run, c, blocks, n), s)
  {
    hide StepOf, WithAttempts;
    if n > 0 {
      var before, attempts := WithBlocks(run, c, blocks, n - 1), blocks[n - 1].attempts;
      if !exists k: nat :: k < |attempts| && s == StepOf(c, n, attempts[k], k + 1) {
        OccursAmongBlocks(run, c, blocks, n - 1, s);
      }
      OccursAmongAttempts(before, c, n, attempts, |attempts|, s);
    }
  }

  lemma {:induction false} OccursAmongCases(run: Run, protocol: seq<Case>, entries: seq<CaseEntry>, n: nat, k: nat,
      i: nat, j: nat)
    requires k < n <= |protocol| && n <= |entries| && i < |entries[k].blocks|
    requires j < |entries[k].blocks[i].attempts|
    ensures Occurs(WithCases(run, protocol, entries, n),
      StepOf(protocol[k], i + 1, entries[k].blocks[i].attempts[j], j + 1))
  {
    hide StepOf, WithBlocks;
    var s := StepOf(protocol[k], i + 1, entries[k].blocks[i].attempts[j], j + 1);
    if k < n - 1 {
      OccursAmongCases(run, protocol, entries, n - 1, k, i, j);
    }
    OccursAmongBlocks(WithCases(run, protocol, entries, n - 1), protocol[n - 1], entries[n - 1].blocks,
      |entries[n - 1].blocks|, s);
  }

  /** Every stored block-attempt of an accepted campaign, selected or not, is one of the replayed
      ones, under the identity of its place in the profile. */
  lemma EveryStoredAttemptReplayed(e: GuardEvidence, files: Files, protocol: seq<Case>, p: Profile, k: nat, i: nat,
      j: nat) returns (r: nat)
    requires CampaignReplays(e, files, protocol, p) && k < |p.entries| && i < |p.entries[k].blocks|
    requires j < |p.entries[k].blocks[i].attempts|
    ensures |protocol| == |p.entries| && r < Length(RunOf(protocol, p))
    ensures var c, s := protocol[k], StepAt(RunOf(protocol, p), r);
      s.id == Identity(c.caseId, c.heldOut, i + 1, j + 1) && s.attempt == p.entries[k].blocks[i].attempts[j]
  {
    hide Accepted, CampaignMarkers, CasesSelect, Occurs, WithCases;
    OccursAmongCases(Begun(p.startNs), protocol, p.entries, |p.entries|, k, i, j);
    r := OccursAt(RunOf(protocol, p), StepOf(protocol[k], i + 1, p.entries[k].blocks[i].attempts[j], j + 1));
  }

  /** The shape of an accepted campaign: its two markers, the cases of the protocol in order, ten
      numbered blocks each, and one to three attempts at each block, of which exactly the last is
      thermally valid and selected. */
  lemma CampaignShape(e: GuardEvidence, files: Files, protocol: seq<Case>, p: Profile)
    requires CampaignReplays(e, files, protocol, p)
    ensures Marker(p.startNs, GuardCampaignStart, Metadata(None, None, None, None, None, ProtocolEntries(true)))
      in e.markers
    ensures Marker(p.endNs, GuardCampaignEnd, Metadata(None, None, None, None, None, NoMore)) in e.markers
    ensures |p.entries| == |protocol|
    ensures forall k :: 0 <= k < |protocol| ==> p.entries[k].identity == protocol[k] && |p.entries[k].blocks| == 10
    ensures forall k, i :: 0 <= k < |protocol| && 0 <= i < 10 ==>
      var b := p.entries[k].blocks[i];
      && b.block == i + 1 && 1 <= |b.attempts| <= 3 && b.selected == |b.attempts|
      && forall j :: 0 <= j < |b.attempts| ==> (b.attempts[j].valid <==> j == |b.attempts| - 1)
  {
    hide Accepted, RunOf, EndOf, Lookup, Answer, AnswerNs, BlockSelects;
    AnswerStands(e.markers, ByName(GuardCampaignStart), Metadata(None, None, None, None, None, ProtocolEntries(true)));
    AnswerStands(e.markers, ByName(GuardCampaignEnd), Metadata(None, None, None, None, None, NoMore));
    forall k, i | 0 <= k < |protocol| && 0 <= i < 10
      ensures CaseSelects(protocol[k], p.entries[k]) && BlockSelects(p.entries[k].blocks[i], i)
    {
      assert CaseSelects(protocol[k], p.entries[k]);
    }
    forall k, i | 0 <= k < |protocol| && 0 <= i < 10
      ensures var b := p.entries[k].blocks[i];
        && b.block == i + 1 && 1 <= |b.attempts| <= 3 && b.selected == |b.attempts|
        && forall j :: 0 <= j < |b.attempts| ==> (b.attempts[j].valid <==> j == |b.attempts| - 1)
    {
      BlockShapeOf(p.entries[k].blocks[i], i);
    }
  }

  /** A block is accepted exactly when it is in place and its one to three attempts end with the
      first valid one. */
  lemma BlockShapeOf(b: Block, i: nat)
    ensures BlockSelects(b, i) <==>
      && b.block == i + 1 && 1 <= |b.attempts| <= 3 && b.selected == |b.attempts|
      && forall j :: 0 <= j < |b.attempts| ==> (b.attempts[j].valid <==> j == |b.attempts| - 1)
  {
    var flags := Validities(b.attempts);
    assert forall j :: 0 <= j < |flags| ==> flags[j] == b.attempts[j].valid;
  }
}
