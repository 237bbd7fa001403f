/** Replay of one block-attempt of the guard campaign: its markers, its raw files, its thermal
    attempts and its thermal validity (analysis/freeze_p9_guard.py:1871-1936, 2211-2456). */
module GuardBlocks {
  import opened Common
  import opened Telemetry
  import opened Registry
  import opened Accounting
  import opened Chains
  import opened GuardRecords
  import opened GuardAttempts

  /** One block-attempt, with the number of worker processes its case expands to. */
  datatype Step = Step(id: Identity, workers: nat, attempt: BlockAttempt)

  // ------------------------------------------------------------------
  // Raw files
  // ------------------------------------------------------------------

  /** The files a block-attempt claims, in order: its trace, its result, its workers. */
  function ClaimAt(s: Step, k: nat): Claim
    requires k < ClaimCount(s)
  {
    var a := s.attempt;
    if k == 0 then Claim(a.criticalTrace, "critical-csv", s.id.caseId, s.id.block)
    else if k == 1 then Claim(a.criticalJson, "critical-json", s.id.caseId, s.id.block)
    else Claim(a.workerJson[k - 2], "worker-json", s.id.caseId, s.id.block)
  }

  function ClaimCount(s: Step): nat { 2 + |s.attempt.workerJson| }

  /** The manifest after the first `n` claims of a step. */
  ghost function Registered(files: Files, manifest: seq<Entry>, s: Step, n: nat): seq<Entry>
    requires n <= ClaimCount(s)
  {
    if n == 0 then manifest else
      var before := Registered(files, manifest, s, n - 1);
      if ClaimAt(s, n - 1).raw in files then before + [EntryOf(files, ClaimAt(s, n - 1))] else before
  }

  /** The first `n` claims of a step all succeed. */
  ghost predicate Claimed(files: Files, manifest: seq<Entry>, s: Step, n: nat)
    requires n <= ClaimCount(s)
  {
    n == 0 || (Claimed(files, manifest, s, n - 1) && ClaimAt(s,
      n - 1).raw in files && Independent(Registered(files, manifest, s, n)))
  }

  lemma {:induction false} ClaimedPrefix(files: Files, manifest: seq<Entry>, s: Step, k: nat, n: nat)
    requires k <= n <= ClaimCount(s) && Claimed(files, manifest, s, n)
    ensures Claimed(files, manifest, s, k)
  {
    hide Independent, EntryOf, ClaimAt, Registered;
    if k < n {
      ClaimedPrefix(files, manifest, s, k, n - 1);
    }
  }

  /** Successful claims add one entry each. */
  lemma {:induction false} ClaimedSize(files: Files, manifest: seq<Entry>, s: Step, n: nat)
    requires n <= ClaimCount(s) && Claimed(files, manifest, s, n)
    ensures |Registered(files, manifest, s, n)| == |manifest| + n
  {
    if n > 0 {
      ClaimedSize(files, manifest, s, n - 1);
    }
  }

  function ContentOf(files: Files, raw: string): Content {
    if raw in files then files[raw].content else Undecodable
  }

  /** `replay_critical_trace` returns: exactly 1000 positive drains. */
  predicate TraceReplays(c: Content) {
    c.CriticalCsv? && |c.drains| == EVENTS_PER_BLOCK && forall i :: 0 <= i < |c.drains| ==> c.drains[i] > 0.0
  }

  predicate CriticalReplays(c: Content, a: BlockAttempt) {
    && c.CriticalResult? && c.conforms
    && 0 <= c.startNs < c.endNs
    && a.measurementStartNs == c.startNs && a.measurementEndNs == c.endNs
  }

  /** A worker ran from the release through the whole measurement to at most the result marker. */
  predicate WorkerReplays(c: Content, a: BlockAttempt) {
    && c.WorkerResult? && c.conforms
    && 0 <= c.startNs < c.endNs
    && a.releaseNs <= c.startNs < a.measurementEndNs <= c.endNs <= a.resultNs
  }

  function PidOf(c: Content): int { if c.WorkerResult? || c.CriticalResult? then c.pid else 0 }

  /** The process identifiers of the first `n` workers. */
  function PidsUpTo(files: Files, s: Step, n: nat): seq<int>
    requires n <= |s.attempt.workerJson|
  {
    if n == 0 then [] else PidsUpTo(files, s, n - 1) + [PidOf(ContentOf(files, s.attempt.workerJson[n - 1]))]
  }

  function WorkerPids(files: Files, s: Step): seq<int> { PidsUpTo(files, s, |s.attempt.workerJson|) }

  predicate Distinct(xs: seq<int>) { forall i, j :: 0 <= i < j < |xs| ==> xs[i] != xs[j] }

  ghost predicate WorkersReplay(files: Files, s: Step, n: nat)
    requires n <= |s.attempt.workerJson|
  {
    forall k :: 0 <= k < n ==> WorkerReplays(ContentOf(files, s.attempt.workerJson[k]), s.attempt)
  }

  /** The claimed files replay. */
  ghost predicate FilesReplay(files: Files, s: Step) {
    && TraceReplays(ContentOf(files, s.attempt.criticalTrace))
    && CriticalReplays(ContentOf(files, s.attempt.criticalJson), s.attempt)
    && |s.attempt.workerJson| == s.workers
    && WorkersReplay(files, s, |s.attempt.workerJson|)
    && Distinct(WorkerPids(files, s))
  }

  function DrainsOf(files: Files, s: Step): seq<real> {
    var c := ContentOf(files, s.attempt.criticalTrace);
    if c.CriticalCsv? then c.drains else []
  }

  /** What the files of a step leave in the registry when all its claims succeed. */
  ghost predicate AllClaimed(files: Files, manifest: seq<Entry>, s: Step) { Claimed(files, manifest, s, ClaimCount(s)) }

  method ClaimNext(registry: EvidenceRegistry<Content>, ghost manifest: seq<Entry>, s: Step,
      k: nat) returns (c: Option<Content>)
    requires registry.Valid() && k < ClaimCount(s)
    requires Claimed(registry.files, manifest, s, k) && registry.manifest == Registered(registry.files, manifest, s, k)
    modifies registry
    ensures registry.Valid()
    ensures c.Some? <==> Claimed(registry.files, manifest, s, k + 1)
    ensures c.Some? ==> registry.manifest == Registered(registry.files, manifest, s, k + 1)
    ensures c.Some? ==> c.value == ContentOf(registry.files, ClaimAt(s, k).raw)
    ensures c.None? ==> !AllClaimed(registry.files, manifest, s)
  {
    hide Independent, Paths, Inodes, Hashes, EntryOf;
    var file := registry.Claim(ClaimAt(s, k));
    if file.None? {
      if AllClaimed(registry.files, manifest, s) { ClaimedPrefix(registry.files, manifest, s, k + 1, ClaimCount(s)); }
      return None;
    }
    c := Some(file.value.content);
  }

  /** The claims of a block-attempt and the replay of the claimed files. */
  method ReplayFiles(registry: EvidenceRegistry<Content>, s: Step) returns (ok: bool, workers: seq<int>,
      drains: seq<real>)
    requires registry.Valid()
    modifies registry
    ensures registry.Valid()
    ensures ok <==> AllClaimed(registry.files, old(registry.manifest), s) && FilesReplay(registry.files, s)
    ensures ok ==> registry.manifest == Registered(registry.files, old(registry.manifest), s, ClaimCount(s))
    ensures ok ==> workers == WorkerPids(registry.files, s) && drains == DrainsOf(registry.files, s)
  {
    hide CriticalReplays, WorkerReplays, Independent, EntryOf, Paths, Inodes, Hashes;
    var a := s.attempt;
    ghost var manifest := registry.manifest;
    workers, drains := [], [];
    var trace := ClaimNext(registry, manifest, s, 0);
    if trace.None? || !TraceReplays(trace.value) {
      return false, workers, drains;
    }
    drains := trace.value.drains;
    var critical := ClaimNext(registry, manifest, s, 1);
    if critical.None? || !CriticalReplays(critical.value, a) || |a.workerJson| != s.workers {
      return false, workers, drains;
    }
    for k := 0 to |a.workerJson|
      invariant registry.Valid()
      invariant Claimed(registry.files, manifest, s, k + 2)
      invariant registry.manifest == Registered(registry.files, manifest, s, k + 2)
      invariant WorkersReplay(registry.files, s, k)
      invariant workers == PidsUpTo(registry.files, s, k)
    {
      var worker := ClaimNext(registry, manifest, s, k + 2);
      if worker.None? || !WorkerReplays(worker.value, a) {
        return false, workers, drains;
      }
      workers := workers + [PidOf(worker.value)];
    }
    ok := Distinct(workers);
  }

  // ------------------------------------------------------------------
  // The thermal handoff
  // ------------------------------------------------------------------

  /** Each clock follows the boundary and the clock before it, within the bound. */
  predicate StrictlyWithin(boundaryNs: int, clocks: seq<int>) {
    forall i :: 0 <= i < |clocks| ==>
      && clocks[i] > boundaryNs
      && clocks[i] > (if i == 0 then boundaryNs else clocks[i - 1])
      && clocks[i] - boundaryNs < HANDOFF_MAX_NS
  }

  /** The loop of `_replay_thermal_handoff`. */
  method ReplayHandoff(boundaryNs: int, clocks: seq<int>) returns (handoff: Handoff)
    ensures handoff == Handoff(boundaryNs, clocks, StrictlyWithin(boundaryNs, clocks))
  {
    var within := true;
    var previous := boundaryNs;
    for i := 0 to |clocks|
      invariant within == StrictlyWithin(boundaryNs, clocks[..i])
      invariant previous == if i == 0 then boundaryNs else clocks[i - 1]
    {
      assert clocks[..i + 1][..i] == clocks[..i];
      assert forall k :: 0 <= k < i ==> clocks[..i + 1][k] == clocks[..i][k];
      if clocks[i] <= boundaryNs || clocks[i] <= previous || clocks[i] - boundaryNs >= HANDOFF_MAX_NS {
        within := false;
      }
      previous := clocks[i];
    }
    assert clocks[..|clocks|] == clocks;
    handoff := Handoff(boundaryNs, clocks, within);
  }

  /** A handoff is within the bound exactly when its clocks increase strictly from the boundary and
      the last one, the measurement start, comes less than 500 ms after it. */
  lemma WithinByLastClock(boundaryNs: int, clocks: seq<int>)
    requires clocks != []
    ensures StrictlyWithin(boundaryNs, clocks) <==>
      Chain([boundaryNs] + clocks) && Last(clocks) - boundaryNs < HANDOFF_MAX_NS
  {
    var all := [boundaryNs] + clocks;
    if Chain(all) && Last(clocks) - boundaryNs < HANDOFF_MAX_NS {
      ChainIsIncreasing(all);
      forall i | 0 <= i < |clocks|
        ensures clocks[i] > boundaryNs && clocks[i] > (if i == 0 then boundaryNs else clocks[i - 1])
        ensures clocks[i] <= Last(clocks)
      {
        assert all[0] < all[i + 1] && all[i] < all[i + 1];
        assert i + 1 < |clocks| ==> all[i + 1] < all[|clocks|];
      }
    }
  }

  function HandoffClocks(a: BlockAttempt, t: ThermalAttempt): seq<int>
    requires t.qualification.outcome.sampleNs.Some?
  {
    var q := t.qualification;
    [q.cleanupNs, q.outcome.sampleNs.value, q.qualificationNs, t.resultNs, a.startNs, a.releaseNs, a.resumeNs,
      a.measurementStartNs]
  }

  // ------------------------------------------------------------------
  // One block-attempt
  // ------------------------------------------------------------------

  predicate Recorded(markers: seq<GuardMarker>, q: Query, ns: int) {
    Answered(markers, q) && ns == AnswerNs(markers, q)
  }

  /** The seven markers of a block-attempt exist, once each, and the record repeats their clocks. */
  predicate MarkersReplay(markers: seq<GuardMarker>, s: Step) {
    var id, a := s.id, s.attempt;
    && Recorded(markers, ByAttempt(GuardBlockPrepare, id), a.prepareNs)
    && Recorded(markers, ByThermal(GuardBlockStart, id, a.selected), a.startNs)
    && Recorded(markers, ByThermal(GuardBlockMeasurementRelease, id, a.selected), a.releaseNs)
    && Recorded(markers, ByAttempt(GuardBlockResume, id), a.resumeNs)
    && Recorded(markers, ByAttempt(GuardActualStartQualification, id), a.actualNs)
    && Recorded(markers, ByAttempt(GuardBlockResult, id), a.resultNs)
    && Recorded(markers, ByAttempt(GuardBlockEnd, id), a.endNs)
    && Answer(markers, ByAttempt(GuardBlockPrepare, id)).metadata == AttemptMetadata(id, PrepareEntries(id.heldOut))
  }

  /** The selected thermal attempt carried into the measurement: resume, handoff, and the causal
      qualification at the measurement start. */
  predicate HandoffReplays(e: GuardEvidence, s: Step, critical: int, workers: seq<int>, t: ThermalAttempt) {
    var markers, id, a := e.markers, s.id, s.attempt;
    && t.startNs == Some(a.startNs) && t.releaseNs == Some(a.releaseNs)
    && AnsweredWith(markers, ByAttempt(GuardBlockResume, id),
      ThermalMetadata(id, a.selected, ResumeEntries(id.heldOut, critical, workers, t.qualification.boundaryNs)))
    && t.qualification.outcome.sampleNs.Some?
    && a.handoff == Handoff(t.qualification.boundaryNs, HandoffClocks(a, t),
      StrictlyWithin(t.qualification.boundaryNs, HandoffClocks(a, t)))
    && t.qualification.cleanupNs < a.measurementStartNs
    && var outcome := e.causal(a.measurementStartNs, t.qualification.cleanupNs, false);
    a.actual == ActualStart(a.measurementStartNs, outcome, outcome.failure.None?)
  }

  /** The thermal verdict of the block-attempt, and the markers that state it. */
  predicate VerdictReplays(markers: seq<GuardMarker>, s: Step) {
    var id, a := s.id, s.attempt;
    && AnsweredWith(markers, ByAttempt(GuardActualStartQualification, id),
      AttemptMetadata(id, ActualStartEntries(id.heldOut, a.actual.startNs, a.actual.outcome, a.actual.passed)))
    && a.valid == (a.handoff.within && a.actual.passed)
    && AnsweredWith(markers, ByAttempt(GuardBlockResult, id),
      AttemptMetadata(id, BlockResultEntries(id.heldOut, a.measurementStartNs, a.measurementEndNs, a.actualNs,
        a.handoff, a.valid)))
    && AnsweredWith(markers, ByAttempt(GuardBlockEnd, id), AttemptMetadata(id, EndEntries(id.heldOut, a.valid)))
  }

  /** The evidence chain of a block-attempt is strictly ordered and follows what came before it. */
  predicate Ordered(a: BlockAttempt, thermalTimes: seq<int>, priorEndNs: int) {
    && thermalTimes != []
    && priorEndNs < a.prepareNs < thermalTimes[0]
    && Last(thermalTimes) == a.releaseNs
    && a.releaseNs < a.resumeNs < a.measurementStartNs < a.measurementEndNs
    && a.measurementEndNs < a.actualNs < a.resultNs < a.endNs
    && a.startNs < a.releaseNs
  }

  function Critical(files: Files, s: Step): int { PidOf(ContentOf(files, s.attempt.criticalJson)) }

  ghost predicate ThermalAttemptsReplay(e: GuardEvidence, files: Files, s: Step) {
    AttemptsReplay(e, s.id, WorkerPids(files, s), Critical(files, s), s.attempt.thermalAttempts, s.attempt.selected)
  }

  function ThermalClocks(e: GuardEvidence, s: Step): seq<int> {
    TimesUpTo(e, s.id, s.attempt.thermalAttempts, |s.attempt.thermalAttempts|)
  }

  /** `_replay_block_attempt` returns, apart from its claims on the registry. */
  ghost predicate StepReplays(e: GuardEvidence, files: Files, s: Step, priorEndNs: int) {
    && s.attempt.attempt == s.id.attempt && s.attempt.conforms
    && MarkersReplay(e.markers, s)
    && FilesReplay(files, s)
    && ThermalAttemptsReplay(e, files, s)
    && s.attempt.thermalAttempts != []
    && HandoffReplays(e, s, Critical(files, s), WorkerPids(files, s),
      s.attempt.thermalAttempts[|s.attempt.thermalAttempts| - 1])
    && VerdictReplays(e.markers, s)
    && Ordered(s.attempt, ThermalClocks(e, s), priorEndNs)
    && e.healthy(s.attempt.measurementStartNs, s.attempt.measurementEndNs)
  }

  /** What a replayed block-attempt hands on: its end clock and its drains. */
  datatype Replayed = Replayed(endNs: int, drains: seq<real>)

  /** The handoff part of `_replay_block_attempt`. */
  method ReplayMeasurement(e: GuardEvidence, s: Step, critical: int, workers: seq<int>,
      t: ThermalAttempt) returns (ok: bool)
    ensures ok <==> HandoffReplays(e, s, critical, workers, t)
  {
    var q, id, a := t.qualification, s.id, s.attempt;
    if t.startNs != Some(a.startNs) || t.releaseNs != Some(a.releaseNs) {
      return false;
    }
    var resume := ThermalMetadata(id, a.selected, ResumeEntries(id.heldOut, critical, workers, q.boundaryNs));
    if !AnsweredWith(e.markers, ByAttempt(GuardBlockResume, id), resume) || q.outcome.sampleNs.None? {
      return false;
    }
    var handoff := ReplayHandoff(q.boundaryNs, HandoffClocks(a, t));
    if a.handoff != handoff || a.measurementStartNs <= q.cleanupNs {
      return false;
    }
    var outcome := e.causal(a.measurementStartNs, q.cleanupNs, false);
    ok := a.actual == ActualStart(a.measurementStartNs, outcome, outcome.failure.None?);
  }

  method ReplayBlockAttempt(e: GuardEvidence, registry: EvidenceRegistry<Content>, s: Step,
      priorEndNs: int) returns (r: Option<Replayed>)
    requires registry.Valid()
    modifies registry
    ensures registry.Valid()
    ensures r.Some? <==>
      AllClaimed(registry.files, old(registry.manifest), s) && StepReplays(e, registry.files, s, priorEndNs)
    ensures r.Some? ==> r.value == Replayed(s.attempt.endNs, DrainsOf(registry.files, s))
    ensures r.Some? ==> registry.manifest == Registered(registry.files, old(registry.manifest), s, ClaimCount(s))
  {
    hide MarkersReplay, FilesReplay, DrainsOf, AttemptsReplay, HandoffReplays, VerdictReplays, Ordered, AllClaimed;
    hide Registered, WorkerPids, TimesUpTo, Critical;
    var a := s.attempt;
    if a.attempt != s.id.attempt || !a.conforms || !MarkersReplay(e.markers, s) {
      return None;
    }
    var ok, workers, drains := ReplayFiles(registry, s);
    if !ok {
      return None;
    }
    var critical := Critical(registry.files, s);
    var times := ReplayAttempts(e, s.id, workers, critical, a.thermalAttempts, a.selected);
    if times.None? || a.thermalAttempts == [] {
      return None;
    }
    var carried := ReplayMeasurement(e, s, critical, workers, a.thermalAttempts[|a.thermalAttempts| - 1]);
    if !carried || !VerdictReplays(e.markers, s) {
      return None;
    }
    if !Ordered(a, times.value, priorEndNs) || !e.healthy(a.measurementStartNs, a.measurementEndNs) {
      return None;
    }
    r := Some(Replayed(a.endNs, drains));
  }
}
