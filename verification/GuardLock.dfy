/** Freezing the guards: the fixed protocol of eleven cases, the guard of each single-client case,
    and the coverage of the held-out mixes (analysis/freeze_p9_guard.py:141-207, 2720-2790). */
module GuardLock {
  import opened Common
  import opened Telemetry
  import opened Windows
  import opened ThermalWindow
  import opened Registry
  import opened GuardRecords
  import opened GuardCampaign
  import opened GuardAttempts
  import opened GuardAccounting
  import opened GuardBound
  import opened Labels
  import Coverage
  import Percentile

  const COVERAGE_SLACK_MS := 0.000000000001

  // ------------------------------------------------------------------
  // The fixed protocol
  // ------------------------------------------------------------------

  function SingleCase(placement: string, quota: string, modality: string): Case {
    Case(placement + "-q" + quota + "-" + modality, false, [Client(placement, quota, modality, 1)])
  }

  function SingleCases(): seq<Case> {
    [ SingleCase("resident-1g", "25", "language"), SingleCase("resident-1g", "25", "audio"),
      SingleCase("resident-1g", "50", "language"), SingleCase("resident-1g", "50", "audio"),
      SingleCase("resident-1g", "100", "language"), SingleCase("resident-1g", "100", "audio"),
      SingleCase("borrower-2g", "100", "language"), SingleCase("borrower-2g", "100", "audio") ]
  }

  function HeldOutCases(): seq<Case> {
    [ Case("heldout-resident-q100-audio-x6", true, [Client("resident-1g", "100", "audio", 6)]),
      Case("heldout-split-resident-q50-audio-x3-borrower-q100-audio-x3", true,
        [Client("resident-1g", "50", "audio", 3), Client("borrower-2g", "100", "audio", 3)]),
      Case("heldout-split-resident-q25-audio-x3-borrower-q100-audio-x3", true,
        [Client("resident-1g", "25", "audio", 3), Client("borrower-2g", "100", "audio", 3)]) ]
  }

  function Protocol(): seq<Case> { SingleCases() + HeldOutCases() }

  /** The client that a single case calibrates. */
  function Calibrates(c: Case): Client {
    if c.clients == [] then Client("", "", "", 0) else c.clients[0]
  }

  ghost predicate DistinctKeys(cases: seq<Case>) {
    forall i, j :: 0 <= i < j < |cases| ==> Key(Calibrates(cases[i])) != Key(Calibrates(cases[j]))
  }

  function SingleKeys(): seq<(string, string, string)> {
    [ ("resident-1g", "25", "language"), ("resident-1g", "25", "audio"),
      ("resident-1g", "50", "language"), ("resident-1g", "50", "audio"),
      ("resident-1g", "100", "language"), ("resident-1g", "100", "audio"),
      ("borrower-2g", "100", "language"), ("borrower-2g", "100", "audio") ]
  }

  lemma KeyOfSingle(k: nat)
    requires k < 8
    ensures |SingleCases()| == 8 && Key(Calibrates(SingleCases()[k])) == SingleKeys()[k]
  {
  }

  /** No single case calibrates the key of another. */
  lemma SingleKeysDistinct()
    ensures DistinctKeys(SingleCases())
  {
    hide SingleCases, Calibrates, Key;
    KeyOfSingle(0);
    assert "language" != "audio" && "25" != "50" && |"100"| == 3 && |"25"| == 2 && |"50"| == 2;
    assert "resident-1g"[0] == 'r' && "borrower-2g"[0] == 'b';
    var keys := SingleKeys();
    assert forall i, j :: 0 <= i < j < 8 ==> keys[i] != keys[j];
    hide SingleKeys;
    forall i, j | 0 <= i < j < 8
      ensures Key(Calibrates(SingleCases()[i])) != Key(Calibrates(SingleCases()[j]))
    {
      KeyOfSingle(i);
      KeyOfSingle(j);
    }
  }

  // ------------------------------------------------------------------
  // Freezing
  // ------------------------------------------------------------------

  /** The guards after the first `n` single cases. */
  function GuardsAfter(cases: seq<Case>, pools: seq<seq<real>>, n: nat): Guards
    requires n <= |cases| && n <= |pools|
  {
    if n == 0 then map[] else
      var estimate := EstimateGuard(pools[n - 1]);
      GuardsAfter(cases, pools, n - 1)[Key(Calibrates(cases[n - 1])) := if estimate.Ok? then estimate.value.1 else 0.0]
  }

  ghost predicate AllEstimated(pools: seq<seq<real>>, n: nat)
    requires n <= |pools|
  {
    forall k :: 0 <= k < n ==> EstimateGuard(pools[k]).Ok?
  }

  method FreezeGuards(cases: seq<Case>, pools: seq<seq<real>>) returns (guards: Option<Guards>)
    requires |cases| <= |pools|
    ensures guards.Some? <==> AllEstimated(pools, |cases|)
    ensures guards.Some? ==> guards.value == GuardsAfter(cases, pools, |cases|)
  {
    hide EstimateGuard;
    var frozen: Guards := map[];
    for k := 0 to |cases|
      invariant AllEstimated(pools, k) && frozen == GuardsAfter(cases, pools, k)
    {
      var estimate := EstimateGuard(pools[k]);
      if estimate.Err? {
        return None;
      }
      frozen := frozen[Key(Calibrates(cases[k])) := estimate.value.1];
    }
    guards := Some(frozen);
  }

  /** The frozen map holds one guard for each calibrated key, the one estimated from its own pool. */
  lemma {:induction false} GuardOfCase(cases: seq<Case>, pools: seq<seq<real>>, n: nat, k: nat)
    requires k < n <= |cases| && n <= |pools| && DistinctKeys(cases) && AllEstimated(pools, n)
    ensures Key(Calibrates(cases[k])) in GuardsAfter(cases, pools, n)
    ensures GuardsAfter(cases, pools, n)[Key(Calibrates(cases[k]))] == EstimateGuard(pools[k]).value.1
  {
    hide EstimateGuard;
    if k < n - 1 {
      GuardOfCase(cases, pools, n - 1, k);
      assert Key(Calibrates(cases[k])) != Key(Calibrates(cases[n - 1]));
    }
  }

  /** Each client of a held-out case has the key of a single case. */
  lemma HeldOutKey(j: nat, i: nat) returns (k: nat)
    requires j < |HeldOutCases()| && i < |HeldOutCases()[j].clients|
    ensures k < |SingleCases()| && Key(HeldOutCases()[j].clients[i]) == Key(Calibrates(SingleCases()[k]))
  {
    k := if i == 1 then 7 else if j == 0 then 5 else if j == 1 then 3 else 1;
    assert HeldOutCases()[j].clients[i].modality == "audio";
  }

  /** The protocol never asks for a guard it did not calibrate: that error of
      `additive_envelope_ms` cannot occur in an accepted campaign. */
  lemma HeldOutCasesCalibrated(pools: seq<seq<real>>, j: nat)
    requires j < |HeldOutCases()| && |pools| >= |SingleCases()| && AllEstimated(pools, |SingleCases()|)
    ensures HeldOutCases()[j].clients != []
    ensures Calibrated(HeldOutCases()[j].clients, GuardsAfter(SingleCases(), pools, |SingleCases()|))
  {
    SomeClients(j);
    hide EstimateGuard, GuardsAfter, SingleCases, HeldOutCases, AllEstimated, Key, Calibrates;
    SingleKeysDistinct();
    var clients := HeldOutCases()[j].clients;
    forall i | 0 <= i < |clients|
      ensures Key(clients[i]) in GuardsAfter(SingleCases(), pools, |SingleCases()|)
    {
      var k := HeldOutKey(j, i);
      GuardOfCase(SingleCases(), pools, |SingleCases()|, k);
    }
  }

  lemma SomeClients(j: nat)
    requires j < |HeldOutCases()|
    ensures HeldOutCases()[j].clients != []
  {
  }

  // ------------------------------------------------------------------
  // Held-out coverage
  // ------------------------------------------------------------------

  method Maximum(values: seq<real>) returns (largest: real)
    requires values != []
    ensures largest in values && forall i :: 0 <= i < |values| ==> values[i] <= largest
  {
    largest := values[0];
    for i := 1 to |values|
      invariant largest in values && forall k :: 0 <= k < i ==> values[k] <= largest
    {
      if values[i] > largest {
        largest := values[i];
      }
    }
  }

  ghost predicate NoneAbove(values: seq<real>, bound: real) {
    forall i :: 0 <= i < |values| ==> values[i] <= bound
  }

  /** The envelope of a mix covers a pool of drains and fits the formal period. */
  ghost predicate Covers(envelope: real, clients: seq<Client>, guards: Guards, pool: seq<real>)
    requires Calibrated(clients, guards)
  {
    && IsEnvelope(envelope, clients, guards)
    && 0.0 <= envelope < FORMAL_PERIOD_MS
    && NoneAbove(pool, envelope + COVERAGE_SLACK_MS)
  }

  /** `additive_envelope_ms` followed by `require_held_out_coverage`. */
  method RequireCoverage(clients: seq<Client>, guards: Guards, pool: seq<real>) returns (r: Option<real>)
    requires pool != [] && Percentile.AllNonnegative(pool)
    ensures r.Some? <==> clients != [] && Calibrated(clients, guards) && exists x :: Covers(x, clients, guards, pool)
    ensures r.Some? ==> Covers(r.value, clients, guards, pool)
  {
    var envelope := AdditiveEnvelope(clients, guards);
    if envelope.Err? {
      return None;
    }
    var observed := Maximum(pool);
    var x := envelope.value.0;
    if x < 0.0 || observed < 0.0 || x >= FORMAL_PERIOD_MS || x + COVERAGE_SLACK_MS < observed {
      OnlyEnvelope(x, clients, guards, pool, observed);
      return None;
    }
    assert Covers(x, clients, guards, pool);
    r := Some(x);
  }

  /** A mix is covered exactly when its largest load is not negative and less than 20 ms, and no drain
      exceeds it by more than a billionth of a microsecond. */
  lemma CoverableInNumbers(clients: seq<Client>, guards: Guards, pool: seq<real>, x: real)
    requires clients != [] && Calibrated(clients, guards) && IsEnvelope(x, clients, guards)
    ensures Coverable(clients, guards, pool) <==>
      0.0 <= x < 20.0 && forall i :: 0 <= i < |pool| ==> pool[i] <= x + 0.000000000001
  {
    if y :| Covers(y, clients, guards, pool) {
      EnvelopeUnique(x, y, clients, guards);
    }
    if 0.0 <= x < 20.0 && forall i :: 0 <= i < |pool| ==> pool[i] <= x + 0.000000000001 {
      assert Covers(x, clients, guards, pool);
    }
    hide IsEnvelope, Calibrated;
  }

  lemma OnlyEnvelope(x: real, clients: seq<Client>, guards: Guards, pool: seq<real>, observed: real)
    requires pool != [] && Percentile.AllNonnegative(pool) && Calibrated(clients, guards)
    requires IsEnvelope(x, clients, guards)
    requires observed in pool
    requires (x < 0.0 || observed < 0.0 || x >= FORMAL_PERIOD_MS || x + COVERAGE_SLACK_MS < observed)
    ensures !exists y :: Covers(y, clients, guards, pool)
  {
    var i :| 0 <= i < |pool| && pool[i] == observed;
    if y :| Covers(y, clients, guards, pool) {
      EnvelopeUnique(x, y, clients, guards);
    }
  }

  // ------------------------------------------------------------------
  // The frozen lock
  // ------------------------------------------------------------------

  datatype FrozenLock = FrozenLock(guards: Guards, envelopes: seq<real>, manifest: seq<Entry>)

  /** The guards of the single cases cover the first `n` held-out cases. */
  ghost predicate HeldOutCovered(pools: seq<seq<real>>, guards: Guards, envelopes: seq<real>, n: nat)
    requires n <= |envelopes| && n <= |HeldOutCases()| && |SingleCases()| + n <= |pools|
  {
    forall j :: 0 <= j < n ==>
      && Calibrated(HeldOutCases()[j].clients, guards)
      && Covers(envelopes[j], HeldOutCases()[j].clients, guards, pools[|SingleCases()| + j])
  }

  /** Some envelope of a mix covers its pool. */
  ghost predicate Coverable(clients: seq<Client>, guards: Guards, pool: seq<real>) {
    clients != [] && Calibrated(clients, guards) && exists x :: Covers(x, clients, guards, pool)
  }

  ghost predicate AllCoverable(pools: seq<seq<real>>, guards: Guards, n: nat)
    requires n <= |HeldOutCases()| && |SingleCases()| + n <= |pools|
  {
    forall j :: 0 <= j < n ==> Coverable(HeldOutCases()[j].clients, guards, pools[|SingleCases()| + j])
  }

  /** The campaign replays, every single case yields a guard that fits the period, and the guards
      cover every held-out mix. */
  ghost predicate Freezes(e: GuardEvidence, files: Files, p: Profile) {
    && CampaignReplays(e, files, Protocol(), p)
    && CountMatches(e, Protocol(), p)
    && var pools := Pools(files, p.entries, |p.entries|);
    && |pools| == |Protocol()|
    && AllEstimated(pools, |SingleCases()|)
    && AllCoverable(pools, GuardsAfter(SingleCases(), pools, |SingleCases()|), |HeldOutCases()|)
  }

  /** `build_lock` from the loaded telemetry on. */
  method BuildLock(e: GuardEvidence, files: Files, p: Profile) returns (r: Option<FrozenLock>)
    ensures r.Some? <==> Freezes(e, files, p)
    ensures r.Some? ==> r.value.manifest == Manifest(files, RunOf(Protocol(), p))
    ensures r.Some? ==> var pools := Pools(files, p.entries, |p.entries|);
      && r.value.guards == GuardsAfter(SingleCases(), pools, |SingleCases()|)
      && |r.value.envelopes| == |HeldOutCases()|
      && HeldOutCovered(pools, r.value.guards, r.value.envelopes, |HeldOutCases()|)
      && (forall j :: 0 <= j < |HeldOutCases()| ==>
        && Calibrated(HeldOutCases()[j].clients, r.value.guards)
        && Covers(r.value.envelopes[j], HeldOutCases()[j].clients, r.value.guards, pools[|SingleCases()| + j]))
  {
    hide CampaignReplays, CountMatches, Manifest, Pools, EstimateGuard, GuardsAfter, SingleCases, HeldOutCases;
    hide Covers, Calibrated;
    var replayed, manifest := ReplayCampaign(e, files, Protocol(), p);
    if replayed.None? {
      return None;
    }
    var pools := replayed.value;
    OnePoolPerCase(e, files, p);
    var guards := FreezeGuards(SingleCases(), pools);
    if guards.None? {
      return None;
    }
    var envelopes: seq<real> := [];
    for j := 0 to |HeldOutCases()|
      invariant |envelopes| == j && HeldOutCovered(pools, guards.value, envelopes, j)
      invariant AllCoverable(pools, guards.value, j)
    {
      PositivePool(e, files, p, |SingleCases()| + j);
      var envelope := RequireCoverage(HeldOutCases()[j].clients, guards.value, pools[|SingleCases()| + j]);
      if envelope.None? {
        assert !Coverable(HeldOutCases()[j].clients, guards.value, pools[|SingleCases()| + j]);
        return None;
      }
      envelopes := envelopes + [envelope.value];
    }
    r := Some(FrozenLock(guards.value, envelopes, manifest));
  }

  lemma OnePoolPerCase(e: GuardEvidence, files: Files, p: Profile)
    requires CampaignReplays(e, files, Protocol(), p)
    ensures |p.entries| == |Protocol()| == |SingleCases()| + |HeldOutCases()|
    ensures |Pools(files, p.entries, |p.entries|)| == |p.entries|
  {
    hide CampaignMarkers, CasesSelect, Accepted;
  }

  /** Every pool of an accepted campaign holds 10,000 positive drains, so the length test of
      `_replay_case` never raises and every guard has samples to estimate from. */
  lemma PositivePool(e: GuardEvidence, files: Files, p: Profile, k: nat)
    requires CampaignReplays(e, files, Protocol(), p) && k < |p.entries|
    ensures var pool := Pools(files, p.entries, |p.entries|)[k];
      |pool| == BLOCKS * EVENTS_PER_BLOCK && Percentile.AllNonnegative(pool)
  {
    hide CampaignMarkers, Accepted, Protocol, WithBlocks;
    var protocol, run := Protocol(), Begun(p.startNs);
    assert CaseSelects(protocol[k], p.entries[k]);
    AcceptedBeforeCases(e, files, run, protocol, p.entries, k + 1, |p.entries|);
    PooledSize(e, files, WithCases(run, protocol, p.entries, k), protocol[k], p.entries[k].blocks, BLOCKS);
  }

  lemma GuardsBoundTheirPools(pools: seq<seq<real>>, k: nat)
    requires |pools| >= |SingleCases()| && AllEstimated(pools, |SingleCases()|) && k < |SingleCases()|
    requires |pools[k]| == BLOCKS * EVENTS_PER_BLOCK
    ensures Key(Calibrates(SingleCases()[k])) in GuardsAfter(SingleCases(), pools, |SingleCases()|)
    ensures Percentile.CountAbove(pools[k],
      GuardsAfter(SingleCases(), pools, |SingleCases()|)[Key(Calibrates(SingleCases()[k]))]) <= 10
  {
    hide EstimateGuard, GuardsAfter, SingleCases;
    SingleKeysDistinct();
    GuardOfCase(SingleCases(), pools, |SingleCases()|, k);
    GuardBoundsDrains(pools[k]);
    TenExceed();
  }

  /** In a frozen lock each single-client guard rests on 10,000 drains, of which at most
      ceil(0.001 * 9999) = 10 exceed it. */
  lemma FrozenGuardsBoundTheirPools(e: GuardEvidence, files: Files, p: Profile, k: nat)
    requires Freezes(e, files, p) && k < |SingleCases()|
    ensures var pools := Pools(files, p.entries, |p.entries|);
      && |pools| >= |SingleCases()| && |pools[k]| == 10000
      && var guards, key := GuardsAfter(SingleCases(), pools, |SingleCases()|), Key(Calibrates(SingleCases()[k]));
      && key in guards && Percentile.CountAbove(pools[k], guards[key]) <= 10
  {
    hide CampaignReplays, CountMatches, Pools, EstimateGuard, GuardsAfter, SingleCases, HeldOutCases, AllCoverable;
    OnePoolPerCase(e, files, p);
    PositivePool(e, files, p, k);
    GuardsBoundTheirPools(Pools(files, p.entries, |p.entries|), k);
  }

  lemma TenExceed()
    ensures Percentile.Exceedances(BLOCKS * EVENTS_PER_BLOCK, QUANTILE) == 10
  {
  }

  // ------------------------------------------------------------------
  // Labels
  // ------------------------------------------------------------------

  /** The label of a thermal attempt. */
  function GuardTag(k: ThermalKey): string { GuardLabel(k.caseId, k.block, k.attempt, k.thermal) }

  /** The evidence that `build_lock` replays: the loaded telemetry, read through the campaign labels. */
  function GuardEvidenceOf(context: Context<Extra>): GuardEvidence
    requires context.lock.intervalMs > 0.0
  {
    EvidenceOf(context, GuardTag)
  }

  /** What the replay asks of the log it gets from the samples: windows, verdicts and causal outcomes as
      `WindowReadings` and `SampleVerdicts` describe them, under the label of the attempt. */
  lemma GuardAnswers(context: Context<Extra>, reference: int, notBefore: int, first: bool, k: ThermalKey)
    requires context.lock.intervalMs > 0.0
    ensures var e := GuardEvidenceOf(context);
      && e.markers == context.log.markers
      && e.window(reference, notBefore)
        == EvidenceWindow(context.log.samples, reference, notBefore, context.lock.windowSeconds)
      && e.stable(reference, notBefore) == WindowPasses(context, reference, notBefore)
      && e.healthy(notBefore, reference) == HealthyInterval(context.log.samples, context.lock, notBefore, reference)
      && e.causal(reference, notBefore, first) == CausalOutcome(context, reference, notBefore, first)
      && e.staleNs == (context.lock.maximumGapMs * 1000000.0).Floor
      && e.tag(k) == "pre-p9-guard-" + k.caseId + "-block-" + TwoDigits(k.block) + "-attempt-" + TwoDigits(k.attempt)
        + "-thermal-" + TwoDigits(k.thermal)
  {
    hide EvidenceWindow, WindowPasses, HealthyInterval, CausalOutcome, GuardLabel;
    GuardLabelReads(k.caseId, k.block, k.attempt, k.thermal);
  }

  /** A marker that answers a lookup by the label of one thermal attempt answers none of another,
      in whichever case, block and block-attempt that one lies. */
  lemma LabelsSeparateAttempts(context: Context<Extra>, id: Identity, n: nat, id': Identity, n': nat, name: Name)
    requires context.lock.intervalMs > 0.0
    requires ThermalKey(id.caseId, id.block, id.attempt, n) != ThermalKey(id'.caseId, id'.block, id'.attempt, n')
    ensures var e := GuardEvidenceOf(context);
      forall k :: k in Found(e.markers, ByTag(name, Tag(e, id, n))) ==>
        k !in Found(e.markers, ByTag(name, Tag(e, id', n')))
  {
    hide GuardLabel, Found;
    var e := GuardEvidenceOf(context);
    if GuardLabel(id.caseId, id.block, id.attempt, n) == GuardLabel(id'.caseId, id'.block, id'.attempt, n') {
      GuardLabelInjective(id.caseId, id.block, id.attempt, n, id'.caseId, id'.block, id'.attempt, n');
    }
    assert Tag(e, id, n) == GuardLabel(id.caseId, id.block, id.attempt, n);
    assert Tag(e, id', n') == GuardLabel(id'.caseId, id'.block, id'.attempt, n');
    ConflictSeparates(e.markers, ByTag(name, Tag(e, id, n)), ByTag(name, Tag(e, id', n')));
  }

  /** A frozen lock rests on a log whose every marker was read, once, in order. */
  lemma FrozenLockReadsWholeLog(context: Context<Extra>, files: Files, p: Profile)
    requires context.lock.intervalMs > 0.0 && WellOrdered(context.log)
    requires Freezes(GuardEvidenceOf(context), files, p)
    ensures |CampaignRefs(GuardEvidenceOf(context), Protocol(), p)| == |context.log.markers|
    ensures forall k :: 0 <= k < |context.log.markers| ==> CampaignRefs(GuardEvidenceOf(context), Protocol(), p)[k] == k
  {
    hide CampaignReplays, CountMatches, CampaignRefs, AllEstimated, AllCoverable, Protocol;
    EveryMarkerRead(GuardEvidenceOf(context), files, Protocol(), p);
  }

  /** Behind every measurement of a frozen lock lies a stretch of the log with a complete sample in
      every interval as long as the gap limit, and no sample at the hard limit. */
  lemma FrozenMeasurementsWatched(context: Context<Extra>, files: Files, p: Profile, i: nat)
    requires context.lock.intervalMs > 0.0 && WellOrdered(context.log)
    requires Freezes(GuardEvidenceOf(context), files, p) && |p.entries| == |Protocol()|
    requires i < Length(RunOf(Protocol(), p))
    ensures var a := StepAt(RunOf(Protocol(), p), i).attempt;
      var selected := Select(context.log.samples, HalfOpen(a.measurementStartNs, a.measurementEndNs));
      && Coverage.Covers(SampleClocks(Valid(selected)), a.measurementStartNs, a.measurementEndNs,
        GapLimit(context.lock))
      && BelowLimit(selected, context.lock.hardLimit)
  {
    hide CountMatches, AllEstimated, AllCoverable, Protocol, Accepted, CampaignMarkers, CasesSelect, RunOf, StepAt;
    hide Length;
    hide Select, Valid, GapLimit, BelowLimit, Coverage.Covers, Coverage.NoGapAbove, RequiredSamples;
    var run := RunOf(Protocol(), p);
    MeasurementsAreSound(GuardEvidenceOf(context), files, run, i);
    var a := StepAt(run, i).attempt;
    HealthyIntervalExactly(context.log.samples, context.lock, a.measurementStartNs, a.measurementEndNs);
  }
}
