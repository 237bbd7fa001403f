/** Replay of a whole guard campaign: blocks with retries, cases of ten blocks, and the campaign
    of eleven cases (analysis/freeze_p9_guard.py:2194-2208, 2459-2550, 2635-2757). */
module GuardCampaign {
  import opened Common
  import opened Telemetry
  import opened Registry
  import opened Accounting
  import opened GuardRecords
  import opened GuardBlocks
  import GuardBound

  // ------------------------------------------------------------------
  // Runs
  // ------------------------------------------------------------------

  /** The block-attempts replayed so far, after the campaign started. */
  datatype Run = Begun(startNs: int) | Then(before: Run, step: Step)

  /** `prior_end_ns`: the clock that the next block-attempt must follow. */
  function EndOf(run: Run): int {
    if run.Begun? then run.startNs else run.step.attempt.endNs
  }

  /** The registry's manifest after the claims of a run. */
  ghost function Manifest(files: Files, run: Run): seq<Entry> {
    if run.Begun? then [] else Registered(files, Manifest(files, run.before), run.step, ClaimCount(run.step))
  }

  /** Every block-attempt of the run replays after the one before it, and all its claims succeed. */
  ghost predicate Accepted(e: GuardEvidence, files: Files, run: Run) {
    run.Then? ==>
      && Accepted(e, files, run.before)
      && AllClaimed(files, Manifest(files, run.before), run.step)
      && StepReplays(e, files, run.step, EndOf(run.before))
  }

  /** `_expanded_clients` has one worker for each unit of each client's count. */
  function Expanded(clients: seq<GuardBound.Client>): nat {
    if clients == [] then 0 else
      Expanded(clients[..|clients| - 1]) + if clients[|clients| - 1].count > 0 then clients[|clients| - 1].count else 0
  }

  function StepOf(c: Case, block: nat, attempt: BlockAttempt, n: nat): Step {
    Step(Identity(c.caseId, c.heldOut, block, n), Expanded(c.clients), attempt)
  }

  /** `run` followed by the first `n` attempts at a block. */
  function WithAttempts(run: Run, c: Case, block: nat, attempts: seq<BlockAttempt>, n: nat): Run
    requires n <= |attempts|
  {
    if n == 0 then run else Then(WithAttempts(run, c, block, attempts, n - 1), StepOf(c, block, attempts[n - 1], n))
  }

  /** `run` followed by the first `n` blocks of a case. */
  function WithBlocks(run: Run, c: Case, blocks: seq<Block>, n: nat): Run
    requires n <= |blocks|
  {
    if n == 0 then run else
      WithAttempts(WithBlocks(run, c, blocks, n - 1), c, n, blocks[n - 1].attempts, |blocks[n - 1].attempts|)
  }

  /** `run` followed by the first `n` cases. */
  function WithCases(run: Run, protocol: seq<Case>, entries: seq<CaseEntry>, n: nat): Run
    requires n <= |protocol| && n <= |entries|
  {
    if n == 0 then run else
      WithBlocks(WithCases(run, protocol, entries, n - 1), protocol[n - 1], entries[n - 1].blocks,
        |entries[n - 1].blocks|)
  }

  // A run that is accepted was accepted at every point on the way.

  lemma {:induction false} AcceptedBeforeAttempts(e: GuardEvidence, files: Files, run: Run, c: Case,
      block: nat, attempts: seq<BlockAttempt>, k: nat, n: nat)
    requires k <= n <= |attempts| && Accepted(e, files, WithAttempts(run, c, block, attempts, n))
    ensures Accepted(e, files, WithAttempts(run, c, block, attempts, k))
  {
    hide StepReplays, AllClaimed, Registered;
    if k < n {
      AcceptedBeforeAttempts(e, files, run, c, block, attempts, k, n - 1);
    }
  }

  lemma {:induction false} AcceptedBeforeBlocks(e: GuardEvidence, files: Files, run: Run, c: Case,
      blocks: seq<Block>, k: nat, n: nat)
    requires k <= n <= |blocks| && Accepted(e, files, WithBlocks(run, c, blocks, n))
    ensures Accepted(e, files, WithBlocks(run, c, blocks, k))
  {
    hide StepReplays, AllClaimed, Registered;
    if k < n {
      AcceptedBeforeAttempts(e, files, WithBlocks(run, c, blocks, n - 1), c, n, blocks[n - 1].attempts, 0,
        |blocks[n - 1].attempts|);
      AcceptedBeforeBlocks(e, files, run, c, blocks, k, n - 1);
    }
  }

  lemma {:induction false} AcceptedBeforeCases(e: GuardEvidence, files: Files, run: Run, protocol: seq<Case>,
      entries: seq<CaseEntry>, k: nat, n: nat)
    requires k <= n <= |protocol| && n <= |entries| && Accepted(e, files, WithCases(run, protocol, entries, n))
    ensures Accepted(e, files, WithCases(run, protocol, entries, k))
  {
    hide StepReplays, AllClaimed, Registered;
    if k < n {
      AcceptedBeforeBlocks(e, files, WithCases(run, protocol, entries, n - 1), protocol[n - 1], entries[n - 1].blocks,
        0, |entries[n - 1].blocks|);
      AcceptedBeforeCases(e, files, run, protocol, entries, k, n - 1);
    }
  }

  // ------------------------------------------------------------------
  // One block and its retries
  // ------------------------------------------------------------------

  function Validities(attempts: seq<BlockAttempt>): (flags: seq<bool>)
    ensures |flags| == |attempts| && forall i :: 0 <= i < |attempts| ==> flags[i] == attempts[i].valid
  {
    seq(|attempts|, i requires 0 <= i < |attempts| => attempts[i].valid)
  }

  /** `_require_first_thermally_valid_attempt` returns; it reads the validity flags and nothing else. */
  predicate FirstValid(flags: seq<bool>, selected: int) {
    && flags != []
    && selected == |flags|
    && forall i :: 0 <= i < |flags| ==> flags[i] == (i + 1 == |flags|)
  }

  /** An initial part of some outcomes is accepted exactly when its last attempt is the least valid
      one and the selected one. */
  lemma FirstValidIsLeast(outcomes: seq<bool>, k: nat, selected: int)
    requires k <= |outcomes|
    ensures FirstValid(outcomes[..k], selected) <==>
      selected == k && k > 0 && outcomes[k - 1] && forall i :: 0 <= i < k - 1 ==> !outcomes[i]
  {
    if k > 0 {
      assert outcomes[..k][k - 1] == outcomes[k - 1];
    }
    assert forall i :: 0 <= i < k ==> outcomes[..k][i] == outcomes[i];
  }

  /** Of the outcomes of trying a block again and again exactly one initial part is accepted, as
      soon as one attempt is valid. */
  lemma {:induction false} FirstValidPart(outcomes: seq<bool>) returns (k: nat)
    requires true in outcomes
    ensures k <= |outcomes| && FirstValid(outcomes[..k], k)
    ensures forall j :: 0 <= j <= |outcomes| && FirstValid(outcomes[..j], j) ==> j == k
    decreases |outcomes|
  {
    var front := outcomes[..|outcomes| - 1];
    if true in front {
      k := FirstValidPart(front);
      assert outcomes[..k] == front[..k];
    } else {
      k := |outcomes|;
      assert outcomes == front + [true];
    }
    forall j | 0 <= j <= |outcomes| && FirstValid(outcomes[..j], j)
      ensures j == k
    {
      FirstValidIsLeast(outcomes, j, j);
      FirstValidIsLeast(outcomes, k, k);
    }
  }

  /** An accepted list of attempts never extends another accepted list. */
  lemma FirstValidPrefixFree(flags: seq<bool>, more: seq<bool>, selected: int, later: int)
    requires FirstValid(flags, selected) && FirstValid(flags + more, later)
    ensures more == [] && selected == later
  {
    assert (flags + more)[|flags| - 1] == flags[|flags| - 1];
  }

  predicate BlockShape(b: Block, i: nat) {
    b.block == i + 1 && 1 <= |b.attempts| <= BLOCK_MAX_ATTEMPTS && b.selected == |b.attempts|
  }

  predicate BlockSelects(b: Block, i: nat) {
    BlockShape(b, i) && FirstValid(Validities(b.attempts), b.selected)
  }

  method ReplayBlock(e: GuardEvidence, registry: EvidenceRegistry<Content>, ghost run: Run, c: Case, i: nat,
      b: Block, priorEndNs: int)
      returns (r: Option<Replayed>)
    requires registry.Valid() && registry.manifest == Manifest(registry.files, run)
    requires Accepted(e, registry.files, run) && priorEndNs == EndOf(run)
    modifies registry
    ensures registry.Valid()
    ensures r.Some? <==>
      BlockSelects(b, i) && Accepted(e, registry.files, WithAttempts(run, c, i + 1, b.attempts, |b.attempts|))
    ensures r.Some? ==>
      registry.manifest == Manifest(registry.files, WithAttempts(run, c, i + 1, b.attempts, |b.attempts|))
    ensures r.Some? ==> r.value.endNs == EndOf(WithAttempts(run, c, i + 1, b.attempts, |b.attempts|))
    ensures r.Some? ==> r.value.drains == SelectedDrains(registry.files, b)
  {
    hide StepReplays, AllClaimed, Registered, DrainsOf;
    if !BlockShape(b, i) {
      return None;
    }
    var last := Replayed(priorEndNs, []);
    for n := 0 to |b.attempts|
      invariant registry.Valid()
      invariant registry.manifest == Manifest(registry.files, WithAttempts(run, c, i + 1, b.attempts, n))
      invariant Accepted(e, registry.files, WithAttempts(run, c, i + 1, b.attempts, n))
      invariant last.endNs == EndOf(WithAttempts(run, c, i + 1, b.attempts, n))
      invariant n > 0 ==> last.drains == DrainsOf(registry.files, StepOf(c, i + 1, b.attempts[n - 1], n))
    {
      var replayed := ReplayBlockAttempt(e, registry, StepOf(c, i + 1, b.attempts[n], n + 1), last.endNs);
      if replayed.None? {
        if Accepted(e, registry.files, WithAttempts(run, c, i + 1, b.attempts, |b.attempts|)) {
          AcceptedBeforeAttempts(e, registry.files, run, c, i + 1, b.attempts, n + 1, |b.attempts|);
        }
        return None;
      }
      last := replayed.value;
    }
    if !FirstValid(Validities(b.attempts), b.selected) {
      return None;
    }
    SameTrace(registry.files, c, i, b);
    r := Some(last);
  }

  /** The drains of the last, and only valid, attempt at a block. */
  function SelectedDrains(files: Files, b: Block): seq<real> {
    if b.attempts == [] then [] else
      var content := ContentOf(files, b.attempts[|b.attempts| - 1].criticalTrace);
      if content.CriticalCsv? then content.drains else []
  }

  lemma SameTrace(files: Files, c: Case, i: nat, b: Block)
    requires b.attempts != []
    ensures DrainsOf(files, StepOf(c, i + 1, b.attempts[|b.attempts| - 1], |b.attempts|)) == SelectedDrains(files, b)
  {
  }

  // ------------------------------------------------------------------
  // One case
  // ------------------------------------------------------------------

  /** The pooled drains of the first `n` blocks. */
  function Pooled(files: Files, blocks: seq<Block>, n: nat): seq<real>
    requires n <= |blocks|
  {
    if n == 0 then [] else Pooled(files, blocks, n - 1) + SelectedDrains(files, blocks[n - 1])
  }

  ghost predicate BlocksSelect(blocks: seq<Block>, n: nat)
    requires n <= |blocks|
  {
    forall i :: 0 <= i < n ==> BlockSelects(blocks[i], i)
  }

  /** The stored case is the protocol's, with ten blocks that each use their first valid attempt. */
  ghost predicate CaseSelects(c: Case, entry: CaseEntry) {
    entry.identity == c && |entry.blocks| == BLOCKS && BlocksSelect(entry.blocks, BLOCKS)
  }

  lemma {:induction false} StepDrains(e: GuardEvidence, files: Files, run: Run)
    requires run.Then? && Accepted(e, files, run)
    ensures TraceReplays(ContentOf(files, run.step.attempt.criticalTrace))
  {
    hide MarkersReplay, ThermalAttemptsReplay, HandoffReplays, VerdictReplays, Ordered, AllClaimed, WorkersReplay;
    hide Distinct;
  }

  /** A replayed block gives exactly 1000 positive drains. */
  lemma SelectedSize(e: GuardEvidence, files: Files, run: Run, c: Case, i: nat, b: Block)
    requires BlockSelects(b, i) && Accepted(e, files, WithAttempts(run, c, i + 1, b.attempts, |b.attempts|))
    ensures |SelectedDrains(files, b)| == EVENTS_PER_BLOCK
    ensures forall k :: 0 <= k < EVENTS_PER_BLOCK ==> SelectedDrains(files, b)[k] > 0.0
  {
    hide Accepted, ContentOf;
    StepDrains(e, files, WithAttempts(run, c, i + 1, b.attempts, |b.attempts|));
  }

  /** Every replayed block pools exactly 1000 positive drains. */
  lemma {:induction false} PooledSize(e: GuardEvidence, files: Files, run: Run, c: Case, blocks: seq<Block>, n: nat)
    requires n <= |blocks| && BlocksSelect(blocks, n) && Accepted(e, files, WithBlocks(run, c, blocks, n))
    ensures |Pooled(files, blocks, n)| == n * EVENTS_PER_BLOCK
    ensures forall i :: 0 <= i < |Pooled(files, blocks, n)| ==> Pooled(files, blocks, n)[i] > 0.0
  {
    hide Accepted, BlockSelects, SelectedDrains, WithAttempts;
    if n > 0 {
      AcceptedBeforeBlocks(e, files, run, c, blocks, n - 1, n);
      PooledSize(e, files, run, c, blocks, n - 1);
      SelectedSize(e, files, WithBlocks(run, c, blocks, n - 1), c, n - 1, blocks[n - 1]);
    }
  }

  method ReplayCase(e: GuardEvidence, registry: EvidenceRegistry<Content>, ghost run: Run, c: Case,
      entry: CaseEntry, priorEndNs: int)
      returns (r: Option<Replayed>)
    requires registry.Valid() && registry.manifest == Manifest(registry.files, run)
    requires Accepted(e, registry.files, run) && priorEndNs == EndOf(run)
    modifies registry
    ensures registry.Valid()
    ensures r.Some? <==>
      CaseSelects(c, entry) && Accepted(e, registry.files, WithBlocks(run, c, entry.blocks, |entry.blocks|))
    ensures r.Some? ==> registry.manifest == Manifest(registry.files, WithBlocks(run, c, entry.blocks, |entry.blocks|))
    ensures r.Some? ==> r.value.endNs == EndOf(WithBlocks(run, c, entry.blocks, |entry.blocks|))
    ensures r.Some? ==> r.value.drains == Pooled(registry.files, entry.blocks, BLOCKS)
  {
    hide StepReplays, AllClaimed, Accepted, Manifest, BlockSelects, SelectedDrains, WithAttempts, EndOf;
    if entry.identity != c || |entry.blocks| != BLOCKS {
      return None;
    }
    var all := Replayed(priorEndNs, []);
    for i := 0 to BLOCKS
      invariant registry.Valid() && registry.manifest == Manifest(registry.files, WithBlocks(run, c, entry.blocks, i))
      invariant Accepted(e, registry.files, WithBlocks(run, c, entry.blocks, i)) && BlocksSelect(entry.blocks, i)
      invariant all == Replayed(EndOf(WithBlocks(run, c, entry.blocks, i)), Pooled(registry.files, entry.blocks, i))
    {
      var block := ReplayBlock(e, registry, WithBlocks(run, c, entry.blocks, i), c, i, entry.blocks[i], all.endNs);
      if block.None? {
        if Accepted(e, registry.files, WithBlocks(run, c, entry.blocks, BLOCKS)) {
          AcceptedBeforeBlocks(e, registry.files, run, c, entry.blocks, i + 1, BLOCKS);
        }
        return None;
      }
      all := Replayed(block.value.endNs, all.drains + block.value.drains);
    }
    PooledSize(e, registry.files, run, c, entry.blocks, BLOCKS);
    if |all.drains| != BLOCKS * EVENTS_PER_BLOCK {
      return None;
    }
    r := Some(all);
  }

  // ------------------------------------------------------------------
  // The expected number of markers
  // ------------------------------------------------------------------

  /** What one thermal attempt adds: six markers, its checks, and two more when it passed. */
  function ThermalCount(t: ThermalAttempt): nat {
    6 + |t.precondition.checks| + if t.qualification.passed then 2 else 0
  }

  function ThermalCounts(attempts: seq<ThermalAttempt>, n: nat): nat
    requires n <= |attempts|
  {
    if n == 0 then 0 else ThermalCounts(attempts, n - 1) + ThermalCount(attempts[n - 1])
  }

  function StepCount(s: Step): nat { 5 + ThermalCounts(s.attempt.thermalAttempts, |s.attempt.thermalAttempts|) }

  /** The markers that a run accounts for. */
  function RunCount(run: Run): nat {
    if run.Begun? then 0 else RunCount(run.before) + StepCount(run.step)
  }

  method CountThermal(attempts: seq<ThermalAttempt>) returns (count: nat)
    ensures count == ThermalCounts(attempts, |attempts|)
  {
    count := 0;
    for n := 0 to |attempts|
      invariant count == ThermalCounts(attempts, n)
    {
      count := count + 6 + |attempts[n].precondition.checks|;
      if attempts[n].qualification.passed {
        count := count + 2;
      }
    }
  }

  /** The nested counting loops of `build_lock`. */
  method ExpectedMarkerCount(ghost run: Run, protocol: seq<Case>, entries: seq<CaseEntry>) returns (count: nat)
    requires |protocol| == |entries| && RunCount(run) == 0
    ensures count == 3 + RunCount(WithCases(run, protocol, entries, |entries|))
  {
    count := 3;
    for k := 0 to |entries|
      invariant count == 3 + RunCount(WithCases(run, protocol, entries, k))
    {
      var blocks := entries[k].blocks;
      ghost var before := WithCases(run, protocol, entries, k);
      for i := 0 to |blocks|
        invariant count == 3 + RunCount(WithBlocks(before, protocol[k], blocks, i))
      {
        var attempts := blocks[i].attempts;
        ghost var inCase := WithBlocks(before, protocol[k], blocks, i);
        for n := 0 to |attempts|
          invariant count == 3 + RunCount(WithAttempts(inCase, protocol[k], i + 1, attempts, n))
        {
          var thermal := CountThermal(attempts[n].thermalAttempts);
          count := count + 5 + thermal;
        }
      }
    }
  }

  // ------------------------------------------------------------------
  // The campaign
  // ------------------------------------------------------------------

  /** The stored profile: its campaign clocks and its cases. */
  datatype Profile = Profile(startNs: int, endNs: int, entries: seq<CaseEntry>)

  predicate CampaignName(name: Name) {
    name in {
      CollectorReady, GuardCampaignStart, GuardCampaignEnd, ThermalPrepare, ThermalStart, ThermalActiveStabilityCheck,
      ThermalMeasurementEnd, ThermalEnd, ThermalStartQualification, ThermalStartQualificationResult, GuardBlockPrepare,
      GuardBlockStart, GuardBlockMeasurementRelease, GuardBlockResume, GuardActualStartQualification,
      GuardBlockResult, GuardBlockEnd }
  }

  /** The campaign markers are unique, ordered and repeated by the profile, and every marker has an allowed name. */
  predicate CampaignMarkers(markers: seq<GuardMarker>, p: Profile) {
    && Answered(markers, ByName(CollectorReady))
    && AnsweredWith(markers, ByName(GuardCampaignStart), Metadata(None, None, None, None, None, ProtocolEntries(true)))
    && AnsweredWith(markers, ByName(GuardCampaignEnd), Metadata(None, None, None, None, None, NoMore))
    && p.startNs == AnswerNs(markers, ByName(GuardCampaignStart))
    && p.endNs == AnswerNs(markers, ByName(GuardCampaignEnd))
    && AnswerNs(markers, ByName(CollectorReady)) < p.startNs < p.endNs
    && forall m :: m in markers ==> CampaignName(m.name)
  }

  predicate CaseOrder(protocol: seq<Case>, entries: seq<CaseEntry>) {
    |entries| == |protocol| && forall k :: 0 <= k < |entries| ==> entries[k].identity.caseId == protocol[k].caseId
  }

  ghost predicate CasesSelect(protocol: seq<Case>, entries: seq<CaseEntry>, n: nat)
    requires n <= |protocol| && n <= |entries|
  {
    forall k :: 0 <= k < n ==> CaseSelects(protocol[k], entries[k])
  }

  /** The run of the whole profile. */
  function RunOf(protocol: seq<Case>, p: Profile): Run
    requires |p.entries| == |protocol|
  {
    WithCases(Begun(p.startNs), protocol, p.entries, |p.entries|)
  }

  /** Everything `build_lock` checks of the campaign except the number of markers. */
  ghost predicate CampaignReplays(e: GuardEvidence, files: Files, protocol: seq<Case>, p: Profile) {
    && CampaignMarkers(e.markers, p)
    && CaseOrder(protocol, p.entries)
    && CasesSelect(protocol, p.entries, |p.entries|)
    && Accepted(e, files, RunOf(protocol, p))
    && EndOf(RunOf(protocol, p)) < p.endNs
  }

  ghost predicate CountMatches(e: GuardEvidence, protocol: seq<Case>, p: Profile) {
    |p.entries| == |protocol| && |e.markers| == 3 + RunCount(RunOf(protocol, p))
  }

  /** The pooled drains of the first `n` cases. */
  function Pools(files: Files, entries: seq<CaseEntry>, n: nat): (pools: seq<seq<real>>)
    requires n <= |entries|
    ensures |pools| == n
  {
    seq(n, k requires 0 <= k < n => Pooled(files, entries[k].blocks, |entries[k].blocks|))
  }

  /** The replay part of `build_lock`: the pooled drains of each case, or `None` when a check raises. */
  method ReplayCampaign(e: GuardEvidence, files: Files, protocol: seq<Case>, p: Profile)
      returns (pools: Option<seq<seq<real>>>, manifest: seq<Entry>)
    ensures pools.Some? <==> CampaignReplays(e, files, protocol, p) && CountMatches(e, protocol, p)
    ensures pools.Some? ==>
      pools.value == Pools(files, p.entries, |p.entries|) && manifest == Manifest(files, RunOf(protocol, p))
  {
    hide Accepted, Manifest, CaseSelects, CampaignMarkers, WithBlocks, EndOf, Pooled, RunCount;
    manifest := [];
    if !CampaignMarkers(e.markers, p) || !CaseOrder(protocol, p.entries) {
      return None, manifest;
    }
    ghost var begun := Begun(p.startNs);
    BegunFacts(e, files, p.startNs);
    var expected := ExpectedMarkerCount(begun, protocol, p.entries);
    if |e.markers| != expected {
      return None, manifest;
    }
    var registry := new EvidenceRegistry<Content>(files);
    var priorEndNs := p.startNs;
    var all: seq<seq<real>> := [];
    for k := 0 to |p.entries|
      invariant registry.Valid() && fresh(registry) && registry.files == files
      invariant registry.manifest == Manifest(files, WithCases(begun, protocol, p.entries, k))
      invariant Accepted(e, files, WithCases(begun, protocol, p.entries, k)) && CasesSelect(protocol, p.entries, k)
      invariant priorEndNs == EndOf(WithCases(begun, protocol, p.entries, k))
      invariant all == Pools(files, p.entries, k)
    {
      var replayed := ReplayCase(e, registry, WithCases(begun, protocol, p.entries, k), protocol[k], p.entries[k],
        priorEndNs);
      if replayed.None? {
        if Accepted(e, files, RunOf(protocol, p)) {
          AcceptedBeforeCases(e, files, begun, protocol, p.entries, k + 1, |p.entries|);
        }
        return None, manifest;
      }
      SelectsTenBlocks(protocol[k], p.entries[k]);
      all := all + [replayed.value.drains];
      priorEndNs := replayed.value.endNs;
    }
    manifest := registry.manifest;
    pools := if priorEndNs < p.endNs then Some(all) else None;
  }

  lemma BegunFacts(e: GuardEvidence, files: Files, startNs: int)
    ensures Accepted(e, files, Begun(startNs)) && Manifest(files, Begun(startNs)) == []
    ensures EndOf(Begun(startNs)) == startNs && RunCount(Begun(startNs)) == 0
  {
  }

  lemma SelectsTenBlocks(c: Case, entry: CaseEntry)
    requires CaseSelects(c, entry)
    ensures |entry.blocks| == BLOCKS
  {
  }
}
