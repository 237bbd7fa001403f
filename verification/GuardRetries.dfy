/** Which attempt a guard campaign uses depends on thermal validity alone
    (analysis/freeze_p9_guard.py:2140-2163, 2194-2208): measured drains never enter the decision, and
    an accepted list of attempts ends where the retry rule stops. */
module GuardRetries {
  import opened Common
  import opened Registry
  import opened GuardRecords
  import opened GuardAttempts
  import opened GuardBlocks
  import opened GuardCampaign
  import opened GuardAccounting

  // ------------------------------------------------------------------
  // Two file systems that differ in measured drains
  // ------------------------------------------------------------------

  /** The same content, or two drain traces that both decode. */
  predicate SameButDrains(c: Content, d: Content) { c == d || (TraceReplays(c) && TraceReplays(d)) }

  /** The same files under the same names; contents differ at most in the drains of traces that
      decode, and hashes, which follow the contents, are equal for the same pairs of files.  Critical
      results are the same, with the flag that says whether they sum up their trace. */
  ghost predicate DrainsOnly(f: Files, g: Files) {
    && f.Keys == g.Keys
    && (forall r :: r in f ==> f[r].path == g[r].path && f[r].dev == g[r].dev && f[r].ino == g[r].ino)
    && (forall r :: r in f ==> SameButDrains(f[r].content, g[r].content))
    && (forall r, q :: r in f && q in f ==> (f[r].sha == f[q].sha <==> g[r].sha == g[q].sha))
  }

  lemma SameContents(f: Files, g: Files, raw: string)
    requires DrainsOnly(f, g)
    ensures SameButDrains(ContentOf(f, raw), ContentOf(g, raw))
  {
    hide TraceReplays;
  }

  /** Only a drain trace can differ, and nothing but its drains is read from it. */
  lemma SameVerdicts(c: Content, d: Content, a: BlockAttempt)
    requires SameButDrains(c, d)
    ensures TraceReplays(c) == TraceReplays(d) && CriticalReplays(c, a) == CriticalReplays(d, a)
    ensures WorkerReplays(c, a) == WorkerReplays(d, a) && PidOf(c) == PidOf(d)
  {
  }

  lemma {:induction false} SamePids(f: Files, g: Files, s: Step, n: nat)
    requires DrainsOnly(f, g) && n <= |s.attempt.workerJson|
    ensures PidsUpTo(f, s, n) == PidsUpTo(g, s, n)
  {
    hide DrainsOnly, ContentOf, PidOf, SameButDrains;
    if n > 0 {
      SamePids(f, g, s, n - 1);
      SameContents(f, g, s.attempt.workerJson[n - 1]);
      SameVerdicts(ContentOf(f, s.attempt.workerJson[n - 1]), ContentOf(g, s.attempt.workerJson[n - 1]), s.attempt);
    }
  }

  lemma SameFilesReplay(f: Files, g: Files, s: Step)
    requires DrainsOnly(f, g)
    ensures FilesReplay(f, s) <==> FilesReplay(g, s)
    ensures WorkerPids(f, s) == WorkerPids(g, s) && Critical(f, s) == Critical(g, s)
  {
    hide DrainsOnly, ContentOf, PidOf, SameButDrains, TraceReplays, CriticalReplays, WorkerReplays, Distinct, PidsUpTo;
    var a := s.attempt;
    SameContents(f, g, a.criticalTrace);
    SameVerdicts(ContentOf(f, a.criticalTrace), ContentOf(g, a.criticalTrace), a);
    SameContents(f, g, a.criticalJson);
    SameVerdicts(ContentOf(f, a.criticalJson), ContentOf(g, a.criticalJson), a);
    forall k | 0 <= k < |a.workerJson|
      ensures WorkerReplays(ContentOf(f, a.workerJson[k]), a) == WorkerReplays(ContentOf(g, a.workerJson[k]), a)
    {
      SameContents(f, g, a.workerJson[k]);
      SameVerdicts(ContentOf(f, a.workerJson[k]), ContentOf(g, a.workerJson[k]), a);
    }
    SamePids(f, g, s, |a.workerJson|);
  }

  /** A block-attempt replays with both files or with neither. */
  lemma StepIgnoresDrains(e: GuardEvidence, f: Files, g: Files, s: Step, priorEndNs: int)
    requires DrainsOnly(f, g)
    ensures StepReplays(e, f, s, priorEndNs) <==> StepReplays(e, g, s, priorEndNs)
  {
    hide MarkersReplay, FilesReplay, AttemptsReplay, HandoffReplays, VerdictReplays, Ordered, WorkerPids, Critical;
    SameFilesReplay(f, g, s);
  }

  // ------------------------------------------------------------------
  // Their manifests
  // ------------------------------------------------------------------

  predicate Entered(f: Files, claim: Claim, entry: Entry) { claim.raw in f && entry == EntryOf(f, claim) }

  /** The same claims, entered from the two file systems. */
  ghost predicate Twins(f: Files, g: Files, m: seq<Entry>, w: seq<Entry>) {
    && |m| == |w|
    && forall i :: 0 <= i < |m| ==> Entered(f, m[i].claim, m[i]) && Entered(g, m[i].claim, w[i])
  }

  lemma TwinsIndependent(f: Files, g: Files, m: seq<Entry>, w: seq<Entry>)
    requires DrainsOnly(f, g) && Twins(f, g, m, w)
    ensures Independent(m) <==> Independent(w)
  {
    hide SameButDrains;
    forall i, j | 0 <= i < j < |m|
      ensures m[i].path == w[i].path && m[j].path == w[j].path
      ensures (m[i].dev, m[i].ino) == (w[i].dev, w[i].ino) && (m[j].dev, m[j].ino) == (w[j].dev, w[j].ino)
      ensures m[i].sha == m[j].sha <==> w[i].sha == w[j].sha
    {
      assert m[i] == EntryOf(f, m[i].claim) && w[i] == EntryOf(g, m[i].claim);
      assert m[j] == EntryOf(f, m[j].claim) && w[j] == EntryOf(g, m[j].claim);
    }
  }

  lemma {:induction false} TwinsRegistered(f: Files, g: Files, m: seq<Entry>, w: seq<Entry>, s: Step, n: nat)
    requires DrainsOnly(f, g) && Twins(f, g, m, w) && n <= ClaimCount(s)
    ensures Twins(f, g, Registered(f, m, s, n), Registered(g, w, s, n))
  {
    hide SameButDrains, ClaimAt;
    if n > 0 {
      TwinsRegistered(f, g, m, w, s, n - 1);
    }
  }

  lemma {:induction false} TwinsClaimed(f: Files, g: Files, m: seq<Entry>, w: seq<Entry>, s: Step, n: nat)
    requires DrainsOnly(f, g) && Twins(f, g, m, w) && n <= ClaimCount(s)
    ensures Claimed(f, m, s, n) <==> Claimed(g, w, s, n)
  {
    hide SameButDrains, ClaimAt, Independent, Registered, Twins;
    if n > 0 {
      TwinsClaimed(f, g, m, w, s, n - 1);
      TwinsRegistered(f, g, m, w, s, n);
      TwinsIndependent(f, g, Registered(f, m, s, n), Registered(g, w, s, n));
    }
  }

  lemma {:induction false} TwinManifests(f: Files, g: Files, run: Run)
    requires DrainsOnly(f, g)
    ensures Twins(f, g, Manifest(f, run), Manifest(g, run))
  {
    hide DrainsOnly, Registered;
    if run.Then? {
      TwinManifests(f, g, run.before);
      TwinsRegistered(f, g, Manifest(f, run.before), Manifest(g, run.before), run.step, ClaimCount(run.step));
    }
  }

  // ------------------------------------------------------------------
  // Whole runs
  // ------------------------------------------------------------------

  /** Any run of block-attempts is accepted with both file systems or with neither. */
  lemma {:induction false} RunIgnoresDrains(e: GuardEvidence, f: Files, g: Files, run: Run)
    requires DrainsOnly(f, g)
    ensures Accepted(e, f, run) <==> Accepted(e, g, run)
  {
    hide DrainsOnly, Twins, Claimed, StepReplays;
    if run.Then? {
      RunIgnoresDrains(e, f, g, run.before);
      StepIgnoresDrains(e, f, g, run.step, EndOf(run.before));
      TwinManifests(f, g, run.before);
      TwinsClaimed(f, g, Manifest(f, run.before), Manifest(g, run.before), run.step, ClaimCount(run.step));
    }
  }

  /** A campaign, with the attempts it selects, is accepted or refused whatever the measured drains
      are: selection cannot prefer fast measurements. */
  lemma SelectionIgnoresDrains(e: GuardEvidence, f: Files, g: Files, protocol: seq<Case>, p: Profile)
    requires DrainsOnly(f, g)
    ensures CampaignReplays(e, f, protocol, p) <==> CampaignReplays(e, g, protocol, p)
  {
    hide DrainsOnly, Accepted, CampaignMarkers, CasesSelect, RunOf, EndOf;
    if |p.entries| == |protocol| {
      RunIgnoresDrains(e, f, g, RunOf(protocol, p));
    }
  }

  // ------------------------------------------------------------------
  // Retries stop at the first success
  // ------------------------------------------------------------------

  /** No accepted list of thermal attempts extends another, whatever evidence accepts the two. */
  lemma ThermalAttemptsPrefixFree(e: GuardEvidence, id: Identity, workers: seq<int>, critical: int,
      attempts: seq<ThermalAttempt>, selected: int,
      e': GuardEvidence, id': Identity, workers': seq<int>, critical': int, more: seq<ThermalAttempt>, later: int)
    requires AttemptsReplay(e, id, workers, critical, attempts, selected)
    requires AttemptsReplay(e', id', workers', critical', attempts + more, later)
    ensures more == [] && selected == later
  {
    hide AttemptTurn, UpTo;
    ThermalAttemptIsFirstPassing(e, id, workers, critical, attempts, selected);
    ThermalAttemptIsFirstPassing(e', id', workers', critical', attempts + more, later);
    assert (attempts + more)[selected - 1] == attempts[selected - 1];
  }

  /** No accepted block extends the block-attempts of another. */
  lemma BlocksPrefixFree(b: Block, i: nat, c: Block, j: nat)
    requires BlockSelects(b, i) && BlockSelects(c, j) && b.attempts <= c.attempts
    ensures b.attempts == c.attempts && b.selected == c.selected
  {
    var n := |b.attempts|;
    assert b.attempts[n - 1] == c.attempts[n - 1];
    assert Validities(b.attempts)[n - 1] && Validities(c.attempts)[n - 1];
  }
}
