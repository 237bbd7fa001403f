/** What an accepted deadline calibration says about the chain markers of its log as a whole
    (analysis/freeze_p9_deadline.py:2164-2213, 2229-2397). */
module DeadlineAccounting {
  import opened Common
  import opened Telemetry
  import opened ThermalWindow
  import opened Chains
  import opened Accounting
  import opened DeadlineWindow
  import opened DeadlineChain
  import opened Labels

  // ------------------------------------------------------------------
  // The chain
  // ------------------------------------------------------------------

  predicate IsChainName(name: Name) {
    name in {
      CalibrationPrepare, ThermalPrepare, ThermalStart, ThermalActiveStabilityCheck, ThermalMeasurementEnd, ThermalEnd,
      ThermalStartQualification, ThermalStartQualificationResult, ThermalActualStartQualificationResult,
      CalibrationStart,
      CalibrationMeasurementWindow, CalibrationEnd }
  }

  function ChainNames(): Name -> bool { (name: Name) => IsChainName(name) }

  /** `previous_chain_end` before block `n + 1`. */
  function PreviousEnd(markers: seq<DeadlineMarker>, n: nat): Option<int> {
    if n == 0 then None else Some(BlockEnd(markers, n))
  }

  /** The first `n` blocks replay, each after the one before it. */
  ghost predicate BlocksReplay(e: DeadlineEvidence, blocks: seq<Calibration>, n: nat)
    requires n <= |blocks|
  {
    n == 0 || (BlocksReplay(e, blocks, n - 1) && BlockReplays(e, blocks[n - 1], n, PreviousEnd(e.markers, n - 1)))
  }

  lemma {:induction false} BlocksReplayPrefix(e: DeadlineEvidence, blocks: seq<Calibration>, k: nat, n: nat)
    requires k <= n <= |blocks| && BlocksReplay(e, blocks, n)
    ensures BlocksReplay(e, blocks, k)
  {
    hide BlockReplays;
    if k < n {
      BlocksReplayPrefix(e, blocks, k, n - 1);
    }
  }

  function AttemptsCount(attempts: seq<Attempt>, n: nat): nat
    requires n <= |attempts|
  {
    if n == 0 then 0 else AttemptsCount(attempts, n - 1) + 6 + |attempts[n - 1].precondition.checks|
  }

  /** Five markers for each block, six for each attempt, and one for each active check. */
  function ExpectedCount(blocks: seq<Calibration>, n: nat): nat
    requires n <= |blocks|
  {
    if n == 0 then 0 else ExpectedCount(blocks, n - 1) + 5 + AttemptsCount(blocks[n - 1].attempts,
      |blocks[n - 1].attempts|)
  }

  ghost predicate CountMatches(e: DeadlineEvidence, blocks: seq<Calibration>) {
    CountNamed(e.markers, ChainNames(), |e.markers|) == ExpectedCount(blocks, |blocks|)
  }

  method CountChain(markers: seq<DeadlineMarker>) returns (count: nat)
    ensures count == CountNamed(markers, ChainNames(), |markers|)
  {
    count := 0;
    for i := 0 to |markers|
      invariant count == CountNamed(markers, ChainNames(), i)
    {
      if IsChainName(markers[i].name) {
        count := count + 1;
      }
    }
  }

  predicate Attempted(c: Calibration) { 1 <= |c.attempts| <= MAX_ATTEMPTS }

  /** The totals that `build_lock` forms before it replays anything. */
  method ExpectedMarkers(blocks: seq<Calibration>) returns (expected: Option<nat>)
    ensures expected.Some? <==> forall i :: 0 <= i < |blocks| ==> Attempted(blocks[i])
    ensures expected.Some? ==> expected.value == ExpectedCount(blocks, |blocks|)
  {
    var totalAttempts, totalChecks := 0, 0;
    for i := 0 to |blocks|
      invariant totalAttempts >= 0 && totalChecks >= 0
      invariant i * 5 + totalAttempts * 6 + totalChecks == ExpectedCount(blocks, i)
      invariant forall k :: 0 <= k < i ==> Attempted(blocks[k])
    {
      var attempts := blocks[i].attempts;
      if !Attempted(blocks[i]) {
        return None;
      }
      totalAttempts := totalAttempts + |attempts|;
      for n := 0 to |attempts|
        invariant totalChecks >= 0
        invariant i * 5 + (totalAttempts - |attempts| + n) * 6 + totalChecks == ExpectedCount(blocks,
          i) + AttemptsCount(attempts, n)
      {
        totalChecks := totalChecks + |attempts[n].precondition.checks|;
      }
    }
    expected := Some(|blocks| * 5 + totalAttempts * 6 + totalChecks);
  }

  /** The chain part of `build_lock`. */
  method ReplayChain(e: DeadlineEvidence, blocks: seq<Calibration>) returns (ok: bool)
    ensures ok <==> BlocksReplay(e, blocks, |blocks|) && CountMatches(e, blocks)
  {
    hide AttemptsReplay, BlockMarkers, BlockOrdered, ActualStartReplays, HandoffReplays, ExpectedCount, CountNamed;
    hide BlockEnd;
    var expected := ExpectedMarkers(blocks);
    if expected.None? {
      if BlocksReplay(e, blocks, |blocks|) { ReplayedBlocksAttempted(e, blocks); }
      return false;
    }
    var count := CountChain(e.markers);
    if count != expected.value {
      return false;
    }
    var previous: Option<int> := None;
    for i := 0 to |blocks|
      invariant BlocksReplay(e, blocks, i) && previous == PreviousEnd(e.markers, i)
    {
      previous := ReplayBlock(e, blocks[i], i + 1, previous);
      if previous.None? {
        if BlocksReplay(e, blocks, |blocks|) { BlocksReplayPrefix(e, blocks, i + 1, |blocks|); }
        return false;
      }
    }
    ok := true;
  }

  lemma BlockAttempted(e: DeadlineEvidence, c: Calibration, repetition: nat, previousEnd: Option<int>)
    requires BlockReplays(e, c, repetition, previousEnd)
    ensures Attempted(c)
  {
    hide AttemptsReplay, BlockMarkers, BlockOrdered, ActualStartReplays, HandoffReplays;
  }

  lemma ReplayedBlocksAttempted(e: DeadlineEvidence, blocks: seq<Calibration>)
    requires BlocksReplay(e, blocks, |blocks|)
    ensures forall i :: 0 <= i < |blocks| ==> Attempted(blocks[i])
  {
    hide BlockReplays, Attempted, BlockEnd;
    forall i | 0 <= i < |blocks|
      ensures Attempted(blocks[i])
    {
      BlocksReplayPrefix(e, blocks, i + 1, |blocks|);
      BlockAttempted(e, blocks[i], i + 1, PreviousEnd(e.markers, i));
    }
  }

  // ------------------------------------------------------------------
  // The markers the replay reads
  // ------------------------------------------------------------------

  function OpeningRefs(markers: seq<DeadlineMarker>, tag: string): seq<nat> {
    [ExactAt(markers, ThermalPrepare, OfTag(tag, Bare)), ExactAt(markers, ThermalStart, OfTag(tag, Bare))]
  }

  function ResultRefs(markers: seq<DeadlineMarker>, q: Qualification, tag: string, repetition: nat, n: nat): seq<nat> {
    [BoundaryAt(markers, tag), ExactAt(markers, ThermalEnd, OfTag(tag, Successful)),
     ExactAt(markers, ThermalStartQualification, QualificationMetadata(q, tag, n)),
     ExactAt(markers, ThermalStartQualificationResult, ResultMetadata(q, tag, repetition, n))]
  }

  /** The positions one thermal attempt reads. */
  function AttemptRefs(e: DeadlineEvidence, repetition: nat, a: Attempt, n: nat): seq<nat> {
    var tag := Tag(e, repetition, n);
    OpeningRefs(e.markers, tag) + CheckPositions(e.markers, tag) + ResultRefs(e.markers, a.qualification, tag,
      repetition, n)
  }

  function AttemptsRefs(e: DeadlineEvidence, repetition: nat, attempts: seq<Attempt>, n: nat): seq<nat>
    requires n <= |attempts|
  {
    if n == 0 then [] else AttemptsRefs(e, repetition, attempts, n - 1) + AttemptRefs(e, repetition, attempts[n - 1], n)
  }

  function ClosingRefs(markers: seq<DeadlineMarker>, c: Calibration, repetition: nat): (refs: seq<nat>)
    ensures |refs| == 4
  {
    [ExactAt(markers, CalibrationStart, OfStage(Stage(repetition))),
     ExactAt(markers, ThermalActualStartQualificationResult, ActualMetadata(c, repetition)),
     ExactAt(markers, CalibrationMeasurementWindow, WindowMetadata(c, repetition)),
     ExactAt(markers, CalibrationEnd, OfStage(Stage(repetition)))]
  }

  /** The positions one block reads. */
  function BlockRefs(e: DeadlineEvidence, c: Calibration, repetition: nat): seq<nat> {
    [ExactAt(e.markers, CalibrationPrepare, OfStage(Stage(repetition)))]
    + AttemptsRefs(e, repetition, c.attempts, |c.attempts|)
    + ClosingRefs(e.markers, c, repetition)
  }

  /** The positions that the replay reads, in the order it needs them. */
  function ChainRefs(e: DeadlineEvidence, blocks: seq<Calibration>, n: nat): seq<nat>
    requires n <= |blocks|
  {
    if n == 0 then [] else ChainRefs(e, blocks, n - 1) + BlockRefs(e, blocks[n - 1], n)
  }

  /** What a list of positions must satisfy to be part of the line: chain markers at strictly
      increasing clocks. */
  ghost predicate OnLine(markers: seq<DeadlineMarker>, refs: seq<nat>) {
    AllNamed(markers, ChainNames(), refs) && Chain(NsOf(markers, refs))
  }

  lemma JoinLines(markers: seq<DeadlineMarker>, xs: seq<nat>, ys: seq<nat>)
    requires OnLine(markers, xs) && OnLine(markers, ys)
    requires xs != [] && ys != [] ==> Last(NsOf(markers, xs)) < NsOf(markers, ys)[0]
    ensures OnLine(markers, xs + ys)
  {
    NsOfConcat(markers, xs, ys);
    ChainConcat(NsOf(markers, xs), NsOf(markers, ys));
  }

  lemma ExactIsNamed(markers: seq<DeadlineMarker>, name: Name, metadata: Metadata<Extra>)
    requires Exact(markers, name, metadata) && IsChainName(name)
    ensures ExactAt(markers, name, metadata) < |markers| && ChainNames()(markers[ExactAt(markers, name, metadata)].name)
    ensures markers[ExactAt(markers, name, metadata)].name == name
    ensures NsAt(markers, ExactAt(markers, name, metadata)) == ExactNs(markers, name, metadata)
  {
    ExactAnswer(markers, name, metadata);
  }

  /** The check markers of a replayed attempt lie between its start and its boundary. */
  lemma ChecksOnLine(e: DeadlineEvidence, tag: string, checks: seq<Extra>, startNs: int, boundaryNs: int)
    requires ChecksReplay(e, tag, checks, startNs, boundaryNs) && Increasing(MarkerClocks(e.markers))
    ensures var refs := CheckPositions(e.markers, tag);
      && refs != [] && |refs| == |checks| && OnLine(e.markers, refs)
      && startNs < NsOf(e.markers, refs)[0] && Last(NsOf(e.markers, refs)) < boundaryNs
  {
    var refs := CheckPositions(e.markers, tag);
    forall i | 0 <= i < |refs|
      ensures refs[i] < |e.markers| && e.markers[refs[i]].name == ThermalActiveStabilityCheck
      ensures startNs < NsAt(e.markers, refs[i]) < boundaryNs
    {
      assert refs[i] in refs;
      UpToEach(CheckTurn(e, tag, checks, startNs, boundaryNs), i, |checks|);
    }
    forall i | 0 <= i < |refs| - 1
      ensures NsOf(e.markers, refs)[i] < NsOf(e.markers, refs)[i + 1]
    {
      assert refs[i] < refs[i + 1];
      assert MarkerClocks(e.markers)[refs[i]] < MarkerClocks(e.markers)[refs[i + 1]];
    }
  }

  lemma OpeningOnLine(markers: seq<DeadlineMarker>, p: Precondition, tag: string)
    requires BaseMarkers(markers, p, tag)
    ensures var refs := OpeningRefs(markers, tag);
      OnLine(markers, refs) && NsOf(markers, refs)[0] == PrepareNs(markers,
        tag) && Last(NsOf(markers, refs)) == p.startNs
  {
    hide ExactAt, Exact, At, Answered, CountNamed, IsChainName, ExactNs;
    ChainNamesHold();
    ExactIsNamed(markers, ThermalPrepare, OfTag(tag, Bare));
    ExactIsNamed(markers, ThermalStart, OfTag(tag, Bare));
  }

  lemma ResultOnLine(e: DeadlineEvidence, a: Attempt, tag: string, repetition: nat, n: nat)
    requires BaseMarkers(e.markers, a.precondition, tag) && QualificationReplays(e, a, tag, repetition, n)
    ensures var refs := ResultRefs(e.markers, a.qualification, tag, repetition, n);
      OnLine(e.markers, refs) && NsOf(e.markers,
        refs)[0] == a.precondition.endNs && Last(NsOf(e.markers, refs)) == a.resultNs
  {
    hide ExactAt, Exact, At, Answered, CountNamed, IsChainName, ExactNs, PrepareNs;
    var markers, q := e.markers, a.qualification;
    ChainNamesHold();
    BoundaryIsNamed(markers, tag);
    ExactIsNamed(markers, ThermalEnd, OfTag(tag, Successful));
    ExactIsNamed(markers, ThermalStartQualification, QualificationMetadata(q, tag, n));
    ExactIsNamed(markers, ThermalStartQualificationResult, ResultMetadata(q, tag, repetition, n));
  }

  lemma AttemptParts(e: DeadlineEvidence, repetition: nat, a: Attempt, n: nat, total: nat, priorEndNs: int)
    requires AttemptReplays(e, repetition, a, n, total, priorEndNs)
    ensures var tag, p := Tag(e, repetition, n), a.precondition;
      && BaseMarkers(e.markers, p, tag) && ChecksReplay(e, tag, p.checks, p.startNs, p.endNs)
      && QualificationReplays(e, a, tag, repetition, n) && priorEndNs < PrepareNs(e.markers, tag)
  {
    hide BaseMarkers, ChecksReplay, QualificationReplays, BoundaryBinds, PrepareNs;
  }

  /** A replayed attempt reads six markers and its checks, from its prepare to its result. */
  lemma AttemptOnLine(e: DeadlineEvidence, repetition: nat, a: Attempt, n: nat, total: nat, priorEndNs: int)
    requires AttemptReplays(e, repetition, a, n, total, priorEndNs) && Increasing(MarkerClocks(e.markers))
    ensures var refs := AttemptRefs(e, repetition, a, n);
      && |refs| == 6 + |a.precondition.checks| && OnLine(e.markers, refs)
      && priorEndNs < NsOf(e.markers, refs)[0] && Last(NsOf(e.markers, refs)) == a.resultNs
  {
    hide AttemptReplays, BaseMarkers, ChecksReplay, QualificationReplays, CheckPositions, OnLine, ExactAt, BoundaryAt;
    hide PrepareNs;
    var markers, tag, p := e.markers, Tag(e, repetition, n), a.precondition;
    AttemptParts(e, repetition, a, n, total, priorEndNs);
    OpeningOnLine(markers, p, tag);
    ChecksOnLine(e, tag, p.checks, p.startNs, p.endNs);
    ResultOnLine(e, a, tag, repetition, n);
    var opening, checks := OpeningRefs(markers, tag), CheckPositions(markers, tag);
    var result := ResultRefs(markers, a.qualification, tag, repetition, n);
    JoinLines(markers, opening, checks);
    NsOfConcat(markers, opening, checks);
    JoinLines(markers, opening + checks, result);
    NsOfConcat(markers, opening + checks, result);
  }

  lemma ChainNamesHold()
    ensures IsChainName(ThermalPrepare) && IsChainName(ThermalStart) && IsChainName(ThermalMeasurementEnd)
    ensures IsChainName(ThermalEnd)
    ensures IsChainName(ThermalStartQualification) && IsChainName(ThermalStartQualificationResult)
    ensures IsChainName(CalibrationPrepare)
    ensures IsChainName(CalibrationStart) && IsChainName(CalibrationMeasurementWindow) && IsChainName(CalibrationEnd)
    ensures IsChainName(ThermalActualStartQualificationResult) && IsChainName(ThermalActiveStabilityCheck)
  {
  }

  lemma BoundaryIsNamed(markers: seq<DeadlineMarker>, tag: string)
    requires Answered(markers, TagQuery(ThermalMeasurementEnd, tag))
    ensures BoundaryAt(markers, tag) < |markers| && ChainNames()(markers[BoundaryAt(markers, tag)].name)
  {
  }

  lemma PrepareOnLine(markers: seq<DeadlineMarker>, repetition: nat)
    requires Exact(markers, CalibrationPrepare, OfStage(Stage(repetition)))
    ensures OnLine(markers, [ExactAt(markers, CalibrationPrepare, OfStage(Stage(repetition)))])
    ensures NsAt(markers, ExactAt(markers, CalibrationPrepare, OfStage(Stage(repetition))))
      == ExactNs(markers, CalibrationPrepare, OfStage(Stage(repetition)))
  {
    hide ExactAt, Exact, CountNamed, IsChainName, ExactNs;
    ChainNamesHold();
    ExactIsNamed(markers, CalibrationPrepare, OfStage(Stage(repetition)));
  }

  /** The first `n` attempts of a block, from its prepare marker on. */
  lemma {:induction false} AttemptsOnLine(e: DeadlineEvidence, repetition: nat, attempts: seq<Attempt>, n: nat)
    requires n <= |attempts| && AttemptsReplay(e, attempts, repetition, n) && Increasing(MarkerClocks(e.markers))
    requires Exact(e.markers, CalibrationPrepare, OfStage(Stage(repetition)))
    ensures var refs := [ExactAt(e.markers, CalibrationPrepare, OfStage(Stage(repetition)))] + AttemptsRefs(e,
      repetition, attempts, n);
      && |refs| == 1 + AttemptsCount(attempts, n) && OnLine(e.markers, refs)
      && NsOf(e.markers, refs)[0] == ExactNs(e.markers, CalibrationPrepare, OfStage(Stage(repetition)))
      && Last(NsOf(e.markers, refs)) == PriorEnd(e.markers, attempts, repetition, n)
  {
    hide AttemptReplays, ExactAt, Exact, CountNamed, IsChainName, ExactNs, AttemptRefs, OnLine;
    var head := [ExactAt(e.markers, CalibrationPrepare, OfStage(Stage(repetition)))];
    PrepareOnLine(e.markers, repetition);
    if n == 0 {
      assert head + AttemptsRefs(e, repetition, attempts, 0) == head;
    } else {
      var before, mine := AttemptsRefs(e, repetition, attempts, n - 1), AttemptRefs(e, repetition, attempts[n - 1], n);
      AttemptsOnLine(e, repetition, attempts, n - 1);
      AttemptOnLine(e, repetition, attempts[n - 1], n, |attempts|, PriorEnd(e.markers, attempts, repetition, n - 1));
      JoinLines(e.markers, head + before, mine);
      NsOfConcat(e.markers, head + before, mine);
      assert head + (before + mine) == (head + before) + mine;
    }
  }

  /** The closing markers of a block: the replay lets the last three share a clock, but markers of
      different names never do. */
  lemma ClosingOnLine(markers: seq<DeadlineMarker>, c: Calibration, repetition: nat, lastResultNs: int)
    requires BlockMarkers(markers, c, repetition) && BlockOrdered(markers, c, repetition, lastResultNs)
    requires Increasing(MarkerClocks(markers))
    ensures var refs := ClosingRefs(markers, c, repetition);
      && OnLine(markers, refs) && lastResultNs < NsOf(markers,
        refs)[0] && Last(NsOf(markers, refs)) == BlockEnd(markers, repetition)
  {
    hide ExactAt, Exact, CountNamed, IsChainName, ExactNs, Increasing;
    ChainNamesHold();
    var start, actual := OfStage(Stage(repetition)), ActualMetadata(c, repetition);
    var window := WindowMetadata(c, repetition);
    ExactIsNamed(markers, CalibrationStart, start);
    ExactIsNamed(markers, ThermalActualStartQualificationResult, actual);
    ExactIsNamed(markers, CalibrationMeasurementWindow, window);
    ExactIsNamed(markers, CalibrationEnd, start);
    NamesSeparateClocks(markers, ExactAt(markers, ThermalActualStartQualificationResult, actual),
      ExactAt(markers, CalibrationMeasurementWindow, window));
    NamesSeparateClocks(markers, ExactAt(markers, CalibrationMeasurementWindow, window),
      ExactAt(markers, CalibrationEnd, start));
  }

  /** A replayed block reads as many chain markers as `build_lock` counts for it. */
  lemma BlockOnLine(e: DeadlineEvidence, c: Calibration, repetition: nat, previousEnd: Option<int>)
    requires BlockReplays(e, c, repetition, previousEnd) && Increasing(MarkerClocks(e.markers))
    ensures var refs := BlockRefs(e, c, repetition);
      && |refs| == 5 + AttemptsCount(c.attempts, |c.attempts|) && OnLine(e.markers, refs)
      && (previousEnd.Some? ==> previousEnd.value < NsOf(e.markers, refs)[0])
      && Last(NsOf(e.markers, refs)) == BlockEnd(e.markers, repetition)
  {
    PrepareIsExact(e.markers, c, repetition);
    hide ActualStartReplays, HandoffReplays, ExactAt, Exact, CountNamed, ExactNs, AttemptsReplay, AttemptsRefs;
    hide BlockMarkers, BlockOrdered, ClosingRefs;
    var head := [ExactAt(e.markers, CalibrationPrepare, OfStage(Stage(repetition)))];
    var middle, closing := AttemptsRefs(e, repetition, c.attempts, |c.attempts|), ClosingRefs(e.markers, c, repetition);
    AttemptsOnLine(e, repetition, c.attempts, |c.attempts|);
    ClosingOnLine(e.markers, c, repetition, c.attempts[|c.attempts| - 1].resultNs);
    JoinLines(e.markers, head + middle, closing);
    NsOfConcat(e.markers, head + middle, closing);
  }

  lemma PrepareIsExact(markers: seq<DeadlineMarker>, c: Calibration, repetition: nat)
    ensures BlockMarkers(markers, c, repetition) ==> Exact(markers, CalibrationPrepare, OfStage(Stage(repetition)))
  {
  }

  lemma {:induction false} BlocksOnLine(e: DeadlineEvidence, blocks: seq<Calibration>, n: nat)
    requires n <= |blocks| && BlocksReplay(e, blocks, n) && Increasing(MarkerClocks(e.markers))
    ensures |ChainRefs(e, blocks, n)| == ExpectedCount(blocks, n) && OnLine(e.markers, ChainRefs(e, blocks, n))
    ensures n > 0 ==>
      ChainRefs(e, blocks, n) != [] && Last(NsOf(e.markers, ChainRefs(e, blocks, n))) == BlockEnd(e.markers, n)
  {
    hide BlockReplays, BlockRefs, CountNamed, BlockEnd;
    if n > 0 {
      BlocksOnLine(e, blocks, n - 1);
      BlockOnLine(e, blocks[n - 1], n, PreviousEnd(e.markers, n - 1));
      JoinLines(e.markers, ChainRefs(e, blocks, n - 1), BlockRefs(e, blocks[n - 1], n));
      NsOfConcat(e.markers, ChainRefs(e, blocks, n - 1), BlockRefs(e, blocks[n - 1], n));
    }
  }

  /** The positions that a replayed calibration reads ascend through the log, and all of them are
      chain markers. */
  lemma ChainRefsAscend(e: DeadlineEvidence, blocks: seq<Calibration>)
    requires BlocksReplay(e, blocks, |blocks|) && Increasing(MarkerClocks(e.markers))
    ensures AllNamed(e.markers, ChainNames(), ChainRefs(e, blocks, |blocks|))
    ensures Ascending(ChainRefs(e, blocks, |blocks|))
    ensures |ChainRefs(e, blocks, |blocks|)| == ExpectedCount(blocks, |blocks|)
  {
    hide BlocksReplay, ChainRefs, CountNamed;
    var refs := ChainRefs(e, blocks, |blocks|);
    BlocksOnLine(e, blocks, |blocks|);
    ChainIsIncreasing(NsOf(e.markers, refs));
    PositionsAscend(e.markers, refs);
  }

  /** Once the blocks replay, the marker count holds if and only if every chain marker of the log
      is read by the replay; each is read once. */
  lemma CountIsTheOrphanTest(e: DeadlineEvidence, blocks: seq<Calibration>)
    requires BlocksReplay(e, blocks, |blocks|) && Increasing(MarkerClocks(e.markers))
    ensures var refs := ChainRefs(e, blocks, |blocks|);
      && Ascending(refs)
      && (CountMatches(e, blocks) <==> forall k: nat :: k < |e.markers| && IsChainName(e.markers[k].name) ==> k in refs)
  {
    hide BlocksReplay, ChainRefs, CountNamed, ExpectedCount, IsChainName;
    ChainRefsAscend(e, blocks);
    AllReadExactlyWhen(e.markers, ChainNames(), ChainRefs(e, blocks, |blocks|));
  }

  // ------------------------------------------------------------------
  // Order and retries
  // ------------------------------------------------------------------

  /** A block starts after the end of every earlier block. */
  lemma {:induction false} BlocksInOrder(e: DeadlineEvidence, blocks: seq<Calibration>, i: nat, j: nat)
    requires 1 <= i < j <= |blocks| && BlocksReplay(e, blocks, j) && Increasing(MarkerClocks(e.markers))
    ensures BlockEnd(e.markers, i) < ExactNs(e.markers, CalibrationPrepare, OfStage(Stage(j)))
  {
    hide BlockMarkers, AttemptsReplay, BlockOrdered, ActualStartReplays, HandoffReplays, BlockEnd, ExactNs;
    if i < j - 1 {
      BlocksInOrder(e, blocks, i, j - 1);
      BlockSpan(e, blocks[j - 2], j - 1, PreviousEnd(e.markers, j - 2));
    }
  }

  /** A block ends after it starts. */
  lemma BlockSpan(e: DeadlineEvidence, c: Calibration, repetition: nat, previousEnd: Option<int>)
    requires BlockReplays(e, c, repetition, previousEnd)
    ensures ExactNs(e.markers, CalibrationPrepare,
      OfStage(Stage(repetition))) < c.startNs < c.endNs <= BlockEnd(e.markers, repetition)
  {
    hide BlockMarkers, AttemptsReplay, ActualStartReplays, HandoffReplays, ExactNs, ActualMetadata, WindowMetadata;
    hide BlockEnd;
  }

  lemma ResultBeforeStart(e: DeadlineEvidence, c: Calibration, repetition: nat, previousEnd: Option<int>, k: nat)
    requires BlockReplays(e, c, repetition, previousEnd) && k < |c.attempts|
    ensures c.attempts[k].resultNs < c.startNs
  {
    hide BlockMarkers, AttemptsReplay, ActualStartReplays, HandoffReplays, ExactNs, ActualMetadata, WindowMetadata;
    hide BlockEnd;
    ResultsIncrease(e, c.attempts, repetition, k, |c.attempts|);
  }

  lemma {:induction false} ResultsIncrease(e: DeadlineEvidence, attempts: seq<Attempt>, repetition: nat, i: nat, n: nat)
    requires i < n <= |attempts| && AttemptsReplay(e, attempts, repetition, n)
    ensures attempts[i].resultNs <= attempts[n - 1].resultNs
  {
    hide ChecksReplay, BoundaryBinds, Exact, ExactAt, Answered, At;
    if i < n - 1 {
      ResultsIncrease(e, attempts, repetition, i, n - 1);
      AttemptSpan(e, repetition, attempts[n - 1], n, |attempts|, PriorEnd(e.markers, attempts, repetition, n - 1));
    }
  }

  lemma AttemptSpan(e: DeadlineEvidence, repetition: nat, a: Attempt, n: nat, total: nat, priorEndNs: int)
    requires AttemptReplays(e, repetition, a, n, total, priorEndNs)
    ensures priorEndNs < a.resultNs
  {
    hide ChecksReplay, BoundaryBinds, Exact, ExactAt, Answered, At, ExactNs;
  }

  /** Measurement windows of different blocks never overlap, and every thermal attempt of a block
      ends before its own measurement and starts after every earlier one. */
  lemma MeasurementsNeverOverlap(e: DeadlineEvidence, blocks: seq<Calibration>, i: nat, j: nat, k: nat)
    requires 1 <= i < j <= |blocks| && BlocksReplay(e, blocks, |blocks|) && Increasing(MarkerClocks(e.markers))
    requires k < |blocks[j - 1].attempts|
    ensures blocks[i - 1].endNs < blocks[j - 1].startNs
    ensures blocks[i - 1].endNs < ExactNs(e.markers, CalibrationPrepare, OfStage(Stage(j)))
    ensures blocks[j - 1].attempts[k].resultNs < blocks[j - 1].startNs
  {
    hide BlockReplays, BlockEnd, ExactNs;
    BlocksReplayPrefix(e, blocks, j, |blocks|);
    BlocksReplayPrefix(e, blocks, i, j);
    BlocksInOrder(e, blocks, i, j);
    BlockSpan(e, blocks[i - 1], i, PreviousEnd(e.markers, i - 1));
    BlockSpan(e, blocks[j - 1], j, PreviousEnd(e.markers, j - 1));
    ResultBeforeStart(e, blocks[j - 1], j, PreviousEnd(e.markers, j - 1), k);
  }

  /** The qualification a block uses is the first that passed. */
  lemma {:induction false} FirstSuccessUsed(e: DeadlineEvidence, attempts: seq<Attempt>, repetition: nat, n: nat)
    requires n <= |attempts| && AttemptsReplay(e, attempts, repetition, n)
    ensures forall i :: 0 <= i < n ==> attempts[i].qualification.passed == (i + 1 == |attempts|)
  {
    hide PreconditionReplays, QualificationReplays, PrepareNs, PriorEnd;
    if n > 0 {
      FirstSuccessUsed(e, attempts, repetition, n - 1);
    }
  }

  /** No replayed block extends the thermal attempts of another, whatever evidence the two replay on. */
  lemma AttemptsPrefixFree(e: DeadlineEvidence, c: Calibration, repetition: nat, previousEnd: Option<int>,
      e': DeadlineEvidence, d: Calibration, repetition': nat, previousEnd': Option<int>)
    requires BlockReplays(e, c, repetition, previousEnd) && BlockReplays(e', d, repetition', previousEnd')
    requires c.attempts <= d.attempts
    ensures c.attempts == d.attempts
  {
    hide BlockMarkers, AttemptsReplay, BlockOrdered, ActualStartReplays, HandoffReplays, ExactNs, BlockEnd;
    FirstSuccessUsed(e, c.attempts, repetition, |c.attempts|);
    FirstSuccessUsed(e', d.attempts, repetition', |d.attempts|);
    assert c.attempts[|c.attempts| - 1] == d.attempts[|c.attempts| - 1];
  }

  // ------------------------------------------------------------------
  // The frozen calibration
  // ------------------------------------------------------------------

  /** The evidence that `build_lock` replays: the loaded telemetry, read through the calibration labels. */
  function CalibrationEvidence(context: Context<Extra>): DeadlineEvidence
    requires context.lock.intervalMs > 0.0
  {
    DeadlineEvidenceOf(context, DeadlineTag)
  }

  /** A marker with the label of one thermal attempt answers no lookup by the label of another. */
  lemma LabelsSeparateAttempts(context: Context<Extra>, k: DeadlineKey, k': DeadlineKey, name: Name)
    requires context.lock.intervalMs > 0.0 && k != k'
    ensures var e := CalibrationEvidence(context);
      forall p :: p in Found(e.markers, TagQuery(name, e.tag(k))) ==> p !in Found(e.markers, TagQuery(name, e.tag(k')))
  {
    hide DeadlineLabel, Found;
    var e := CalibrationEvidence(context);
    if DeadlineLabel(k.repetition, k.attempt) == DeadlineLabel(k'.repetition, k'.attempt) {
      DeadlineLabelInjective(k.repetition, k.attempt, k'.repetition, k'.attempt);
    }
    ConflictSeparates(e.markers, TagQuery(name, e.tag(k)), TagQuery(name, e.tag(k')));
  }

  /** In an accepted calibration of a loaded log every chain marker was read. */
  lemma AcceptedCalibrationReadsChain(context: Context<Extra>, blocks: seq<Calibration>, k: nat)
    requires context.lock.intervalMs > 0.0 && WellOrdered(context.log)
    requires BlocksReplay(CalibrationEvidence(context), blocks, |blocks|)
    requires CountMatches(CalibrationEvidence(context), blocks)
    requires k < |context.log.markers| && IsChainName(context.log.markers[k].name)
    ensures k in ChainRefs(CalibrationEvidence(context), blocks, |blocks|)
  {
    hide BlocksReplay, CountMatches, ChainRefs, IsChainName;
    CountIsTheOrphanTest(CalibrationEvidence(context), blocks);
  }
}
