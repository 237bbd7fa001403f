/** A calibration that replays from a concrete log.  Its markers are checked against the windows,
    health and causal samples that the deadline freezer finds in the samples of that log, so the
    conditions proved about accepted calibrations, the marker count included, can all hold at once. */
module DeadlineExample {
  import opened Common
  import opened Telemetry
  import opened ThermalWindow
  import opened Accounting
  import opened Streaks
  import opened ActiveStability
  import opened DeadlineChain
  import opened DeadlineAccounting
  import opened DeadlineWindow
  import opened ExampleSamples

  // ------------------------------------------------------------------
  // The log and the record
  // ------------------------------------------------------------------

  const SECOND: int := 1000000000

  function NameAt(k: nat): Name {
    if k == 0 then CalibrationPrepare else if k == 1 then ThermalPrepare else if k == 2 then ThermalStart
    else if k < 6 then ThermalActiveStabilityCheck else if k == 6 then ThermalMeasurementEnd
    else if k == 7 then ThermalEnd
    else if k == 8 then ThermalStartQualification else if k == 9 then ThermalStartQualificationResult
    else if k == 10 then CalibrationStart else if k == 11 then ThermalActualStartQualificationResult
    else if k == 12 then CalibrationMeasurementWindow else CalibrationEnd
  }

  function Ns(k: nat): int {
    if k < 3 then 10 * k + 10 else if k < 6 then SECOND * (k - 2) + 1
    else if k < 11 then BOUNDARY + 10 * (k - 6) else BOUNDARY + 10 * (k - 4)
  }

  /** The label of the only thermal attempt. */
  function TheTag(): string { DeadlineTag(DeadlineKey(1, 1)) }

  /** The stability window of check `i`, as the freezer finds it. */
  function WindowAt(i: nat): Option<Window> { RawWindow(Samples(), LOCK, SECOND * (i + 1), 30, 0.5, true) }

  function CheckAt(i: nat): Extra { CheckEntries(i, SECOND * (i + 1), true, i + 1, WindowAt(i)) }

  function EntriesAt(k: nat): Extra {
    if k == 0 || k == 10 || k == 13 then Stage(1)
    else if k < 3 then Bare
    else if k < 6 then CheckAt(k - 3)
    else if k == 6 then BoundaryEntries(3 * SECOND, 3, WindowAt(2))
    else if k == 7 then Successful
    else if k == 8 then QualificationEntries(BOUNDARY, Ns(7), Some(BOUNDARY + 15))
    else if k == 9 then ResultEntries(1, Ns(8), true, None)
    else if k == 11 then ActualEntries(1, BOUNDARY + 50, Some(BOUNDARY + 15), true, None)
    else WindowEntries(1, BOUNDARY + 50, BOUNDARY + 60)
  }

  function MetadataAt(k: nat): Metadata<Extra> {
    if 1 <= k < 8 then OfTag(TheTag(), EntriesAt(k))
    else if 8 <= k < 10 then OfAttempt(TheTag(), 1, EntriesAt(k))
    else OfStage(EntriesAt(k))
  }

  function Markers(): (markers: seq<DeadlineMarker>)
    ensures |markers| == 14 && forall k :: 0 <= k < 14 ==> markers[k] == Marker(Ns(k), NameAt(k), MetadataAt(k))
  {
    seq(14, k requires 0 <= k < 14 => Marker(Ns(k), NameAt(k), MetadataAt(k)))
  }

  /** The evidence that the replay has: the log of these samples and markers. */
  function Seen(): DeadlineEvidence { CalibrationEvidence(Observed(Markers())) }

  /** What the replay asks of that evidence. */
  lemma Answers()
    ensures Seen().markers == Markers() && Seen().tag(DeadlineKey(1, 1)) == TheTag() && Seen().staleNs == HALF
    ensures Seen().healthy(Ns(2), Ns(6))
    ensures Seen().causal(Ns(8), Ns(7), true) == Passing(0) && Seen().causal(BOUNDARY + 50, Ns(7), false) == Passing(0)
  {
    hide RawWindow, DeadlineOutcome, Samples, Passing, Markers, DeadlineTag, GapLimit, Required, Duration;
    LockNumbers();
    HeatingWindow();
    HeatingHealthy();
    Qualifications(Markers(), 0, Ns(8), true);
    Qualifications(Markers(), 0, BOUNDARY + 50, false);
  }

  lemma CheckAnswers(i: nat)
    requires i < 3
    ensures Seen().window(SECOND * (i + 1), Ns(2)) == WindowAt(i) && WindowAt(i).Some?
    ensures Seen().stable(SECOND * (i + 1), Ns(2))
  {
    hide RawWindow, EnvelopeStable, Samples, Markers, SampleAt;
    RawWindowsStable(i + 1);
    assert WindowEnd(0, i + 1) == SECOND * (i + 1) && Ns(2) == 30;
  }

  function Checks(): seq<Extra> { [CheckAt(0), CheckAt(1), CheckAt(2)] }

  function Heated(): Precondition { Precondition(TheTag(), Ns(2), Ns(6), Ns(7), WindowAt(2), Checks(), true) }

  function Qualified(): Qualification { Qualification(1, BOUNDARY, Ns(7), Ns(8), Passing(0), true, None) }

  function TheAttempt(): Attempt { Attempt(1, Heated(), Qualified(), Ns(9), true) }

  function Block(): Calibration { Calibration([TheAttempt()], Ns(10), BOUNDARY + 50, BOUNDARY + 60, Passing(0),
      None, true) }

  // ------------------------------------------------------------------
  // Lookups
  // ------------------------------------------------------------------

  /** Every marker but the checks is found by its name and metadata. */
  lemma FoundExactly(k: nat)
    requires k < 14 && !(3 <= k < 6)
    ensures Exact(Markers(), NameAt(k), MetadataAt(k)) && ExactNs(Markers(), NameAt(k), MetadataAt(k)) == Ns(k)
  {
    hide Ns, MetadataAt, Exact, ExactNs, ExactAt;
    forall j: nat | j < |Markers()| && IsExactly(Markers()[j], NameAt(k), MetadataAt(k))
      ensures j == k
    {
      assert NameAt(j) == NameAt(k);
    }
    ExactWhenUnique(Markers(), NameAt(k), MetadataAt(k), k);
  }

  lemma BoundaryFound()
    ensures var q := TagQuery(ThermalMeasurementEnd, TheTag());
      Answered(Markers(), q) && Answer(Markers(), q) == Markers()[6] && BoundaryAt(Markers(), TheTag()) == 6
  {
    var q := TagQuery(ThermalMeasurementEnd, TheTag());
    assert Matches(Markers()[6], q);
    hide Lookup, Ns, MetadataAt;
    forall j: nat | j < |Markers()| && Matches(Markers()[j], q)
      ensures j == 6
    {
      assert NameAt(j) == ThermalMeasurementEnd;
    }
    LookupIsUnique(Markers(), q, 6);
  }

  lemma CheckMatches(k: nat)
    requires k < 14
    ensures Matches(Markers()[k], TagQuery(ThermalActiveStabilityCheck, TheTag())) <==> 3 <= k < 6
  {
    hide EntriesAt, Ns;
  }

  lemma {:induction false} ChecksFound(n: nat, found: seq<nat>)
    requires n <= 14 && found == MatchesUpTo(Markers(), TagQuery(ThermalActiveStabilityCheck, TheTag()), n)
    ensures found == if n <= 3 then [] else if n == 4 then [3] else if n == 5 then [3, 4] else [3, 4, 5]
  {
    hide Matches, NameAt, MetadataAt, EntriesAt, Ns;
    if n > 0 {
      ChecksFound(n - 1, MatchesUpTo(Markers(), TagQuery(ThermalActiveStabilityCheck, TheTag()), n - 1));
      CheckMatches(n - 1);
    }
  }

  lemma PositionsAre()
    ensures CheckPositions(Markers(), TheTag()) == [3, 4, 5]
  {
    hide MatchesUpTo;
    ChecksFound(14, MatchesUpTo(Markers(), TagQuery(ThermalActiveStabilityCheck, TheTag()), 14));
  }

  // ------------------------------------------------------------------
  // The replay
  // ------------------------------------------------------------------

  lemma ThreePasses()
    ensures var flags := Flags(Endpoints(Checks()));
      Streak(flags, 0) == 0 && Streak(flags, 1) == 1 && Streak(flags, 2) == 2 && Streak(flags, 3) == 3
  {
    var flags := Flags(Endpoints(Checks()));
    assert flags[0] && flags[1] && flags[2];
  }

  lemma CheckHolds(i: nat)
    requires i < 3
    ensures CheckReplays(Seen(), TheTag(), CheckAt(i), i + 3, i, Ns(2), Ns(6), i + 1)
  {
    hide Seen, WindowAt, TheTag, NameAt;
    Answers();
    CheckAnswers(i);
    assert Markers()[i + 3].metadata == OfTag(TheTag(), CheckAt(i));
  }

  lemma CheckTurnHolds(i: nat)
    requires i < 3
    ensures CheckTurn(Seen(), TheTag(), Checks(), Ns(2), Ns(6))(i)
  {
    hide Streak, CheckPositions, Seen, TheTag, Markers, Ns, CheckReplays, Flags, Endpoints, WindowAt;
    Answers();
    ThreePasses();
    PositionsAre();
    assert Streak(Flags(Endpoints(Checks())), i + 1) == i + 1;
    CheckHolds(i);
    assert Checks()[i] == CheckAt(i) && (i > 0 ==> Checks()[i - 1] == CheckAt(i - 1));
  }

  lemma ChecksHold()
    ensures ChecksReplay(Seen(), TheTag(), Checks(), Ns(2), Ns(6))
  {
    hide CheckTurn, Streak, CheckPositions, Flags, Endpoints, CheckAt, Markers, Ns, Seen, TheTag;
    Answers();
    ThreePasses();
    PositionsAre();
    CheckTurnHolds(0);
    CheckTurnHolds(1);
    CheckTurnHolds(2);
    var turn := CheckTurn(Seen(), TheTag(), Checks(), Ns(2), Ns(6));
    assert UpTo(turn, 0) && UpTo(turn, 1) && UpTo(turn, 2);
  }

  lemma PreconditionHolds()
    ensures PreconditionReplays(Seen(), Heated(), TheTag())
  {
    hide Exact, ExactAt, ExactNs, Answered, Answer, At, ChecksReplay, CheckPositions, Seen, TheTag, WindowAt;
    Answers();
    CheckAnswers(2);
    ChecksHold();
    BoundaryFound();
    FoundExactly(1);
    FoundExactly(2);
    FoundExactly(7);
  }

  lemma QualificationHolds()
    ensures QualificationReplays(Seen(), TheAttempt(), TheTag(), 1, 1)
  {
    hide Exact, ExactAt, ExactNs, Seen, TheTag;
    Answers();
    FoundExactly(8);
    FoundExactly(9);
  }

  lemma AttemptsHold()
    ensures AttemptsReplay(Seen(), [TheAttempt()], 1, 1)
  {
    hide PreconditionReplays, QualificationReplays, Exact, ExactAt, ExactNs, Seen, TheTag;
    Answers();
    PreconditionHolds();
    QualificationHolds();
    FoundExactly(0);
    FoundExactly(1);
    assert AttemptsReplay(Seen(), [TheAttempt()], 1, 0);
  }

  lemma BlockMarkersHold()
    ensures BlockMarkers(Markers(), Block(), 1) && BlockOrdered(Markers(), Block(), 1, Ns(9))
  {
    hide Exact, ExactAt, ExactNs;
    FoundExactly(0);
    FoundExactly(10);
    FoundExactly(11);
    FoundExactly(12);
    FoundExactly(13);
  }

  lemma BlockHolds()
    ensures BlockReplays(Seen(), Block(), 1, None)
  {
    hide BlockMarkers, BlockOrdered, AttemptsReplay, Seen, TheTag;
    Answers();
    BlockMarkersHold();
    AttemptsHold();
  }

  lemma {:induction false} AllCounted(n: nat)
    requires n <= 14
    ensures CountNamed(Markers(), ChainNames(), n) == n
  {
    hide MetadataAt, Ns;
    if n > 0 {
      AllCounted(n - 1);
      ChainNamesHold();
    }
  }

  /** Some calibration is accepted, with every marker and record that the replay asks for. */
  lemma SomeCalibrationAccepted()
    ensures WellOrdered(Observed(Markers()).log)
    ensures var e := CalibrationEvidence(Observed(Markers()));
      BlocksReplay(e, [Block()], 1) && CountMatches(e, [Block()])
  {
    hide BlockReplays, CountNamed, Markers, WellOrdered, DeadlineEvidenceOf;
    LogIsOrdered();
    Answers();
    BlockHolds();
    AllCounted(14);
    assert BlocksReplay(Seen(), [Block()], 0);
    assert AttemptsCount([TheAttempt()], 0) == 0 && AttemptsCount([TheAttempt()], 1) == 9;
    assert ExpectedCount([Block()], 0) == 0 && ExpectedCount([Block()], 1) == 14;
    SizeOfLog();
  }

  lemma LogIsOrdered()
    ensures WellOrdered(Observed(Markers()).log)
  {
    SamplesIncrease();
    hide NameAt, MetadataAt;
    MarkersIncrease();
    forall i, j | 0 <= i < 18 && 0 <= j < 14
      ensures Samples()[i].ns != Markers()[j].ns
    {
      ApartFrom(i, j);
    }
  }

  lemma MarkersIncrease()
    ensures Increasing(MarkerClocks(Markers()))
  {
    hide NameAt, MetadataAt;
  }

  lemma ApartFrom(i: nat, j: nat)
    requires i < 18 && j < 14
    ensures SampleNs(i) != Ns(j)
  {
  }

  lemma SizeOfLog()
    ensures |Markers()| == 14
  {
  }
}
