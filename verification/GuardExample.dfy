/** A block-attempt that replays from a concrete log: its first thermal attempt qualifies before any
    sample is taken and fails, its second one passes, and one worker runs beside the measurement.
    Its markers are checked against the windows, health and causal samples that the replay finds in
    the samples of that log, so the conditions proved about accepted runs can all hold at once. */
module GuardExample {
  import opened Common
  import opened Telemetry
  import opened ThermalWindow
  import opened Registry
  import opened Accounting
  import opened Chains
  import opened Streaks
  import opened ActiveStability
  import opened GuardRecords
  import opened GuardAttempts
  import opened GuardBlocks
  import opened GuardCampaign
  import opened GuardLock
  import opened Labels
  import opened ExampleSamples

  // ------------------------------------------------------------------
  // The markers of a thermal attempt
  // ------------------------------------------------------------------

  const SECOND: int := 1000000000
  const PID: int := 7
  const WORKER: int := 8

  function Id(): Identity { Identity("case", false, 1, 1) }

  /** The label of a thermal attempt, counted from zero. */
  function TheTag(t: nat): string { GuardTag(ThermalKey("case", 1, 1, t + 1)) }

  function LocalName(m: nat): Name {
    if m == 0 then ThermalPrepare else if m == 1 then ThermalStart else if m < 5 then ThermalActiveStabilityCheck
    else if m == 5 then ThermalMeasurementEnd else if m == 6 then ThermalEnd
    else if m == 7 then ThermalStartQualification else ThermalStartQualificationResult
  }

  /** The clock of marker `m` of a thermal attempt; the first qualification comes before the sample. */
  function Time(t: nat, m: nat): int {
    Base(t) + if m < 2 then 10 * m + 20 else if m < 5 then SECOND * (m - 1) + 1
      else if m < 7 then BOUNDARY + 10 * (m - 5)
      else if t == 0 then BOUNDARY + 2 * (m - 1) else BOUNDARY + 10 * (m - 5)
  }

  /** The stability window of check `i`, as the replay finds it. */
  function WindowAt(t: nat, i: nat): Option<Window> { EvidenceWindow(Samples(), WindowEnd(t, i + 1), Base(t) + 30,
      0.5) }

  function CheckAt(t: nat, i: nat): Extra { CheckEntries(i, WindowEnd(t, i + 1), true, i + 1, WindowAt(t, i)) }

  function OutcomeAt(t: nat): Outcome { if t == 0 then TOO_EARLY else Passing(t) }

  function LocalEntries(t: nat, m: nat): Extra {
    if m < 2 then NoMore
    else if m < 5 then CheckAt(t, m - 2)
    else if m == 5 then BoundaryEntries(WindowEnd(t, 3), 3, WindowAt(t, 2))
    else if m == 6 then Successful(true)
    else if m == 7 then QualificationEntries(Time(t, 5), Time(t, 6), OutcomeAt(t).sampleNs)
    else QualificationResultEntries(false, Time(t, 5), Time(t, 6), Time(t, 7), OutcomeAt(t).sampleNs,
      OutcomeAt(t).failure.None?, OutcomeAt(t).failure)
  }

  function LocalMetadata(t: nat, m: nat): Metadata<Extra> {
    if m < 7 then TagMetadata(TheTag(t), LocalEntries(t, m))
    else if m == 7 then Metadata(None, None, Some(TheTag(t)), Some(t + 1), None, LocalEntries(t, m))
    else Metadata(Some("case"), Some(1), Some(TheTag(t)), Some(1), Some(t + 1), LocalEntries(t, m))
  }

  function ThermalMarker(t: nat, m: nat): GuardMarker { Marker(Time(t, m), LocalName(m), LocalMetadata(t, m)) }

  // ------------------------------------------------------------------
  // The markers of the block-attempt
  // ------------------------------------------------------------------

  const MEASURED: int := 7000000080

  function OuterName(j: nat): Name {
    if j == 0 then GuardBlockStart else if j == 1 then GuardBlockMeasurementRelease else if j == 2 then GuardBlockResume
    else if j == 3 then GuardActualStartQualification else if j == 4 then GuardBlockResult else GuardBlockEnd
  }

  function OuterTime(j: nat): int { Base(1) + BOUNDARY + 10 * j + if j < 3 then 40 else 60 }

  function Clocks8(): seq<int> {
    [Time(1, 6), Base(1) + BOUNDARY + 15, Time(1, 7), Time(1, 8), OuterTime(0), OuterTime(1), OuterTime(2), MEASURED]
  }

  function Carried(): Handoff { Handoff(Time(1, 5), Clocks8(), true) }

  function OuterEntries(j: nat): Extra {
    if j == 0 then StartEntries(false, [WORKER], PID, Time(1, 5))
    else if j == 1 then ReleaseEntries(false, PID, Time(1, 5))
    else if j == 2 then ResumeEntries(false, PID, [WORKER], Time(1, 5))
    else if j == 3 then ActualStartEntries(false, MEASURED, Passing(1), true)
    else if j == 4 then BlockResultEntries(false, MEASURED, MEASURED + 10, OuterTime(3), Carried(), true)
    else EndEntries(false, true)
  }

  function OuterMarker(j: nat): GuardMarker {
    Marker(OuterTime(j), OuterName(j),
      if j < 3 then ThermalMetadata(Id(), 2, OuterEntries(j)) else AttemptMetadata(Id(), OuterEntries(j)))
  }

  function Opening(): GuardMarker { Marker(10, GuardBlockPrepare, AttemptMetadata(Id(), PrepareEntries(false))) }

  /** The prepare marker, nine markers for each thermal attempt, and six more. */
  function MarkerAt(k: nat): GuardMarker {
    if k == 0 then Opening() else if k < 10 then ThermalMarker(0, k - 1) else if k < 19 then ThermalMarker(1, k - 10)
    else OuterMarker(k - 19)
  }

  function Markers(): (markers: seq<GuardMarker>)
    ensures |markers| == 25 && forall k :: 0 <= k < 25 ==> markers[k] == MarkerAt(k)
  {
    seq(25, k requires 0 <= k < 25 => MarkerAt(k))
  }

  // ------------------------------------------------------------------
  // The evidence
  // ------------------------------------------------------------------

  /** The evidence that the replay has: the log of these samples and markers. */
  function Seen(): GuardEvidence { GuardEvidenceOf(Observed(Markers())) }

  /** What the replay asks of that evidence about a thermal attempt. */
  lemma Answers(t: nat)
    requires t < 2
    ensures Seen().markers == Markers() && Seen().tag(ThermalKey("case", 1, 1, t + 1)) == TheTag(t)
    ensures Seen().healthy(Time(t, 1), Time(t, 5))
    ensures Seen().causal(Time(t, 7), Time(t, 6), true) == OutcomeAt(t)
  {
    hide HealthyInterval, CausalOutcome, Samples, Passing, Markers, GuardTag, Base;
    HeatingsHealthy(t);
    Qualifications(Markers(), t, Time(t, 7), true);
  }

  /** And about the measurement. */
  lemma MeasurementAnswers()
    ensures Seen().healthy(MEASURED, MEASURED + 10)
    ensures Seen().causal(MEASURED, Time(1, 6), false) == Passing(1)
  {
    hide HealthyInterval, CausalOutcome, Samples, Passing, Markers, TheTag;
    MeasurementHealthy();
    Qualifications(Markers(), 1, MEASURED, false);
  }

  lemma CheckAnswers(t: nat, i: nat)
    requires t < 2 && i < 3
    ensures Seen().window(WindowEnd(t, i + 1), Time(t, 1)) == WindowAt(t, i)
    ensures Seen().stable(WindowEnd(t, i + 1), Time(t, 1))
  {
    hide WindowPasses, EvidenceWindow, Samples, Markers, Base;
    WindowsPass(Markers(), t, i + 1);
  }

  // ------------------------------------------------------------------
  // The records
  // ------------------------------------------------------------------

  function Checks(t: nat): seq<Extra> { [CheckAt(t, 0), CheckAt(t, 1), CheckAt(t, 2)] }

  function Heated(t: nat): Precondition {
    Precondition(TheTag(t), Time(t, 1), Time(t, 5), Time(t, 6), WindowAt(t, 2), Checks(t), true)
  }

  function Qualified(t: nat): Qualification {
    Qualification(t + 1, Time(t, 5), Time(t, 6), Time(t, 7), OutcomeAt(t), OutcomeAt(t).failure.None?)
  }

  /** The first attempt fails and releases nothing; the second one releases the block. */
  function Thermal(t: nat): ThermalAttempt {
    var (started, released, failure) := if t == 0 then (None, None, Some(QualificationFailed(NoSample)))
      else (Some(OuterTime(0)), Some(OuterTime(1)), None);
    ThermalAttempt(t + 1, TheTag(t), Heated(t), Qualified(t), Time(t, 8), map[PID := "T", WORKER := "T"],
      started, released, t == 1, failure)
  }

  function Thermals(): seq<ThermalAttempt> { [Thermal(0), Thermal(1)] }

  function Attempt(): BlockAttempt {
    BlockAttempt(1, true, 10, OuterTime(0), OuterTime(1), OuterTime(2), OuterTime(3), OuterTime(4), OuterTime(5),
      MEASURED, MEASURED + 10, Thermals(), 2, Carried(), ActualStart(MEASURED, Passing(1), true), true,
      "trace", "result", ["worker"])
  }

  function TheStep(): Step { Step(Id(), 1, Attempt()) }

  function Drains(): (drains: seq<real>)
    ensures |drains| == EVENTS_PER_BLOCK && forall i :: 0 <= i < |drains| ==> drains[i] == 1.0
  {
    seq(EVENTS_PER_BLOCK, i => 1.0)
  }

  function Stored(): Files {
    map["trace" := File("trace", 1, 1, "a", CriticalCsv(Drains())),
        "result" := File("result", 1, 2, "b", CriticalResult(MEASURED, MEASURED + 10, PID, true)),
        "worker" := File("worker", 1, 3, "c", WorkerResult(WORKER, OuterTime(1), MEASURED + 15, true))]
  }

  // ------------------------------------------------------------------
  // Lookups
  // ------------------------------------------------------------------

  lemma TagsDiffer()
    ensures TheTag(0) != TheTag(1)
  {
    hide GuardLabel;
    if TheTag(0) == TheTag(1) {
      GuardLabelInjective("case", 1, 1, 1, "case", 1, 1, 2);
    }
  }

  /** Only the checks of an attempt share a name. */
  lemma LocalNames(t: nat, m: nat, j: nat)
    requires t < 2 && m < 9 && !(2 <= m < 5) && j < 25 && MarkerAt(j).name == LocalName(m)
    ensures j == 1 + m || j == 10 + m
  {
    hide Time, LocalMetadata, OuterTime, OuterEntries;
  }

  lemma ThermalTag(t: nat, m: nat)
    requires t < 2 && m < 9
    ensures MarkerAt(1 + 9 * t + m) == ThermalMarker(t, m) && ThermalMarker(t, m).metadata.tag == Some(TheTag(t))
  {
    hide Time, LocalEntries, TheTag;
  }

  /** A marker of a thermal attempt, other than a check, is found by its name and label. */
  lemma ThermalFound(t: nat, m: nat, q: Query)
    requires t < 2 && m < 9 && !(2 <= m < 5) && q.tag == Some(TheTag(t)) && Matches(ThermalMarker(t, m), q)
    ensures Answered(Markers(), q) && Answer(Markers(), q) == ThermalMarker(t, m)
    ensures AnswerNs(Markers(), q) == Time(t, m)
  {
    hide Lookup, ThermalMarker, TheTag, LocalName, MarkerAt, Time;
    var k := 1 + 9 * t + m;
    ThermalTag(t, m);
    ThermalTag(1 - t, m);
    TagsDiffer();
    NameOf(t, m, q);
    forall j: nat | j < |Markers()| && Matches(Markers()[j], q)
      ensures j == k
    {
      LocalNames(t, m, j);
    }
    LookupIsUnique(Markers(), q, k);
  }

  lemma NameOf(t: nat, m: nat, q: Query)
    requires Matches(ThermalMarker(t, m), q)
    ensures q.name == LocalName(m) && ThermalMarker(t, m).ns == Time(t, m)
  {
    hide LocalName, LocalMetadata, Time;
  }

  lemma OuterNames(j: nat, i: nat)
    requires j < 6 && i < 25 && MarkerAt(i).name == OuterName(j)
    ensures i == 19 + j
  {
    hide Time, LocalMetadata, OuterTime, OuterEntries;
  }

  /** A marker of the block-attempt itself is found by its name. */
  lemma OuterFound(j: nat, q: Query)
    requires j < 6 && q.name == OuterName(j) && Matches(OuterMarker(j), q)
    ensures Answered(Markers(), q) && Answer(Markers(), q) == OuterMarker(j) && AnswerNs(Markers(), q) == OuterTime(j)
  {
    hide Lookup, OuterName, OuterTime, OuterEntries, Opening, ThermalMarker;
    assert MarkerAt(19 + j) == OuterMarker(j);
    hide MarkerAt;
    forall i: nat | i < |Markers()| && Matches(Markers()[i], q)
      ensures i == 19 + j
    {
      OuterNames(j, i);
    }
    LookupIsUnique(Markers(), q, 19 + j);
  }

  lemma OpeningName(i: nat)
    requires i < 25 && MarkerAt(i).name == GuardBlockPrepare
    ensures i == 0
  {
    hide Time, LocalMetadata, OuterTime, OuterEntries;
  }

  lemma OpeningFound()
    ensures var q := ByAttempt(GuardBlockPrepare, Id());
      Answered(Markers(), q) && Answer(Markers(), q) == Opening() && AnswerNs(Markers(), q) == 10
  {
    hide Lookup;
    var q := ByAttempt(GuardBlockPrepare, Id());
    assert MarkerAt(0) == Opening() && Matches(Opening(), q);
    hide MarkerAt;
    forall i: nat | i < |Markers()| && Matches(Markers()[i], q)
      ensures i == 0
    {
      OpeningName(i);
    }
    LookupIsUnique(Markers(), q, 0);
  }

  lemma CheckMatches(t: nat, k: nat)
    requires t < 2 && k < 25
    ensures Matches(MarkerAt(k), ByTag(ThermalActiveStabilityCheck, TheTag(t))) <==> 3 + 9 * t <= k < 6 + 9 * t
  {
    hide TheTag, Time, LocalEntries, OuterTime, OuterEntries;
    TagsDiffer();
  }

  lemma {:induction false} ChecksFound(t: nat, n: nat)
    requires t < 2 && n <= 25
    ensures var a := 3 + 9 * t;
      MatchesUpTo(Markers(), ByTag(ThermalActiveStabilityCheck, TheTag(t)), n)
        == if n <= a then [] else if n == a + 1 then [a] else if n == a + 2 then [a, a + 1] else [a, a + 1, a + 2]
  {
    hide Matches, MarkerAt, TheTag, ByTag;
    if n > 0 {
      ChecksFound(t, n - 1);
      CheckMatches(t, n - 1);
    }
  }

  function CheckList(t: nat): seq<GuardMarker> { [ThermalMarker(t, 2), ThermalMarker(t, 3), ThermalMarker(t, 4)] }

  lemma ChecksAre(t: nat)
    requires t < 2
    ensures CheckMarkers(Markers(), TheTag(t)) == CheckList(t)
  {
    hide MatchesUpTo, MarkerAt, ThermalMarker, TheTag, ByTag;
    ChecksFound(t, 25);
    ThermalTag(t, 2);
    ThermalTag(t, 3);
    ThermalTag(t, 4);
    assert Found(Markers(), ByTag(ThermalActiveStabilityCheck, TheTag(t))) == [3 + 9 * t, 4 + 9 * t, 5 + 9 * t];
  }

  // ------------------------------------------------------------------
  // The precondition
  // ------------------------------------------------------------------

  lemma TagMatches(t: nat, m: nat)
    requires t < 2 && m < 7
    ensures Matches(ThermalMarker(t, m), ByTag(LocalName(m), TheTag(t)))
    ensures ThermalMarker(t, m).metadata == TagMetadata(TheTag(t), LocalEntries(t, m))
  {
    hide TheTag, Time, LocalEntries, LocalName;
  }

  /** A base marker of a thermal attempt. */
  lemma BaseFound(t: nat, m: nat)
    requires t < 2 && m < 7 && !(2 <= m < 5)
    ensures var q := ByTag(LocalName(m), TheTag(t));
      && Answered(Markers(), q) && AnswerNs(Markers(), q) == Time(t, m)
      && Answer(Markers(), q).metadata == TagMetadata(TheTag(t), LocalEntries(t, m))
  {
    hide Answered, Answer, AnswerNs, LocalName, LocalEntries, TheTag, Time, ThermalMarker, Matches;
    TagMatches(t, m);
    ThermalFound(t, m, ByTag(LocalName(m), TheTag(t)));
  }

  lemma BasesFound(t: nat)
    requires t < 2
    ensures BaseMarkers(Markers(), TheTag(t))
    ensures AnswerNs(Markers(), ByTag(ThermalPrepare, TheTag(t))) == Time(t, 0)
    ensures AnswerNs(Markers(), ByTag(ThermalStart, TheTag(t))) == Time(t, 1)
    ensures AnswerNs(Markers(), ByTag(ThermalMeasurementEnd, TheTag(t))) == Time(t, 5)
    ensures AnswerNs(Markers(), ByTag(ThermalEnd, TheTag(t))) == Time(t, 6)
    ensures AnsweredWith(Markers(), ByTag(ThermalMeasurementEnd, TheTag(t)),
      TagMetadata(TheTag(t), BoundaryEntries(WindowEnd(t, 3), 3, WindowAt(t, 2))))
  {
    hide Answered, Answer, AnswerNs, TheTag, Time, WindowAt, WindowEnd, OutcomeAt, CheckAt, ByTag, TagMetadata;
    BaseFound(t, 0);
    BaseFound(t, 1);
    BaseFound(t, 5);
    BaseFound(t, 6);
  }

  lemma CheckOf(t: nat, i: nat)
    requires t < 2 && i < 3
    ensures CheckList(t)[i] == Marker(Time(t, i + 2), ThermalActiveStabilityCheck,
      TagMetadata(TheTag(t), CheckAt(t, i)))
    ensures EndpointOf(CheckList(t)[i]) == Endpoint(WindowEnd(t, i + 1), true)
  {
    hide Time, TheTag, WindowAt, WindowEnd;
  }

  lemma ThreePasses(t: nat)
    requires t < 2
    ensures var flags := Flags(Endpoints(CheckList(t)));
      |flags| == 3 && Streak(flags, 0) == 0 && Streak(flags, 1) == 1 && Streak(flags, 2) == 2 && Streak(flags, 3) == 3
  {
    hide CheckList, EndpointOf, WindowEnd;
    assert |CheckList(t)| == 3 by { ThreeChecks(t); }
    CheckOf(t, 0);
    CheckOf(t, 1);
    CheckOf(t, 2);
    var flags := Flags(Endpoints(CheckList(t)));
    assert flags[0] && flags[1] && flags[2];
  }

  lemma ThreeChecks(t: nat)
    ensures |CheckList(t)| == 3
  {
  }

  lemma CheckHolds(t: nat, i: nat)
    requires t < 2 && i < 3
    ensures CheckReplays(Seen(), TheTag(t), CheckList(t)[i], i, Time(t, 1), i + 1)
  {
    hide Seen, WindowAt, TheTag, ThermalMarker, Base;
    CheckAnswers(t, i);
    CheckOf(t, i);
    hide CheckList;
    assert Time(t, 1) < WindowEnd(t, i + 1) <= Time(t, i + 2);
  }

  lemma NotCrowded(t: nat, i: nat)
    requires t < 2 && 0 < i < 3
    ensures !Crowded(EndpointOf(CheckList(t)[i - 1]), EndpointOf(CheckList(t)[i]))
  {
    hide EndpointOf, CheckList;
    ThreeChecks(t);
    CheckOf(t, i);
    CheckOf(t, i - 1);
  }

  lemma CheckTurnHolds(t: nat, i: nat)
    requires t < 2 && i < 3
    ensures CheckTurn(Seen(), TheTag(t), CheckList(t), Time(t, 1))(i)
  {
    hide Streak, Seen, TheTag, Time, CheckReplays, EndpointOf, Flags, Endpoints, Crowded, CheckList;
    ThreeChecks(t);
    ThreePasses(t);
    assert Streak(Flags(Endpoints(CheckList(t))), i + 1) == i + 1;
    CheckHolds(t, i);
    if i > 0 {
      NotCrowded(t, i);
    }
  }

  lemma ChecksHold(t: nat)
    requires t < 2
    ensures ChecksReplay(Seen(), TheTag(t), CheckList(t), Time(t, 1))
    ensures Streak(Flags(Endpoints(CheckList(t))), |CheckList(t)|) == ENDPOINTS && |CheckList(t)| == ENDPOINTS
  {
    hide CheckTurn, Streak, Seen, TheTag, CheckList, Time, Flags, Endpoints;
    ThreeChecks(t);
    ThreePasses(t);
    CheckTurnHolds(t, 0);
    CheckTurnHolds(t, 1);
    CheckTurnHolds(t, 2);
    var turn := CheckTurn(Seen(), TheTag(t), CheckList(t), Time(t, 1));
    assert UpTo(turn, 0) && UpTo(turn, 1) && UpTo(turn, 2);
  }

  lemma RecordsHold(t: nat)
    requires t < 2
    ensures BoundaryBinds(Markers(), Heated(t), TheTag(t), CheckList(t))
  {
    hide AnsweredWith, AnswerNs, BaseMarkers, WindowAt, TheTag, Time, WindowEnd, Markers, CheckList, ByTag, TagMetadata;
    ThreeChecks(t);
    BasesFound(t);
    CheckOf(t, 0);
    CheckOf(t, 1);
    CheckOf(t, 2);
    RestOf(TheTag(t), CheckAt(t, 0));
    RestOf(TheTag(t), CheckAt(t, 1));
    RestOf(TheTag(t), CheckAt(t, 2));
    assert CheckRecords(CheckList(t)) == Checks(t);
  }

  lemma RestOf(tag: string, rest: Extra)
    ensures TagMetadata(tag, rest).rest == rest
  {
  }

  /** The clocks of one heating. */
  function Heating(t: nat): seq<int> { [Time(t, 0), Time(t, 1), Time(t, 2), Time(t, 3), Time(t, 4), Time(t, 5),
      Time(t, 6)] }

  lemma {:induction false} HeatingTimes(t: nat)
    requires t < 2
    ensures PreconditionTimes(Markers(), TheTag(t)) == Heating(t) && Chain(Heating(t))
  {
    hide AnsweredWith, AnswerNs, BaseMarkers, TheTag, Markers, CheckMarkers, ByTag, Time, Chain, CheckList, Clocks;
    BasesFound(t);
    ChecksAre(t);
    CheckClocks(t);
    Seven(Time(t, 0), Time(t, 1), Time(t, 2), Time(t, 3), Time(t, 4), Time(t, 5), Time(t, 6));
    HeatingIncreases(t);
  }

  lemma Seven(a: int, b: int, c: int, d: int, e: int, f: int, g: int)
    ensures [a, b] + [c, d, e] + [f, g] == [a, b, c, d, e, f, g]
  {
  }

  lemma CheckClock(t: nat, i: nat)
    requires t < 2 && i < 3
    ensures CheckList(t)[i].ns == Time(t, i + 2)
  {
    hide Time, LocalMetadata, LocalName;
  }

  lemma {:induction false} CheckClocks(t: nat)
    requires t < 2
    ensures Clocks(CheckList(t)) == [Time(t, 2), Time(t, 3), Time(t, 4)]
  {
    hide Time, CheckList;
    ThreeChecks(t);
    CheckClock(t, 0);
    CheckClock(t, 1);
    CheckClock(t, 2);
  }

  lemma HeatingIncreases(t: nat)
    ensures Chain(Heating(t))
  {
    hide Base;
  }

  lemma PreconditionHolds(t: nat)
    requires t < 2
    ensures PreconditionReplays(Seen(), Heated(t), TheTag(t))
  {
    hide AnswerNs, CheckMarkers, BaseMarkers, ChecksReplay, Streak, PreconditionTimes, BoundaryBinds, Heating, Chain;
    hide Time, Markers, Flags, Endpoints, CheckList, Seen, WindowAt, TheTag, Checks, ByTag;
    Answers(t);
    BasesFound(t);
    ChecksAre(t);
    HeatingTimes(t);
    ChecksHold(t);
    RecordsHold(t);
  }

  // ------------------------------------------------------------------
  // The thermal attempts
  // ------------------------------------------------------------------

  lemma QualificationMatches(t: nat)
    requires t < 2
    ensures Matches(ThermalMarker(t, 7), QualificationQuery(TheTag(t), t + 1))
    ensures Matches(ThermalMarker(t, 8), QualificationResultQuery(Id(), TheTag(t), t + 1))
    ensures ThermalMarker(t, 7).metadata == Metadata(None, None, Some(TheTag(t)), Some(t + 1), None, LocalEntries(t, 7))
    ensures ThermalMarker(t, 8).metadata == Metadata(Some("case"), Some(1), Some(TheTag(t)), Some(1), Some(t + 1),
      LocalEntries(t, 8))
  {
    hide TheTag, Time, LocalEntries;
  }

  lemma QualificationsFound(t: nat)
    requires t < 2
    ensures var q := QualificationQuery(TheTag(t), t + 1);
      AnswerNs(Markers(), q) == Time(t, 7) && AnsweredWith(Markers(), q,
        Metadata(None, None, Some(TheTag(t)), Some(t + 1), None, LocalEntries(t, 7)))
    ensures var q := QualificationResultQuery(Id(), TheTag(t), t + 1);
      AnswerNs(Markers(), q) == Time(t, 8) && AnsweredWith(Markers(), q,
        Metadata(Some("case"), Some(1), Some(TheTag(t)), Some(1), Some(t + 1), LocalEntries(t, 8)))
  {
    hide Answered, Answer, AnswerNs, TheTag, Time, LocalEntries, ThermalMarker, Matches;
    QualificationMatches(t);
    ThermalFound(t, 7, QualificationQuery(TheTag(t), t + 1));
    ThermalFound(t, 8, QualificationResultQuery(Id(), TheTag(t), t + 1));
  }

  lemma QualificationHolds(t: nat)
    requires t < 2
    ensures QualificationReplays(Seen(), Thermal(t), TheTag(t), t + 1)
    ensures ResultReplays(Markers(), Id(), Thermal(t), TheTag(t), t + 1)
  {
    hide AnsweredWith, AnswerNs, Seen, TheTag, Time, Heated, Markers, OutcomeAt, QualificationQuery;
    hide QualificationResultQuery;
    Answers(t);
    QualificationsFound(t);
    EndOfHeating(t);
  }

  lemma EndOfHeating(t: nat)
    ensures Heated(t).endNs == Time(t, 5) && Heated(t).cleanupNs == Time(t, 6) && Time(t, 6) < Time(t, 7)
  {
    hide Base, WindowAt, TheTag, Checks;
  }

  lemma OuterMatches(j: nat)
    requires j < 6
    ensures j < 3 ==> Matches(OuterMarker(j), ByThermal(OuterName(j), Id(), 2))
    ensures Matches(OuterMarker(j), ByAttempt(OuterName(j), Id()))
  {
    hide OuterName, OuterTime, OuterEntries;
  }

  /** The markers that only the second attempt is followed by. */
  lemma ReleaseFound(j: nat)
    requires j < 2
    ensures var q := ByThermal(OuterName(j), Id(), 2);
      AnswerNs(Markers(), q) == OuterTime(j) && AnsweredWith(Markers(), q, ThermalMetadata(Id(), 2, OuterEntries(j)))
  {
    hide Answered, Answer, AnswerNs, OuterTime, OuterEntries, OuterName, Matches;
    OuterMatches(j);
    OuterFound(j, ByThermal(OuterName(j), Id(), 2));
  }

  lemma ReleasesFound()
    ensures AnswerNs(Markers(), ByThermal(GuardBlockStart, Id(), 2)) == OuterTime(0)
    ensures AnswerNs(Markers(), ByThermal(GuardBlockMeasurementRelease, Id(), 2)) == OuterTime(1)
    ensures AnsweredWith(Markers(), ByThermal(GuardBlockStart, Id(), 2),
      ThermalMetadata(Id(), 2, StartEntries(false, [WORKER], PID, Time(1, 5))))
    ensures AnsweredWith(Markers(), ByThermal(GuardBlockMeasurementRelease, Id(), 2),
      ThermalMetadata(Id(), 2, ReleaseEntries(false, PID, Time(1, 5))))
  {
    hide Answered, Answer, AnswerNs, OuterTime, Time, ByThermal, ThermalMetadata;
    ReleaseFound(0);
    ReleaseFound(1);
  }

  lemma ReleaseHolds(t: nat)
    requires t < 2
    ensures ReleaseReplays(Markers(), Id(), Thermal(t), [WORKER], PID, t + 1)
  {
    hide AnsweredWith, AnswerNs, TheTag, Time, Heated, Markers, OuterTime, ByThermal, ThermalMetadata;
    ReleasesFound();
  }

  lemma PreReleaseHolds(t: nat)
    requires t < 2
    ensures PreReleasePasses(Markers(), Id(), Thermal(t), t + 1) <==> t == 1
    ensures PreReleaseFailureOf(Markers(), Id(), Thermal(t), t + 1) == Thermal(t).failure
  {
    hide AnswerNs, TheTag, Markers, Heated, Time, OuterTime, ByThermal, WithinHandoff;
    ReleasesFound();
    ReleaseClocks();
  }

  lemma ReleaseClocks()
    ensures Passing(1).sampleNs.Some?
    ensures WithinHandoff(Time(1, 5), BoundaryClocks(Qualified(1), Time(1, 8), OuterTime(0), OuterTime(1)))
  {
  }

  /** The clocks of a thermal attempt. */
  function ThermalLine(t: nat): seq<int> {
    Heating(t) + [Time(t, 7), Time(t, 8)] + if t == 1 then [OuterTime(0), OuterTime(1)] else []
  }

  lemma ThermalLineOf(t: nat)
    requires t < 2
    ensures ThermalTimes(Seen(), Id(), Thermal(t), t + 1) == ThermalLine(t) && Chain(ThermalLine(t))
  {
    hide AnswerNs, PreconditionTimes, Seen, TheTag, Markers, Heated, ByThermal, Time, OuterTime, Chain, Heating;
    hide QualificationQuery, QualificationResultQuery;
    Answers(t);
    HeatingTimes(t);
    QualificationsFound(t);
    ReleasesFound();
    LineIncreases(t);
  }

  lemma LineIncreases(t: nat)
    requires t < 2
    ensures Chain(ThermalLine(t))
  {
  }

  lemma Paused()
    ensures PausedStates([WORKER], PID) == map[PID := "T", WORKER := "T"]
  {
  }

  lemma ThermalHolds(t: nat)
    requires t < 2
    ensures ThermalReplays(Seen(), Id(), [WORKER], PID, Thermal(t), t + 1)
  {
    hide PreconditionReplays, QualificationReplays, ResultReplays, ReleaseReplays, PreReleasePasses;
    hide PreReleaseFailureOf;
    hide ThermalTimes, Chain, PausedStates, Markers, Heated, Qualified, ThermalLine, Time, OuterTime, Seen, TheTag;
    Paused();
    Answers(t);
    PreconditionHolds(t);
    QualificationHolds(t);
    ReleaseHolds(t);
    PreReleaseHolds(t);
    ThermalLineOf(t);
  }

  function Line(): seq<int> { ThermalLine(0) + ThermalLine(1) }

  lemma AttemptHolds(t: nat)
    requires t < 2
    ensures AttemptTurn(Seen(), Id(), [WORKER], PID, Thermals())(t)
  {
    hide ThermalReplays, ThermalTimes, Chain, Seen, StartsAfter, ThermalLine;
    ThermalHolds(t);
    TimesBefore(t);
    ThermalLineOf(t);
    OneAfterTheOther();
    assert Thermals()[t].preReleasePassed == (t == 1);
  }

  lemma OneAfterTheOther()
    ensures StartsAfter([], ThermalLine(0)) && StartsAfter(ThermalLine(0), ThermalLine(1))
  {
  }

  lemma TimesBefore(t: nat)
    requires t <= 2
    ensures TimesUpTo(Seen(), Id(), Thermals(), t) == if t == 0 then [] else if t == 1 then ThermalLine(0) else Line()
  {
    hide ThermalTimes, Seen, ThermalLine, Thermal;
    ThermalLineOf(0);
    ThermalLineOf(1);
    assert TimesUpTo(Seen(), Id(), Thermals(), 0) == [];
    assert TimesUpTo(Seen(), Id(), Thermals(), 1) == [] + ThermalLine(0) == ThermalLine(0);
  }

  lemma AttemptsHold()
    ensures AttemptsReplay(Seen(), Id(), [WORKER], PID, Thermals(), 2)
    ensures TimesUpTo(Seen(), Id(), Thermals(), 2) == Line()
  {
    hide AttemptTurn, Seen, Thermal, TimesUpTo, Line;
    AttemptHolds(0);
    AttemptHolds(1);
    TimesBefore(2);
    var turn := AttemptTurn(Seen(), Id(), [WORKER], PID, Thermals());
    assert UpTo(turn, 0) && UpTo(turn, 1) && UpTo(turn, 2);
  }

  // ------------------------------------------------------------------
  // The block-attempt
  // ------------------------------------------------------------------

  lemma OwnFound(j: nat)
    requires 2 <= j < 6
    ensures var q := ByAttempt(OuterName(j), Id());
      && Answered(Markers(), q) && AnswerNs(Markers(), q) == OuterTime(j)
      && Answer(Markers(), q) == OuterMarker(j)
  {
    hide Answered, Answer, AnswerNs, OuterTime, OuterMarker, OuterName, Matches;
    OuterMatches(j);
    OuterFound(j, ByAttempt(OuterName(j), Id()));
  }

  lemma BlockMarkersFound()
    ensures MarkersReplay(Markers(), TheStep())
    ensures AnsweredWith(Markers(), ByAttempt(GuardBlockResume, Id()), ThermalMetadata(Id(), 2, OuterEntries(2)))
    ensures AnsweredWith(Markers(), ByAttempt(GuardActualStartQualification, Id()),
      AttemptMetadata(Id(), OuterEntries(3)))
    ensures AnsweredWith(Markers(), ByAttempt(GuardBlockResult, Id()), AttemptMetadata(Id(), OuterEntries(4)))
    ensures AnsweredWith(Markers(), ByAttempt(GuardBlockEnd, Id()), AttemptMetadata(Id(), OuterEntries(5)))
  {
    hide Answered, Answer, AnswerNs, OuterTime, OuterEntries, Markers, Carried, Thermals, Passing, ByAttempt, ByThermal;
    hide AttemptMetadata, ThermalMetadata;
    OpeningFound();
    ReleasesFound();
    OwnFound(2);
    OwnFound(3);
    OwnFound(4);
    OwnFound(5);
  }

  lemma HandoffHolds()
    ensures StrictlyWithin(Time(1, 5), Clocks8()) && Time(1, 6) < MEASURED
  {
  }

  lemma MeasurementHolds()
    ensures HandoffReplays(Seen(), TheStep(), PID, [WORKER], Thermal(1)) && VerdictReplays(Markers(), TheStep())
  {
    hide AnsweredWith, AnswerNs, MarkersReplay, Seen, TheTag, Heated, Markers, StrictlyWithin, Time, OuterTime, Base;
    hide ByAttempt, AttemptMetadata, ThermalMetadata;
    BlockMarkersFound();
    Answers(1);
    MeasurementAnswers();
    HandoffHolds();
  }

  lemma FilesDiffer()
    ensures "trace" in Stored() && "result" in Stored() && "worker" in Stored()
    ensures Stored()["trace"] == File("trace", 1, 1, "a", CriticalCsv(Drains()))
    ensures Stored()["result"] == File("result", 1, 2, "b", CriticalResult(MEASURED, MEASURED + 10, PID, true))
    ensures Stored()["worker"] == File("worker", 1, 3, "c", WorkerResult(WORKER, OuterTime(1), MEASURED + 15, true))
  {
    assert |"trace"| == 5 && |"result"| == 6 && |"worker"| == 6;
    assert "worker"[0] == 'w' && "result"[0] == 'r';
  }

  lemma FilesHold()
    ensures FilesReplay(Stored(), TheStep()) && WorkerPids(Stored(), TheStep()) == [WORKER]
    ensures Critical(Stored(), TheStep()) == PID
  {
    hide Stored, Thermals, Carried, Passing;
    FilesDiffer();
    var s := TheStep();
    assert PidsUpTo(Stored(), s, 0) == [];
    assert PidsUpTo(Stored(), s, 1) == [] + [WORKER];
  }

  lemma ThreeIndependent(a: Entry, b: Entry, c: Entry)
    requires a.path != b.path && a.ino != b.ino && a.sha != b.sha
    requires a.path != c.path && a.ino != c.ino && a.sha != c.sha && b.path != c.path && b.ino != c.ino
    requires b.sha != c.sha
    ensures Independent([]) && Independent([a]) && Independent([a, b]) && Independent([a, b, c])
  {
  }

  lemma NamesDiffer()
    ensures "trace" != "result" && "trace" != "worker" && "result" != "worker"
    ensures "a" != "b" && "a" != "c" && "b" != "c"
  {
    assert |"trace"| == 5 && |"result"| == 6 && |"worker"| == 6;
    assert "worker"[0] == 'w' && "result"[0] == 'r';
    assert "a"[0] == 'a' && "b"[0] == 'b' && "c"[0] == 'c';
  }

  lemma ClaimStep(s: Step, n: nat)
    requires n < ClaimCount(s) && ClaimAt(s, n).raw in Stored()
    ensures Registered(Stored(), [], s, n + 1) == Registered(Stored(), [], s, n) + [EntryOf(Stored(), ClaimAt(s, n))]
    ensures Claimed(Stored(), [], s, n) && Independent(Registered(Stored(), [], s, n + 1)) ==>
      Claimed(Stored(), [], s, n + 1)
  {
    hide Stored, Independent, ClaimAt;
  }

  lemma NoClaims(s: Step)
    ensures Registered(Stored(), [], s, 0) == [] && Claimed(Stored(), [], s, 0)
  {
    hide Stored;
  }

  lemma Claims()
    ensures ClaimCount(TheStep()) == 3
    ensures ClaimAt(TheStep(), 0).raw == "trace" && ClaimAt(TheStep(), 1).raw == "result"
    ensures ClaimAt(TheStep(), 2).raw == "worker"
  {
    hide Thermals, Carried, Passing;
  }

  /** The manifest entry of claim `n`. */
  function EntryAt(n: nat): Entry
    requires n < ClaimCount(TheStep()) && ClaimAt(TheStep(), n).raw in Stored()
  {
    EntryOf(Stored(), ClaimAt(TheStep(), n))
  }

  lemma EntriesIndependent()
    ensures ClaimCount(TheStep()) == 3
    ensures forall n :: 0 <= n < 3 ==> ClaimAt(TheStep(), n).raw in Stored()
    ensures Independent([EntryAt(0)]) && Independent([EntryAt(0), EntryAt(1)])
    ensures Independent([EntryAt(0), EntryAt(1), EntryAt(2)])
  {
    hide Stored, Independent, TheStep, ClaimAt, ClaimCount;
    FilesDiffer();
    NamesDiffer();
    Claims();
    ThreeIndependent(EntryAt(0), EntryAt(1), EntryAt(2));
  }

  lemma ClaimsHold()
    ensures AllClaimed(Stored(), [], TheStep())
  {
    hide Stored, Independent, TheStep, Registered, Claimed, ClaimAt, ClaimCount, EntryAt;
    EntriesIndependent();
    NoClaims(TheStep());
    EntryStep(0);
    EntryStep(1);
    EntryStep(2);
    var a, b, c := EntryAt(0), EntryAt(1), EntryAt(2);
    assert [] + [a] == [a] && [a] + [b] == [a, b] && [a, b] + [c] == [a, b, c];
  }

  lemma EntryStep(n: nat)
    requires n < ClaimCount(TheStep()) && ClaimAt(TheStep(), n).raw in Stored()
    ensures var s := TheStep();
      && Registered(Stored(), [], s, n + 1) == Registered(Stored(), [], s, n) + [EntryAt(n)]
      && (Claimed(Stored(), [], s, n) && Independent(Registered(Stored(), [], s, n + 1)) ==>
        Claimed(Stored(), [], s, n + 1))
  {
    hide Stored, Independent, TheStep, Registered, Claimed, ClaimAt, ClaimCount;
    ClaimStep(TheStep(), n);
  }

  lemma OrderHolds()
    ensures Ordered(Attempt(), Line(), 0)
  {
    hide Carried, Thermals, Passing;
  }

  /** Some block-attempt replays, with a failed and a passed thermal attempt, a worker, and every
      marker, record and file that the replay asks for. */
  lemma SomeRunAccepted()
    ensures WellOrdered(Observed(Markers()).log)
    ensures Accepted(GuardEvidenceOf(Observed(Markers())), Stored(), Then(Begun(0), TheStep()))
  {
    hide WellOrdered, AllClaimed, Thermal, Stored, StepReplays, Markers, EvidenceOf, TheStep;
    LogIsOrdered();
    StepHolds();
    ClaimsHold();
    assert Accepted(Seen(), Stored(), Begun(0)) && Manifest(Stored(), Begun(0)) == [];
  }

  lemma StepHolds()
    ensures StepReplays(Seen(), Stored(), TheStep(), 0)
  {
    hide MarkersReplay, FilesReplay, WorkerPids, Critical, AttemptsReplay, HandoffReplays, VerdictReplays, TimesUpTo;
    hide Ordered, Thermal, Markers, Stored, Seen, Carried, Line, Passing, Time, OuterTime;
    BlockMarkersFound();
    MeasurementHolds();
    FilesHold();
    AttemptsHold();
    OrderHolds();
    Answers(1);
    MeasurementAnswers();
  }

  lemma LogIsOrdered()
    ensures WellOrdered(Observed(Markers()).log)
  {
    hide MarkerAt;
    SamplesIncrease();
    MarkersIncrease();
    forall i, j | 0 <= i < 18 && 0 <= j < 25
      ensures Samples()[i].ns != Markers()[j].ns
    {
      ApartFrom(i, j);
    }
  }

  lemma MarkersIncrease()
    ensures Increasing(MarkerClocks(Markers()))
  {
    hide LocalName, LocalMetadata, OuterName, OuterEntries;
  }

  lemma ApartFrom(i: nat, j: nat)
    requires i < 18 && j < 25
    ensures SampleNs(i) != MarkerAt(j).ns
  {
    hide LocalName, LocalMetadata, OuterName, OuterEntries;
  }
}
