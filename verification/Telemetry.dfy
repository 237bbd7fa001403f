/** The telemetry log: samples and markers on one strictly increasing nanosecond clock, its
    loader, and the unique marker lookup (analysis/freeze_p9_guard.py, `TelemetryReplay`).
    `X` stands for the metadata entries that no lookup reads. */
module Telemetry {
  import opened Common

  /** A telemetry sample: the two temperatures the replay reads, and whether its other required
      fields are all present. */
  datatype Sample = Sample(ns: int, stability: Option<real>, safety: Option<real>, complete: bool)

  predicate StructurallyValid(s: Sample) {
    s.complete && s.stability.Some? && s.safety.Some?
  }

  datatype Name =
    | CollectorReady | GuardCampaignStart | GuardCampaignEnd
    | ThermalPrepare | ThermalStart | ThermalActiveStabilityCheck | ThermalMeasurementEnd | ThermalEnd
    | ThermalStartQualification | ThermalStartQualificationResult
    | GuardBlockPrepare | GuardBlockStart | GuardBlockMeasurementRelease | GuardBlockResume
    | GuardActualStartQualification | GuardBlockResult | GuardBlockEnd
    | CalibrationPrepare | CalibrationStart | CalibrationMeasurementWindow | CalibrationEnd
    | ThermalActualStartQualificationResult
    | Unexpected(text: string)

  /** Marker metadata: the five entries a lookup can read (`tag` is the `label` entry; absent
      entries are `None`), and the rest. */
  datatype Metadata<X> = Metadata(caseId: Option<string>, block: Option<int>, tag: Option<string>, attempt: Option<int>,
      thermalAttempt: Option<int>, rest: X)

  datatype Marker<X> = Marker(ns: int, name: Name, metadata: Metadata<X>)

  datatype Log<X> = Log(samples: seq<Sample>, markers: seq<Marker<X>>)

  // ------------------------------------------------------------------
  // Loading
  // ------------------------------------------------------------------

  /** One line of the file: its clock, its record, and whether every schema check on it holds. */
  datatype Line<X> = SampleLine(sample: Sample, intact: bool) | MarkerLine(marker: Marker<X>, intact: bool) | Unreadable

  function Clock<X>(line: Line<X>): int {
    match line
    case SampleLine(s, _) => s.ns
    case MarkerLine(m, _) => m.ns
    case Unreadable => 0
  }

  function SamplesOf<X>(lines: seq<Line<X>>): seq<Sample> {
    if lines == [] then [] else
      var front, last := SamplesOf(lines[..|lines| - 1]), lines[|lines| - 1];
      if last.SampleLine? then front + [last.sample] else front
  }

  function MarkersOf<X>(lines: seq<Line<X>>): seq<Marker<X>> {
    if lines == [] then [] else
      var front, last := MarkersOf(lines[..|lines| - 1]), lines[|lines| - 1];
      if last.MarkerLine? then front + [last.marker] else front
  }

  ghost predicate Increasing(clocks: seq<int>) {
    forall i, j :: 0 <= i < j < |clocks| ==> clocks[i] < clocks[j]
  }

  function SampleClocks(samples: seq<Sample>): (clocks: seq<int>)
    ensures |clocks| == |samples| && forall i :: 0 <= i < |samples| ==> clocks[i] == samples[i].ns
  {
    seq(|samples|, i requires 0 <= i < |samples| => samples[i].ns)
  }

  function MarkerClocks<X>(markers: seq<Marker<X>>): (clocks: seq<int>)
    ensures |clocks| == |markers| && forall i :: 0 <= i < |markers| ==> clocks[i] == markers[i].ns
  {
    seq(|markers|, i requires 0 <= i < |markers| => markers[i].ns)
  }

  /** Both record streams have strictly increasing clocks and share none. */
  ghost predicate WellOrdered<X>(log: Log<X>) {
    && Increasing(SampleClocks(log.samples))
    && Increasing(MarkerClocks(log.markers))
    && forall i, j :: 0 <= i < |log.samples| && 0 <= j < |log.markers| ==> log.samples[i].ns != log.markers[j].ns
  }

  ghost predicate IntactLine<X>(line: Line<X>) {
    !line.Unreadable? && line.intact && Clock(line) >= 0
  }

  ghost predicate Loadable<X>(lines: seq<Line<X>>) {
    && (forall i :: 0 <= i < |lines| ==> IntactLine(lines[i]))
    && (forall i, j :: 0 <= i < j < |lines| ==> Clock(lines[i]) < Clock(lines[j]))
  }

  ghost predicate Before<X>(log: Log<X>, ns: int) {
    && (forall i :: 0 <= i < |log.samples| ==> log.samples[i].ns < ns)
    && forall j :: 0 <= j < |log.markers| ==> log.markers[j].ns < ns
  }

  lemma SampleJoins<X>(log: Log<X>, s: Sample)
    requires WellOrdered(log) && Before(log, s.ns)
    ensures WellOrdered(Log(log.samples + [s], log.markers)) && Before(Log(log.samples + [s], log.markers), s.ns + 1)
  {
  }

  lemma MarkerJoins<X>(log: Log<X>, m: Marker<X>)
    requires WellOrdered(log) && Before(log, m.ns)
    ensures WellOrdered(Log(log.samples, log.markers + [m])) && Before(Log(log.samples, log.markers + [m]), m.ns + 1)
  {
  }

  lemma BeforeLater<X>(log: Log<X>, ns: int, later: int)
    requires Before(log, ns) && ns <= later
    ensures Before(log, later)
  {
  }

  lemma EmptyLog<X>(lines: seq<Line<X>>)
    requires lines == []
    ensures WellOrdered(Log(SamplesOf(lines), MarkersOf(lines))) && SamplesOf(lines) == [] && MarkersOf(lines) == []
  {
  }

  lemma LoadableFront<X>(lines: seq<Line<X>>)
    requires lines != [] && Loadable(lines)
    ensures var front, last := lines[..|lines| - 1], lines[|lines| - 1];
      Loadable(front) && IntactLine(last) && (front != [] ==> Clock(front[|front| - 1]) < Clock(last))
  {
  }

  /** The records of a loadable file are in order, none later than its last line. */
  lemma {:induction false} RecordsWellOrdered<X>(lines: seq<Line<X>>)
    requires Loadable(lines)
    ensures WellOrdered(Log(SamplesOf(lines), MarkersOf(lines)))
    ensures lines != [] ==> Before(Log(SamplesOf(lines), MarkersOf(lines)), Clock(lines[|lines| - 1]) + 1)
    decreases |lines|
  {
    hide WellOrdered, Before, Loadable;
    if lines == [] {
      EmptyLog(lines);
    } else {
      var front, last := lines[..|lines| - 1], lines[|lines| - 1];
      LoadableFront(lines);
      RecordsWellOrdered(front);
      var log := Log(SamplesOf(front), MarkersOf(front));
      if front == [] {
        EmptyLog(front);
        NothingBefore(log, Clock(last));
      } else {
        BeforeLater(log, Clock(front[|front| - 1]) + 1, Clock(last));
      }
      match last {
        case SampleLine(s, _) => SampleJoins(log, s);
        case MarkerLine(m, _) => MarkerJoins(log, m);
      }
    }
  }

  lemma NothingBefore<X>(log: Log<X>, ns: int)
    requires log.samples == [] && log.markers == []
    ensures Before(log, ns)
  {
  }

  /** `TelemetryReplay.__init__`, with `None` for its exceptions. */
  method Load<X>(lines: seq<Line<X>>) returns (r: Option<Log<X>>)
    ensures r.Some? <==> Loadable(lines) && SamplesOf(lines) != []
    ensures r.Some? ==> r.value == Log(SamplesOf(lines), MarkersOf(lines)) && WellOrdered(r.value)
  {
    var samples: seq<Sample> := [];
    var markers: seq<Marker<X>> := [];
    var previous: Option<int> := None;
    assert lines[..0] == [];
    for i := 0 to |lines|
      invariant Loadable(lines[..i])
      invariant samples == SamplesOf(lines[..i]) && markers == MarkersOf(lines[..i])
      invariant previous == if i == 0 then None else Some(Clock(lines[i - 1]))
    {
      var line := lines[i];
      assert lines[..i + 1][..i] == lines[..i] && lines[..i + 1][i] == line;
      if line.Unreadable? || !line.intact {
        return None;
      }
      if Clock(line) < 0 || (previous.Some? && Clock(line) <= previous.value) {
        return None;
      }
      previous := Some(Clock(line));
      match line {
        case SampleLine(s, _) => samples := samples + [s];
        case MarkerLine(m, _) => markers := markers + [m];
      }
    }
    assert lines[..|lines|] == lines;
    if samples == [] {
      return None;
    }
    RecordsWellOrdered(lines);
    r := Some(Log(samples, markers));
  }

  // ------------------------------------------------------------------
  // Unique marker lookup
  // ------------------------------------------------------------------

  /** A lookup: a name, and the metadata entries it constrains. */
  datatype Query = Query(name: Name, caseId: Option<string>, block: Option<int>, tag: Option<string>,
      attempt: Option<int>, thermalAttempt: Option<int>)

  predicate Agrees<T(==)>(wanted: Option<T>, found: Option<T>) {
    wanted.None? || wanted == found
  }

  predicate Matches<X>(m: Marker<X>, q: Query) {
    && m.name == q.name
    && Agrees(q.caseId, m.metadata.caseId)
    && Agrees(q.block, m.metadata.block)
    && Agrees(q.tag, m.metadata.tag)
    && Agrees(q.attempt, m.metadata.attempt)
    && Agrees(q.thermalAttempt, m.metadata.thermalAttempt)
  }

  /** The positions of the first `n` markers that match, in log order. */
  function MatchesUpTo<X>(markers: seq<Marker<X>>, q: Query, n: nat): (found: seq<nat>)
    requires n <= |markers|
    ensures forall k :: k in found ==> k < n && Matches(markers[k], q)
    ensures forall i, j :: 0 <= i < j < |found| ==> found[i] < found[j]
  {
    if n == 0 then [] else
      var front := MatchesUpTo(markers, q, n - 1);
      assert forall i :: 0 <= i < |front| ==> front[i] in front;
      if Matches(markers[n - 1], q) then front + [n - 1] else front
  }

  /** The positions of all matching markers. */
  function Found<X>(markers: seq<Marker<X>>, q: Query): seq<nat> {
    MatchesUpTo(markers, q, |markers|)
  }

  lemma {:induction false} AllMatchesFound<X>(markers: seq<Marker<X>>, q: Query, n: nat, k: nat)
    requires k < n <= |markers| && Matches(markers[k], q)
    ensures k in MatchesUpTo(markers, q, n)
  {
    if k < n - 1 {
      AllMatchesFound(markers, q, n - 1, k);
    }
  }

  /** `TelemetryReplay.marker`: the position of the only matching marker, or `None` when none or
      several match. */
  function Lookup<X>(markers: seq<Marker<X>>, q: Query): (r: Option<nat>)
    ensures r.Some? ==> r.value < |markers| && Matches(markers[r.value], q)
  {
    var found := Found(markers, q);
    if |found| == 1 then
      assert found[0] in found;
      Some(found[0])
    else None
  }

  /** The lookup succeeds exactly when one marker matches, and returns that one. */
  lemma LookupIsUnique<X>(markers: seq<Marker<X>>, q: Query, k: nat)
    requires k < |markers| && Matches(markers[k], q)
    ensures Lookup(markers, q) == Some(k) <==> forall j: nat :: j < |markers| && Matches(markers[j], q) ==> j == k
  {
    var found := Found(markers, q);
    AllMatchesFound(markers, q, |markers|, k);
    if |found| == 1 {
      forall j: nat | j < |markers| && Matches(markers[j], q)
        ensures j == k
      {
        AllMatchesFound(markers, q, |markers|, j);
      }
    } else {
      var other := if found[0] == k then found[1] else found[0];
      assert other in found && other != k;
    }
  }

  /** The loop of `TelemetryReplay.marker`. */
  method FindMarker<X>(markers: seq<Marker<X>>, q: Query) returns (r: Option<nat>)
    ensures r == Lookup(markers, q)
  {
    var found: seq<nat> := [];
    for n := 0 to |markers|
      invariant found == MatchesUpTo(markers, q, n)
    {
      if Matches(markers[n], q) {
        found := found + [n];
      }
    }
    r := if |found| == 1 then Some(found[0]) else None;
  }

  /** Two wanted entries that no metadata can meet together. */
  predicate Clash<T(==)>(a: Option<T>, b: Option<T>) {
    a.Some? && b.Some? && a != b
  }

  /** No marker can answer both lookups. */
  predicate Conflict(p: Query, q: Query) {
    p.name != q.name || Clash(p.caseId, q.caseId) || Clash(p.block, q.block) || Clash(p.tag, q.tag)
    || Clash(p.attempt, q.attempt) || Clash(p.thermalAttempt, q.thermalAttempt)
  }

  lemma ConflictSeparates<X>(markers: seq<Marker<X>>, p: Query, q: Query)
    requires Conflict(p, q)
    ensures forall k :: k in Found(markers, p) ==> k !in Found(markers, q)
  {
  }
}
