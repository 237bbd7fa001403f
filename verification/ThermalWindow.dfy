/** Thermal evidence over a telemetry log: window statistics, interval health and the causal
    qualification sample (analysis/freeze_p9_guard.py and analysis/freeze_p9_thermal.py). */
module ThermalWindow {
  import opened Arithmetic
  import opened Common
  import opened Telemetry
  import opened Windows
  import Coverage
  import Slope

  const SECOND_NS: real := 1000000000.0
  const MILLISECOND_NS: real := 1000000.0

  /** The thermal lock: the frozen constants of the qualification. */
  datatype Lock = Lock(
    windowSeconds: real, intervalMs: real, requiredFraction: real, maximumGapMs: real,
    hardLimit: real, target: real, tolerance: real, maximumSlope: real)

  /** The replayed statistics of one stability window. */
  datatype Window = Window(
    samples: nat, spanSeconds: real, mean: real, least: real, greatest: real, latest: real,
    slopePerMinute: real, maximumGapNs: int)

  datatype Reading = Reading(ns: int, value: real)

  /** What a sample says about one sensor. */
  datatype Sensor = StabilitySensor | SafetySensor

  function Value(s: Sample, sensor: Sensor): Option<real> {
    if sensor.StabilitySensor? then s.stability else s.safety
  }

  /** The finite readings of one sensor, in log order. */
  function Readings(samples: seq<Sample>, sensor: Sensor): seq<Reading> {
    if samples == [] then [] else
      var front, last := Readings(samples[..|samples| - 1], sensor), samples[|samples| - 1];
      if Value(last, sensor).Some? then front + [Reading(last.ns, Value(last, sensor).value)] else front
  }

  function ReadingClocks(rs: seq<Reading>): (clocks: seq<int>)
    ensures |clocks| == |rs| && forall i :: 0 <= i < |rs| ==> clocks[i] == rs[i].ns
  {
    seq(|rs|, i requires 0 <= i < |rs| => rs[i].ns)
  }

  /** Times in seconds since the first reading, with the values. */
  function Points(rs: seq<Reading>): (ps: seq<Slope.Point>)
    ensures |ps| == |rs|
    ensures forall i :: 0 <= i < |rs| ==> ps[i] == Slope.Point((rs[i].ns - rs[0].ns) as real / SECOND_NS, rs[i].value)
  {
    seq(|rs|, i requires 0 <= i < |rs| => Slope.Point((rs[i].ns - rs[0].ns) as real / SECOND_NS, rs[i].value))
  }

  function Least(rs: seq<Reading>): real
    requires rs != []
  {
    if |rs| == 1 then rs[0].value else
      var front, last := Least(rs[..|rs| - 1]), rs[|rs| - 1].value;
      if last < front then last else front
  }

  function Greatest(rs: seq<Reading>): real
    requires rs != []
  {
    if |rs| == 1 then rs[0].value else
      var front, last := Greatest(rs[..|rs| - 1]), rs[|rs| - 1].value;
      if last > front then last else front
  }

  /** The statistics of the selected samples; none when fewer than two readings are finite. */
  function WindowOf(selected: seq<Sample>, sensor: Sensor, start: int, reference: int): Option<Window> {
    var rs := Readings(selected, sensor);
    if |rs| < 2 then None else
      var points := Points(rs);
      Some(Window(
        |rs|, points[|rs| - 1].x - points[0].x, Slope.MeanY(points), Least(rs), Greatest(rs), rs[|rs| - 1].value,
        Product(Slope.SlopeOf(points), 60.0),
        Coverage.MaximumGap(ReadingClocks(rs), start, reference).value))
  }

  function WindowStart(reference: int, notBefore: int, windowSeconds: real): int {
    var start := reference - (windowSeconds * SECOND_NS).Floor;
    if notBefore > start then notBefore else start
  }

  /** The window of `_thermal_window_evidence`, sliced by bisection. */
  function EvidenceWindow(samples: seq<Sample>, reference: int, notBefore: int, windowSeconds: real): Option<Window> {
    var start := WindowStart(reference, notBefore, windowSeconds);
    WindowOf(WindowSlice(samples, start, reference), StabilitySensor, start, reference)
  }

  /** `_thermal_window_from_raw`, which filters the log linearly. */
  function WindowFromRaw(samples: seq<Sample>, sensor: Sensor, reference: int, notBefore: int,
      windowSeconds: real): Option<Window> {
    var start := WindowStart(reference, notBefore, windowSeconds);
    WindowOf(Select(samples, Closed(start, reference)), sensor, start, reference)
  }

  /** The guard freezer and the thermal freezer replay the same window from the same log. */
  lemma WindowsAgree(samples: seq<Sample>, reference: int, notBefore: int, windowSeconds: real)
    requires Increasing(SampleClocks(samples)) && notBefore < reference && windowSeconds > 0.0
    ensures EvidenceWindow(samples, reference, notBefore, windowSeconds) == WindowFromRaw(samples, StabilitySensor,
      reference, notBefore, windowSeconds)
  {
    SliceIsFilter(samples, WindowStart(reference, notBefore, windowSeconds), reference);
  }

  // ------------------------------------------------------------------
  // The slope of a replayed window
  // ------------------------------------------------------------------

  lemma FrontIncreases(samples: seq<Sample>)
    requires samples != [] && Increasing(SampleClocks(samples))
    ensures var front := samples[..|samples| - 1];
      Increasing(SampleClocks(front)) && (front != [] ==> front[|front| - 1].ns < samples[|samples| - 1].ns)
  {
    var front, last := samples[..|samples| - 1], |samples| - 1;
    forall i, j | 0 <= i < j < |front|
      ensures SampleClocks(front)[i] < SampleClocks(front)[j]
    {
      assert SampleClocks(samples)[i] < SampleClocks(samples)[j];
    }
    assert front != [] ==> SampleClocks(samples)[last - 1] < SampleClocks(samples)[last];
  }

  lemma OneMoreReading(samples: seq<Sample>, sensor: Sensor)
    requires samples != []
    ensures var front, last := Readings(samples[..|samples| - 1], sensor), samples[|samples| - 1];
      Readings(samples, sensor) == if Value(last,
        sensor).Some? then front + [Reading(last.ns, Value(last, sensor).value)] else front
  {
  }

  lemma NoReadings(samples: seq<Sample>, sensor: Sensor)
    requires samples == []
    ensures Readings(samples, sensor) == []
  {
  }

  lemma {:induction false} ReadingsIncrease(samples: seq<Sample>, sensor: Sensor)
    requires Increasing(SampleClocks(samples))
    ensures Increasing(ReadingClocks(Readings(samples, sensor)))
    ensures forall i :: 0 <= i < |Readings(samples, sensor)| ==>
      samples != [] && Readings(samples, sensor)[i].ns <= samples[|samples| - 1].ns
    decreases |samples|
  {
    hide Readings;
    if samples == [] {
      NoReadings(samples, sensor);
    } else {
      FrontIncreases(samples);
      ReadingsIncrease(samples[..|samples| - 1], sensor);
      OneMoreReading(samples, sensor);
    }
  }

  lemma PointsIncrease(rs: seq<Reading>)
    requires Increasing(ReadingClocks(rs))
    ensures Slope.TimesIncrease(Points(rs))
  {
    forall i, j | 0 <= i < j < |rs|
      ensures Points(rs)[i].x < Points(rs)[j].x
    {
      assert ReadingClocks(rs)[i] < ReadingClocks(rs)[j];
    }
  }

  /** The line through the mean of the points with a given slope. */
  ghost function ErrorOfSlope(ps: seq<Slope.Point>, slope: real): real
    requires ps != []
  {
    Slope.SquaredError(ps, Slope.MeanY(ps) - Product(slope, Slope.MeanX(ps)), slope)
  }

  lemma SelectedSlope(selected: seq<Sample>, sensor: Sensor, a: real, b: real)
    requires Increasing(SampleClocks(selected)) && |Readings(selected, sensor)| >= 2
    ensures Slope.SquaresAround(Points(Readings(selected, sensor)),
      Slope.MeanX(Points(Readings(selected, sensor)))) > 0.0
    ensures ErrorOfSlope(Points(Readings(selected, sensor)), Slope.SlopeOf(Points(Readings(selected, sensor))))
      <= Slope.SquaredError(Points(Readings(selected, sensor)), a, b)
  {
    ReadingsIncrease(selected, sensor);
    var ps := Points(Readings(selected, sensor));
    PointsIncrease(Readings(selected, sensor));
    Slope.DenominatorPositive(ps);
    Slope.SlopeIsLeastSquares(ps, a, b);
  }

  lemma SliceIncreases(samples: seq<Sample>, start: int, reference: int)
    requires Increasing(SampleClocks(samples))
    ensures Increasing(SampleClocks(WindowSlice(samples, start, reference)))
  {
    hide BisectLeftIn, BisectRightIn;
    var slice, clocks := WindowSlice(samples, start, reference), SampleClocks(samples);
    var left := BisectLeft(clocks, start);
    forall i, j | 0 <= i < j < |slice|
      ensures SampleClocks(slice)[i] < SampleClocks(slice)[j]
    {
      assert clocks[left + i] < clocks[left + j];
    }
  }

  /** The points that a stability window of a log fits its slope to. */
  function WindowPoints(samples: seq<Sample>, reference: int, notBefore: int, windowSeconds: real): seq<Slope.Point> {
    Points(Readings(WindowSlice(samples, WindowStart(reference, notBefore, windowSeconds), reference), StabilitySensor))
  }

  /** In a loaded log every stability window has a real least-squares slope: its denominator is
      positive, its slope per minute is 60 times the computed one, and no line fits its readings
      better. */
  lemma WindowSlopeIsLeastSquares<X>(log: Log<X>, reference: int, notBefore: int, windowSeconds: real, a: real, b: real)
    requires WellOrdered(log) && EvidenceWindow(log.samples, reference, notBefore, windowSeconds).Some?
    ensures var ps := WindowPoints(log.samples, reference, notBefore, windowSeconds);
      && |ps| >= 2
      && Slope.SquaresAround(ps, Slope.MeanX(ps)) > 0.0
      && EvidenceWindow(log.samples, reference, notBefore,
        windowSeconds).value.slopePerMinute == Product(Slope.SlopeOf(ps), 60.0)
      && ErrorOfSlope(ps, Slope.SlopeOf(ps)) <= Slope.SquaredError(ps, a, b)
  {
    hide WindowSlice, Readings, Slope.SlopeOf, Slope.SquaredError, Slope.SquaresAround, ErrorOfSlope, WindowStart;
    var start := WindowStart(reference, notBefore, windowSeconds);
    SliceIncreases(log.samples, start, reference);
    SelectedSlope(WindowSlice(log.samples, start, reference), StabilitySensor, a, b);
  }

  // ------------------------------------------------------------------
  // Whether a window passes
  // ------------------------------------------------------------------

  /** The verdict of the telemetry aggregator, which is not part of this model: its overall
      health and the largest safety temperature it saw. */
  datatype Aggregate = Aggregate(healthy: bool, safetyMaximum: Option<real>)

  /** What a replay reads: the log, the lock, and the aggregator's verdicts on intervals and on
      single samples of that log. */
  datatype Context<X> = Context(log: Log<X>, lock: Lock, aggregate: (int, int) -> Aggregate,
      pointHealthy: (int, int) -> bool)

  predicate WindowWithinLimits(w: Window, lock: Lock)
    requires lock.intervalMs > 0.0
  {
    && w.samples >= (lock.windowSeconds * 1000.0 / lock.intervalMs * lock.requiredFraction).Floor
    && w.spanSeconds >= lock.windowSeconds * 0.99
    && Abs(w.mean - lock.target) <= lock.tolerance
    && Abs(w.latest - lock.target) <= lock.tolerance
    && Abs(w.slopePerMinute) <= lock.maximumSlope
    && w.maximumGapNs as real <= lock.maximumGapMs * MILLISECOND_NS
  }

  /** The pass flag of `_thermal_window_evidence`. */
  predicate WindowPasses<X>(e: Context<X>, reference: int, notBefore: int)
    requires e.lock.intervalMs > 0.0
  {
    var w := EvidenceWindow(e.log.samples, reference, notBefore, e.lock.windowSeconds);
    var telemetry := e.aggregate(WindowStart(reference, notBefore, e.lock.windowSeconds), reference);
    && w.Some?
    && telemetry.healthy
    && telemetry.safetyMaximum.Some?
    && telemetry.safetyMaximum.value < e.lock.hardLimit
    && WindowWithinLimits(w.value, e.lock)
  }

  // ------------------------------------------------------------------
  // Healthy intervals
  // ------------------------------------------------------------------

  function Valid(samples: seq<Sample>): seq<Sample> {
    if samples == [] then [] else
      var front, last := Valid(samples[..|samples| - 1]), samples[|samples| - 1];
      if StructurallyValid(last) then front + [last] else front
  }

  function AtLeastOne(n: int): int { if n > 1 then n else 1 }

  /** The number of complete samples that an interval needs. */
  function RequiredSamples(lock: Lock, start: int, end: int): int
    requires lock.intervalMs > 0.0
  {
    var expected := ((end - start) as real / MILLISECOND_NS / lock.intervalMs).Floor;
    AtLeastOne((expected as real * lock.requiredFraction).Floor)
  }

  /** No sample reaches the hard limit. */
  predicate BelowLimit(samples: seq<Sample>, limit: real) {
    forall i :: 0 <= i < |samples| ==> samples[i].safety.Some? ==> samples[i].safety.value < limit
  }

  function GapLimit(lock: Lock): int { (lock.maximumGapMs * MILLISECOND_NS).Floor }

  /** `_healthy_interval` returns rather than raises. */
  predicate HealthyInterval(samples: seq<Sample>, lock: Lock, start: int, end: int)
    requires lock.intervalMs > 0.0
  {
    var selected := Select(samples, HalfOpen(start, end));
    var valid := Valid(selected);
    && start < end
    && |valid| >= RequiredSamples(lock, start, end)
    && Coverage.NoGapAbove(SampleClocks(valid), start, end, GapLimit(lock))
    && BelowLimit(selected, lock.hardLimit)
  }

  lemma {:induction false} ValidStayInside(samples: seq<Sample>, keep: int -> bool)
    requires Increasing(SampleClocks(samples))
    ensures Increasing(SampleClocks(Valid(Select(samples, keep))))
    ensures forall s :: s in Valid(Select(samples, keep)) ==>
      keep(s.ns) && samples != [] && s.ns <= samples[|samples| - 1].ns
    decreases |samples|
  {
    if samples != [] {
      var front, last := samples[..|samples| - 1], samples[|samples| - 1];
      FrontIncreases(samples);
      hide StructurallyValid;
      ValidStayInside(front, keep);
      if front != [] {
        assert SampleClocks(samples)[|front| - 1] < SampleClocks(samples)[|front|];
      }
      var before := Valid(Select(front, keep));
      ValidOfSnoc(Select(front, keep), last);
      assert forall i :: 0 <= i < |before| ==> before[i] in before;
    }
  }

  lemma ValidOfSnoc(xs: seq<Sample>, x: Sample)
    ensures Valid(xs + [x]) == if StructurallyValid(x) then Valid(xs) + [x] else Valid(xs)
  {
    assert (xs + [x])[..|xs|] == xs;
  }

  /** What a healthy interval means: it is not empty, enough complete samples lie in it, every
      closed stretch as long as the gap limit holds one of them, and no sample in it reaches the
      hard limit. */
  lemma HealthyIntervalExactly(samples: seq<Sample>, lock: Lock, start: int, end: int)
    requires lock.intervalMs > 0.0 && Increasing(SampleClocks(samples))
    ensures var selected := Select(samples, HalfOpen(start, end));
      HealthyInterval(samples, lock, start, end) <==>
        (start < end
        && |Valid(selected)| >= RequiredSamples(lock, start, end)
        && Coverage.Covers(SampleClocks(Valid(selected)), start, end, GapLimit(lock))
        && BelowLimit(selected, lock.hardLimit))
  {
    var valid := Valid(Select(samples, HalfOpen(start, end)));
    NeedsOne(lock, start, end);
    hide Coverage.Covers, Coverage.NoGapAbove, Select, Valid, StructurallyValid, RequiredSamples, GapLimit, BelowLimit;
    ValidStayInside(samples, HalfOpen(start, end));
    assert forall i :: 0 <= i < |valid| ==> valid[i] in valid;
    if |valid| >= RequiredSamples(lock, start, end) {
      Coverage.GapsBoundedIffCovered(SampleClocks(valid), start, end, GapLimit(lock));
    }
  }

  lemma NeedsOne(lock: Lock, start: int, end: int)
    requires lock.intervalMs > 0.0
    ensures RequiredSamples(lock, start, end) >= 1
  {
  }

  // ------------------------------------------------------------------
  // Causal qualification
  // ------------------------------------------------------------------

  datatype Failure = NoSample | Unhealthy | TooLate | Stale | OutsideBand | HardLimitReached | Incomplete

  /** What a causal qualification records about its sample. */
  datatype Outcome = Outcome(sampleNs: Option<int>, stability: Option<real>, safety: Option<real>,
      failure: Option<Failure>)

  /** `causal_qualification`: the sample it must have selected and the first check that fails. */
  function CausalOutcome<X>(e: Context<X>, reference: int, notBefore: int, firstAfterBoundary: bool): Outcome {
    var sample := CausalSample(e.log.samples, reference, notBefore, firstAfterBoundary);
    if sample.None? then Outcome(None, None, None, Some(NoSample)) else
      var s := sample.value;
      var maximumAge := e.lock.maximumGapMs * MILLISECOND_NS;
      var failure :=
        if !e.pointHealthy(s.ns, reference) then Some(Unhealthy)
        else if firstAfterBoundary && (s.ns - notBefore) as real > maximumAge then Some(TooLate)
        else if (reference - s.ns) as real > maximumAge then Some(Stale)
        else if s.stability.None? || Abs(s.stability.value - e.lock.target) > e.lock.tolerance then Some(OutsideBand)
        else if s.safety.None? || s.safety.value >= e.lock.hardLimit then Some(HardLimitReached)
        else None;
      Outcome(Some(s.ns), s.stability, s.safety, failure)
  }

  /** A qualification that passes rests on the first sample of the log after the boundary, which
      is fresh, in the band and below the hard limit. */
  lemma PassedQualificationIsCausal<X>(e: Context<X>, reference: int, notBefore: int)
    requires Increasing(SampleClocks(e.log.samples)) && notBefore < reference
    requires CausalOutcome(e, reference, notBefore, true).failure.None?
    ensures var kept := Select(e.log.samples, After(notBefore, reference));
      && kept != [] && CausalOutcome(e, reference, notBefore, true).sampleNs == Some(kept[0].ns)
      && kept[0].stability.Some? && Abs(kept[0].stability.value - e.lock.target) <= e.lock.tolerance
      && kept[0].safety.Some? && kept[0].safety.value < e.lock.hardLimit
      && (kept[0].ns - notBefore) as real <= e.lock.maximumGapMs * MILLISECOND_NS
      && (reference - kept[0].ns) as real <= e.lock.maximumGapMs * MILLISECOND_NS
  {
    CausalSampleIsExtreme(e.log.samples, reference, notBefore, true);
  }

  // ------------------------------------------------------------------
  // What a marker replay asks of the log
  // ------------------------------------------------------------------

  /** The markers of a log, the four questions a marker replay asks about its samples (the
      stability window at a clock, whether that window passes, whether an interval is healthy,
      and what a causal qualification finds), the age at which a sample is stale, and the label
      that names a thermal attempt.  The marker replays are proved for any answers. */
  datatype Evidence<X, !K> = Evidence(
    markers: seq<Marker<X>>, window: (int, int) -> Option<Window>, stable: (int, int) -> bool,
    healthy: (int, int) -> bool, causal: (int, int, bool) -> Outcome, staleNs: int, tag: K -> string)

  /** The answers that `TelemetryReplay` gives. */
  function EvidenceOf<X, K>(e: Context<X>, tag: K -> string): Evidence<X, K>
    requires e.lock.intervalMs > 0.0
  {
    Evidence(
      e.log.markers,
      (reference: int, notBefore: int) => EvidenceWindow(e.log.samples, reference, notBefore, e.lock.windowSeconds),
      (reference: int, notBefore: int) => WindowPasses(e, reference, notBefore),
      (start: int, end: int) => HealthyInterval(e.log.samples, e.lock, start, end),
      (reference: int, notBefore: int, first: bool) => CausalOutcome(e, reference, notBefore, first),
      GapLimit(e.lock),
      tag)
  }
}
