/** The samples of the two example logs: a board that stays at 50 and 40 degrees. */
module ExampleSamples {
  import opened Arithmetic
  import opened Common
  import opened Telemetry
  import opened Windows
  import opened ThermalWindow
  import opened DeadlineWindow
  import Coverage
  import Slope

  const HALF: int := 500000000
  const BOUNDARY: int := 3000000010
  const PERIOD: int := 4000000000

  /** When the first or second heating begins. */
  function Base(t: nat): int { PERIOD * t }

  /** The nine samples around one heating: one after its start, one every half second, one after its
      boundary and one inside the measurement. */
  function LocalNs(j: nat): int {
    if j == 0 then 40 else if j < 7 then HALF * j else if j == 7 then BOUNDARY + 15 else BOUNDARY + 75
  }

  /** The samples of two heatings. */
  function SampleNs(k: nat): int { if k < 9 then LocalNs(k) else Base(1) + LocalNs(k - 9) }

  function Steady(ns: int): Sample { Sample(ns, Some(50.0), Some(40.0), true) }

  function Samples(): (samples: seq<Sample>)
    ensures |samples| == 18 && forall k :: 0 <= k < 18 ==> samples[k] == Steady(SampleNs(k))
  {
    seq(18, k requires 0 <= k < 18 => Steady(SampleNs(k)))
  }

  /** Windows of half a second with a sample at least every half second, around 50 degrees. */
  const LOCK := Lock(0.5, 500.0, 1.0, 500.0, 80.0, 50.0, 1.0, 1.0)

  /** The log and its lock, with an aggregator that reports what the samples say. */
  function Observed<X>(markers: seq<Marker<X>>): Context<X> {
    Context(Log(Samples(), markers), LOCK, (start: int, end: int) => Aggregate(true, Some(40.0)),
      (ns: int, reference: int) => true)
  }

  lemma SamplesIncrease()
    ensures Increasing(SampleClocks(Samples()))
  {
  }

  /** What a filter keeps of the log. */
  lemma Kept(keep: int -> bool, l: nat, r: nat)
    requires l <= r <= 18 && forall k :: 0 <= k < 18 ==> (keep(SampleNs(k)) <==> l <= k < r)
    ensures Select(Samples(), keep) == Samples()[l..r]
  {
    hide SampleNs, Select;
    SelectIsSlice(Samples(), keep, l, r);
  }

  // ------------------------------------------------------------------
  // Statistics of steady samples
  // ------------------------------------------------------------------

  ghost predicate AllSteady(xs: seq<Sample>) { forall i :: 0 <= i < |xs| ==> xs[i] == Steady(xs[i].ns) }

  function Level(sensor: Sensor): real { if sensor.StabilitySensor? then 50.0 else 40.0 }

  lemma {:induction false} SteadyReadings(xs: seq<Sample>, sensor: Sensor)
    requires AllSteady(xs)
    ensures |Readings(xs, sensor)| == |xs|
    ensures forall i :: 0 <= i < |xs| ==> Readings(xs, sensor)[i] == Reading(xs[i].ns, Level(sensor))
    decreases |xs|
  {
    if xs != [] {
      SteadyReadings(xs[..|xs| - 1], sensor);
    }
  }

  lemma {:induction false} SteadyValid(xs: seq<Sample>)
    requires AllSteady(xs)
    ensures Valid(xs) == xs
    decreases |xs|
  {
    if xs != [] {
      SteadyValid(xs[..|xs| - 1]);
    }
  }

  lemma {:induction false} LevelSum(ps: seq<Slope.Point>, y: real)
    requires forall i :: 0 <= i < |ps| ==> ps[i].y == y
    ensures Slope.SumY(ps) == Product(|ps| as real, y)
    decreases |ps|
  {
    if ps != [] {
      LevelSum(ps[..|ps| - 1], y);
      Slope.OneMore(|ps| - 1, y);
    }
  }

  lemma SameQuotient(mean: real, n: real, y: real)
    requires n > 0.0 && Product(mean, n) == Product(n, y)
    ensures mean == y
  {
    assert (mean - y) * n == 0.0;
  }

  lemma {:induction false} LevelMean(ps: seq<Slope.Point>, y: real)
    requires ps != [] && forall i :: 0 <= i < |ps| ==> ps[i].y == y
    ensures Slope.MeanY(ps) == y
  {
    LevelSum(ps, y);
    hide Product, Slope.SumY;
    SameQuotient(Slope.MeanY(ps), |ps| as real, y);
  }

  lemma {:induction false} LevelSlope(ps: seq<Slope.Point>, y: real)
    requires |ps| >= 2 && Slope.TimesIncrease(ps) && forall i :: 0 <= i < |ps| ==> ps[i].y == y
    ensures Slope.SlopeOf(ps) == 0.0
  {
    hide Slope.SlopeOf;
    assert Slope.PairSlopesAtLeast(ps, 0.0) && Slope.PairSlopesAtMost(ps, 0.0);
    Slope.SlopeBetweenPairSlopes(ps, 0.0, 0.0);
  }

  lemma {:induction false} LevelGreatest(rs: seq<Reading>, y: real)
    requires rs != [] && forall i :: 0 <= i < |rs| ==> rs[i].value == y
    ensures Greatest(rs) == y
    decreases |rs|
  {
    if |rs| > 1 {
      LevelGreatest(rs[..|rs| - 1], y);
    }
  }

  lemma WindowParts(xs: seq<Sample>, rs: seq<Reading>, sensor: Sensor, start: int, end: int)
    requires rs == Readings(xs, sensor) && |rs| >= 2
    ensures var w := WindowOf(xs, sensor, start, end); var points := Points(rs);
      && w.Some? && w.value.samples == |rs| && w.value.spanSeconds == points[|rs| - 1].x - points[0].x
      && w.value.mean == Slope.MeanY(points) && w.value.latest == rs[|rs| - 1].value && w.value.greatest == Greatest(rs)
      && w.value.slopePerMinute == Product(Slope.SlopeOf(points), 60.0)
      && Some(w.value.maximumGapNs) == Coverage.MaximumGap(ReadingClocks(rs), start, end)
  {
    hide Slope.SlopeOf, Slope.MeanY, Greatest, Least, Readings, Coverage.Largest, Product;
  }

  lemma {:induction false} LevelPoints(rs: seq<Reading>, y: real)
    requires |rs| >= 2 && Increasing(ReadingClocks(rs)) && forall i :: 0 <= i < |rs| ==> rs[i].value == y
    ensures Slope.MeanY(Points(rs)) == y && Slope.SlopeOf(Points(rs)) == 0.0 && Greatest(rs) == y
  {
    hide Slope.SlopeOf, Slope.MeanY, Greatest;
    PointsIncrease(rs);
    LevelSlope(Points(rs), y);
    LevelMean(Points(rs), y);
    LevelGreatest(rs, y);
  }

  lemma SpanOf(rs: seq<Reading>)
    requires |rs| >= 2
    ensures Points(rs)[|rs| - 1].x - Points(rs)[0].x == (rs[|rs| - 1].ns - rs[0].ns) as real / SECOND_NS
  {
  }

  lemma NoSlope(slope: real)
    requires slope == 0.0
    ensures Product(slope, 60.0) == 0.0
  {
  }

  /** The statistics of a window of steady samples. */
  lemma SteadyWindow(l: nat, r: nat, sensor: Sensor, start: int, end: int)
    requires l + 2 <= r <= 18
    ensures var xs := Samples()[l..r]; var w := WindowOf(xs, sensor, start, end);
      && w.Some? && w.value.samples == r - l
      && w.value.spanSeconds == (SampleNs(r - 1) - SampleNs(l)) as real / SECOND_NS
      && w.value.mean == w.value.latest == w.value.greatest == Level(sensor) && w.value.slopePerMinute == 0.0
      && Some(w.value.maximumGapNs) == Coverage.MaximumGap(SampleClocks(xs), start, end)
  {
    hide WindowOf, Slope.SlopeOf, Slope.MeanY, Greatest, Readings, SampleNs, Coverage.MaximumGap, Points, Product;
    hide Level;
    var xs := Samples()[l..r];
    var rs := Readings(xs, sensor);
    LaterSamples(l, r);
    SteadyReadings(xs, sensor);
    assert ReadingClocks(rs) == SampleClocks(xs);
    LevelPoints(rs, Level(sensor));
    SpanOf(rs);
    NoSlope(Slope.SlopeOf(Points(rs)));
    WindowParts(xs, rs, sensor, start, end);
  }

  lemma LaterSamples(l: nat, r: nat)
    requires l <= r <= 18
    ensures Increasing(SampleClocks(Samples()[l..r]))
  {
  }

  // ------------------------------------------------------------------
  // The stability windows
  // ------------------------------------------------------------------

  /** The end of the stability window of check `i`. */
  function WindowEnd(t: nat, i: nat): int { Base(t) + 2 * HALF * i }

  /** The two samples of a stability window that ends on a full second. */
  lemma WindowKept(t: nat, i: nat)
    requires t < 2 && 1 <= i <= 3
    ensures var end, l := WindowEnd(t, i), 9 * t + 2 * i - 1;
      && WindowStart(end, Base(t) + 30, 0.5) == end - HALF
      && Select(Samples(), Closed(end - HALF, end)) == Samples()[l..l + 2]
      && Coverage.MaximumGap(SampleClocks(Samples()[l..l + 2]), end - HALF, end) == Some(HALF)
  {
    var end, l := WindowEnd(t, i), 9 * t + 2 * i - 1;
    Kept(Closed(end - HALF, end), l, l + 2);
    assert SampleClocks(Samples()[l..l + 2]) == [end - HALF, end];
    TwoClocks(end - HALF, end);
  }

  lemma TwoClocks(a: int, b: int)
    requires a <= b
    ensures Coverage.MaximumGap([a, b], a, b) == Some(b - a)
  {
    var gaps := Coverage.AllGaps([a, b], a, b);
    assert gaps == [0, 0, b - a];
    assert gaps[..2] == [0, 0] && gaps[..2][..1] == [0];
    assert Coverage.Largest([0]) == 0 && Coverage.Largest([0, 0]) == 0;
  }

  lemma LockNumbers()
    ensures GapLimit(LOCK) == HALF && LOCK.intervalMs > 0.0
    ensures (LOCK.windowSeconds * 1000.0 / LOCK.intervalMs * LOCK.requiredFraction).Floor == 1
    ensures Required(LOCK, LOCK.windowSeconds) == 1
  {
  }

  /** The guard's windows are there and pass. */
  lemma WindowsPass<X>(markers: seq<Marker<X>>, t: nat, i: nat)
    requires t < 2 && 1 <= i <= 3
    ensures WindowPasses(Observed(markers), WindowEnd(t, i), Base(t) + 30)
  {
    hide Select, WindowOf, Coverage.MaximumGap, Samples, SampleNs, WindowStart, WindowSlice, WindowEnd;
    LockNumbers();
    SamplesIncrease();
    WindowKept(t, i);
    var end, l := WindowEnd(t, i), 9 * t + 2 * i - 1;
    SliceIsFilter(Samples(), end - HALF, end);
    SteadyWindow(l, l + 2, StabilitySensor, end - HALF, end);
    HalfSecond(t, i);
  }

  lemma HalfSecond(t: nat, i: nat)
    requires t < 2 && 1 <= i <= 3
    ensures (SampleNs(9 * t + 2 * i) - SampleNs(9 * t + 2 * i - 1)) as real / SECOND_NS == 0.5
  {
  }

  // ------------------------------------------------------------------
  // Healthy intervals
  // ------------------------------------------------------------------

  lemma SamplesSteady(l: nat, r: nat)
    requires l <= r <= 18
    ensures AllSteady(Samples()[l..r]) && Valid(Samples()[l..r]) == Samples()[l..r] && BelowLimit(Samples()[l..r], 80.0)
  {
    SteadyValid(Samples()[l..r]);
    hide Valid, SampleNs;
  }

  /** Both heatings are watched closely enough. */
  lemma HeatingsHealthy(t: nat)
    requires t < 2
    ensures HealthyInterval(Samples(), LOCK, Base(t) + 30, Base(t) + BOUNDARY)
  {
    hide Select, Valid, BelowLimit, RequiredSamples, GapLimit, Base, SampleNs, Coverage.NoGapAbove;
    LockNumbers();
    HeatingKept(t);
    SamplesSteady(9 * t, 9 * t + 7);
    EnoughSamples(t);
    HeatingGaps(t);
  }

  lemma HeatingKept(t: nat)
    requires t < 2
    ensures Select(Samples(), HalfOpen(Base(t) + 30, Base(t) + BOUNDARY)) == Samples()[9 * t..9 * t + 7]
  {
    Kept(HalfOpen(Base(t) + 30, Base(t) + BOUNDARY), 9 * t, 9 * t + 7);
  }

  lemma EnoughSamples(t: nat)
    requires t < 2
    ensures Base(t) + 30 < Base(t) + BOUNDARY && RequiredSamples(LOCK, Base(t) + 30, Base(t) + BOUNDARY) <= 7
  {
  }

  lemma HeatingGaps(t: nat)
    requires t < 2
    ensures Coverage.NoGapAbove(SampleClocks(Samples()[9 * t..9 * t + 7]), Base(t) + 30, Base(t) + BOUNDARY, HALF)
  {
    var clocks := SampleClocks(Samples()[9 * t..9 * t + 7]);
    assert forall j :: 0 <= j < 7 ==> clocks[j] == Base(t) + LocalNs(j);
  }

  /** So is the measurement after the second one. */
  lemma MeasurementHealthy()
    ensures HealthyInterval(Samples(), LOCK, Base(1) + BOUNDARY + 70, Base(1) + BOUNDARY + 80)
  {
    hide Select, Valid, BelowLimit, GapLimit;
    LockNumbers();
    Kept(HalfOpen(Base(1) + BOUNDARY + 70, Base(1) + BOUNDARY + 80), 17, 18);
    SamplesSteady(17, 18);
    assert SampleClocks(Samples()[17..18]) == [Base(1) + BOUNDARY + 75];
  }

  // ------------------------------------------------------------------
  // Causal qualifications
  // ------------------------------------------------------------------

  /** What the sample after a boundary gives. */
  function Passing(t: nat): Outcome { Outcome(Some(Base(t) + BOUNDARY + 15), Some(50.0), Some(40.0), None) }

  /** What a qualification before that sample gives. */
  const TOO_EARLY := Outcome(None, None, None, Some(NoSample))

  lemma AfterBoundary(t: nat, reference: int)
    requires t < 2 && Base(t) + BOUNDARY + 10 < reference < Base(t) + BOUNDARY + 75
    ensures Select(Samples(), After(Base(t) + BOUNDARY + 10, reference))
      == if reference < Base(t) + BOUNDARY + 15 then [] else [Steady(Base(t) + BOUNDARY + 15)]
  {
    var k := 9 * t + 7;
    Kept(After(Base(t) + BOUNDARY + 10, reference), k, if reference < Base(t) + BOUNDARY + 15 then k else k + 1);
    assert Samples()[k..k + 1] == [Samples()[k]] && Samples()[k..k] == [];
  }

  lemma Qualifications<X>(markers: seq<Marker<X>>, t: nat, reference: int, first: bool)
    requires t < 2 && Base(t) + BOUNDARY + 10 < reference < Base(t) + BOUNDARY + 75
    ensures var outcome := if reference < Base(t) + BOUNDARY + 15 then TOO_EARLY else Passing(t);
      && CausalOutcome(Observed(markers), reference, Base(t) + BOUNDARY + 10, first) == outcome
      && DeadlineOutcome(Observed(markers), reference, Base(t) + BOUNDARY + 10, first) == outcome
  {
    hide Select, Samples, SampleNs, CausalSample, Base;
    SamplesIncrease();
    AfterBoundary(t, reference);
    CausalSampleIsExtreme(Samples(), reference, Base(t) + BOUNDARY + 10, first);
  }

  // ------------------------------------------------------------------
  // The deadline freezer's windows
  // ------------------------------------------------------------------

  lemma RawWindowsStable(i: nat)
    requires 1 <= i <= 3
    ensures SampleAt(Samples(), WindowEnd(0, i))
    ensures var w := RawWindow(Samples(), LOCK, WindowEnd(0, i), 30, 0.5, true); w.Some? && EnvelopeStable(w.value,
      LOCK)
  {
    hide Select, WindowOf, Coverage.MaximumGap, WindowStart, Required;
    LockNumbers();
    assert Samples()[2 * i].ns == WindowEnd(0, i);
    WindowKept(0, i);
    SamplesSteady(2 * i - 1, 2 * i + 1);
    SteadyWindow(2 * i - 1, 2 * i + 1, StabilitySensor, WindowEnd(0, i) - HALF, WindowEnd(0, i));
    SteadyWindow(2 * i - 1, 2 * i + 1, SafetySensor, WindowEnd(0, i) - HALF, WindowEnd(0, i));
    HalfSecond(0, i);
    hide Samples, SampleNs;
  }

  lemma HeatingWindow()
    ensures WindowStart(BOUNDARY, 30, Duration(30, BOUNDARY)) == 30
    ensures Coverage.MaximumGap(SampleClocks(Samples()[0..7]), 30, BOUNDARY).Some?
    ensures Coverage.MaximumGap(SampleClocks(Samples()[0..7]), 30, BOUNDARY).value <= HALF
    ensures Required(LOCK, Duration(30, BOUNDARY)) <= 7
    ensures (SampleNs(6) - SampleNs(0)) as real / SECOND_NS >= Duration(30, BOUNDARY) * 0.99
    ensures Duration(30, BOUNDARY) >= LOCK.windowSeconds * 0.99
  {
    HeatingGaps(0);
    Coverage.GapFormsAgree(SampleClocks(Samples()[0..7]), 30, BOUNDARY, HALF);
    hide Coverage.MaximumGap, Coverage.NoGapAbove, Samples;
  }

  /** The deadline freezer finds the heating healthy. */
  lemma HeatingHealthy()
    ensures RawWindow(Samples(), LOCK, BOUNDARY, 30, Duration(30, BOUNDARY), false).Some?
  {
    hide Select, WindowOf, Coverage.MaximumGap, WindowStart, Required, Duration;
    LockNumbers();
    HeatingWindow();
    HeatingKept(0);
    SamplesSteady(0, 7);
    SteadyWindow(0, 7, StabilitySensor, 30, BOUNDARY);
    SteadyWindow(0, 7, SafetySensor, 30, BOUNDARY);
    hide Samples, SampleNs;
  }
}
