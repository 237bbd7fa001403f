/** What the thermal windows, healthy intervals and causal samples are, said of the samples of the
    log themselves (analysis/freeze_p9_guard.py:999-1053, 1055-1230, 1282-1472;
    analysis/freeze_p9_thermal.py:195-340; analysis/freeze_p9_deadline.py:577-723, 1520-1625). */
module WindowReadings {
  import opened Arithmetic
  import opened Common
  import opened Telemetry
  import opened Windows
  import opened ThermalWindow
  import opened DeadlineWindow
  import Coverage
  import Slope

  // ------------------------------------------------------------------
  // The readings of a stretch of the log
  // ------------------------------------------------------------------

  /** A sample of the log reads `r.value` on the sensor at `r.ns`. */
  ghost predicate Read(samples: seq<Sample>, sensor: Sensor, r: Reading) {
    exists k :: 0 <= k < |samples| && samples[k].ns == r.ns
      && if sensor == StabilitySensor then samples[k].stability == Some(r.value) else samples[k].safety == Some(r.value)
  }

  /** `rs` are the finite readings of the sensor at the clocks `wanted`, in order: all of them, and
      nothing else. */
  ghost predicate AllReadings(rs: seq<Reading>, samples: seq<Sample>, sensor: Sensor, wanted: int -> bool) {
    && (forall i, j :: 0 <= i < j < |rs| ==> rs[i].ns < rs[j].ns)
    && forall r: Reading :: r in rs <==> wanted(r.ns) && Read(samples, sensor, r)
  }

  /** From the last `window` nanoseconds before `reference`, but nothing before `notBefore`. */
  function Recent(reference: int, notBefore: int, window: int): int -> bool {
    (ns: int) => notBefore <= ns <= reference && reference - ns <= window
  }

  function Later(a: int, b: int): int { if a >= b then a else b }

  lemma ReadMore(samples: seq<Sample>, sensor: Sensor, r: Reading)
    requires samples != []
    ensures var front, last := samples[..|samples| - 1], samples[|samples| - 1];
      Read(samples, sensor, r) <==> Read(front, sensor, r) || (last.ns == r.ns && Value(last, sensor) == Some(r.value))
  {
    var front, n := samples[..|samples| - 1], |samples| - 1;
    assert forall k :: 0 <= k < n ==> front[k] == samples[k];
    if Read(front, sensor, r) {
      var k :| 0 <= k < n && front[k].ns == r.ns && if sensor == StabilitySensor then front[k].stability == Some(
        r.value) else front[k].safety == Some(r.value);
      assert samples[k].ns == r.ns;
    }
    if samples[n].ns == r.ns && Value(samples[n], sensor) == Some(r.value) {
      assert samples[n].ns == r.ns;
    }
  }

  /** The readings of the samples that a filter keeps. */
  lemma {:induction false} SelectedReadings(samples: seq<Sample>, keep: int -> bool, sensor: Sensor)
    requires Increasing(SampleClocks(samples))
    ensures AllReadings(Readings(Select(samples, keep), sensor), samples, sensor, keep)
    decreases |samples|
  {
    hide Read, Value, Readings, Select;
    SelectLast(samples, keep);
    if samples == [] {
      NothingRead(sensor, keep);
    } else {
      var front, last := samples[..|samples| - 1], samples[|samples| - 1];
      FrontIncreases(samples);
      SelectedReadings(front, keep, sensor);
      var kept := Select(samples, keep);
      if keep(last.ns) {
        OneMoreReading(kept, sensor);
        assert kept[..|kept| - 1] == Select(front, keep);
      }
      AddReading(Readings(Select(front, keep), sensor), samples, sensor, keep);
    }
  }

  lemma NothingRead(sensor: Sensor, keep: int -> bool)
    ensures AllReadings(Readings(Select([], keep), sensor), [], sensor, keep)
  {
  }

  lemma AddReading(rs: seq<Reading>, samples: seq<Sample>, sensor: Sensor, keep: int -> bool)
    requires samples != [] && Increasing(SampleClocks(samples))
    requires AllReadings(rs, samples[..|samples| - 1], sensor, keep)
    ensures var last := samples[|samples| - 1];
      AllReadings(if keep(last.ns) && Value(last, sensor).Some? then rs + [Reading(last.ns, Value(last, sensor).value)]
        else rs, samples, sensor, keep)
  {
    hide Value;
    var front, last := samples[..|samples| - 1], samples[|samples| - 1];
    forall i | 0 <= i < |rs|
      ensures rs[i].ns < last.ns
    {
      assert rs[i] in rs;
      var k :| 0 <= k < |front| && front[k].ns == rs[i].ns;
      assert SampleClocks(samples)[k] < SampleClocks(samples)[|front|];
    }
    hide Read;
    forall r: Reading
      ensures Read(samples, sensor, r) <==>
        Read(front, sensor, r) || (last.ns == r.ns && Value(last, sensor) == Some(r.value))
    {
      ReadMore(samples, sensor, r);
    }
  }

  // ------------------------------------------------------------------
  // The statistics of a window
  // ------------------------------------------------------------------

  function SumOf(rs: seq<Reading>): real {
    if rs == [] then 0.0 else SumOf(rs[..|rs| - 1]) + rs[|rs| - 1].value
  }

  ghost predicate IsLeast(x: real, rs: seq<Reading>) {
    (exists i :: 0 <= i < |rs| && rs[i].value == x) && forall i :: 0 <= i < |rs| ==> x <= rs[i].value
  }

  ghost predicate IsGreatest(x: real, rs: seq<Reading>) {
    (exists i :: 0 <= i < |rs| && rs[i].value == x) && forall i :: 0 <= i < |rs| ==> rs[i].value <= x
  }

  /** No gap before, between or after the readings is longer than `limit`. */
  ghost predicate GapsWithin(limit: int, rs: seq<Reading>, opens: int, closes: int)
    requires rs != []
  {
    && rs[0].ns - opens <= limit && closes - rs[|rs| - 1].ns <= limit
    && forall i :: 0 < i < |rs| ==> rs[i].ns - rs[i - 1].ns <= limit
  }

  /** `gap` is the longest of those gaps. */
  ghost predicate IsLargestGap(gap: int, rs: seq<Reading>, opens: int, closes: int)
    requires rs != []
  {
    GapsWithin(gap, rs, opens, closes) && forall limit :: GapsWithin(limit, rs, opens, closes) ==> gap <= limit
  }

  /** The statistics are those of the readings, in a window that opens and closes at these clocks. */
  ghost predicate Summarizes(w: Window, rs: seq<Reading>, opens: int, closes: int)
    requires |rs| >= 2
  {
    && w.samples == |rs|
    && w.spanSeconds == (rs[|rs| - 1].ns - rs[0].ns) as real / 1000000000.0
    && Product(w.mean, |rs| as real) == SumOf(rs)
    && w.latest == rs[|rs| - 1].value
    && IsLeast(w.least, rs) && IsGreatest(w.greatest, rs)
    && IsLargestGap(w.maximumGapNs, rs, opens, closes)
    && w.slopePerMinute == Product(Slope.SlopeOf(Points(rs)), 60.0)
  }

  lemma {:induction false} LeastIsLeast(rs: seq<Reading>)
    requires rs != []
    ensures IsLeast(Least(rs), rs)
    decreases |rs|
  {
    if |rs| > 1 {
      var front := rs[..|rs| - 1];
      LeastIsLeast(front);
      var i :| 0 <= i < |front| && front[i].value == Least(front);
      assert rs[i].value == Least(front);
    }
  }

  lemma {:induction false} GreatestIsGreatest(rs: seq<Reading>)
    requires rs != []
    ensures IsGreatest(Greatest(rs), rs)
    decreases |rs|
  {
    if |rs| > 1 {
      var front := rs[..|rs| - 1];
      GreatestIsGreatest(front);
      var i :| 0 <= i < |front| && front[i].value == Greatest(front);
      assert rs[i].value == Greatest(front);
    }
  }

  lemma {:induction false} SumOfPoints(rs: seq<Reading>, ps: seq<Slope.Point>)
    requires |rs| == |ps| && forall i :: 0 <= i < |rs| ==> ps[i].y == rs[i].value
    ensures Slope.SumY(ps) == SumOf(rs)
    decreases |rs|
  {
    if rs != [] {
      SumOfPoints(rs[..|rs| - 1], ps[..|ps| - 1]);
    }
  }

  lemma GapsAreNoGap(limit: int, rs: seq<Reading>, opens: int, closes: int)
    requires rs != []
    ensures GapsWithin(limit, rs, opens, closes) <==> Coverage.NoGapAbove(ReadingClocks(rs), opens, closes, limit)
  {
    if GapsWithin(limit, rs, opens, closes) {
      forall i | 0 <= i < |rs| - 1
        ensures ReadingClocks(rs)[i + 1] - ReadingClocks(rs)[i] <= limit
      {
        assert rs[i + 1].ns - rs[i + 1 - 1].ns <= limit;
      }
    }
    if Coverage.NoGapAbove(ReadingClocks(rs), opens, closes, limit) {
      forall i | 0 < i < |rs|
        ensures rs[i].ns - rs[i - 1].ns <= limit
      {
        assert ReadingClocks(rs)[i - 1 + 1] - ReadingClocks(rs)[i - 1] <= limit;
      }
    }
  }

  lemma MaximumGapIsLargest(rs: seq<Reading>, opens: int, closes: int)
    requires rs != []
    ensures Coverage.MaximumGap(ReadingClocks(rs), opens, closes).Some?
    ensures IsLargestGap(Coverage.MaximumGap(ReadingClocks(rs), opens, closes).value, rs, opens, closes)
  {
    hide GapsWithin, Coverage.Largest;
    var gap := Coverage.MaximumGap(ReadingClocks(rs), opens, closes).value;
    hide Coverage.MaximumGap, Coverage.NoGapAbove;
    GapsAreNoGap(gap, rs, opens, closes);
    Coverage.GapFormsAgree(ReadingClocks(rs), opens, closes, gap);
    forall limit | GapsWithin(limit, rs, opens, closes)
      ensures gap <= limit
    {
      GapsAreNoGap(limit, rs, opens, closes);
      Coverage.GapFormsAgree(ReadingClocks(rs), opens, closes, limit);
    }
  }

  /** The statistics of a window are those of its readings. */
  lemma WindowOfReadings(selected: seq<Sample>, sensor: Sensor, opens: int, closes: int, rs: seq<Reading>)
    requires rs == Readings(selected, sensor)
    ensures WindowOf(selected, sensor, opens, closes).Some? <==> |rs| >= 2
    ensures |rs| >= 2 ==> Summarizes(WindowOf(selected, sensor, opens, closes).value, rs, opens, closes)
  {
    hide Slope.SlopeOf, Slope.SumY, Greatest, Least, Readings, Coverage.MaximumGap, Product, IsLeast, IsGreatest;
    hide IsLargestGap, SumOf;
    if |rs| >= 2 {
      LeastIsLeast(rs);
      GreatestIsGreatest(rs);
      SumOfPoints(rs, Points(rs));
      MaximumGapIsLargest(rs, opens, closes);
    }
  }

  lemma SameWanted(rs: seq<Reading>, samples: seq<Sample>, sensor: Sensor, keep: int -> bool, wanted: int -> bool)
    requires AllReadings(rs, samples, sensor, keep) && forall ns: int :: keep(ns) <==> wanted(ns)
    ensures AllReadings(rs, samples, sensor, wanted)
  {
    hide Read;
  }

  lemma StartIsLater(reference: int, notBefore: int, windowSeconds: real, window: int)
    requires window == (windowSeconds * 1000000000.0).Floor
    ensures WindowStart(reference, notBefore, windowSeconds) == Later(notBefore, reference - window)
    ensures forall ns: int :: Closed(WindowStart(reference, notBefore, windowSeconds), reference)(ns) <==>
      Recent(reference, notBefore, window)(ns)
  {
  }

  lemma ShortSpan(a: int, b: int)
    ensures a <= b ==> a as real / 1000000000.0 <= b as real / 1000000000.0
  {
  }

  lemma ShortWindow(a: int, seconds: real)
    ensures a <= (seconds * 1000000000.0).Floor ==> a as real / 1000000000.0 <= seconds
  {
  }

  /** Readings from a stretch span no more than the stretch. */
  lemma RecentSpan(rs: seq<Reading>, samples: seq<Sample>, sensor: Sensor, reference: int, notBefore: int,
      windowSeconds: real)
    requires AllReadings(rs, samples, sensor, Recent(reference, notBefore, (windowSeconds * 1000000000.0).Floor))
    requires |rs| >= 2
    ensures (rs[|rs| - 1].ns - rs[0].ns) as real / 1000000000.0 <= (reference - notBefore) as real / 1000000000.0
    ensures (rs[|rs| - 1].ns - rs[0].ns) as real / 1000000000.0 <= windowSeconds
  {
    hide Read;
    assert rs[0] in rs && rs[|rs| - 1] in rs;
    ShortSpan(rs[|rs| - 1].ns - rs[0].ns, reference - notBefore);
    ShortWindow(rs[|rs| - 1].ns - rs[0].ns, windowSeconds);
  }

  /** The stability window at a clock sums up the finite readings of the last `windowSeconds` before
      it, none of them from before `notBefore`: a window that begins inside them is measured from
      `notBefore`, so its span is never longer than the time since. */
  lemma WindowExactly(samples: seq<Sample>, sensor: Sensor, reference: int, notBefore: int, windowSeconds: real)
    returns (rs: seq<Reading>)
    requires Increasing(SampleClocks(samples)) && notBefore < reference && windowSeconds > 0.0
    ensures var window := (windowSeconds * 1000000000.0).Floor;
      && AllReadings(rs, samples, sensor, Recent(reference, notBefore, window))
      && var w := WindowFromRaw(samples, sensor, reference, notBefore, windowSeconds);
      && (w.Some? <==> |rs| >= 2)
      && (w.Some? ==> Summarizes(w.value, rs, Later(notBefore, reference - window), reference))
      && (w.Some? ==> w.value.spanSeconds <= (reference - notBefore) as real / 1000000000.0)
      && (w.Some? ==> w.value.spanSeconds <= windowSeconds)
  {
    hide Readings, Select, Read, WindowOf, Summarizes, AllReadings, WindowStart, Closed, Recent;
    var start, window := WindowStart(reference, notBefore, windowSeconds), (windowSeconds * 1000000000.0).Floor;
    StartIsLater(reference, notBefore, windowSeconds, window);
    SelectedReadings(samples, Closed(start, reference), sensor);
    rs := Readings(Select(samples, Closed(start, reference)), sensor);
    SameWanted(rs, samples, sensor, Closed(start, reference), Recent(reference, notBefore, window));
    WindowOfReadings(Select(samples, Closed(start, reference)), sensor, start, reference, rs);
    if |rs| >= 2 {
      RecentSpan(rs, samples, sensor, reference, notBefore, windowSeconds);
      SpanOfSummary(WindowFromRaw(samples, sensor, reference, notBefore, windowSeconds).value, rs, start, reference);
    }
  }

  lemma SpanOfSummary(w: Window, rs: seq<Reading>, opens: int, closes: int)
    requires |rs| >= 2 && Summarizes(w, rs, opens, closes)
    ensures w.spanSeconds == (rs[|rs| - 1].ns - rs[0].ns) as real / 1000000000.0
  {
    hide IsLeast, IsGreatest, IsLargestGap, SumOf, Slope.SlopeOf, Points, Product;
  }

  /** The guard freezer's sliced window is the same. */
  lemma EvidenceWindowExactly(samples: seq<Sample>, reference: int, notBefore: int, windowSeconds: real)
    returns (rs: seq<Reading>)
    requires Increasing(SampleClocks(samples)) && notBefore < reference && windowSeconds > 0.0
    ensures var window := (windowSeconds * 1000000000.0).Floor;
      && AllReadings(rs, samples, StabilitySensor, Recent(reference, notBefore, window))
      && var w := EvidenceWindow(samples, reference, notBefore, windowSeconds);
      && (w.Some? <==> |rs| >= 2)
      && (w.Some? ==> Summarizes(w.value, rs, Later(notBefore, reference - window), reference))
      && (w.Some? ==> w.value.spanSeconds <= (reference - notBefore) as real / 1000000000.0)
      && (w.Some? ==> w.value.spanSeconds <= windowSeconds)
  {
    hide WindowFromRaw, EvidenceWindow, Summarizes, AllReadings;
    WindowsAgree(samples, reference, notBefore, windowSeconds);
    rs := WindowExactly(samples, StabilitySensor, reference, notBefore, windowSeconds);
  }

  // ------------------------------------------------------------------
  // Enough samples
  // ------------------------------------------------------------------

  /** `whole` whole intervals fit into a stretch of `length`. */
  ghost predicate FitWhole(whole: int, length: real, interval: real) {
    Product(whole as real, interval) <= length < Product((whole + 1) as real, interval)
  }

  lemma FitsExactly(whole: int, length: real, interval: real)
    requires interval > 0.0
    ensures FitWhole(whole, length, interval) <==> whole == (length / interval).Floor
  {
    var ratio := Ratio(length, interval);
    ProductOrder(whole as real, ratio, interval);
    ProductOrder((whole + 1) as real, ratio, interval);
  }

  /** `n` samples are enough for a stretch of `length` ms: at least one, and the required fraction of
      one for each whole interval, rounded down. */
  ghost predicate EnoughFor(length: real, interval: real, fraction: real, n: nat) {
    n >= 1 && exists whole: int ::
      FitWhole(whole, length, interval) && Product(whole as real, fraction) < (n + 1) as real
  }

  lemma EnoughExactly(length: real, interval: real, fraction: real, n: nat)
    requires interval > 0.0
    ensures EnoughFor(length, interval, fraction, n) <==>
      n >= AtLeastOne(((length / interval).Floor as real * fraction).Floor)
  {
    var whole := (length / interval).Floor;
    FitsExactly(whole, length, interval);
    forall other: int | FitWhole(other, length, interval)
      ensures other == whole
    {
      FitsExactly(other, length, interval);
    }
  }

  // ------------------------------------------------------------------
  // Stable windows
  // ------------------------------------------------------------------

  /** Mean and last reading lie in the band, and the least-squares slope per minute is small. */
  ghost predicate Steady(rs: seq<Reading>, lock: Lock)
    requires rs != []
  {
    && Product(lock.target - lock.tolerance, |rs| as real) <= SumOf(rs)
    && SumOf(rs) <= Product(lock.target + lock.tolerance, |rs| as real)
    && lock.target - lock.tolerance <= rs[|rs| - 1].value <= lock.target + lock.tolerance
    && -lock.maximumSlope <= Product(Slope.SlopeOf(Points(rs)), 60.0) <= lock.maximumSlope
  }

  /** Readings that span 99 % of the window without a gap above the limit. */
  ghost predicate WellSpread(rs: seq<Reading>, seconds: real, limitMs: real, opens: int, closes: int)
    requires rs != []
  {
    && (rs[|rs| - 1].ns - rs[0].ns) as real / 1000000000.0 >= seconds * 0.99
    && GapsWithin((limitMs * 1000000.0).Floor, rs, opens, closes)
  }

  lemma MeanBand(mean: real, n: int, sum: real, low: real, high: real)
    requires n > 0 && Product(mean, n as real) == sum
    ensures low <= mean <= high <==> Product(low, n as real) <= sum <= Product(high, n as real)
  {
    ProductOrder(low, mean, n as real);
    ProductOrder(mean, high, n as real);
  }

  lemma EnvelopeExactly(w: Window, rs: seq<Reading>, opens: int, closes: int, lock: Lock)
    requires |rs| >= 2 && Summarizes(w, rs, opens, closes)
    ensures EnvelopeStable(w, lock) <==> Steady(rs, lock)
  {
    hide IsLeast, IsGreatest, IsLargestGap, SumOf, Slope.SlopeOf, Points, Product;
    MeanBand(w.mean, |rs|, SumOf(rs), lock.target - lock.tolerance, lock.target + lock.tolerance);
  }

  lemma GapExactly(gap: int, rs: seq<Reading>, opens: int, closes: int, limit: int)
    requires rs != [] && IsLargestGap(gap, rs, opens, closes)
    ensures gap <= limit <==> GapsWithin(limit, rs, opens, closes)
  {
  }

  lemma SpreadExactly(w: Window, rs: seq<Reading>, opens: int, closes: int, seconds: real, limitMs: real)
    requires |rs| >= 2 && Summarizes(w, rs, opens, closes)
    ensures w.spanSeconds >= seconds * 0.99 && w.maximumGapNs as real <= limitMs * 1000000.0 <==>
      WellSpread(rs, seconds, limitMs, opens, closes)
  {
    hide IsLeast, IsGreatest, IsLargestGap, SumOf, Slope.SlopeOf, Points, Product, GapsWithin;
    GapExactly(w.maximumGapNs, rs, opens, closes, (limitMs * 1000000.0).Floor);
  }

  lemma LimitsExactly(w: Window, rs: seq<Reading>, opens: int, closes: int, lock: Lock)
    requires lock.intervalMs > 0.0 && |rs| >= 2 && Summarizes(w, rs, opens, closes)
    ensures WindowWithinLimits(w, lock) <==>
      && Steady(rs, lock) && WellSpread(rs, lock.windowSeconds, lock.maximumGapMs, opens, closes)
      && lock.windowSeconds * 1000.0 / lock.intervalMs * lock.requiredFraction < (|rs| + 1) as real
  {
    EnvelopeExactly(w, rs, opens, closes, lock);
    SpreadExactly(w, rs, opens, closes, lock.windowSeconds, lock.maximumGapMs);
    assert w.samples == |rs|;
    hide Summarizes, Steady, WellSpread;
  }

  /** A check of the guard freezer finds the board stable exactly when the aggregator finds the window
      healthy and below the hard limit, and the readings of the window are enough, well spread and
      steady. */
  lemma StableExactly<X>(e: Context<X>, reference: int, notBefore: int) returns (rs: seq<Reading>)
    requires Increasing(SampleClocks(e.log.samples)) && notBefore < reference
    requires e.lock.intervalMs > 0.0 && e.lock.windowSeconds > 0.0
    ensures var window := (e.lock.windowSeconds * 1000000000.0).Floor;
      var opens := Later(notBefore, reference - window);
      var telemetry := e.aggregate(opens, reference);
      && AllReadings(rs, e.log.samples, StabilitySensor, Recent(reference, notBefore, window))
      && (WindowPasses(e, reference, notBefore) <==>
        && |rs| >= 2
        && telemetry.healthy && telemetry.safetyMaximum.Some? && telemetry.safetyMaximum.value < e.lock.hardLimit
        && Steady(rs, e.lock) && WellSpread(rs, e.lock.windowSeconds, e.lock.maximumGapMs, opens, reference)
        && e.lock.windowSeconds * 1000.0 / e.lock.intervalMs * e.lock.requiredFraction < (|rs| + 1) as real)
  {
    hide EvidenceWindow, Summarizes, AllReadings, WindowWithinLimits, Steady, WellSpread, WindowStart;
    var window := (e.lock.windowSeconds * 1000000000.0).Floor;
    StartIsLater(reference, notBefore, e.lock.windowSeconds, window);
    rs := EvidenceWindowExactly(e.log.samples, reference, notBefore, e.lock.windowSeconds);
    if |rs| >= 2 {
      LimitsExactly(EvidenceWindow(e.log.samples, reference, notBefore, e.lock.windowSeconds).value, rs,
        Later(notBefore, reference - window), reference, e.lock);
    }
  }

  // ------------------------------------------------------------------
  // Complete samples
  // ------------------------------------------------------------------

  /** Every sample at a wanted clock has all its fields and both temperatures. */
  ghost predicate AllComplete(samples: seq<Sample>, wanted: int -> bool) {
    forall k :: 0 <= k < |samples| && wanted(samples[k].ns) ==>
      samples[k].complete && samples[k].stability.Some? && samples[k].safety.Some?
  }

  /** No sample at a wanted clock reaches the hard limit. */
  ghost predicate NoneHot(samples: seq<Sample>, wanted: int -> bool, hardLimit: real) {
    forall k :: 0 <= k < |samples| && wanted(samples[k].ns) && samples[k].safety.Some? ==>
      samples[k].safety.value < hardLimit
  }

  lemma {:induction false} SelectMembers(samples: seq<Sample>, keep: int -> bool, s: Sample)
    ensures s in Select(samples, keep) <==> s in samples && keep(s.ns)
    decreases |samples|
  {
    if samples != [] {
      var front, last := samples[..|samples| - 1], samples[|samples| - 1];
      SelectMembers(front, keep, s);
      assert samples == front + [last];
    }
  }

  lemma SelectedComplete(samples: seq<Sample>, keep: int -> bool)
    ensures AllValid(Select(samples, keep)) <==> AllComplete(samples, keep)
  {
    hide Select;
    var selected := Select(samples, keep);
    if AllValid(selected) {
      forall k | 0 <= k < |samples| && keep(samples[k].ns)
        ensures StructurallyValid(samples[k])
      {
        SelectMembers(samples, keep, samples[k]);
        assert samples[k] in selected;
      }
    }
    if AllComplete(samples, keep) {
      forall i | 0 <= i < |selected|
        ensures StructurallyValid(selected[i])
      {
        SelectMembers(samples, keep, selected[i]);
        assert selected[i] in selected;
      }
    }
  }

  lemma SelectedCool(samples: seq<Sample>, keep: int -> bool, hardLimit: real)
    ensures BelowLimit(Select(samples, keep), hardLimit) <==> NoneHot(samples, keep, hardLimit)
  {
    hide Select;
    var selected := Select(samples, keep);
    if BelowLimit(selected, hardLimit) {
      forall k | 0 <= k < |samples| && keep(samples[k].ns) && samples[k].safety.Some?
        ensures samples[k].safety.value < hardLimit
      {
        SelectMembers(samples, keep, samples[k]);
        assert samples[k] in selected;
      }
    }
    if NoneHot(samples, keep, hardLimit) {
      forall i | 0 <= i < |selected| && selected[i].safety.Some?
        ensures selected[i].safety.value < hardLimit
      {
        SelectMembers(samples, keep, selected[i]);
        assert selected[i] in selected;
      }
    }
  }

  /** Complete samples give one reading each on either sensor. */
  lemma {:induction false} CompleteReadings(xs: seq<Sample>, sensor: Sensor)
    requires AllValid(xs)
    ensures ReadingClocks(Readings(xs, sensor)) == SampleClocks(xs)
    ensures forall i :: 0 <= i < |xs| ==> Value(xs[i], sensor) == Some(Readings(xs, sensor)[i].value)
    decreases |xs|
  {
    if xs != [] {
      CompleteReadings(xs[..|xs| - 1], sensor);
      assert StructurallyValid(xs[|xs| - 1]);
    }
  }

  // ------------------------------------------------------------------
  // The deadline freezer's windows
  // ------------------------------------------------------------------

  /** The same stretch, with or without its end. */
  function RecentUpTo(reference: int, notBefore: int, window: int, inclusive: bool): int -> bool {
    (ns: int) => notBefore <= ns && reference - ns <= window && (ns < reference || (inclusive && ns == reference))
  }

  function Kept(start: int, reference: int, inclusive: bool): int -> bool {
    if inclusive then Closed(start, reference) else HalfOpen(start, reference)
  }

  lemma StartIsLaterUpTo(reference: int, notBefore: int, seconds: real, window: int, inclusive: bool)
    requires window == (seconds * 1000000000.0).Floor
    ensures WindowStart(reference, notBefore, seconds) == Later(notBefore, reference - window)
    ensures forall ns: int :: Kept(WindowStart(reference, notBefore, seconds), reference, inclusive)(ns) <==>
      RecentUpTo(reference, notBefore, window, inclusive)(ns)
  {
  }

  /** What the deadline replay asks of the complete samples of a window. */
  ghost predicate Watched(samples: seq<Sample>, lock: Lock, wanted: int -> bool, rs: seq<Reading>, seconds: real,
      opens: int, closes: int)
    requires rs != []
  {
    && AllComplete(samples, wanted) && NoneHot(samples, wanted, lock.hardLimit)
    && EnoughFor(seconds * 1000.0, lock.intervalMs, lock.requiredFraction, |rs|)
    && WellSpread(rs, seconds, lock.maximumGapMs, opens, closes)
  }

  lemma RequiredExactly(lock: Lock, seconds: real, n: nat)
    requires lock.intervalMs > 0.0
    ensures EnoughFor(seconds * 1000.0, lock.intervalMs, lock.requiredFraction, n) <==> n >= Required(lock, seconds)
  {
    EnoughExactly(seconds * 1000.0, lock.intervalMs, lock.requiredFraction, n);
    hide EnoughFor;
  }

  lemma CountOfSummary(w: Window, rs: seq<Reading>, opens: int, closes: int)
    requires |rs| >= 2 && Summarizes(w, rs, opens, closes)
    ensures w.samples == |rs|
  {
    hide IsLeast, IsGreatest, IsLargestGap, SumOf, Slope.SlopeOf, Points, Product;
  }

  lemma CompleteWindowExactly(w: Window, rs: seq<Reading>, opens: int, closes: int, lock: Lock, seconds: real)
    requires lock.intervalMs > 0.0 && |rs| >= 2 && Summarizes(w, rs, opens, closes)
    ensures CompleteWindow(w, lock, seconds) <==>
      EnoughFor(seconds * 1000.0, lock.intervalMs, lock.requiredFraction, |rs|)
      && WellSpread(rs, seconds, lock.maximumGapMs, opens, closes)
  {
    hide Summarizes, EnoughFor, WellSpread, Required;
    SpreadExactly(w, rs, opens, closes, seconds, lock.maximumGapMs);
    RequiredExactly(lock, seconds, |rs|);
    CountOfSummary(w, rs, opens, closes);
  }

  /** Readings at the same clocks are equally well spread. */
  lemma SameSpread(rs: seq<Reading>, ss: seq<Reading>, seconds: real, limitMs: real, opens: int, closes: int)
    requires rs != [] && ReadingClocks(rs) == ReadingClocks(ss)
    ensures |ss| == |rs|
    ensures WellSpread(rs, seconds, limitMs, opens, closes) <==> WellSpread(ss, seconds, limitMs, opens, closes)
  {
    assert forall i :: 0 <= i < |rs| ==> rs[i].ns == ReadingClocks(rs)[i] && ss[i].ns == ReadingClocks(ss)[i];
  }

  lemma GreatestBelow(w: Window, ss: seq<Reading>, opens: int, closes: int, hardLimit: real)
    requires |ss| >= 2 && Summarizes(w, ss, opens, closes)
    ensures w.greatest < hardLimit <==> forall i :: 0 <= i < |ss| ==> ss[i].value < hardLimit
  {
    hide IsLeast, IsLargestGap, SumOf, Slope.SlopeOf, Points, Product;
  }

  lemma CoolReadings(selected: seq<Sample>, hardLimit: real)
    requires AllValid(selected)
    ensures var ss := Readings(selected, SafetySensor);
      BelowLimit(selected, hardLimit) <==> forall i :: 0 <= i < |ss| ==> ss[i].value < hardLimit
  {
    CompleteReadings(selected, SafetySensor);
    hide Readings;
    var ss := Readings(selected, SafetySensor);
    assert |ss| == |ReadingClocks(ss)| == |selected|;
    forall i | 0 <= i < |selected|
      ensures selected[i].safety == Some(ss[i].value)
    {
      assert Value(selected[i], SafetySensor) == Some(ss[i].value);
    }
  }

  /** The two sensors of complete samples are read at the same clocks, so one of them decides. */
  lemma RawFromSelected(samples: seq<Sample>, lock: Lock, reference: int, notBefore: int, seconds: real,
      inclusive: bool, selected: seq<Sample>, start: int, rs: seq<Reading>)
    requires lock.intervalMs > 0.0 && start == WindowStart(reference, notBefore, seconds)
    requires selected == Select(samples, Kept(start, reference, inclusive)) && rs == Readings(selected, StabilitySensor)
    requires notBefore < reference
    ensures var raw := RawWindow(samples, lock, reference, notBefore, seconds, inclusive);
      && (raw.Some? <==>
        && AllValid(selected) && BelowLimit(selected, lock.hardLimit) && |rs| >= 2
        && EnoughFor(seconds * 1000.0, lock.intervalMs, lock.requiredFraction, |rs|)
        && WellSpread(rs, seconds, lock.maximumGapMs, start, reference))
      && (raw.Some? ==> raw == WindowOf(selected, StabilitySensor, start, reference))
  {
    hide Readings, WindowOf, WindowStart, BelowLimit, EnoughFor, WellSpread, Summarizes, CompleteWindow, Required;
    if AllValid(selected) {
      var ss := Readings(selected, SafetySensor);
      CompleteReadings(selected, StabilitySensor);
      CompleteReadings(selected, SafetySensor);
      assert |rs| == |ReadingClocks(rs)| == |selected| == |ReadingClocks(ss)| == |ss|;
      hide AllValid;
      WindowOfReadings(selected, StabilitySensor, start, reference, rs);
      WindowOfReadings(selected, SafetySensor, start, reference, ss);
      RequiredExactly(lock, seconds, |rs|);
      CoolReadings(selected, lock.hardLimit);
      if |rs| >= 2 {
        CompleteWindowExactly(WindowOf(selected, StabilitySensor, start, reference).value, rs, start, reference, lock,
          seconds);
        CompleteWindowExactly(WindowOf(selected, SafetySensor, start, reference).value, ss, start, reference, lock,
          seconds);
        SameSpread(rs, ss, seconds, lock.maximumGapMs, start, reference);
        GreatestBelow(WindowOf(selected, SafetySensor, start, reference).value, ss, start, reference, lock.hardLimit);
      }
    }
  }

  /** The deadline replay reports a window exactly when all its samples are complete and none is hot,
      and they are enough and well spread; the window sums up their readings, and it is stable exactly
      when these are steady. */
  lemma RawWindowExactly(samples: seq<Sample>, lock: Lock, reference: int, notBefore: int, seconds: real,
      inclusive: bool) returns (rs: seq<Reading>)
    requires lock.intervalMs > 0.0 && Increasing(SampleClocks(samples)) && notBefore < reference
    ensures var window := (seconds * 1000000000.0).Floor;
      var wanted := RecentUpTo(reference, notBefore, window, inclusive);
      var opens := Later(notBefore, reference - window);
      var raw := RawWindow(samples, lock, reference, notBefore, seconds, inclusive);
      && AllReadings(rs, samples, StabilitySensor, wanted)
      && (raw.Some? <==> |rs| >= 2 && Watched(samples, lock, wanted, rs, seconds, opens, reference))
      && (raw.Some? ==> Summarizes(raw.value, rs, opens, reference))
      && (raw.Some? ==> (EnvelopeStable(raw.value, lock) <==> Steady(rs, lock)))
  {
    hide Readings, Select, Read, WindowOf, Summarizes, AllReadings, WindowStart, Kept, RecentUpTo, RawWindow, AllValid;
    hide BelowLimit, EnvelopeStable, Steady, EnoughFor, WellSpread, AllComplete, NoneHot;
    var start, window := WindowStart(reference, notBefore, seconds), (seconds * 1000000000.0).Floor;
    var keep, wanted := Kept(start, reference, inclusive), RecentUpTo(reference, notBefore, window, inclusive);
    StartIsLaterUpTo(reference, notBefore, seconds, window, inclusive);
    SelectedReadings(samples, keep, StabilitySensor);
    var selected := Select(samples, keep);
    rs := Readings(selected, StabilitySensor);
    SameWanted(rs, samples, StabilitySensor, keep, wanted);
    RawFromSelected(samples, lock, reference, notBefore, seconds, inclusive, selected, start, rs);
    SelectedComplete(samples, keep);
    SelectedCool(samples, keep, lock.hardLimit);
    SameSamples(samples, keep, wanted, lock.hardLimit);
    WindowOfReadings(selected, StabilitySensor, start, reference, rs);
    if RawWindow(samples, lock, reference, notBefore, seconds, inclusive).Some? {
      EnvelopeExactly(RawWindow(samples, lock, reference, notBefore, seconds, inclusive).value, rs, start, reference,
        lock);
    }
  }

  lemma SameSamples(samples: seq<Sample>, keep: int -> bool, wanted: int -> bool, hardLimit: real)
    requires forall ns: int :: keep(ns) <==> wanted(ns)
    ensures AllComplete(samples, keep) <==> AllComplete(samples, wanted)
    ensures NoneHot(samples, keep, hardLimit) <==> NoneHot(samples, wanted, hardLimit)
  {
  }
}
