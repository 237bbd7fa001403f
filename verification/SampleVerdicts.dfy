/** What makes an interval healthy, a causal sample acceptable and a pilot checkpoint pass, said of the
    samples of the log themselves (analysis/freeze_p9_guard.py:999-1053, 1282-1472;
    analysis/freeze_p9_deadline.py:1520-1660, 1737-1800; analysis/freeze_p9_thermal.py:253-340). */
module SampleVerdicts {
  import opened Arithmetic
  import opened Common
  import opened Telemetry
  import opened Windows
  import opened ThermalWindow
  import opened DeadlineWindow
  import opened WindowReadings
  import Coverage
  import Pilot = PilotProtocol
  import Slope

  // ------------------------------------------------------------------
  // Healthy intervals
  // ------------------------------------------------------------------

  /** A complete sample was taken at `ns`. */
  ghost predicate CompleteAt(samples: seq<Sample>, ns: int) {
    exists k :: 0 <= k < |samples| && samples[k].ns == ns
      && samples[k].complete && samples[k].stability.Some? && samples[k].safety.Some?
  }

  /** `cs` are the clocks of the complete samples at the clocks `wanted`, in order. */
  ghost predicate CompleteClocks(cs: seq<int>, samples: seq<Sample>, wanted: int -> bool) {
    && (forall i, j :: 0 <= i < j < |cs| ==> cs[i] < cs[j])
    && forall ns :: ns in cs <==> wanted(ns) && CompleteAt(samples, ns)
  }

  lemma {:induction false} ValidMembers(xs: seq<Sample>, s: Sample)
    ensures s in Valid(xs) <==> s in xs && StructurallyValid(s)
    decreases |xs|
  {
    hide StructurallyValid;
    if xs != [] {
      var front, last := xs[..|xs| - 1], xs[|xs| - 1];
      ValidMembers(front, s);
      assert xs == front + [last];
    }
  }

  lemma ValidClocks(samples: seq<Sample>, keep: int -> bool)
    requires Increasing(SampleClocks(samples))
    ensures CompleteClocks(SampleClocks(Valid(Select(samples, keep))), samples, keep)
  {
    hide Select, Valid;
    ValidStayInside(samples, keep);
    var valid := Valid(Select(samples, keep));
    var cs := SampleClocks(valid);
    forall ns
      ensures ns in cs <==> keep(ns) && CompleteAt(samples, ns)
    {
      if ns in cs {
        var i :| 0 <= i < |cs| && cs[i] == ns;
        ValidMembers(Select(samples, keep), valid[i]);
        assert valid[i] in valid;
        SelectMembers(samples, keep, valid[i]);
      }
      if keep(ns) && CompleteAt(samples, ns) {
        var k :| 0 <= k < |samples| && samples[k].ns == ns && StructurallyValid(samples[k]);
        SelectMembers(samples, keep, samples[k]);
        ValidMembers(Select(samples, keep), samples[k]);
        var i :| 0 <= i < |valid| && valid[i] == samples[k];
        assert cs[i] == ns;
      }
    }
  }

  function Within(start: int, end: int): int -> bool { (ns: int) => start <= ns && ns < end }

  /** An interval is healthy exactly when it is not empty, its complete samples are as many as the
      required fraction of its whole intervals, every closed stretch of the gap limit inside it holds
      one of them, and no sample in it reaches the hard limit. */
  lemma HealthyExactly(samples: seq<Sample>, lock: Lock, start: int, end: int) returns (cs: seq<int>)
    requires lock.intervalMs > 0.0 && Increasing(SampleClocks(samples))
    ensures CompleteClocks(cs, samples, Within(start, end))
    ensures HealthyInterval(samples, lock, start, end) <==>
      && start < end
      && EnoughFor((end - start) as real / 1000000.0, lock.intervalMs, lock.requiredFraction, |cs|)
      && Coverage.Covers(cs, start, end, (lock.maximumGapMs * 1000000.0).Floor)
      && NoneHot(samples, Within(start, end), lock.hardLimit)
  {
    hide Select, Valid, BelowLimit, Coverage.Covers, EnoughFor, NoneHot, CompleteAt, HealthyInterval;
    HealthyIntervalExactly(samples, lock, start, end);
    ValidClocks(samples, HalfOpen(start, end));
    cs := SampleClocks(Valid(Select(samples, HalfOpen(start, end))));
    SelectedCool(samples, HalfOpen(start, end), lock.hardLimit);
    SameSamples(samples, HalfOpen(start, end), Within(start, end), lock.hardLimit);
    EnoughExactly((end - start) as real / 1000000.0, lock.intervalMs, lock.requiredFraction, |cs|);
  }

  // ------------------------------------------------------------------
  // Causal samples
  // ------------------------------------------------------------------

  /** Sample `k` is the first, or the last, of those after `notBefore` and not after `reference`. */
  ghost predicate Extreme(samples: seq<Sample>, k: nat, reference: int, notBefore: int, first: bool) {
    && k < |samples| && notBefore < samples[k].ns <= reference
    && forall j :: 0 <= j < |samples| && notBefore < samples[j].ns <= reference ==>
      if first then samples[k].ns <= samples[j].ns else samples[j].ns <= samples[k].ns
  }

  ghost predicate NoneBetween(samples: seq<Sample>, reference: int, notBefore: int) {
    forall j :: 0 <= j < |samples| ==> samples[j].ns <= notBefore || samples[j].ns > reference
  }

  /** The causal lookup finds that sample, and nothing exactly when there is none. */
  lemma CausalSampleExactly(samples: seq<Sample>, reference: int, notBefore: int, first: bool)
    requires Increasing(SampleClocks(samples)) && notBefore < reference
    ensures CausalSample(samples, reference, notBefore, first).None? <==> NoneBetween(samples, reference, notBefore)
    ensures forall k: nat :: Extreme(samples, k, reference, notBefore, first) ==>
      CausalSample(samples, reference, notBefore, first) == Some(samples[k])
  {
    hide BisectRightIn;
    RightSplits(samples, notBefore);
    RightSplits(samples, reference);
    var left, right := BisectRight(SampleClocks(samples), notBefore), BisectRight(SampleClocks(samples), reference);
    assert forall i, j :: 0 <= i < j < |samples| ==> SampleClocks(samples)[i] < SampleClocks(samples)[j];
  }

  ghost predicate InBand(s: Sample, lock: Lock) {
    s.stability.Some? && lock.target - lock.tolerance <= s.stability.value <= lock.target + lock.tolerance
  }

  ghost predicate Cool(s: Sample, lock: Lock) { s.safety.Some? && s.safety.value < lock.hardLimit }

  /** The two clocks are within the gap limit. */
  ghost predicate Soon(from: int, to: int, lock: Lock) { to - from <= (lock.maximumGapMs * 1000000.0).Floor }

  lemma AgeInNs(age: int, limitMs: real)
    ensures age as real > limitMs * MILLISECOND_NS <==> age > (limitMs * 1000000.0).Floor
  {
  }

  /** A causal qualification reports that sample with its two temperatures, and passes exactly when the
      sample is healthy, came soon after the boundary, if it is the first, and soon before the
      reference, and lies in the band and below the hard limit.  The reason of a failure is the first
      of these tests that fails.  Without a sample it fails and reports none. */
  lemma CausalExactly<X>(e: Context<X>, reference: int, notBefore: int, first: bool, k: nat)
    requires Increasing(SampleClocks(e.log.samples)) && notBefore < reference
    ensures NoneBetween(e.log.samples, reference, notBefore) <==>
      CausalOutcome(e, reference, notBefore, first) == Outcome(None, None, None, Some(NoSample))
    ensures Extreme(e.log.samples, k, reference, notBefore, first) ==>
      var s, o := e.log.samples[k], CausalOutcome(e, reference, notBefore, first);
      var healthy := e.pointHealthy(s.ns, reference);
      var prompt, young := (first ==> Soon(notBefore, s.ns, e.lock)), Soon(s.ns, reference, e.lock);
      && o.sampleNs == Some(s.ns) && o.stability == s.stability && o.safety == s.safety
      && (o.failure.None? <==> healthy && prompt && young && InBand(s, e.lock) && Cool(s, e.lock))
      && (o.failure == Some(Unhealthy) <==> !healthy)
      && (o.failure == Some(TooLate) <==> healthy && !prompt)
      && (o.failure == Some(Stale) <==> healthy && prompt && !young)
      && (o.failure == Some(OutsideBand) <==> healthy && prompt && young && !InBand(s, e.lock))
      && (o.failure == Some(HardLimitReached) <==>
        healthy && prompt && young && InBand(s, e.lock) && !Cool(s, e.lock))
  {
    CausalSampleExactly(e.log.samples, reference, notBefore, first);
    if Extreme(e.log.samples, k, reference, notBefore, first) {
      AgeInNs(e.log.samples[k].ns - notBefore, e.lock.maximumGapMs);
      AgeInNs(reference - e.log.samples[k].ns, e.lock.maximumGapMs);
    }
    hide CausalSample, Extreme, NoneBetween;
  }

  lemma DeadlineOf<X>(e: Context<X>, reference: int, notBefore: int, first: bool, s: Sample)
    requires FilteredSample(e.log.samples, reference, notBefore, first) == Some(s)
    ensures var o := DeadlineOutcome(e, reference, notBefore, first);
      var complete := s.complete && s.stability.Some? && s.safety.Some?;
      && o.sampleNs == Some(s.ns)
      && (complete ==> o.stability == s.stability && o.safety == s.safety)
      && (o.failure == Some(Incomplete) <==> !complete)
      && (o.failure.None? <==>
        complete && e.pointHealthy(s.ns, reference) && (first ==> Soon(notBefore, s.ns, e.lock))
        && Soon(s.ns, reference, e.lock) && InBand(s, e.lock) && Cool(s, e.lock))
  {
    AgeInNs(s.ns - notBefore, e.lock.maximumGapMs);
    AgeInNs(reference - s.ns, e.lock.maximumGapMs);
    hide FilteredSample;
  }

  /** The deadline freezer reports the same sample, and passes exactly when it is also complete. */
  lemma DeadlineCausalExactly<X>(e: Context<X>, reference: int, notBefore: int, first: bool, k: nat)
    requires Increasing(SampleClocks(e.log.samples)) && notBefore < reference
    ensures NoneBetween(e.log.samples, reference, notBefore) <==>
      DeadlineOutcome(e, reference, notBefore, first) == Outcome(None, None, None, Some(NoSample))
    ensures Extreme(e.log.samples, k, reference, notBefore, first) ==>
      var s, o := e.log.samples[k], DeadlineOutcome(e, reference, notBefore, first);
      var complete := s.complete && s.stability.Some? && s.safety.Some?;
      && o.sampleNs == Some(s.ns)
      && (complete ==> o.stability == s.stability && o.safety == s.safety)
      && (o.failure == Some(Incomplete) <==> !complete)
      && (o.failure.None? <==>
        complete && e.pointHealthy(s.ns, reference) && (first ==> Soon(notBefore, s.ns, e.lock))
        && Soon(s.ns, reference, e.lock) && InBand(s, e.lock) && Cool(s, e.lock))
  {
    hide CausalSample, NoneBetween, Soon, InBand, Cool;
    FilterIsCausal(e.log.samples, reference, notBefore, first);
    CausalSampleExactly(e.log.samples, reference, notBefore, first);
    hide FilteredSample;
    if Extreme(e.log.samples, k, reference, notBefore, first) {
      DeadlineOf(e, reference, notBefore, first, e.log.samples[k]);
    }
  }

  lemma FilterIsCausal(samples: seq<Sample>, reference: int, notBefore: int, first: bool)
    requires Increasing(SampleClocks(samples)) && notBefore < reference
    ensures FilteredSample(samples, reference, notBefore, first) == CausalSample(samples, reference, notBefore, first)
  {
    CausalSampleIsExtreme(samples, reference, notBefore, first);
  }

  // ------------------------------------------------------------------
  // Checkpoints of the pilot
  // ------------------------------------------------------------------

  lemma PilotWindow(w: Option<Window>, rs: seq<Reading>, opens: int, closes: int, minimum: int)
    requires w.Some? <==> |rs| >= 2
    requires w.Some? ==> Summarizes(w.value, rs, opens, closes)
    ensures w.Some? && Pilot.WindowComplete(w.value, minimum) <==>
      |rs| >= 2 && |rs| >= minimum && WellSpread(rs, 180.0, 300.0, opens, closes)
  {
    if |rs| >= 2 {
      CountOfSummary(w.value, rs, opens, closes);
      SpreadExactly(w.value, rs, opens, closes, 180.0, 300.0);
    }
    hide Summarizes, WellSpread;
  }

  lemma SlopeOfSummary(w: Window, rs: seq<Reading>, opens: int, closes: int)
    requires |rs| >= 2 && Summarizes(w, rs, opens, closes)
    ensures w.slopePerMinute == Product(Slope.SlopeOf(Points(rs)), 60.0)
  {
    hide IsLeast, IsGreatest, IsLargestGap, SumOf, Slope.SlopeOf, Points, Product;
  }

  /** All samples of a list are complete exactly when as many are. */
  lemma {:induction false} AllOrFewer(xs: seq<Sample>)
    ensures |Valid(xs)| <= |xs| && (|Valid(xs)| == |xs| <==> AllValid(xs))
    ensures AllValid(xs) ==> Valid(xs) == xs
    decreases |xs|
  {
    hide StructurallyValid;
    if xs != [] {
      AllOrFewer(xs[..|xs| - 1]);
    }
  }

  /** The samples of the half-open window before a checkpoint: all complete, enough, and close. */
  lemma PilotSamples(samples: seq<Sample>, startNs: int, checkpointNs: int, opens: int) returns (cs: seq<int>)
    requires Increasing(SampleClocks(samples)) && opens == Later(startNs, checkpointNs - 180000000000)
    ensures CompleteClocks(cs, samples, Within(opens, checkpointNs))
    ensures var valid := Pilot.ValidBefore(samples, startNs, checkpointNs);
      && cs == SampleClocks(valid)
      && (|valid| == |Select(samples, HalfOpen(opens, checkpointNs))| <==>
        AllComplete(samples, Within(opens, checkpointNs)))
  {
    hide Select, Valid, CompleteAt, AllComplete;
    StartIsLater(checkpointNs, startNs, 180.0, 180000000000);
    ValidClocks(samples, HalfOpen(opens, checkpointNs));
    cs := SampleClocks(Valid(Select(samples, HalfOpen(opens, checkpointNs))));
    AllOrFewer(Select(samples, HalfOpen(opens, checkpointNs)));
    SelectedComplete(samples, HalfOpen(opens, checkpointNs));
    SameSamples(samples, HalfOpen(opens, checkpointNs), Within(opens, checkpointNs), 0.0);
  }

  lemma MinimumExactly(limits: Pilot.Limits, n: nat)
    requires limits.intervalMs > 0.0
    ensures EnoughFor(180000.0, limits.intervalMs, limits.requiredFraction, n) <==> n >= Pilot.MinimumSamples(limits)
  {
    EnoughExactly(180000.0, limits.intervalMs, limits.requiredFraction, n);
    hide EnoughFor;
  }

  lemma CheckpointParts(samples: seq<Sample>, limits: Pilot.Limits, startNs: int, ns: int, opens: int,
      stability: Option<Window>, safety: Option<Window>)
    requires limits.intervalMs > 0.0 && opens == WindowStart(ns, startNs, 180.0)
    requires stability == WindowFromRaw(samples, StabilitySensor, ns, startNs, 180.0)
    requires safety == WindowFromRaw(samples, SafetySensor, ns, startNs, 180.0)
    ensures var valid, minimum := Pilot.ValidBefore(samples, startNs, ns), Pilot.MinimumSamples(limits);
      var gap := Coverage.MaximumGap(SampleClocks(valid), opens, ns);
      Pilot.CheckpointPasses(samples, limits, startNs, ns) <==>
        && stability.Some? && Pilot.WindowComplete(stability.value, minimum)
        && safety.Some? && Pilot.WindowComplete(safety.value, minimum)
        && |valid| == |Select(samples, HalfOpen(opens, ns))| && |valid| >= minimum
        && gap.Some? && gap.value <= 300000000
        && -limits.maximumSlope <= stability.value.slopePerMinute <= limits.maximumSlope
        && safety.value.greatest < limits.hardLimit
  {
    hide WindowFromRaw, Select, Coverage.MaximumGap, Pilot.ValidBefore, Pilot.WindowComplete, WindowStart;
    hide Pilot.MinimumSamples;
  }

  /** A pilot checkpoint passes exactly when the 180 seconds before it, no longer than since the start,
      hold only complete samples; there are enough of them and of the readings of each sensor, without
      a gap above 300 ms; the readings span 99 % of the window; the slope is small; and no safety
      reading reaches the hard limit. */
  lemma CheckpointExactly(samples: seq<Sample>, limits: Pilot.Limits, startNs: int, checkpointNs: int)
    returns (rs: seq<Reading>, ss: seq<Reading>, cs: seq<int>)
    requires limits.intervalMs > 0.0 && Increasing(SampleClocks(samples)) && startNs < checkpointNs
    ensures AllReadings(rs, samples, StabilitySensor, Recent(checkpointNs, startNs, 180000000000))
    ensures AllReadings(ss, samples, SafetySensor, Recent(checkpointNs, startNs, 180000000000))
    ensures var opens := Later(startNs, checkpointNs - 180000000000);
      && CompleteClocks(cs, samples, Within(opens, checkpointNs))
      && (Pilot.CheckpointPasses(samples, limits, startNs, checkpointNs) <==>
        && AllComplete(samples, Within(opens, checkpointNs))
        && EnoughFor(180000.0, limits.intervalMs, limits.requiredFraction, |cs|)
        && Coverage.NoGapAbove(cs, opens, checkpointNs, 300000000)
        && |rs| >= 2 && EnoughFor(180000.0, limits.intervalMs, limits.requiredFraction, |rs|)
        && |ss| >= 2 && EnoughFor(180000.0, limits.intervalMs, limits.requiredFraction, |ss|)
        && WellSpread(rs, 180.0, 300.0, opens, checkpointNs) && WellSpread(ss, 180.0, 300.0, opens, checkpointNs)
        && -limits.maximumSlope <= Product(Slope.SlopeOf(Points(rs)), 60.0) <= limits.maximumSlope
        && forall i :: 0 <= i < |ss| ==> ss[i].value < limits.hardLimit)
  {
    hide WindowFromRaw, Select, Valid, Summarizes, AllReadings, WellSpread, EnoughFor, AllComplete, CompleteClocks;
    hide Coverage.MaximumGap, Coverage.NoGapAbove, Pilot.ValidBefore, Pilot.WindowComplete, WindowStart;
    hide Pilot.CheckpointPasses, Pilot.MinimumSamples;
    var opens := Later(startNs, checkpointNs - 180000000000);
    StartIsLater(checkpointNs, startNs, 180.0, 180000000000);
    rs := WindowExactly(samples, StabilitySensor, checkpointNs, startNs, 180.0);
    ss := WindowExactly(samples, SafetySensor, checkpointNs, startNs, 180.0);
    cs := PilotSamples(samples, startNs, checkpointNs, opens);
    var minimum := Pilot.MinimumSamples(limits);
    var stability := WindowFromRaw(samples, StabilitySensor, checkpointNs, startNs, 180.0);
    var safety := WindowFromRaw(samples, SafetySensor, checkpointNs, startNs, 180.0);
    CheckpointParts(samples, limits, startNs, checkpointNs, opens, stability, safety);
    PilotWindow(stability, rs, opens, checkpointNs, minimum);
    PilotWindow(safety, ss, opens, checkpointNs, minimum);
    MinimumExactly(limits, |rs|);
    MinimumExactly(limits, |ss|);
    MinimumExactly(limits, |cs|);
    Coverage.GapFormsAgree(cs, opens, checkpointNs, 300000000);
    if |rs| >= 2 && |ss| >= 2 {
      SlopeOfSummary(stability.value, rs, opens, checkpointNs);
      GreatestBelow(safety.value, ss, opens, checkpointNs, limits.hardLimit);
    }
  }
}
