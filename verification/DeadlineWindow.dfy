/** The deadline freezer's own replay of windows and causal samples
    (analysis/freeze_p9_deadline.py:577-723, 1056-1069, 1520-1660, 1737-1800), which filters the
    log linearly where the guard freezer bisects it. */
module DeadlineWindow {
  import opened Arithmetic
  import opened Common
  import opened Telemetry
  import opened Windows
  import opened ThermalWindow

  /** `window_start_ns`. */
  function RawStart(reference: int, notBefore: int, seconds: real): int { WindowStart(reference, notBefore, seconds) }

  predicate AllValid(samples: seq<Sample>) {
    forall i :: 0 <= i < |samples| ==> StructurallyValid(samples[i])
  }

  function Required(lock: Lock, seconds: real): int
    requires lock.intervalMs > 0.0
  {
    AtLeastOne(((seconds * 1000.0 / lock.intervalMs).Floor as real * lock.requiredFraction).Floor)
  }

  predicate CompleteWindow(w: Window, lock: Lock, seconds: real)
    requires lock.intervalMs > 0.0
  {
    && w.samples >= Required(lock, seconds)
    && w.spanSeconds >= seconds * 0.99
    && w.maximumGapNs as real / SECOND_NS <= lock.maximumGapMs / 1000.0
  }

  /** `replay_raw_thermal_window`: the stability window, or `None` when it raises. */
  function RawWindow(samples: seq<Sample>, lock: Lock, reference: int, notBefore: int, seconds: real,
      inclusive: bool): Option<Window>
    requires lock.intervalMs > 0.0
  {
    var start := RawStart(reference, notBefore, seconds);
    var selected := Select(samples, if inclusive then Closed(start, reference) else HalfOpen(start, reference));
    if reference <= notBefore || !AllValid(selected) || |selected| < Required(lock, seconds) then None else
      var stability := WindowOf(selected, StabilitySensor, start, reference);
      var safety := WindowOf(selected, SafetySensor, start, reference);
      if stability.None? || safety.None? then None
      else if !CompleteWindow(stability.value, lock, seconds) || !CompleteWindow(safety.value, lock, seconds) then None
      else if safety.value.greatest >= lock.hardLimit then None
      else stability
  }

  /** On one log, whatever stability window the deadline replay reports is the one that the guard
      replay computes for the same clocks. */
  lemma RawWindowIsEvidenceWindow(samples: seq<Sample>, lock: Lock, reference: int, notBefore: int)
    requires lock.intervalMs > 0.0 && lock.windowSeconds > 0.0 && Increasing(SampleClocks(samples))
    requires RawWindow(samples, lock, reference, notBefore, lock.windowSeconds, true).Some?
    ensures EvidenceWindow(samples, reference, notBefore, lock.windowSeconds)
      == RawWindow(samples, lock, reference, notBefore, lock.windowSeconds, true)
  {
    WindowsAgree(samples, reference, notBefore, lock.windowSeconds);
  }

  /** `_thermal_envelope_is_stable`. */
  predicate EnvelopeStable(w: Window, lock: Lock) {
    && Abs(w.mean - lock.target) <= lock.tolerance
    && Abs(w.latest - lock.target) <= lock.tolerance
    && Abs(w.slopePerMinute) <= lock.maximumSlope
  }

  /** An endpoint must be the clock of a sample. */
  predicate SampleAt(samples: seq<Sample>, ns: int) {
    exists i :: 0 <= i < |samples| && samples[i].ns == ns
  }

  /** The causal sample as the deadline freezer selects it: the first, or the last, of the samples
      after `notBefore` and not after `reference`. */
  function FilteredSample(samples: seq<Sample>, reference: int, notBefore: int, first: bool): Option<Sample> {
    var kept := Select(samples, After(notBefore, reference));
    if kept == [] then None else Some(if first then kept[0] else kept[|kept| - 1])
  }

  /** What the deadline freezer finds at a causal sample.  A structurally invalid sample has no
      readings to report, so no stored record can repeat it. */
  function DeadlineOutcome<X>(e: Context<X>, reference: int, notBefore: int, first: bool): Outcome {
    var sample := FilteredSample(e.log.samples, reference, notBefore, first);
    if sample.None? then Outcome(None, None, None, Some(NoSample)) else
      var s := sample.value;
      if !StructurallyValid(s) then Outcome(Some(s.ns), None, None, Some(Incomplete)) else
        var maximumAge := e.lock.maximumGapMs * MILLISECOND_NS;
        var failure :=
          if (reference - s.ns) as real > maximumAge then Some(Stale)
          else if first && (s.ns - notBefore) as real > maximumAge then Some(TooLate)
          else if Abs(s.stability.value - e.lock.target) > e.lock.tolerance then Some(OutsideBand)
          else if s.safety.value >= e.lock.hardLimit then Some(HardLimitReached)
          else if !e.pointHealthy(s.ns, reference) then Some(Unhealthy)
          else None;
        Outcome(Some(s.ns), s.stability, s.safety, failure)
  }

  /** The two freezers judge a causal qualification alike: both see the same sample, and they agree
      on whether it passes whenever it is structurally valid. */
  lemma OutcomesAgree<X>(e: Context<X>, reference: int, notBefore: int, first: bool)
    requires Increasing(SampleClocks(e.log.samples)) && notBefore < reference
    ensures CausalOutcome(e, reference, notBefore, first).sampleNs == DeadlineOutcome(e, reference, notBefore,
      first).sampleNs
    ensures DeadlineOutcome(e, reference, notBefore, first).failure != Some(Incomplete) ==>
      (CausalOutcome(e, reference, notBefore, first).failure.None? <==>
        DeadlineOutcome(e, reference, notBefore, first).failure.None?)
  {
    CausalSampleIsExtreme(e.log.samples, reference, notBefore, first);
  }

  function Duration(start: int, end: int): real { (end - start) as real / SECOND_NS }

  /** The answers that the deadline freezer gives. */
  function DeadlineEvidenceOf<X, K>(e: Context<X>, tag: K -> string): Evidence<X, K>
    requires e.lock.intervalMs > 0.0
  {
    var window := (reference: int, notBefore: int) =>
      if SampleAt(e.log.samples, reference) then RawWindow(e.log.samples, e.lock, reference, notBefore,
        e.lock.windowSeconds, true) else None;
    Evidence(
      e.log.markers,
      window,
      (reference: int, notBefore: int) => window(reference,
        notBefore).Some? && EnvelopeStable(window(reference, notBefore).value, e.lock),
      (start: int, end: int) =>
        RawWindow(e.log.samples, e.lock, end, start, Duration(start, end), false).Some? && Duration(start,
          end) >= e.lock.windowSeconds * 0.99,
      (reference: int, notBefore: int, first: bool) => DeadlineOutcome(e, reference, notBefore, first),
      GapLimit(e.lock),
      tag)
  }
}
