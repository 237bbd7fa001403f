/** The thermal pilot: checkpoints on a fixed schedule until the temperature is confirmed stable
    (analysis/freeze_p9_thermal.py:432-646, `replay_thermal_stability_protocol`). */
module PilotProtocol {
  import opened Arithmetic
  import opened Common
  import opened Streaks
  import opened Telemetry
  import opened Windows
  import opened ThermalWindow
  import Coverage

  /** The frozen schedule, in seconds. */
  datatype Schedule = Schedule(minimum: real, maximum: real, step: real, lateness: real, passes: nat)

  /** The pilot's own constants. */
  const FROZEN := Schedule(600.0, 900.0, 30.0, 1.0, 3)

  datatype Entries =
    | LabelOnly
    | Successful
    | BoundaryEntries(index: int, scheduled: real)
    | CheckEntries(index: int, scheduled: real, elapsed: real, checkpointNs: int, passed: bool, consecutive: int,
      window: Option<Window>)
    | MeasurementEntries(index: int, scheduled: real, elapsed: real, checkpointNs: int, consecutive: int,
      window: Option<Window>)
    | OtherEntries

  datatype Kind = Prepare | Start | Boundary | Check | MeasurementEnd | End | Unknown

  /** A `thermal_` marker with the pilot's label, in log order. */
  datatype PilotMarker = PilotMarker(ns: int, kind: Kind, entries: Entries)

  /** What the raw samples say at a checkpoint: the stability window and whether it passes. */
  datatype Judge = Judge(window: int -> Option<Window>, passes: int -> bool)

  /** The clocks of the pilot summary. */
  datatype Summary = Summary(startNs: int, endNs: int, cleanupNs: int, checks: seq<Entries>)

  // ------------------------------------------------------------------
  // The marker sequence
  // ------------------------------------------------------------------

  /** Prepare, start, pairs of boundary and check, measurement end, end. */
  predicate Paired(markers: seq<PilotMarker>) {
    var n := |markers|;
    && n >= 6
    && markers[0].kind == Prepare && markers[1].kind == Start
    && markers[n - 2].kind == MeasurementEnd && markers[n - 1].kind == End
    && n % 2 == 0
    && forall i :: 2 <= i < n - 2 ==> markers[i].kind == if i % 2 == 0 then Boundary else Check
  }

  /** The number of checkpoints. */
  function Checkpoints(markers: seq<PilotMarker>): nat
    requires Paired(markers)
  {
    (|markers| - 4) / 2
  }

  function BoundaryOf(markers: seq<PilotMarker>, i: nat): PilotMarker
    requires Paired(markers) && i < Checkpoints(markers)
  {
    markers[2 + 2 * i]
  }

  function CheckOf(markers: seq<PilotMarker>, i: nat): PilotMarker
    requires Paired(markers) && i < Checkpoints(markers)
  {
    markers[3 + 2 * i]
  }

  /** The outer markers bind the summary. */
  predicate FrameBinds(markers: seq<PilotMarker>, p: Summary)
    requires Paired(markers)
  {
    var n := |markers|;
    && markers[0].entries == LabelOnly && markers[1].entries == LabelOnly && markers[n - 1].entries == Successful
    && markers[1].ns == p.startNs && markers[n - 2].ns == p.endNs && markers[n - 1].ns == p.cleanupNs
    && |p.checks| == Checkpoints(markers)
  }

  // ------------------------------------------------------------------
  // Checkpoints
  // ------------------------------------------------------------------

  /** What one checkpoint contributes to the stopping rule. */
  datatype Checkpoint = Checkpoint(elapsed: real, passed: bool)

  function Times(n: int, step: real): real { n as real * step }

  /** Checkpoint `i` is due after `i + 1` steps. */
  function Scheduled(s: Schedule, i: nat): real { Times(i + 1, s.step) }

  function Elapsed(p: Summary, checkpointNs: int): real { (checkpointNs - p.startNs) as real / SECOND_NS }

  predicate OnSchedule(s: Schedule, i: nat, elapsed: real) { Scheduled(s, i) <= elapsed <= Scheduled(s,
      i) + s.lateness }

  /** Checkpoint `i`: boundary and check agree with each other, the schedule, the raw samples, the
      counter and the summary. */
  predicate CheckpointReplays(s: Schedule, judge: Judge, p: Summary, boundary: PilotMarker, check: PilotMarker,
      i: nat, consecutive: nat)
    requires i < |p.checks|
  {
    && boundary.entries == BoundaryEntries(i, Scheduled(s, i))
    && check.entries.CheckEntries?
    && check.entries.index == i && check.entries.scheduled == Scheduled(s, i)
    && check.entries.checkpointNs == boundary.ns
    && check.entries.elapsed == Elapsed(p, boundary.ns)
    && OnSchedule(s, i, check.entries.elapsed)
    && boundary.ns < check.ns
    && check.entries.window == judge.window(boundary.ns)
    && check.entries.passed == judge.passes(boundary.ns)
    && check.entries.consecutive == consecutive
    && p.checks[i] == check.entries
  }

  function CheckpointAt(m: PilotMarker): Checkpoint {
    if m.entries.CheckEntries? then Checkpoint(m.entries.elapsed, m.entries.passed) else Checkpoint(0.0, false)
  }

  /** The checkpoints of a pilot. */
  function CheckpointsOf(markers: seq<PilotMarker>): (cs: seq<Checkpoint>)
    requires Paired(markers)
    ensures |cs| == Checkpoints(markers) && forall i :: 0 <= i < |cs| ==> cs[i] == CheckpointAt(CheckOf(markers, i))
  {
    seq(Checkpoints(markers), i requires 0 <= i < Checkpoints(markers) => CheckpointAt(CheckOf(markers, i)))
  }

  function Outcomes(cs: seq<Checkpoint>): (flags: seq<bool>)
    ensures |flags| == |cs| && forall i :: 0 <= i < |cs| ==> flags[i] == cs[i].passed
  {
    seq(|cs|, i requires 0 <= i < |cs| => cs[i].passed)
  }

  // ------------------------------------------------------------------
  // The stopping rule
  // ------------------------------------------------------------------

  /** The pilot may stop at checkpoint `i`. */
  predicate Eligible(s: Schedule, cs: seq<Checkpoint>, i: nat)
    requires i < |cs|
  {
    cs[i].elapsed >= s.minimum && Streak(Outcomes(cs), i + 1) >= s.passes
  }

  /** The last checkpoint is the first at which the pilot may stop. */
  ghost predicate StopsAtFirst(s: Schedule, cs: seq<Checkpoint>) {
    cs != [] && Eligible(s, cs, |cs| - 1) && forall i :: 0 <= i < |cs| - 1 ==> !Eligible(s, cs, i)
  }

  /** Accepted pilots are prefix-free: no accepted pilot continues another. */
  lemma StoppingIsPrefixFree(s: Schedule, cs: seq<Checkpoint>, more: seq<Checkpoint>)
    requires StopsAtFirst(s, cs) && StopsAtFirst(s, cs + more)
    ensures more == []
  {
    var all, n := cs + more, |cs|;
    StreakOfPrefix(Outcomes(cs), Outcomes(all), n);
    assert all[n - 1] == cs[n - 1];
    assert Eligible(s, all, n - 1);
  }

  /** Stopping already confirms stability: the last `passes` checkpoints exist and all passed, so the
      confirmation test at the end of the replay never raises. */
  lemma StoppingConfirms(s: Schedule, cs: seq<Checkpoint>)
    requires StopsAtFirst(s, cs)
    ensures |cs| >= s.passes && forall i :: |cs| - s.passes <= i < |cs| ==> cs[i].passed
  {
    StreakIsPassingSuffix(Outcomes(cs), |cs|);
  }

  /** The number of checkpoints is bounded by the schedule from both sides. */
  lemma CheckpointBounds(s: Schedule, cs: seq<Checkpoint>)
    requires StopsAtFirst(s, cs) && OnSchedule(s, |cs| - 1, cs[|cs| - 1].elapsed) && Scheduled(s, |cs| - 1) <= s.maximum
    ensures s.minimum - s.lateness <= Times(|cs|, s.step) <= s.maximum
  {
  }

  /** With the frozen constants an accepted pilot has 20 to 30 checkpoints. */
  lemma FrozenPilotLength(cs: seq<Checkpoint>)
    requires StopsAtFirst(FROZEN, cs) && OnSchedule(FROZEN, |cs| - 1, cs[|cs| - 1].elapsed)
    requires Scheduled(FROZEN, |cs| - 1) <= FROZEN.maximum
    ensures 20 <= |cs| <= 30
  {
    CheckpointBounds(FROZEN, cs);
  }

  // ------------------------------------------------------------------
  // The replay
  // ------------------------------------------------------------------

  /** Turn `i` of the loop over the checkpoint pairs. */
  ghost predicate TurnReplays(s: Schedule, judge: Judge, p: Summary, markers: seq<PilotMarker>, i: nat)
    requires Paired(markers)
  {
    && i < Checkpoints(markers) && i < |p.checks|
    && CheckpointReplays(s, judge, p, BoundaryOf(markers, i), CheckOf(markers, i), i,
      Streak(Outcomes(CheckpointsOf(markers)), i + 1))
  }

  ghost function Turn(s: Schedule, judge: Judge, p: Summary, markers: seq<PilotMarker>): nat -> bool
    requires Paired(markers)
  {
    (i: nat) => TurnReplays(s, judge, p, markers, i)
  }

  /** The measurement end binds the chosen checkpoint, and the pilot ends after it in order. */
  predicate EndBinds(s: Schedule, markers: seq<PilotMarker>, p: Summary)
    requires Paired(markers)
  {
    var n := Checkpoints(markers);
    && n > 0
    && var final := CheckOf(markers, n - 1);
    && final.entries.CheckEntries?
    && final.entries.scheduled <= s.maximum
    && markers[|markers| - 2].entries == MeasurementEntries(final.entries.index, final.entries.scheduled,
      final.entries.elapsed,
      final.entries.checkpointNs, final.entries.consecutive, final.entries.window)
    && final.ns < p.endNs < p.cleanupNs
  }

  /** `replay_thermal_stability_protocol` gets past its final confirmation. */
  ghost predicate PilotReplays(s: Schedule, judge: Judge, p: Summary, markers: seq<PilotMarker>) {
    && Paired(markers)
    && FrameBinds(markers, p)
    && UpTo(Turn(s, judge, p, markers), Checkpoints(markers))
    && StopsAtFirst(s, CheckpointsOf(markers))
    && EndBinds(s, markers, p)
  }

  method ReplayPilot(s: Schedule, judge: Judge, p: Summary, markers: seq<PilotMarker>) returns (ok: bool)
    ensures ok <==> PilotReplays(s, judge, p, markers)
  {
    hide CheckpointReplays, FrameBinds, EndBinds, Turn, CheckOf, BoundaryOf, Paired, Confirmed;
    if !Paired(markers) || !FrameBinds(markers, p) {
      return false;
    }
    OneCheckEach(markers, p);
    ghost var turn, cs := Turn(s, judge, p, markers), CheckpointsOf(markers);
    var consecutive := 0;
    var firstEligible: Option<nat> := None;
    var n := Checkpoints(markers);
    for i := 0 to n
      invariant UpTo(turn, i)
      invariant consecutive == Streak(Outcomes(cs), i)
      invariant firstEligible.None? ==> forall k :: 0 <= k < i ==> !Eligible(s, cs, k)
      invariant firstEligible.Some? ==> firstEligible.value < i && Eligible(s, cs, firstEligible.value)
      invariant firstEligible.Some? ==> forall k :: 0 <= k < firstEligible.value ==> !Eligible(s, cs, k)
    {
      var checkpoint := CheckpointAt(CheckOf(markers, i));
      assert Outcomes(cs)[i] == checkpoint.passed;
      consecutive := if checkpoint.passed then consecutive + 1 else 0;
      if !CheckpointReplays(s, judge, p, BoundaryOf(markers, i), CheckOf(markers, i), i, consecutive) {
        TurnOf(s, judge, p, markers, i);
        UpToStops(turn, i, n);
        return false;
      }
      TurnOf(s, judge, p, markers, i);
      if checkpoint.elapsed >= s.minimum && consecutive >= s.passes && firstEligible.None? {
        firstEligible := Some(i);
      }
    }
    if firstEligible.None? || firstEligible.value != n - 1 || !EndBinds(s, markers, p) {
      return false;
    }
    ok := Confirmed(s, markers, n);
    AlwaysConfirmed(s, markers);
  }

  lemma TurnOf(s: Schedule, judge: Judge, p: Summary, markers: seq<PilotMarker>, i: nat)
    requires Paired(markers) && i < Checkpoints(markers) == |p.checks|
    ensures Turn(s, judge, p, markers)(i) <==>
      CheckpointReplays(s, judge, p, BoundaryOf(markers, i), CheckOf(markers, i), i,
        Streak(Outcomes(CheckpointsOf(markers)), i + 1))
  {
    hide CheckpointReplays, CheckOf, BoundaryOf, Paired;
  }

  lemma AlwaysConfirmed(s: Schedule, markers: seq<PilotMarker>)
    requires Paired(markers) && StopsAtFirst(s, CheckpointsOf(markers))
    ensures Confirmed(s, markers, Checkpoints(markers))
  {
    hide CheckOf, Paired;
    StoppingConfirms(s, CheckpointsOf(markers));
  }

  lemma OneCheckEach(markers: seq<PilotMarker>, p: Summary)
    requires Paired(markers) && FrameBinds(markers, p)
    ensures |p.checks| == Checkpoints(markers) > 0
  {
  }

  /** The final confirmation: the last `passes` checks exist and passed. */
  predicate Confirmed(s: Schedule, markers: seq<PilotMarker>, n: nat)
    requires Paired(markers) && n == Checkpoints(markers)
  {
    n >= s.passes && forall i :: n - s.passes <= i < n ==> CheckpointAt(CheckOf(markers, i)).passed
  }

  /** Every accepted pilot that runs by the frozen constants stops after 20 to 30 checkpoints, at the
      first moment at which ten minutes have passed and three checks in a row were stable. */
  lemma AcceptedPilotStops(judge: Judge, p: Summary, markers: seq<PilotMarker>)
    requires PilotReplays(FROZEN, judge, p, markers)
    ensures var cs := CheckpointsOf(markers);
      && 20 <= |cs| <= 30
      && cs[|cs| - 1].elapsed >= 600.0
      && cs[|cs| - 3].passed && cs[|cs| - 2].passed && cs[|cs| - 1].passed
      && forall i :: 2 <= i < |cs| - 1 && cs[i - 2].passed && cs[i - 1].passed && cs[i].passed ==> cs[i].elapsed < 600.0
  {
    hide FrameBinds;
    var cs, n := CheckpointsOf(markers), Checkpoints(markers);
    UpToEach(Turn(FROZEN, judge, p, markers), n - 1, n);
    FrozenPilotLength(cs);
    StoppingConfirms(FROZEN, cs);
    forall i | 2 <= i < n - 1 && cs[i - 2].passed && cs[i - 1].passed && cs[i].passed
      ensures cs[i].elapsed < 600.0
    {
      assert !Eligible(FROZEN, cs, i);
      ThreePasses(Outcomes(cs), i);
    }
  }

  lemma ThreePasses(passed: seq<bool>, i: nat)
    requires 2 <= i < |passed| && passed[i - 2] && passed[i - 1] && passed[i]
    ensures Streak(passed, i + 1) >= 3
  {
    assert Streak(passed, i + 1) == Streak(passed, i) + 1;
    assert Streak(passed, i) == Streak(passed, i - 1) + 1;
  }

  // ------------------------------------------------------------------
  // Judging a checkpoint from the raw samples
  // ------------------------------------------------------------------

  const PILOT_WINDOW_SECONDS: real := 180.0
  const MAXIMUM_GAP_NS: int := 300000000

  /** What judging needs of the thermal lock. */
  datatype Limits = Limits(intervalMs: real, requiredFraction: real, hardLimit: real, maximumSlope: real)

  predicate WindowComplete(w: Window, minimum: int) {
    w.samples >= minimum && w.spanSeconds >= PILOT_WINDOW_SECONDS * 0.99 && w.maximumGapNs <= MAXIMUM_GAP_NS
  }

  function MinimumSamples(limits: Limits): (n: int)
    requires limits.intervalMs > 0.0
    ensures n >= 1
  {
    var expected := (PILOT_WINDOW_SECONDS * 1000.0 / limits.intervalMs).Floor;
    AtLeastOne((expected as real * limits.requiredFraction).Floor)
  }

  /** The valid samples of the half-open window before a checkpoint. */
  function ValidBefore(samples: seq<Sample>, startNs: int, checkpointNs: int): seq<Sample> {
    Valid(Select(samples, HalfOpen(WindowStart(checkpointNs, startNs, PILOT_WINDOW_SECONDS), checkpointNs)))
  }

  /** `_checkpoint_passes`. */
  predicate CheckpointPasses(samples: seq<Sample>, limits: Limits, startNs: int, checkpointNs: int)
    requires limits.intervalMs > 0.0
  {
    var stability := WindowFromRaw(samples, StabilitySensor, checkpointNs, startNs, PILOT_WINDOW_SECONDS);
    var safety := WindowFromRaw(samples, SafetySensor, checkpointNs, startNs, PILOT_WINDOW_SECONDS);
    var start := WindowStart(checkpointNs, startNs, PILOT_WINDOW_SECONDS);
    var valid := ValidBefore(samples, startNs, checkpointNs);
    var minimum := MinimumSamples(limits);
    && stability.Some? && safety.Some?
    && |valid| == |Select(samples, HalfOpen(start, checkpointNs))|
    && |valid| >= minimum
    && WindowComplete(stability.value, minimum) && WindowComplete(safety.value, minimum)
    && Coverage.MaximumGap(SampleClocks(valid), start, checkpointNs).Some?
    && Coverage.MaximumGap(SampleClocks(valid), start, checkpointNs).value <= MAXIMUM_GAP_NS
    && Abs(stability.value.slopePerMinute) <= limits.maximumSlope
    && safety.value.greatest < limits.hardLimit
  }

  /** The judge that the replay consults. */
  function JudgeOf(samples: seq<Sample>, limits: Limits, startNs: int): Judge
    requires limits.intervalMs > 0.0
  {
    Judge(
      (ns: int) => WindowFromRaw(samples, StabilitySensor, ns, startNs, PILOT_WINDOW_SECONDS),
      (ns: int) => CheckpointPasses(samples, limits, startNs, ns))
  }

  /** A checkpoint that passes was watched throughout: every 300 ms of its window hold a complete
      sample. */
  lemma PassingCheckpointIsWatched(samples: seq<Sample>, limits: Limits, startNs: int, checkpointNs: int)
    requires limits.intervalMs > 0.0 && Increasing(SampleClocks(samples))
    requires CheckpointPasses(samples, limits, startNs, checkpointNs)
    ensures Coverage.Covers(SampleClocks(ValidBefore(samples, startNs, checkpointNs)),
      WindowStart(checkpointNs, startNs, PILOT_WINDOW_SECONDS), checkpointNs, MAXIMUM_GAP_NS)
  {
    var start := WindowStart(checkpointNs, startNs, PILOT_WINDOW_SECONDS);
    var valid := ValidBefore(samples, startNs, checkpointNs);
    hide WindowFromRaw, WindowComplete, WindowStart, Coverage.Covers, Coverage.MaximumGap, Coverage.NoGapAbove;
    hide MinimumSamples;
    ValidStayInside(samples, HalfOpen(start, checkpointNs));
    assert forall i :: 0 <= i < |valid| ==> valid[i] in valid;
    Coverage.GapFormsAgree(SampleClocks(valid), start, checkpointNs, MAXIMUM_GAP_NS);
    Coverage.GapsBoundedIffCovered(SampleClocks(valid), start, checkpointNs, MAXIMUM_GAP_NS);
  }

  lemma LastChecksJudged(samples: seq<Sample>, limits: Limits, p: Summary, markers: seq<PilotMarker>, i: nat)
    requires limits.intervalMs > 0.0
    requires PilotReplays(FROZEN, JudgeOf(samples, limits, p.startNs), p, markers)
    requires Checkpoints(markers) - 3 <= i < Checkpoints(markers)
    ensures CheckpointPasses(samples, limits, p.startNs, BoundaryOf(markers, i).ns)
    ensures OnSchedule(FROZEN, i, Elapsed(p, BoundaryOf(markers, i).ns))
  {
    hide FrameBinds, EndBinds, CheckpointPasses, CheckOf, BoundaryOf, Paired, Checkpoints;
    var cs, n := CheckpointsOf(markers), Checkpoints(markers);
    StoppingConfirms(FROZEN, cs);
    UpToEach(Turn(FROZEN, JudgeOf(samples, limits, p.startNs), p, markers), i, n);
    assert cs[i] == CheckpointAt(CheckOf(markers, i));
  }

  /** What an accepted pilot rests on: at its last three checkpoints, which are due 30 seconds
      apart, the raw samples pass, and a complete sample lies in every 300 ms of the three windows. */
  lemma AcceptedPilotWatched(samples: seq<Sample>, limits: Limits, p: Summary, markers: seq<PilotMarker>)
    requires limits.intervalMs > 0.0 && Increasing(SampleClocks(samples))
    requires PilotReplays(FROZEN, JudgeOf(samples, limits, p.startNs), p, markers)
    ensures Checkpoints(markers) >= 20
    ensures forall i :: Checkpoints(markers) - 3 <= i < Checkpoints(markers) ==>
      var ns := BoundaryOf(markers, i).ns;
      && CheckpointPasses(samples, limits, p.startNs, ns) && OnSchedule(FROZEN, i, Elapsed(p, ns))
      && Coverage.Covers(SampleClocks(ValidBefore(samples, p.startNs, ns)),
        WindowStart(ns, p.startNs, PILOT_WINDOW_SECONDS), ns, MAXIMUM_GAP_NS)
  {
    hide CheckpointPasses, ValidBefore, WindowStart, Coverage.Covers, BoundaryOf, OnSchedule, Checkpoints;
    AcceptedPilotStops(JudgeOf(samples, limits, p.startNs), p, markers);
    forall i | Checkpoints(markers) - 3 <= i < Checkpoints(markers)
      ensures CheckpointPasses(samples, limits, p.startNs, BoundaryOf(markers, i).ns)
      ensures OnSchedule(FROZEN, i, Elapsed(p, BoundaryOf(markers, i).ns))
      ensures Coverage.Covers(SampleClocks(ValidBefore(samples, p.startNs, BoundaryOf(markers, i).ns)),
        WindowStart(BoundaryOf(markers, i).ns, p.startNs, PILOT_WINDOW_SECONDS), BoundaryOf(markers,
          i).ns, MAXIMUM_GAP_NS)
    {
      LastChecksJudged(samples, limits, p, markers, i);
      PassingCheckpointIsWatched(samples, limits, p.startNs, BoundaryOf(markers, i).ns);
    }
  }
}
