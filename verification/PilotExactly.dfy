/** What exactly the replay of a thermal pilot accepts (analysis/freeze_p9_thermal.py:65-69, 432-646):
    conditions on its markers, its summary and the verdicts on the raw samples, met if and only if the
    replay gets past its final confirmation. */
module PilotExactly {
  import opened Common
  import opened Streaks
  import opened ThermalWindow
  import opened PilotProtocol

  /** The clock of checkpoint `i`. */
  function BoundaryNs(markers: seq<PilotMarker>, i: nat): int
    requires 2 * i + 2 < |markers|
  {
    markers[2 * i + 2].ns
  }

  /** `count` is the number of passing checkpoints up to checkpoint `i` since the last failing one. */
  ghost predicate Counts(judge: Judge, markers: seq<PilotMarker>, i: nat, count: int)
    requires 2 * i + 2 < |markers|
  {
    && 0 <= count <= i + 1
    && (forall j: nat :: i + 1 - count <= j <= i ==> judge.passes(BoundaryNs(markers, j)))
    && (count <= i ==> !judge.passes(BoundaryNs(markers, i - count)))
  }

  /** Checkpoint `i` is due after 30 (i + 1) seconds, was reached at most one second late, and its two
      markers and its summary say so and what the raw samples say. */
  ghost predicate CheckpointStands(judge: Judge, p: Summary, markers: seq<PilotMarker>, i: nat)
    requires 2 * i + 3 < |markers| && i < |p.checks|
  {
    var ns, due := BoundaryNs(markers, i), (i + 1) as real * 30.0;
    var elapsed := (ns - p.startNs) as real / 1000000000.0;
    && markers[2 * i + 2] == PilotMarker(ns, Boundary, BoundaryEntries(i, due))
    && markers[2 * i + 3] == PilotMarker(markers[2 * i + 3].ns, Check, p.checks[i]) && ns < markers[2 * i + 3].ns
    && due <= elapsed <= due + 1.0
    && exists count: int ::
      && Counts(judge, markers, i, count)
      && p.checks[i] == CheckEntries(i, due, elapsed, ns, judge.passes(ns), count, judge.window(ns))
  }

  /** Ten minutes have passed at checkpoint `i`, and it and the two before it passed. */
  ghost predicate MayStop(judge: Judge, p: Summary, markers: seq<PilotMarker>, i: nat)
    requires 2 * i + 3 < |markers|
  {
    && (BoundaryNs(markers, i) - p.startNs) as real / 1000000000.0 >= 600.0
    && i >= 2 && judge.passes(BoundaryNs(markers, i)) && judge.passes(BoundaryNs(markers, i - 1))
    && judge.passes(BoundaryNs(markers, i - 2))
  }

  ghost predicate AllStand(judge: Judge, p: Summary, markers: seq<PilotMarker>, n: nat)
    requires |markers| == 2 * n + 4 && |p.checks| == n
  {
    forall i: nat :: i < n ==> CheckpointStands(judge, p, markers, i)
  }

  /** The last checkpoint is the first, and so the only one, at which the pilot may stop. */
  ghost predicate StopsAtLast(judge: Judge, p: Summary, markers: seq<PilotMarker>, n: nat)
    requires |markers| == 2 * n + 4
  {
    forall i: nat :: i < n ==> (MayStop(judge, p, markers, i) <==> i == n - 1)
  }

  /** The pilot has `n` checkpoints between its outer markers; they stand, the last is the first at which
      it may stop, it is due within fifteen minutes, and the closing markers repeat it in order. */
  ghost predicate PilotStands(judge: Judge, p: Summary, markers: seq<PilotMarker>, n: nat) {
    && n >= 1 && |markers| == 2 * n + 4 && |p.checks| == n
    && markers[0] == PilotMarker(markers[0].ns, Prepare, LabelOnly)
    && markers[1] == PilotMarker(p.startNs, Start, LabelOnly)
    && AllStand(judge, p, markers, n) && StopsAtLast(judge, p, markers, n)
    && n as real * 30.0 <= 900.0
    && p.checks[n - 1].CheckEntries?
    && var last := p.checks[n - 1];
    && markers[2 * n + 2] == PilotMarker(p.endNs, MeasurementEnd, MeasurementEntries(last.index, last.scheduled,
      last.elapsed, last.checkpointNs, last.consecutive, last.window))
    && markers[2 * n + 3] == PilotMarker(p.cleanupNs, End, Successful)
    && markers[2 * n + 1].ns < p.endNs < p.cleanupNs
  }

  // ------------------------------------------------------------------
  // Loops
  // ------------------------------------------------------------------

  lemma {:induction false} AllTurns(turn: nat -> bool, n: nat)
    ensures UpTo(turn, n) <==> forall k: nat :: k < n ==> turn(k)
  {
    if n > 0 {
      AllTurns(turn, n - 1);
    }
  }

  /** The checks state the verdicts and the elapsed times. */
  ghost predicate Honest(judge: Judge, p: Summary, markers: seq<PilotMarker>)
    requires Paired(markers)
  {
    forall i: nat :: i < Checkpoints(markers) ==> TruthAt(judge, p, markers, i)
  }

  ghost predicate TruthAt(judge: Judge, p: Summary, markers: seq<PilotMarker>, i: nat)
    requires Paired(markers) && i < Checkpoints(markers)
  {
    CheckpointAt(CheckOf(markers, i)) == Checkpoint((BoundaryNs(markers, i) - p.startNs) as real / 1000000000.0,
      judge.passes(BoundaryNs(markers, i)))
  }

  lemma CountIsStreak(judge: Judge, p: Summary, markers: seq<PilotMarker>, i: nat, count: int)
    requires Paired(markers) && Honest(judge, p, markers) && i < Checkpoints(markers)
    ensures Counts(judge, markers, i, count) <==> count == Streak(Outcomes(CheckpointsOf(markers)), i + 1)
  {
    var flags := Outcomes(CheckpointsOf(markers));
    StreakIsPassingSuffix(flags, i + 1);
    hide Streak, CheckpointAt, CheckOf, Paired;
    forall j: nat | j < Checkpoints(markers)
      ensures flags[j] == judge.passes(BoundaryNs(markers, j))
    {
      assert TruthAt(judge, p, markers, j);
    }
    hide BoundaryNs;
  }

  lemma KindsOf(markers: seq<PilotMarker>, i: nat)
    requires Paired(markers) && i < Checkpoints(markers)
    ensures 2 * i + 3 < |markers| - 2
    ensures BoundaryOf(markers, i) == markers[2 * i + 2] && CheckOf(markers, i) == markers[2 * i + 3]
    ensures markers[2 * i + 2].kind == Boundary && markers[2 * i + 3].kind == Check
  {
  }

  lemma TurnExactly(judge: Judge, p: Summary, markers: seq<PilotMarker>, i: nat)
    requires Paired(markers) && i < Checkpoints(markers) == |p.checks| && Honest(judge, p, markers)
    ensures 2 * i + 3 < |markers|
    ensures Turn(FROZEN, judge, p, markers)(i) <==> CheckpointStands(judge, p, markers, i)
  {
    KindsOf(markers, i);
    hide Counts, Honest, Paired, BoundaryOf, CheckOf, Streak;
    TurnOf(FROZEN, judge, p, markers, i);
    forall count: int
      ensures Counts(judge, markers, i, count) <==> count == Streak(Outcomes(CheckpointsOf(markers)), i + 1)
    {
      CountIsStreak(judge, p, markers, i, count);
    }
    hide Turn, CheckpointsOf;
  }

  lemma EligibleExactly(judge: Judge, p: Summary, markers: seq<PilotMarker>, i: nat)
    requires Paired(markers) && i < Checkpoints(markers) && Honest(judge, p, markers)
    ensures 2 * i + 3 < |markers|
    ensures Eligible(FROZEN, CheckpointsOf(markers), i) <==> MayStop(judge, p, markers, i)
  {
    KindsOf(markers, i);
    var flags := Outcomes(CheckpointsOf(markers));
    StreakIsPassingSuffix(flags, i + 1);
    assert TruthAt(judge, p, markers, i);
    assert i >= 1 ==> TruthAt(judge, p, markers, i - 1);
    assert i >= 2 ==> TruthAt(judge, p, markers, i - 2);
    hide Streak, CheckpointAt, CheckOf, Paired, BoundaryNs, Honest, TruthAt;
  }

  lemma ReplayedTruth(judge: Judge, p: Summary, markers: seq<PilotMarker>, i: nat)
    requires Paired(markers) && i < Checkpoints(markers) && Turn(FROZEN, judge, p, markers)(i)
    ensures TruthAt(judge, p, markers, i)
  {
    KindsOf(markers, i);
    hide Paired, BoundaryOf, CheckOf, Streak, CheckpointsOf;
  }

  lemma StandingTruth(judge: Judge, p: Summary, markers: seq<PilotMarker>, i: nat)
    requires Paired(markers) && i < Checkpoints(markers) == |p.checks| && 2 * i + 3 < |markers|
    requires CheckpointStands(judge, p, markers, i)
    ensures TruthAt(judge, p, markers, i)
  {
    KindsOf(markers, i);
    hide Paired, BoundaryOf, CheckOf, Counts;
  }

  lemma StoppingExactly(judge: Judge, p: Summary, markers: seq<PilotMarker>, n: nat)
    requires Paired(markers) && n == Checkpoints(markers) > 0 && |markers| == 2 * n + 4 && Honest(judge, p, markers)
    ensures StopsAtFirst(FROZEN, CheckpointsOf(markers)) <==> StopsAtLast(judge, p, markers, n)
  {
    var cs := CheckpointsOf(markers);
    hide MayStop, Paired, Checkpoints, Honest, Eligible;
    forall i: nat | i < n
      ensures Eligible(FROZEN, cs, i) <==> MayStop(judge, p, markers, i)
    {
      EligibleExactly(judge, p, markers, i);
    }
    hide CheckpointsOf;
  }

  lemma TurnsExactly(judge: Judge, p: Summary, markers: seq<PilotMarker>, n: nat)
    requires Paired(markers) && n == Checkpoints(markers) == |p.checks| && |markers| == 2 * n + 4
    requires Honest(judge, p, markers)
    ensures UpTo(Turn(FROZEN, judge, p, markers), n) <==> AllStand(judge, p, markers, n)
  {
    var turn := Turn(FROZEN, judge, p, markers);
    AllTurns(turn, n);
    hide Turn, CheckpointStands, UpTo, Paired, Checkpoints, Honest;
    forall i: nat | i < n
      ensures turn(i) <==> CheckpointStands(judge, p, markers, i)
    {
      TurnExactly(judge, p, markers, i);
    }
  }

  lemma HonestWhenReplayed(judge: Judge, p: Summary, markers: seq<PilotMarker>, n: nat)
    requires Paired(markers) && n == Checkpoints(markers) && UpTo(Turn(FROZEN, judge, p, markers), n)
    ensures Honest(judge, p, markers)
  {
    hide Turn, UpTo, Paired, Checkpoints, TruthAt;
    forall i: nat | i < n
      ensures TruthAt(judge, p, markers, i)
    {
      UpToEach(Turn(FROZEN, judge, p, markers), i, n);
      ReplayedTruth(judge, p, markers, i);
    }
  }

  lemma HonestWhenStanding(judge: Judge, p: Summary, markers: seq<PilotMarker>, n: nat)
    requires Paired(markers) && n == Checkpoints(markers) == |p.checks| && |markers| == 2 * n + 4
    requires AllStand(judge, p, markers, n)
    ensures Honest(judge, p, markers)
  {
    hide CheckpointStands, Paired, Checkpoints, TruthAt;
    forall i: nat | i < n
      ensures TruthAt(judge, p, markers, i)
    {
      StandingTruth(judge, p, markers, i);
    }
  }

  /** The checkpoints and the stopping rule, in a well-formed pilot. */
  lemma CheckpointsExactly(judge: Judge, p: Summary, markers: seq<PilotMarker>, n: nat)
    requires Paired(markers) && n == Checkpoints(markers) == |p.checks| && n > 0 && |markers| == 2 * n + 4
    ensures (UpTo(Turn(FROZEN, judge, p, markers), n) && StopsAtFirst(FROZEN, CheckpointsOf(markers))) <==>
      AllStand(judge, p, markers, n) && StopsAtLast(judge, p, markers, n)
  {
    hide Turn, UpTo, Paired, Checkpoints, Honest, StopsAtFirst, CheckpointsOf, AllStand, StopsAtLast;
    if UpTo(Turn(FROZEN, judge, p, markers), n) {
      HonestWhenReplayed(judge, p, markers, n);
    }
    if AllStand(judge, p, markers, n) {
      HonestWhenStanding(judge, p, markers, n);
    }
    if Honest(judge, p, markers) {
      TurnsExactly(judge, p, markers, n);
      StoppingExactly(judge, p, markers, n);
    }
  }

  /** The kinds of the markers are those of standing checkpoints between the outer markers. */
  lemma StandingPaired(judge: Judge, p: Summary, markers: seq<PilotMarker>, n: nat)
    requires PilotStands(judge, p, markers, n)
    ensures Paired(markers) && Checkpoints(markers) == n
  {
    forall i | 2 <= i < |markers| - 2
      ensures markers[i].kind == if i % 2 == 0 then Boundary else Check
    {
      var k := (i - 2) / 2;
      assert CheckpointStands(judge, p, markers, k);
    }
    hide CheckpointStands, MayStop;
  }

  lemma FrameExactly(p: Summary, markers: seq<PilotMarker>, n: nat)
    requires Paired(markers) && n == Checkpoints(markers) && n > 0
    ensures |markers| == 2 * n + 4 && CheckOf(markers, n - 1) == markers[2 * n + 1]
    ensures markers[0].kind == Prepare && markers[1].kind == Start
    ensures markers[2 * n + 2].kind == MeasurementEnd && markers[2 * n + 3].kind == End
  {
  }

  /** The outer markers and the closing ones bind exactly when they stand, once the last check is the
      stored one. */
  lemma ClosingExactly(p: Summary, markers: seq<PilotMarker>, n: nat)
    requires Paired(markers) && n == Checkpoints(markers) == |p.checks| && n > 0 && |markers| == 2 * n + 4
    requires markers[2 * n + 1].entries == p.checks[n - 1]
    requires p.checks[n - 1].CheckEntries? && p.checks[n - 1].scheduled == n as real * 30.0
    ensures (FrameBinds(markers, p) && EndBinds(FROZEN, markers, p)) <==>
      var last := p.checks[n - 1];
      && markers[0] == PilotMarker(markers[0].ns, Prepare, LabelOnly)
      && markers[1] == PilotMarker(p.startNs, Start, LabelOnly)
      && n as real * 30.0 <= 900.0
      && markers[2 * n + 2] == PilotMarker(p.endNs, MeasurementEnd, MeasurementEntries(last.index, last.scheduled,
        last.elapsed, last.checkpointNs, last.consecutive, last.window))
      && markers[2 * n + 3] == PilotMarker(p.cleanupNs, End, Successful)
      && markers[2 * n + 1].ns < p.endNs < p.cleanupNs
  {
    FrameExactly(p, markers, n);
    hide Paired, CheckOf;
  }

  lemma LastCheckStands(judge: Judge, p: Summary, markers: seq<PilotMarker>, n: nat)
    requires n > 0 && |markers| == 2 * n + 4 && |p.checks| == n
    requires CheckpointStands(judge, p, markers, n - 1)
    ensures markers[2 * n + 1].entries == p.checks[n - 1]
    ensures p.checks[n - 1].CheckEntries? && p.checks[n - 1].scheduled == n as real * 30.0
  {
    hide Counts;
  }

  /** `replay_thermal_stability_protocol` gets past its confirmation exactly for the pilots that stand. */
  lemma PilotExactlyStands(judge: Judge, p: Summary, markers: seq<PilotMarker>)
    ensures PilotReplays(FROZEN, judge, p, markers) <==> PilotStands(judge, p, markers, |p.checks|)
  {
    var n := |p.checks|;
    hide CheckpointStands, StopsAtLast, Paired, FrameBinds, EndBinds, StopsAtFirst, Turn, CheckpointsOf, UpTo;
    if PilotReplays(FROZEN, judge, p, markers) {
      OneCheckEach(markers, p);
      FrameExactly(p, markers, n);
      CheckpointsExactly(judge, p, markers, n);
      LastCheckStands(judge, p, markers, n);
      ClosingExactly(p, markers, n);
    }
    if PilotStands(judge, p, markers, n) {
      StandingPaired(judge, p, markers, n);
      CheckpointsExactly(judge, p, markers, n);
      LastCheckStands(judge, p, markers, n);
      ClosingExactly(p, markers, n);
    }
  }
}
