/** Runs of consecutive passes, as every replay counts them
    (`consecutive = consecutive + 1 if passed else 0`). */
module Streaks {

  /** The counter after the first `n` outcomes. */
  function Streak(passed: seq<bool>, n: nat): (k: nat)
    requires n <= |passed|
    ensures k <= n
  {
    if n == 0 then 0 else if passed[n - 1] then Streak(passed, n - 1) + 1 else 0
  }

  /** The counter is the length of the longest all-pass suffix. */
  lemma {:induction false} StreakIsPassingSuffix(passed: seq<bool>, n: nat)
    requires n <= |passed|
    ensures forall i :: n - Streak(passed, n) <= i < n ==> passed[i]
    ensures Streak(passed, n) < n ==> !passed[n - Streak(passed, n) - 1]
  {
    if n > 0 && passed[n - 1] {
      StreakIsPassingSuffix(passed, n - 1);
    }
  }

  /** The counter reads only the outcomes before it. */
  lemma {:induction false} StreakOfPrefix(passed: seq<bool>, longer: seq<bool>, n: nat)
    requires n <= |passed| <= |longer| && passed == longer[..|passed|]
    ensures Streak(passed, n) == Streak(longer, n)
  {
    if n > 0 {
      StreakOfPrefix(passed, longer, n - 1);
    }
  }
}

/** Active stability endpoints: the guard replay (analysis/freeze_p9_guard.py:1582-1639) and the
    deadline replay (analysis/freeze_p9_deadline.py:1103-1197) of the same checks. */
module ActiveStability {
  import opened Streaks

  const ENDPOINTS: nat := 3
  const SPACING_NS: int := 1000000000

  datatype Endpoint = Endpoint(sampleNs: int, passed: bool)

  function Flags(checks: seq<Endpoint>): (flags: seq<bool>)
    ensures |flags| == |checks| && forall i :: 0 <= i < |checks| ==> flags[i] == checks[i].passed
  {
    seq(|checks|, i requires 0 <= i < |checks| => checks[i].passed)
  }

  /** Two neighbouring passes closer than one second. */
  predicate Crowded(before: Endpoint, after: Endpoint) {
    before.passed && after.passed && after.sampleNs - before.sampleNs < SPACING_NS
  }

  /** The guard rule on the first `n` checks: a pass that follows a pass is at least one second later. */
  ghost predicate GuardSpacedUpTo(checks: seq<Endpoint>, n: nat)
    requires n <= |checks|
  {
    forall i :: 0 < i < n ==> !Crowded(checks[i - 1], checks[i])
  }

  ghost predicate GuardSpaced(checks: seq<Endpoint>) { GuardSpacedUpTo(checks, |checks|) }

  /** The deadline rule: every check is at least one second after the one before. */
  predicate DeadlineSpaced(checks: seq<Endpoint>) {
    forall i :: 0 < i < |checks| ==> checks[i].sampleNs - checks[i - 1].sampleNs >= SPACING_NS
  }

  /** The guard loop and the test after it accept the endpoints. */
  ghost predicate GuardStable(checks: seq<Endpoint>) {
    && |checks| >= ENDPOINTS
    && GuardSpaced(checks)
    && (forall i :: |checks| - ENDPOINTS <= i < |checks| ==> checks[i].passed)
    && Streak(Flags(checks), |checks|) == ENDPOINTS
  }

  /** The deadline loop and the tests after it accept the endpoints. */
  predicate DeadlineStable(checks: seq<Endpoint>) {
    && checks != []
    && DeadlineSpaced(checks)
    && Streak(Flags(checks), |checks|) == ENDPOINTS
    && forall i :: |checks| - ENDPOINTS <= i < |checks| ==> i >= 0 && checks[i].passed
  }

  /** Accepted endpoints end in a run of exactly three passes: the check before them, if there is
      one, failed, and the three samples are pairwise at least one second apart. */
  lemma StableEndsInThree(checks: seq<Endpoint>)
    requires GuardStable(checks)
    ensures var n := |checks|;
      && checks[n - 3].passed && checks[n - 2].passed && checks[n - 1].passed
      && (n > 3 ==> !checks[n - 4].passed)
      && checks[n - 2].sampleNs - checks[n - 3].sampleNs >= 1000000000
      && checks[n - 1].sampleNs - checks[n - 2].sampleNs >= 1000000000
  {
    var n := |checks|;
    StreakIsPassingSuffix(Flags(checks), n);
    assert !Crowded(checks[n - 2 - 1], checks[n - 2]) && !Crowded(checks[n - 1 - 1], checks[n - 1]);
  }

  /** The guard's rule, of all lists of endpoints: they end in exactly three passes, and of any two
      neighbours that both passed the second comes a second or more after the first. */
  lemma GuardStableExactly(checks: seq<Endpoint>)
    ensures var n := |checks|;
      GuardStable(checks) <==>
        && n >= 3 && checks[n - 3].passed && checks[n - 2].passed && checks[n - 1].passed
        && (n > 3 ==> !checks[n - 4].passed)
        && forall i :: 0 < i < n && checks[i - 1].passed && checks[i].passed ==>
          checks[i].sampleNs - checks[i - 1].sampleNs >= 1000000000
  {
    var n, flags := |checks|, Flags(checks);
    StreakIsPassingSuffix(flags, n);
    if n >= 3 {
      assert flags[n - 1] == checks[n - 1].passed && flags[n - 2] == checks[n - 2].passed;
      assert flags[n - 3] == checks[n - 3].passed && (n > 3 ==> flags[n - 4] == checks[n - 4].passed);
    }
    if GuardStable(checks) {
      forall i | 0 < i < n && checks[i - 1].passed && checks[i].passed
        ensures checks[i].sampleNs - checks[i - 1].sampleNs >= 1000000000
      {
        assert !Crowded(checks[i - 1], checks[i]);
      }
    }
  }

  /** The deadline's rule differs in one point: all neighbours are that far apart. */
  lemma DeadlineStableExactly(checks: seq<Endpoint>)
    ensures DeadlineStable(checks) <==>
      GuardStable(checks) && forall i :: 0 < i < |checks| ==>
        checks[i].sampleNs - checks[i - 1].sampleNs >= 1000000000
  {
    if DeadlineStable(checks) {
      DeadlineStableImpliesGuardStable(checks);
    }
  }

  /** What the deadline replay accepts, the guard replay accepts; the three-pass tests after the
      loops add nothing to the counter. */
  lemma DeadlineStableImpliesGuardStable(checks: seq<Endpoint>)
    requires DeadlineStable(checks)
    ensures GuardStable(checks)
  {
    StreakIsPassingSuffix(Flags(checks), |checks|);
  }

  /** In both replays the counter alone decides: the test of the last three flags never fires. */
  lemma FinalFlagsNeverReject(checks: seq<Endpoint>)
    requires Streak(Flags(checks), |checks|) == ENDPOINTS
    ensures |checks| >= ENDPOINTS && forall i :: |checks| - ENDPOINTS <= i < |checks| ==> checks[i].passed
  {
    StreakIsPassingSuffix(Flags(checks), |checks|);
  }

  /** Of the endpoints the guard accepts, the deadline rejects exactly those in which some
      neighbouring pair with a failure is closer than one second. */
  lemma DeadlineRejectsOnlyNearFailures(checks: seq<Endpoint>)
    requires GuardStable(checks)
    ensures !DeadlineStable(checks) <==> exists i :: 0 < i < |checks| && TooClose(checks[i - 1], checks[i])
  {
    if i :| 0 < i < |checks| && TooClose(checks[i - 1], checks[i]) {
      assert !DeadlineSpaced(checks);
    }
  }

  /** A neighbouring pair with a failure, closer than one second. */
  predicate TooClose(before: Endpoint, after: Endpoint) {
    !(before.passed && after.passed) && after.sampleNs - before.sampleNs < SPACING_NS
  }

  /** A list of endpoints that the guard accepts can be extended to another accepted list only
      through a failure: directly after the third pass nothing more is accepted. */
  lemma FourthPassRejected(checks: seq<Endpoint>, next: Endpoint)
    requires GuardStable(checks) && next.passed
    ensures !GuardStable(checks + [next])
  {
    var more := checks + [next];
    StreakOfPrefix(Flags(checks), Flags(more), |checks|);
  }
}
