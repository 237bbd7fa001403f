/** Maximum-gap coverage: `_maximum_gap_seconds` (analysis/freeze_p9_thermal.py) and the explicit
    first/last/adjacent comparisons (analysis/freeze_p9_guard.py, analysis/freeze_p9_thermal.py). */
module Coverage {
  import opened Common
  import opened Telemetry

  /** The gaps between neighbouring clocks. */
  function AdjacentGaps(clocks: seq<int>): (gaps: seq<int>)
    ensures |gaps| == if |clocks| < 2 then 0 else |clocks| - 1
    ensures forall i :: 0 <= i < |gaps| ==> gaps[i] == clocks[i + 1] - clocks[i]
  {
    if |clocks| < 2 then [] else seq(|clocks| - 1, i requires 0 <= i < |clocks| - 1 => clocks[i + 1] - clocks[i])
  }

  function Largest(xs: seq<int>): int
    requires xs != []
  {
    if |xs| == 1 then xs[0] else
      var front, last := Largest(xs[..|xs| - 1]), xs[|xs| - 1];
      if last > front then last else front
  }

  lemma {:induction false} LargestAtMost(xs: seq<int>, limit: int)
    requires xs != []
    ensures Largest(xs) <= limit <==> forall i :: 0 <= i < |xs| ==> xs[i] <= limit
    decreases |xs|
  {
    if |xs| > 1 {
      LargestAtMost(xs[..|xs| - 1], limit);
    }
  }

  function AllGaps(clocks: seq<int>, start: int, end: int): seq<int>
    requires clocks != []
  {
    [clocks[0] - start, end - clocks[|clocks| - 1]] + AdjacentGaps(clocks)
  }

  /** `_maximum_gap_seconds`, in nanoseconds. */
  function MaximumGap(clocks: seq<int>, start: int, end: int): Option<int> {
    if clocks == [] then None
    else Some(Largest(AllGaps(clocks, start, end)))
  }

  /** The comparison form: no leading, trailing or neighbouring gap exceeds the limit. */
  predicate NoGapAbove(clocks: seq<int>, start: int, end: int, limit: int) {
    && clocks != []
    && clocks[0] - start <= limit
    && end - clocks[|clocks| - 1] <= limit
    && forall i :: 0 <= i < |clocks| - 1 ==> clocks[i + 1] - clocks[i] <= limit
  }

  lemma GapAt(clocks: seq<int>, start: int, end: int)
    requires clocks != []
    ensures var gaps := AllGaps(clocks, start, end);
      && |gaps| == |clocks| + 1 && gaps[0] == clocks[0] - start && gaps[1] == end - clocks[|clocks| - 1]
      && forall k :: 2 <= k < |gaps| ==> gaps[k] == clocks[k - 1] - clocks[k - 2]
  {
    var gaps, adjacent := AllGaps(clocks, start, end), AdjacentGaps(clocks);
    forall k | 2 <= k < |gaps|
      ensures gaps[k] == clocks[k - 1] - clocks[k - 2]
    {
      assert gaps[k] == adjacent[k - 2];
    }
  }

  /** The max-of-gaps form and the explicit comparisons decide the same predicate. */
  lemma GapFormsAgree(clocks: seq<int>, start: int, end: int, limit: int)
    ensures NoGapAbove(clocks, start, end, limit)
      <==> MaximumGap(clocks, start, end).Some? && MaximumGap(clocks, start, end).value <= limit
  {
    if clocks != [] {
      var gaps := AllGaps(clocks, start, end);
      LargestAtMost(gaps, limit);
      GapAt(clocks, start, end);
      if Largest(gaps) <= limit {
        forall i | 0 <= i < |clocks| - 1
          ensures clocks[i + 1] - clocks[i] <= limit
        {
          assert gaps[i + 2] <= limit;
        }
      }
      if NoGapAbove(clocks, start, end, limit) {
        forall k | 0 <= k < |gaps|
          ensures gaps[k] <= limit
        {
          assert k >= 2 ==> clocks[k - 2 + 1] - clocks[k - 2] <= limit;
        }
      }
    }
  }

  ghost predicate Inside(clocks: seq<int>, start: int, end: int) {
    Increasing(clocks) && forall i :: 0 <= i < |clocks| ==> start <= clocks[i] <= end
  }

  /** A sample lies in the closed interval from `from` to `from + length`. */
  ghost predicate Hit(clocks: seq<int>, from: real, length: int) {
    exists i :: 0 <= i < |clocks| && from <= clocks[i] as real <= from + length as real
  }

  /** Every closed subinterval of length `limit` contains a sample. */
  ghost predicate Covers(clocks: seq<int>, start: int, end: int, limit: int) {
    forall from: real :: start as real <= from && from + limit as real <= end as real ==> Hit(clocks, from, limit)
  }

  lemma {:induction false} HitFrom(clocks: seq<int>, start: int, end: int, limit: int, from: real,
      n: nat) returns (i: nat)
    requires NoGapAbove(clocks, start, end, limit)
    requires start as real <= from && from + limit as real <= end as real
    requires n < |clocks| && from <= clocks[n] as real
    requires forall k :: n < k < |clocks| ==> from <= clocks[k] as real
    ensures i < |clocks| && from <= clocks[i] as real <= from + limit as real
    decreases n
  {
    if n > 0 && from <= clocks[n - 1] as real {
      i := HitFrom(clocks, start, end, limit, from, n - 1);
    } else {
      i := n;
      assert n > 0 ==> clocks[n] - clocks[n - 1] <= limit;
      assert n > 0 ==> clocks[n] as real - clocks[n - 1] as real <= limit as real;
      assert n == 0 ==> clocks[0] as real - start as real <= limit as real;
    }
  }

  /** Bounded gaps mean full coverage, and the other way round. */
  lemma GapsBoundedIffCovered(clocks: seq<int>, start: int, end: int, limit: int)
    requires clocks != [] && Inside(clocks, start, end)
    ensures NoGapAbove(clocks, start, end, limit) <==> Covers(clocks, start, end, limit)
  {
    var last := |clocks| - 1;
    if NoGapAbove(clocks, start, end, limit) {
      forall from: real | start as real <= from && from + limit as real <= end as real
        ensures Hit(clocks, from, limit)
      {
        assert end as real - clocks[last] as real <= limit as real;
        var i := HitFrom(clocks, start, end, limit, from, last);
      }
    }
    if Covers(clocks, start, end, limit) {
      if clocks[0] - start > limit {
        Missed(clocks, start, end, limit, start as real);
      }
      if end - clocks[last] > limit {
        Missed(clocks, start, end, limit, end as real - limit as real);
      }
      forall i | 0 <= i < |clocks| - 1
        ensures clocks[i + 1] - clocks[i] <= limit
      {
        if clocks[i + 1] - clocks[i] > limit {
          var from := clocks[i] as real + (clocks[i + 1] - clocks[i] - limit) as real / 2.0;
          assert forall k :: 0 <= k <= i ==> clocks[k] <= clocks[i];
          assert forall k :: i + 1 <= k < |clocks| ==> clocks[k] >= clocks[i + 1];
          Missed(clocks, start, end, limit, from);
        }
      }
    }
  }

  lemma Missed(clocks: seq<int>, start: int, end: int, limit: int, from: real)
    requires Covers(clocks, start, end, limit)
    requires start as real <= from && from + limit as real <= end as real
    ensures exists i :: 0 <= i < |clocks| && from <= clocks[i] as real <= from + limit as real
  {
    assert Hit(clocks, from, limit);
  }

  /** `n` samples with gaps of at most `limit` span at most `(n + 1) * limit`. */
  lemma {:induction false} SpanBound(clocks: seq<int>, start: int, end: int, limit: int)
    requires NoGapAbove(clocks, start, end, limit)
    ensures (|clocks| + 1) * limit >= end - start
    decreases |clocks|
  {
    if |clocks| > 1 {
      var last := |clocks| - 1;
      SpanBound(clocks[..last], start, clocks[last], limit);
      assert (|clocks| + 1) * limit == |clocks| * limit + limit;
    }
  }

  /** Adding samples never increases the maximum gap. */
  lemma MoreSamplesSmallerGap(clocks: seq<int>, more: seq<int>, start: int, end: int)
    requires clocks != [] && Inside(clocks, start, end) && Inside(more, start, end)
    requires forall t :: t in clocks ==> t in more
    ensures more != [] && MaximumGap(more, start, end).value <= MaximumGap(clocks, start, end).value
  {
    assert clocks[0] in more;
    var limit := MaximumGap(clocks, start, end).value;
    GapFormsAgree(clocks, start, end, limit);
    GapsBoundedIffCovered(clocks, start, end, limit);
    forall from: real | start as real <= from && from + limit as real <= end as real
      ensures Hit(more, from, limit)
    {
      assert Hit(clocks, from, limit);
      var i :| 0 <= i < |clocks| && from <= clocks[i] as real <= from + limit as real;
      assert clocks[i] in more;
    }
    GapsBoundedIffCovered(more, start, end, limit);
    GapFormsAgree(more, start, end, limit);
  }
}
