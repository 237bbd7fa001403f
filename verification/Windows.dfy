/** Selecting samples by clock: the bisect slices and causal lookups of analysis/freeze_p9_guard.py
    against the plain filters of analysis/freeze_p9_thermal.py and analysis/freeze_p9_deadline.py. */
module Windows {
  import opened Common
  import opened Telemetry

  // ------------------------------------------------------------------
  // Bisection
  // ------------------------------------------------------------------

  /** `bisect_left` between `lo` and `hi`: halve until the first clock not below `x` is found. */
  function BisectLeftIn(clocks: seq<int>, x: int, lo: nat, hi: nat): (k: nat)
    requires lo <= hi <= |clocks|
    ensures lo <= k <= hi
    decreases hi - lo
  {
    if lo == hi then lo else
      var mid := (lo + hi) / 2;
      if clocks[mid] < x then BisectLeftIn(clocks, x, mid + 1, hi) else BisectLeftIn(clocks, x, lo, mid)
  }

  /** `bisect_right`: the same for the first clock above `x`. */
  function BisectRightIn(clocks: seq<int>, x: int, lo: nat, hi: nat): (k: nat)
    requires lo <= hi <= |clocks|
    ensures lo <= k <= hi
    decreases hi - lo
  {
    if lo == hi then lo else
      var mid := (lo + hi) / 2;
      if x < clocks[mid] then BisectRightIn(clocks, x, lo, mid) else BisectRightIn(clocks, x, mid + 1, hi)
  }

  function BisectLeft(clocks: seq<int>, x: int): nat { BisectLeftIn(clocks, x, 0, |clocks|) }

  function BisectRight(clocks: seq<int>, x: int): nat { BisectRightIn(clocks, x, 0, |clocks|) }

  lemma Around(clocks: seq<int>, mid: nat, x: int)
    requires mid < |clocks| && Increasing(clocks)
    ensures clocks[mid] < x ==> forall i :: 0 <= i <= mid ==> clocks[i] < x
    ensures clocks[mid] <= x ==> forall i :: 0 <= i <= mid ==> clocks[i] <= x
    ensures clocks[mid] >= x ==> forall i :: mid <= i < |clocks| ==> clocks[i] >= x
    ensures clocks[mid] > x ==> forall i :: mid <= i < |clocks| ==> clocks[i] > x
  {
  }

  lemma {:induction false} BisectLeftInSplits(clocks: seq<int>, x: int, lo: nat, hi: nat, k: nat)
    requires lo <= hi <= |clocks| && Increasing(clocks) && k == BisectLeftIn(clocks, x, lo, hi)
    ensures forall i :: lo <= i < k ==> clocks[i] < x
    ensures forall i :: k <= i < hi ==> clocks[i] >= x
    decreases hi - lo
  {
    if lo < hi {
      var mid := (lo + hi) / 2;
      Around(clocks, mid, x);
      if clocks[mid] < x {
        BisectLeftInSplits(clocks, x, mid + 1, hi, k);
      } else {
        BisectLeftInSplits(clocks, x, lo, mid, k);
      }
    }
  }

  lemma {:induction false} BisectRightInSplits(clocks: seq<int>, x: int, lo: nat, hi: nat, k: nat)
    requires lo <= hi <= |clocks| && Increasing(clocks) && k == BisectRightIn(clocks, x, lo, hi)
    ensures forall i :: lo <= i < k ==> clocks[i] <= x
    ensures forall i :: k <= i < hi ==> clocks[i] > x
    decreases hi - lo
  {
    if lo < hi {
      var mid := (lo + hi) / 2;
      Around(clocks, mid, x);
      if x < clocks[mid] {
        BisectRightInSplits(clocks, x, lo, mid, k);
      } else {
        BisectRightInSplits(clocks, x, mid + 1, hi, k);
      }
    }
  }

  /** On increasing clocks the bisection points separate the clocks below (or not above) `x`. */
  lemma BisectSplits(clocks: seq<int>, x: int)
    requires Increasing(clocks)
    ensures forall i :: 0 <= i < |clocks| ==> (clocks[i] < x <==> i < BisectLeft(clocks, x))
    ensures forall i :: 0 <= i < |clocks| ==> (clocks[i] <= x <==> i < BisectRight(clocks, x))
  {
    BisectLeftInSplits(clocks, x, 0, |clocks|, BisectLeft(clocks, x));
    BisectRightInSplits(clocks, x, 0, |clocks|, BisectRight(clocks, x));
  }

  // ------------------------------------------------------------------
  // Filters
  // ------------------------------------------------------------------

  /** The samples whose clock satisfies `keep`, in log order. */
  function Select(samples: seq<Sample>, keep: int -> bool): seq<Sample> {
    if samples == [] then [] else
      var front, last := Select(samples[..|samples| - 1], keep), samples[|samples| - 1];
      if keep(last.ns) then front + [last] else front
  }

  lemma SelectLast(samples: seq<Sample>, keep: int -> bool)
    ensures samples == [] ==> Select(samples, keep) == []
    ensures samples != [] && keep(samples[|samples| - 1].ns) ==>
      Select(samples, keep) == Select(samples[..|samples| - 1], keep) + [samples[|samples| - 1]]
    ensures samples != [] && !keep(samples[|samples| - 1].ns) ==>
      Select(samples, keep) == Select(samples[..|samples| - 1], keep)
  {
  }

  /** When exactly the samples at positions `l` to `r` are kept, the filter is that slice. */
  lemma {:induction false} SelectIsSlice(samples: seq<Sample>, keep: int -> bool, l: nat, r: nat)
    requires l <= r <= |samples|
    requires forall i :: 0 <= i < |samples| ==> (keep(samples[i].ns) <==> l <= i < r)
    ensures Select(samples, keep) == samples[l..r]
    decreases |samples|
  {
    hide Select;
    SelectLast(samples, keep);
    if samples != [] {
      var front, n := samples[..|samples| - 1], |samples|;
      if r < n {
        SelectIsSlice(front, keep, l, r);
      } else if l < r {
        SelectIsSlice(front, keep, l, r - 1);
        assert samples[l..n] == front[l..n - 1] + [samples[n - 1]];
      } else {
        SelectIsSlice(front, keep, l - 1, l - 1);
      }
    }
  }

  function Closed(start: int, end: int): int -> bool { t => start <= t <= end }

  function HalfOpen(start: int, end: int): int -> bool { t => start <= t < end }

  /** After `notBefore` and not after `reference`. */
  function After(notBefore: int, reference: int): int -> bool { t => notBefore < t <= reference }

  /** The bisect slice of `_thermal_window_evidence`. */
  function WindowSlice(samples: seq<Sample>, start: int, reference: int): seq<Sample> {
    var clocks := SampleClocks(samples);
    var left, right := BisectLeft(clocks, start), BisectRight(clocks, reference);
    if left <= right then samples[left..right] else []
  }

  /** The bisect slice holds exactly the samples that the linear time filter keeps. */
  lemma SliceIsFilter(samples: seq<Sample>, start: int, reference: int)
    requires Increasing(SampleClocks(samples)) && start <= reference
    ensures WindowSlice(samples, start, reference) == Select(samples, Closed(start, reference))
  {
    var clocks := SampleClocks(samples);
    BisectSplits(clocks, start);
    BisectSplits(clocks, reference);
    var left, right := BisectLeft(clocks, start), BisectRight(clocks, reference);
    assert left > 0 ==> clocks[left - 1] < start;
    SelectIsSlice(samples, Closed(start, reference), left, right);
  }

  // ------------------------------------------------------------------
  // Causal lookup
  // ------------------------------------------------------------------

  /** `_causal_sample`: the first sample after the boundary, or the latest one. */
  function CausalSample(samples: seq<Sample>, reference: int, notBefore: int,
      firstAfterBoundary: bool): Option<Sample> {
    var clocks := SampleClocks(samples);
    if firstAfterBoundary then
      var index := BisectRight(clocks, notBefore);
      if index >= |samples| || samples[index].ns > reference then None else Some(samples[index])
    else
      var index: int := BisectRight(clocks, reference) - 1;
      if index < 0 || samples[index].ns <= notBefore then None else Some(samples[index])
  }

  /** The filter `notBefore < t <= reference` is the slice between two bisection points. */
  lemma AfterIsSlice(samples: seq<Sample>, reference: int, notBefore: int) returns (left: nat, right: nat)
    requires Increasing(SampleClocks(samples)) && notBefore < reference
    ensures left == BisectRight(SampleClocks(samples), notBefore)
    ensures right == BisectRight(SampleClocks(samples), reference)
    ensures left <= right <= |samples| && Select(samples, After(notBefore, reference)) == samples[left..right]
    ensures forall i :: 0 <= i < |samples| ==>
      (samples[i].ns <= notBefore <==> i < left) && (samples[i].ns <= reference <==> i < right)
  {
    var clocks := SampleClocks(samples);
    left, right := BisectRight(clocks, notBefore), BisectRight(clocks, reference);
    RightSplits(samples, notBefore);
    RightSplits(samples, reference);
    assert left > 0 ==> samples[left - 1].ns <= notBefore;
    SelectIsSlice(samples, After(notBefore, reference), left, right);
  }

  lemma RightSplits(samples: seq<Sample>, x: int)
    requires Increasing(SampleClocks(samples))
    ensures forall i :: 0 <= i < |samples| ==> (samples[i].ns <= x <==> i < BisectRight(SampleClocks(samples), x))
  {
    BisectSplits(SampleClocks(samples), x);
    assert forall i :: 0 <= i < |samples| ==> SampleClocks(samples)[i] == samples[i].ns;
  }

  /** The causal lookup returns the first, respectively the last, sample of the filter
      `notBefore < t <= reference`, and none exactly when that filter is empty. */
  lemma CausalSampleIsExtreme(samples: seq<Sample>, reference: int, notBefore: int, firstAfterBoundary: bool)
    requires Increasing(SampleClocks(samples)) && notBefore < reference
    ensures var kept := Select(samples, After(notBefore, reference));
      CausalSample(samples, reference, notBefore, firstAfterBoundary)
        == if kept == [] then None else Some(if firstAfterBoundary then kept[0] else kept[|kept| - 1])
  {
    var left, right := AfterIsSlice(samples, reference, notBefore);
  }

  /** The deadline freezer's filter form of the same lookups accepts exactly the same sample. */
  lemma DeadlineFormAgrees(samples: seq<Sample>, reference: int, notBefore: int, s: Sample)
    requires Increasing(SampleClocks(samples)) && notBefore < reference
    ensures var kept := Select(samples, After(notBefore, reference));
      && (CausalSample(samples, reference, notBefore, true) == Some(s) <==> kept != [] && kept[0] == s)
      && (CausalSample(samples, reference, notBefore, false) == Some(s) <==> kept != [] && kept[|kept| - 1] == s)
  {
    CausalSampleIsExtreme(samples, reference, notBefore, true);
    CausalSampleIsExtreme(samples, reference, notBefore, false);
  }
}
