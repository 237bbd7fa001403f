/** The Type-7 percentile in its three spellings: analysis/freeze_p9_guard.py (weighted form,
    with shortcuts), analysis/freeze_p9_deadline.py (difference form) and
    analysis/freeze_p9_pipeline_deadline.py (weighted form). */
module Percentile {
  import opened Arithmetic
  import opened Common

  // ------------------------------------------------------------------
  // Sorting
  // ------------------------------------------------------------------

  ghost predicate Ascending(xs: seq<real>) {
    forall i, j :: 0 <= i <= j < |xs| ==> xs[i] <= xs[j]
  }

  function InsertSorted(x: real, xs: seq<real>): (r: seq<real>)
    ensures |r| == |xs| + 1
    ensures Ascending(xs) ==> Ascending(r) && (r[0] == x || (xs != [] && r[0] == xs[0]))
  {
    if xs == [] || x <= xs[0] then [x] + xs else [xs[0]] + InsertSorted(x, xs[1..])
  }

  lemma {:induction false} InsertSortedElements(x: real, xs: seq<real>)
    ensures multiset(InsertSorted(x, xs)) == multiset(xs) + multiset{x}
    decreases |xs|
  {
    if xs != [] && x > xs[0] {
      InsertSortedElements(x, xs[1..]);
      assert xs == [xs[0]] + xs[1..];
    }
  }

  /** The sorted copy every percentile starts from. */
  function Sorted(xs: seq<real>): (r: seq<real>)
    ensures |r| == |xs| && multiset(r) == multiset(xs) && Ascending(r)
  {
    if xs == [] then [] else
      assert xs == [xs[0]] + xs[1..];
      InsertSortedElements(xs[0], Sorted(xs[1..]));
      InsertSorted(xs[0], Sorted(xs[1..]))
  }

  ghost predicate Dominated(xs: seq<real>, ys: seq<real>) {
    |xs| == |ys| && forall i :: 0 <= i < |xs| ==> xs[i] <= ys[i]
  }

  lemma {:induction false} InsertDominated(x: real, xs: seq<real>, y: real, ys: seq<real>)
    requires x <= y && Dominated(xs, ys) && Ascending(xs) && Ascending(ys)
    ensures Dominated(InsertSorted(x, xs), InsertSorted(y, ys))
    decreases |xs|
  {
    if xs != [] {
      var s, t := xs[1..], ys[1..];
      var x', y' := if x <= xs[0] then xs[0] else x, if y <= ys[0] then ys[0] else y;
      HeadInsertion(x, xs);
      HeadInsertion(y, ys);
      InsertDominated(x', s, y', t);
    }
  }

  /** Inserting into a sorted list puts the smaller of the two heads first. */
  lemma HeadInsertion(x: real, xs: seq<real>)
    requires xs != [] && Ascending(xs)
    ensures InsertSorted(x, xs) == if x <= xs[0] then [x] + InsertSorted(xs[0], xs[1..]) else [xs[0]] + InsertSorted(x,
      xs[1..])
  {
    if x <= xs[0] {
      assert xs == [xs[0]] + xs[1..];
    }
  }

  /** Dominated lists have dominated order statistics. */
  lemma {:induction false} SortedDominated(xs: seq<real>, ys: seq<real>)
    requires Dominated(xs, ys)
    ensures Dominated(Sorted(xs), Sorted(ys))
    decreases |xs|
  {
    if xs != [] {
      SortedDominated(xs[1..], ys[1..]);
      InsertDominated(xs[0], Sorted(xs[1..]), ys[0], Sorted(ys[1..]));
    }
  }

  lemma TailElements(xs: seq<real>)
    requires xs != []
    ensures multiset(xs[1..]) == multiset(xs) - multiset{xs[0]}
  {
    assert xs == [xs[0]] + xs[1..];
  }

  lemma HeadIsLeast(xs: seq<real>, x: real)
    requires xs != [] && Ascending(xs) && x in multiset(xs)
    ensures xs[0] <= x
  {
  }

  lemma SameHead(xs: seq<real>, ys: seq<real>)
    requires xs != [] && ys != [] && Ascending(xs) && Ascending(ys) && multiset(xs) == multiset(ys)
    ensures xs[0] == ys[0]
  {
    assert ys[0] in multiset(ys) && xs[0] in multiset(xs);
    HeadIsLeast(xs, ys[0]);
    HeadIsLeast(ys, xs[0]);
  }

  lemma SameLength(xs: seq<real>, ys: seq<real>)
    requires multiset(xs) == multiset(ys)
    ensures |xs| == |ys|
  {
    assert |multiset(xs)| == |xs| && |multiset(ys)| == |ys|;
  }

  /** A multiset has one sorted list. */
  lemma {:induction false} AscendingUnique(xs: seq<real>, ys: seq<real>)
    requires Ascending(xs) && Ascending(ys) && multiset(xs) == multiset(ys)
    ensures xs == ys
    decreases |xs|
  {
    SameLength(xs, ys);
    if xs != [] {
      SameHead(xs, ys);
      TailElements(xs);
      TailElements(ys);
      var s, t := xs[1..], ys[1..];
      assert multiset(s) == multiset(t);
      AscendingUnique(s, t);
      assert xs == [xs[0]] + s && ys == [ys[0]] + t;
    }
  }

  // ------------------------------------------------------------------
  // The three spellings
  // ------------------------------------------------------------------

  datatype Error = NoSamples | BadQuantile | NegativeSample

  /** The fractional index `q * (n - 1)`. */
  function Position(n: nat, q: real): (p: real)
    requires n > 0 && 0.0 <= q <= 1.0
    ensures 0.0 <= p <= (n - 1) as real
  {
    ProductBounds(q, (n - 1) as real);
    Product(q, (n - 1) as real)
  }

  lemma ProductBounds(q: real, x: real)
    requires 0.0 <= q <= 1.0 && x >= 0.0
    ensures 0.0 <= Product(q, x) <= x
  {
    PartOf(x, q);
    assert Product(q, x) == Product(x, q);
  }

  function Floor(x: real): int { x.Floor }

  function Ceiling(x: real): (r: int)
    ensures r == if Floor(x) as real == x then Floor(x) else Floor(x) + 1
  {
    -((-x).Floor)
  }

  predicate AllNonnegative(values: seq<real>) {
    forall i :: 0 <= i < |values| ==> values[i] >= 0.0
  }

  /** `percentile_type7` of the guard freezer. */
  function PercentileType7(values: seq<real>, q: real): Result<real, Error> {
    if values == [] then Err(NoSamples)
    else if !(0.0 <= q <= 1.0) then Err(BadQuantile)
    else if !AllNonnegative(values) then Err(NegativeSample)
    else Ok(WithShortcuts(Sorted(values), q))
  }

  function WithShortcuts(ordered: seq<real>, q: real): real
    requires ordered != [] && 0.0 <= q <= 1.0
  {
    if |ordered| == 1 then ordered[0] else
      var position := Position(|ordered|, q);
      var lower, upper := Floor(position), Ceiling(position);
      if lower == upper then ordered[lower] else
        var weight := position - lower as real;
        Product(ordered[lower], 1.0 - weight) + Product(ordered[upper], weight)
  }

  /** `percentile` of the deadline freezer. */
  function PercentileByDifference(values: seq<real>, q: real): Result<real, Error> {
    if values == [] then Err(NoSamples)
    else if !(0.0 <= q <= 1.0) then Err(BadQuantile)
    else
      var ordered := Sorted(values);
      var position := Position(|ordered|, q);
      var lower, upper := Floor(position), Ceiling(position);
      var fraction := position - lower as real;
      Ok(ordered[lower] + Product(ordered[upper] - ordered[lower], fraction))
  }

  /** `percentile` of the pipeline deadline freezer, whose callers all pass 0.99. */
  function PercentileByWeights(values: seq<real>, q: real): Result<real, Error>
    requires 0.0 <= q <= 1.0
  {
    var ordered := Sorted(values);
    if ordered == [] then Err(NoSamples) else
      var position := Position(|ordered|, q);
      var lower, upper := Floor(position), Ceiling(position);
      var fraction := position - lower as real;
      Ok(Product(ordered[lower], 1.0 - fraction) + Product(ordered[upper], fraction))
  }

  // ------------------------------------------------------------------
  // The Type-7 value
  // ------------------------------------------------------------------

  /** The value on a sorted list: the order statistic below the position, moved towards the
      next one by the fractional part. */
  function AtPosition(ordered: seq<real>, position: real): real
    requires ordered != [] && 0.0 <= position <= (|ordered| - 1) as real
  {
    var lower := Floor(position);
    var fraction := position - lower as real;
    if fraction == 0.0 then ordered[lower] else ordered[lower] + Product(ordered[lower + 1] - ordered[lower], fraction)
  }

  function Type7(values: seq<real>, q: real): real
    requires values != [] && 0.0 <= q <= 1.0
  {
    AtPosition(Sorted(values), Position(|values|, q))
  }

  lemma WeightedIsDifference(low: real, high: real, fraction: real)
    ensures Product(low, 1.0 - fraction) + Product(high, fraction) == low + Product(high - low, fraction)
  {
  }

  lemma DifferenceSpellingAgrees(values: seq<real>, q: real)
    requires values != [] && 0.0 <= q <= 1.0
    ensures PercentileByDifference(values, q) == Ok(Type7(values, q))
  {
    hide Product, AtPosition, Floor, Ceiling, Position;
    WeightsAgree(Sorted(values), Position(|values|, q));
  }

  /** The plain weighted spelling computes the same value as the difference spelling. */
  lemma WeightedSpellingAgrees(values: seq<real>, q: real)
    requires values != [] && 0.0 <= q <= 1.0
    ensures PercentileByWeights(values, q) == Ok(Type7(values, q))
  {
    hide Product, AtPosition, Floor, Ceiling, Position;
    WeightsAgree(Sorted(values), Position(|values|, q));
  }

  lemma ShortcutsAgree(ordered: seq<real>, q: real)
    requires ordered != [] && 0.0 <= q <= 1.0
    ensures WithShortcuts(ordered, q) == AtPosition(ordered, Position(|ordered|, q))
  {
    var position := Position(|ordered|, q);
    if |ordered| > 1 && Floor(position) != Ceiling(position) {
      WeightsAgree(ordered, position);
    }
  }

  /** The guard spelling, with its shortcuts, computes that value too, except that it rejects
      negative samples. */
  lemma GuardSpellingAgrees(values: seq<real>, q: real)
    requires values != [] && 0.0 <= q <= 1.0
    ensures PercentileType7(values, q) == if AllNonnegative(values) then Ok(Type7(values, q)) else Err(NegativeSample)
  {
    ShortcutsAgree(Sorted(values), q);
  }

  lemma WeightsAgree(ordered: seq<real>, position: real)
    requires ordered != [] && 0.0 <= position <= (|ordered| - 1) as real
    ensures var lower, upper := Floor(position), Ceiling(position);
      var fraction := position - lower as real;
      && AtPosition(ordered, position) == ordered[lower] + Product(ordered[upper] - ordered[lower], fraction)
      && AtPosition(ordered, position) == Product(ordered[lower], 1.0 - fraction) + Product(ordered[upper], fraction)
  {
    var lower, upper := Floor(position), Ceiling(position);
    var fraction := position - lower as real;
    NoPart(ordered[upper] - ordered[lower]);
    WeightedIsDifference(ordered[lower], ordered[upper], fraction);
  }

  // ------------------------------------------------------------------
  // The value in plain numbers
  // ------------------------------------------------------------------

  /** `ordered` holds the values in ascending order. */
  ghost predicate Orders(ordered: seq<real>, values: seq<real>) {
    multiset(ordered) == multiset(values) && forall i, j :: 0 <= i < j < |ordered| ==> ordered[i] <= ordered[j]
  }

  lemma OrderedIsSorted(ordered: seq<real>, values: seq<real>)
    requires Orders(ordered, values)
    ensures ordered == Sorted(values) && |ordered| == |values|
  {
    SameLength(ordered, values);
    AscendingUnique(ordered, Sorted(values));
  }

  lemma AtExactly(ordered: seq<real>, position: real, k: nat, f: real)
    requires k + 1 < |ordered| && 0.0 <= f <= 1.0 && position == k as real + f
    ensures AtPosition(ordered, position) == ordered[k] + f * (ordered[k + 1] - ordered[k])
  {
    if f == 1.0 {
      assert Floor(position) == k + 1;
    } else {
      assert Floor(position) == k;
    }
  }

  /** Where the Type-7 value lies: `k` whole steps and a fraction `f` of the next one along the ordered
      samples, where the quantile is the same part of the steps from the first to the last.  All three
      spellings return it. */
  lemma InterpolatesExactly(values: seq<real>, ordered: seq<real>, q: real, k: nat, f: real)
    requires 0.0 <= q <= 1.0 && Orders(ordered, values) && k + 1 < |values| && 0.0 <= f <= 1.0
    requires q * (|values| - 1) as real == k as real + f
    ensures |ordered| == |values|
    ensures var value := ordered[k] + f * (ordered[k + 1] - ordered[k]);
      && Type7(values, q) == value
      && PercentileByDifference(values, q) == Ok(value)
      && PercentileByWeights(values, q) == Ok(value)
      && PercentileType7(values, q) == if AllNonnegative(values) then Ok(value) else Err(NegativeSample)
  {
    OrderedIsSorted(ordered, values);
    DifferenceSpellingAgrees(values, q);
    WeightedSpellingAgrees(values, q);
    GuardSpellingAgrees(values, q);
    hide AtPosition, PercentileByDifference, PercentileByWeights, PercentileType7, Sorted;
    AtExactly(ordered, Position(|values|, q), k, f);
  }

  /** A single sample is every percentile of itself. */
  lemma SingleSample(x: real, q: real)
    requires 0.0 <= q <= 1.0
    ensures Type7([x], q) == x && PercentileByDifference([x], q) == Ok(x) && PercentileByWeights([x], q) == Ok(x)
    ensures PercentileType7([x], q) == if x >= 0.0 then Ok(x) else Err(NegativeSample)
  {
    assert Sorted([x])[0] in multiset([x]);
    DifferenceSpellingAgrees([x], q);
    WeightedSpellingAgrees([x], q);
    GuardSpellingAgrees([x], q);
    hide PercentileByDifference, PercentileByWeights, PercentileType7, Sorted;
  }

  ghost predicate EvenSteps(ordered: seq<real>, a: real, b: real) {
    forall i :: 0 <= i < |ordered| ==> ordered[i] == a + b * i as real
  }

  lemma StepsUp(ordered: seq<real>, a: real, b: real, k: nat, f: real, x: real)
    requires EvenSteps(ordered, a, b) && k + 1 < |ordered| && x == k as real + f
    ensures ordered[k] + f * (ordered[k + 1] - ordered[k]) == a + b * x
  {
    assert ordered[k] == a + b * k as real && ordered[k + 1] == a + b * (k + 1) as real;
  }

  lemma WholeAndPart(x: real, m: nat) returns (k: nat, f: real)
    requires 0.0 <= x <= (m + 1) as real
    ensures k <= m && 0.0 <= f <= 1.0 && x == k as real + f
  {
    k := if x.Floor > m then m else x.Floor;
    f := x - k as real;
  }

  lemma PartOfSteps(q: real, steps: real)
    requires 0.0 <= q <= 1.0 && steps >= 0.0
    ensures 0.0 <= q * steps <= steps
  {
  }

  /** Evenly spaced samples, in any order: the quantile is where it should be between the ends. */
  lemma EvenlySpaced(values: seq<real>, ordered: seq<real>, a: real, b: real, q: real)
    requires |values| >= 2 && 0.0 <= q <= 1.0 && Orders(ordered, values) && EvenSteps(ordered, a, b)
    ensures Type7(values, q) == a + b * (q * (|values| - 1) as real)
  {
    hide Type7, Sorted, EvenSteps, Orders, PercentileByDifference, PercentileByWeights, PercentileType7;
    OrderedIsSorted(ordered, values);
    var x := q * (|values| - 1) as real;
    PartOfSteps(q, (|values| - 1) as real);
    var k, f := WholeAndPart(x, |values| - 2);
    InterpolatesExactly(values, ordered, q, k, f);
    StepsUp(ordered, a, b, k, f, x);
  }

  lemma PermutationInvariant(values: seq<real>, others: seq<real>, q: real)
    requires values != [] && multiset(values) == multiset(others) && 0.0 <= q <= 1.0
    ensures others != [] && Type7(values, q) == Type7(others, q)
  {
    assert |multiset(values)| == |values| && |multiset(others)| == |others|;
    AscendingUnique(Sorted(values), Sorted(others));
  }

  /** The value lies between its two neighbouring order statistics. */
  lemma BetweenNeighbours(ordered: seq<real>, position: real)
    requires ordered != [] && Ascending(ordered) && 0.0 <= position <= (|ordered| - 1) as real
    ensures ordered[Floor(position)] <= AtPosition(ordered, position) <= ordered[Ceiling(position)]
  {
    var lower := Floor(position);
    var fraction := position - lower as real;
    if fraction > 0.0 {
      PartOf(ordered[lower + 1] - ordered[lower], fraction);
    }
  }

  lemma NoPart(x: real)
    ensures Product(x, 0.0) == 0.0
  {
  }

  lemma PartOf(x: real, fraction: real)
    requires x >= 0.0 && 0.0 <= fraction <= 1.0
    ensures 0.0 <= Product(x, fraction) <= x
  {
  }

  lemma BoundedByExtremes(values: seq<real>, q: real, low: real, high: real)
    requires values != [] && 0.0 <= q <= 1.0
    requires forall i :: 0 <= i < |values| ==> low <= values[i] <= high
    ensures low <= Type7(values, q) <= high
  {
    var ordered := Sorted(values);
    forall k | 0 <= k < |ordered|
      ensures low <= ordered[k] <= high
    {
      assert ordered[k] in multiset(ordered);
      assert ordered[k] in values;
    }
    BetweenNeighbours(ordered, Position(|values|, q));
  }

  lemma AtPositionMonotone(ordered: seq<real>, position: real, further: real)
    requires ordered != [] && Ascending(ordered) && 0.0 <= position <= further <= (|ordered| - 1) as real
    ensures AtPosition(ordered, position) <= AtPosition(ordered, further)
  {
    BetweenNeighbours(ordered, position);
    BetweenNeighbours(ordered, further);
    var lower := Floor(position);
    if lower == Floor(further) && position < further {
      var step := ordered[lower + 1] - ordered[lower];
      ProductGrows(position - lower as real, further - lower as real, step);
      PartOf(step, 0.0);
    }
  }

  lemma MonotoneInQuantile(values: seq<real>, q: real, larger: real)
    requires values != [] && 0.0 <= q <= larger <= 1.0
    ensures Type7(values, q) <= Type7(values, larger)
  {
    ProductGrows(q, larger, (|values| - 1) as real);
    AtPositionMonotone(Sorted(values), Position(|values|, q), Position(|values|, larger));
  }

  /** Raising any samples cannot lower the percentile. */
  lemma MonotoneInSamples(values: seq<real>, raised: seq<real>, q: real)
    requires values != [] && Dominated(values, raised) && 0.0 <= q <= 1.0
    ensures Type7(values, q) <= Type7(raised, q)
  {
    SortedDominated(values, raised);
    var xs, ys, position := Sorted(values), Sorted(raised), Position(|values|, q);
    var lower := Floor(position);
    var fraction := position - lower as real;
    if fraction > 0.0 {
      WeightedIsDifference(xs[lower], xs[lower + 1], fraction);
      WeightedIsDifference(ys[lower], ys[lower + 1], fraction);
      ProductGrows(xs[lower], ys[lower], 1.0 - fraction);
      ProductGrows(xs[lower + 1], ys[lower + 1], fraction);
    }
  }

  // ------------------------------------------------------------------
  // How many samples exceed it
  // ------------------------------------------------------------------

  /** The number of samples strictly above `v`. */
  function CountAbove(values: seq<real>, v: real): nat {
    if values == [] then 0 else (if values[0] > v then 1 else 0) + CountAbove(values[1..], v)
  }

  lemma {:induction false} CountAboveInsert(x: real, xs: seq<real>, v: real)
    ensures CountAbove(InsertSorted(x, xs), v) == CountAbove(xs, v) + if x > v then 1 else 0
    decreases |xs|
  {
    if xs == [] || x <= xs[0] {
      assert ([x] + xs)[1..] == xs;
    } else {
      CountAboveInsert(x, xs[1..], v);
      assert ([xs[0]] + InsertSorted(x, xs[1..]))[1..] == InsertSorted(x, xs[1..]);
    }
  }

  lemma {:induction false} CountAboveSorted(values: seq<real>, v: real)
    ensures CountAbove(Sorted(values), v) == CountAbove(values, v)
    decreases |values|
  {
    if values != [] {
      CountAboveSorted(values[1..], v);
      CountAboveInsert(values[0], Sorted(values[1..]), v);
    }
  }

  /** In a sorted list only the entries after index `k` can exceed a value that entry `k` does not. */
  lemma {:induction false} CountAboveTail(ordered: seq<real>, k: nat, v: real)
    requires k < |ordered| && Ascending(ordered) && ordered[k] <= v
    ensures CountAbove(ordered, v) <= |ordered| - 1 - k
    decreases k
  {
    CountAboveAtMost(ordered[1..], v);
    if k > 0 {
      CountAboveTail(ordered[1..], k - 1, v);
    }
  }

  lemma {:induction false} CountAboveAtMost(values: seq<real>, v: real)
    ensures CountAbove(values, v) <= |values|
    decreases |values|
  {
    if values != [] {
      CountAboveAtMost(values[1..], v);
    }
  }

  lemma {:induction false} CountAboveAntitone(values: seq<real>, v: real, w: real)
    requires v <= w
    ensures CountAbove(values, w) <= CountAbove(values, v)
    decreases |values|
  {
    if values != [] {
      CountAboveAntitone(values[1..], v, w);
    }
  }

  /** The largest number of samples that may lie above the `q` percentile of `n` samples. */
  function Exceedances(n: nat, q: real): int
    requires n > 0
  {
    Ceiling(Product(1.0 - q, (n - 1) as real))
  }

  /** At most ceil((1 - q)(n - 1)) samples lie strictly above the percentile. */
  lemma FewAbovePercentile(values: seq<real>, q: real)
    requires values != [] && 0.0 <= q <= 1.0
    ensures CountAbove(values, Type7(values, q)) <= Exceedances(|values|, q)
  {
    var n, ordered, position, v := |values|, Sorted(values), Position(|values|, q), Type7(values, q);
    BetweenNeighbours(ordered, position);
    CountAboveTail(ordered, Floor(position), v);
    CountAboveSorted(values, v);
    assert Product(1.0 - q, (n - 1) as real) == (n - 1) as real - position;
  }

  /** The frozen deadline, 1.10 times the pooled p99 of positive latencies, is missed by at most
      ceil(0.01 (N - 1)) of the N pooled calibration samples. */
  lemma DeadlineMisses(pooled: seq<real>)
    requires pooled != [] && forall i :: 0 <= i < |pooled| ==> pooled[i] > 0.0
    ensures CountAbove(pooled, Product(Type7(pooled, 0.99), 1.10)) <= Exceedances(|pooled|, 0.99)
  {
    var p99 := Type7(pooled, 0.99);
    LeastSample(pooled);
    assert p99 <= Product(p99, 1.10);
    CountAboveAntitone(pooled, p99, Product(p99, 1.10));
    FewAbovePercentile(pooled, 0.99);
  }

  lemma LeastSample(pooled: seq<real>)
    requires pooled != [] && AllNonnegative(pooled)
    ensures Type7(pooled, 0.99) >= 0.0
  {
    var ordered := Sorted(pooled);
    BetweenNeighbours(ordered, Position(|pooled|, 0.99));
    var least := ordered[Floor(Position(|pooled|, 0.99))];
    assert least in multiset(ordered);
    assert least in pooled;
  }
}
