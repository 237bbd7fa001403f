/** The least-squares slope of a thermal window (analysis/freeze_p9_thermal.py), over exact reals. */
module Slope {
  import opened Arithmetic

  /** A time in seconds and a temperature. */
  datatype Point = Point(x: real, y: real)

  function Square(a: real): real { Product(a, a) }

  // ------------------------------------------------------------------
  // Sums over the points
  // ------------------------------------------------------------------

  function SumX(ps: seq<Point>): real {
    if ps == [] then 0.0 else SumX(ps[..|ps| - 1]) + ps[|ps| - 1].x
  }

  function SumY(ps: seq<Point>): real {
    if ps == [] then 0.0 else SumY(ps[..|ps| - 1]) + ps[|ps| - 1].y
  }

  function SumXX(ps: seq<Point>): real {
    if ps == [] then 0.0 else SumXX(ps[..|ps| - 1]) + Square(ps[|ps| - 1].x)
  }

  function SumXY(ps: seq<Point>): real {
    if ps == [] then 0.0 else SumXY(ps[..|ps| - 1]) + Product(ps[|ps| - 1].x, ps[|ps| - 1].y)
  }

  /** The sum of squared distances of the times from `x`. */
  function SquaresAround(ps: seq<Point>, x: real): real {
    if ps == [] then 0.0 else SquaresAround(ps[..|ps| - 1], x) + Square(ps[|ps| - 1].x - x)
  }

  /** The sum of cross products of the distances from `x` and `y`. */
  function CrossAround(ps: seq<Point>, x: real, y: real): real {
    if ps == [] then 0.0 else CrossAround(ps[..|ps| - 1], x, y) + Product(ps[|ps| - 1].x - x, ps[|ps| - 1].y - y)
  }

  function MeanX(ps: seq<Point>): real
    requires ps != []
  {
    Ratio(SumX(ps), |ps| as real)
  }

  function MeanY(ps: seq<Point>): real
    requires ps != []
  {
    Ratio(SumY(ps), |ps| as real)
  }

  /** The slope as the code computes it; zero when the times do not vary. */
  function SlopeOf(ps: seq<Point>): real
    requires ps != []
  {
    var denominator := SquaresAround(ps, MeanX(ps));
    if denominator > 0.0 then Ratio(CrossAround(ps, MeanX(ps), MeanY(ps)), denominator) else 0.0
  }

  // ------------------------------------------------------------------
  // Expansions
  // ------------------------------------------------------------------

  lemma {:induction false} SquaresExpand(ps: seq<Point>, x: real)
    ensures SquaresAround(ps, x) == SumXX(ps) - 2.0 * Product(x, SumX(ps)) + Product(|ps| as real, Square(x))
    decreases |ps|
  {
    if ps != [] {
      var front, last := ps[..|ps| - 1], ps[|ps| - 1];
      SquaresExpand(front, x);
      SquareOfDifference(last.x, x);
      Distribute(x, SumX(front), last.x);
      OneMore(|front|, Square(x));
    }
  }

  lemma {:induction false} CrossExpand(ps: seq<Point>, x: real, y: real)
    ensures CrossAround(ps, x, y) == SumXY(ps) - Product(x, SumY(ps)) - Product(y, SumX(ps)) + Product(|ps| as real,
      Product(x, y))
    decreases |ps|
  {
    if ps != [] {
      var front, last := ps[..|ps| - 1], ps[|ps| - 1];
      CrossExpand(front, x, y);
      ProductOfDifferences(last.x, x, last.y, y);
      Distribute(x, SumY(front), last.y);
      Distribute(y, SumX(front), last.x);
      OneMore(|front|, Product(x, y));
    }
  }

  lemma SquareOfDifference(a: real, b: real)
    ensures Square(a - b) == Square(a) - 2.0 * Product(b, a) + Square(b)
  {
  }

  lemma ProductOfDifferences(a: real, b: real, c: real, d: real)
    ensures Product(a - b, c - d) == Product(a, c) - Product(b, c) - Product(d, a) + Product(b, d)
  {
  }

  lemma Distribute(a: real, b: real, c: real)
    ensures Product(a, b + c) == Product(a, b) + Product(a, c)
    ensures Product(b + c, a) == Product(b, a) + Product(c, a)
  {
  }

  lemma OneMore(n: nat, a: real)
    ensures Product((n + 1) as real, a) == Product(n as real, a) + a
  {
  }

  lemma Associate(a: real, b: real, c: real)
    ensures Product(a, Product(b, c)) == Product(Product(a, b), c) == Product(b, Product(a, c))
  {
  }

  lemma Commute(a: real, b: real)
    ensures Product(a, b) == Product(b, a)
  {
  }

  lemma Negate(a: real, b: real)
    ensures Product(a, -b) == -Product(a, b) == Product(-a, b)
  {
  }

  lemma SquareOfSum(a: real, b: real)
    ensures Square(a + b) == Square(a) + 2.0 * Product(b, a) + Square(b)
  {
  }

  /** Around the means the expansions lose their last terms. */
  lemma AroundMeans(ps: seq<Point>)
    requires ps != []
    ensures var mx, my := MeanX(ps), MeanY(ps);
      && SquaresAround(ps, mx) == SumXX(ps) - Product(mx, SumX(ps))
      && CrossAround(ps, mx, my) == SumXY(ps) - Product(mx, SumY(ps))
      && CrossAround(ps, mx, my) == SumXY(ps) - Product(my, SumX(ps))
  {
    var n, mx, my := |ps| as real, MeanX(ps), MeanY(ps);
    SquaresExpand(ps, mx);
    CrossExpand(ps, mx, my);
    Commute(mx, n);
    Commute(my, n);
    Associate(n, mx, mx);
    Associate(n, mx, my);
    Commute(SumX(ps), mx);
    Commute(SumX(ps), my);
    Commute(SumY(ps), mx);
  }

  // ------------------------------------------------------------------
  // Pairwise slopes
  // ------------------------------------------------------------------

  /** The sum over all pairs of points of the squared time difference. */
  function PairSquares(ps: seq<Point>): real {
    if ps == [] then 0.0 else PairSquares(ps[..|ps| - 1]) + SquaresAround(ps[..|ps| - 1], ps[|ps| - 1].x)
  }

  /** The sum over all pairs of the time difference times the temperature difference, which is
      the pairwise slope weighted by the squared time difference. */
  function PairCrosses(ps: seq<Point>): real {
    if ps == [] then 0.0 else
      PairCrosses(ps[..|ps| - 1]) + CrossAround(ps[..|ps| - 1], ps[|ps| - 1].x, ps[|ps| - 1].y)
  }

  lemma {:induction false} PairSquaresExpand(ps: seq<Point>)
    ensures PairSquares(ps) == Product(|ps| as real, SumXX(ps)) - Square(SumX(ps))
    decreases |ps|
  {
    if ps != [] {
      var front, x := ps[..|ps| - 1], ps[|ps| - 1].x;
      PairSquaresExpand(front);
      SquaresExpand(front, x);
      OneMore(|front|, SumXX(ps));
      Distribute(|front| as real, SumXX(front), Square(x));
      SquareOfSum(SumX(front), x);
    }
  }

  lemma {:induction false} PairCrossesExpand(ps: seq<Point>)
    ensures PairCrosses(ps) == Product(|ps| as real, SumXY(ps)) - Product(SumX(ps), SumY(ps))
    decreases |ps|
  {
    if ps != [] {
      var front, x, y := ps[..|ps| - 1], ps[|ps| - 1].x, ps[|ps| - 1].y;
      PairCrossesExpand(front);
      CrossExpand(front, x, y);
      OneMore(|front|, SumXY(ps));
      Distribute(|front| as real, SumXY(front), Product(x, y));
      Distribute(SumX(front) + x, SumY(front), y);
      Distribute(SumY(front), SumX(front), x);
      Distribute(y, SumX(front), x);
      Commute(y, SumX(front));
      Commute(x, y);
      Commute(y, SumX(front) + x);
    }
  }

  /** Times `n`, the numerator and the denominator of the slope are the pairwise sums. */
  lemma PairForm(ps: seq<Point>)
    requires ps != []
    ensures Product(|ps| as real, SquaresAround(ps, MeanX(ps))) == PairSquares(ps)
    ensures Product(|ps| as real, CrossAround(ps, MeanX(ps), MeanY(ps))) == PairCrosses(ps)
  {
    hide Product, SquaresAround, CrossAround, PairSquares, PairCrosses, SumX, SumY, SumXX, SumXY;
    var n, mx := |ps| as real, MeanX(ps);
    AroundMeans(ps);
    PairSquaresExpand(ps);
    PairCrossesExpand(ps);
    Distribute(n, SumXX(ps), -Product(mx, SumX(ps)));
    Distribute(n, SumXY(ps), -Product(mx, SumY(ps)));
    Associate(n, mx, SumX(ps));
    Associate(n, mx, SumY(ps));
    Commute(mx, n);
    Negate(n, Product(mx, SumX(ps)));
    Negate(n, Product(mx, SumY(ps)));
  }

  ghost predicate TimesIncrease(ps: seq<Point>) {
    forall i, j :: 0 <= i < j < |ps| ==> ps[i].x < ps[j].x
  }

  lemma SquareNonnegative(a: real)
    ensures Square(a) >= 0.0 && (a != 0.0 ==> Square(a) > 0.0)
  {
    if a > 0.0 {
      ProductPositive(a, a);
    } else if a < 0.0 {
      ProductPositive(-a, -a);
      Negate(a, -a);
      Negate(a, a);
    }
  }

  lemma {:induction false} SquaresNonnegative(ps: seq<Point>, x: real)
    ensures SquaresAround(ps, x) >= 0.0
    ensures ps != [] && ps[|ps| - 1].x != x ==> SquaresAround(ps, x) > 0.0
    decreases |ps|
  {
    if ps != [] {
      SquaresNonnegative(ps[..|ps| - 1], x);
      SquareNonnegative(ps[|ps| - 1].x - x);
    }
  }

  lemma {:induction false} PairSquaresPositive(ps: seq<Point>)
    requires TimesIncrease(ps)
    ensures PairSquares(ps) >= 0.0
    ensures |ps| >= 2 ==> PairSquares(ps) > 0.0
    decreases |ps|
  {
    if ps != [] {
      var front := ps[..|ps| - 1];
      PairSquaresPositive(front);
      SquaresNonnegative(front, ps[|ps| - 1].x);
    }
  }

  lemma PositiveFactor(n: real, a: real)
    requires a >= 0.0 && Product(n, a) > 0.0
    ensures a > 0.0
  {
    assert a == 0.0 ==> Product(n, a) == 0.0;
  }

  /** On strictly increasing clocks the zero-denominator branch is never taken. */
  lemma DenominatorPositive(ps: seq<Point>)
    requires |ps| >= 2 && TimesIncrease(ps)
    ensures SquaresAround(ps, MeanX(ps)) > 0.0
  {
    PairForm(ps);
    PairSquaresPositive(ps);
    SquaresNonnegative(ps, MeanX(ps));
    PositiveFactor(|ps| as real, SquaresAround(ps, MeanX(ps)));
  }

  lemma CancelFactor(n: real, slope: real, square: real, cross: real)
    requires Product(slope, square) == cross
    ensures Product(slope, Product(n, square)) == Product(n, cross)
  {
    Associate(slope, n, square);
  }

  /** The slope is the mean of the pairwise slopes, each weighted by its squared time difference. */
  lemma SlopeIsWeightedMean(ps: seq<Point>)
    requires |ps| >= 2 && TimesIncrease(ps)
    ensures PairSquares(ps) > 0.0 && Product(SlopeOf(ps), PairSquares(ps)) == PairCrosses(ps)
  {
    DenominatorPositive(ps);
    PairSquaresPositive(ps);
    PairForm(ps);
    CancelFactor(|ps| as real, SlopeOf(ps), SquaresAround(ps, MeanX(ps)), CrossAround(ps, MeanX(ps), MeanY(ps)));
  }

  /** Every pairwise slope is at least `low`. */
  ghost predicate PairSlopesAtLeast(ps: seq<Point>, low: real) {
    forall i, j :: 0 <= i < j < |ps| ==> ps[j].y - ps[i].y >= Product(low, ps[j].x - ps[i].x)
  }

  ghost predicate PairSlopesAtMost(ps: seq<Point>, high: real) {
    forall i, j :: 0 <= i < j < |ps| ==> ps[j].y - ps[i].y <= Product(high, ps[j].x - ps[i].x)
  }

  lemma WeightedPair(low: real, dx: real, dy: real)
    requires dx > 0.0
    ensures dy >= Product(low, dx) ==> Product(-dx, -dy) >= Product(low, Square(-dx))
    ensures dy <= Product(low, dx) ==> Product(-dx, -dy) <= Product(low, Square(-dx))
  {
    var gap := dy - Product(low, dx);
    assert dx * gap == dx * dy - dx * (low * dx);
    assert Product(-dx, -dy) == dx * dy && Product(low, Square(-dx)) == dx * (low * dx);
    if gap >= 0.0 { assert dx * gap >= 0.0; }
    if gap <= 0.0 { assert dx * gap <= 0.0; }
  }

  lemma {:induction false} CrossesAgainst(ps: seq<Point>, q: Point, bound: real)
    requires forall i :: 0 <= i < |ps| ==> ps[i].x < q.x
    ensures (forall i :: 0 <= i < |ps| ==> q.y - ps[i].y >= Product(bound, q.x - ps[i].x)) ==>
      CrossAround(ps, q.x, q.y) >= Product(bound, SquaresAround(ps, q.x))
    ensures (forall i :: 0 <= i < |ps| ==> q.y - ps[i].y <= Product(bound, q.x - ps[i].x)) ==>
      CrossAround(ps, q.x, q.y) <= Product(bound, SquaresAround(ps, q.x))
    decreases |ps|
  {
    if ps != [] {
      var front, last := ps[..|ps| - 1], ps[|ps| - 1];
      CrossesAgainst(front, q, bound);
      WeightedPair(bound, q.x - last.x, q.y - last.y);
      Distribute(bound, SquaresAround(front, q.x), Square(last.x - q.x));
      assert -(q.x - last.x) == last.x - q.x && -(q.y - last.y) == last.y - q.y;
    }
  }

  lemma {:induction false} PairCrossesAtLeast(ps: seq<Point>, low: real)
    requires TimesIncrease(ps) && PairSlopesAtLeast(ps, low)
    ensures PairCrosses(ps) >= Product(low, PairSquares(ps))
    decreases |ps|
  {
    if ps != [] {
      var front, last := ps[..|ps| - 1], ps[|ps| - 1];
      PairCrossesAtLeast(front, low);
      CrossesAgainst(front, last, low);
      Distribute(low, PairSquares(front), SquaresAround(front, last.x));
    }
  }

  lemma {:induction false} PairCrossesAtMost(ps: seq<Point>, high: real)
    requires TimesIncrease(ps) && PairSlopesAtMost(ps, high)
    ensures PairCrosses(ps) <= Product(high, PairSquares(ps))
    decreases |ps|
  {
    if ps != [] {
      var front, last := ps[..|ps| - 1], ps[|ps| - 1];
      PairCrossesAtMost(front, high);
      CrossesAgainst(front, last, high);
      Distribute(high, PairSquares(front), SquaresAround(front, last.x));
    }
  }

  lemma CompareFactors(a: real, b: real, w: real)
    requires w > 0.0
    ensures Product(a, w) >= Product(b, w) ==> a >= b
    ensures Product(a, w) <= Product(b, w) ==> a <= b
  {
    if a < b { assert (b - a) * w > 0.0; }
    if a > b { assert (a - b) * w > 0.0; }
  }

  /** The slope lies between the smallest and the largest pairwise slope. */
  lemma SlopeBetweenPairSlopes(ps: seq<Point>, low: real, high: real)
    requires |ps| >= 2 && TimesIncrease(ps) && PairSlopesAtLeast(ps, low) && PairSlopesAtMost(ps, high)
    ensures low <= SlopeOf(ps) <= high
  {
    SlopeIsWeightedMean(ps);
    PairCrossesAtLeast(ps, low);
    PairCrossesAtMost(ps, high);
    CompareFactors(SlopeOf(ps), low, PairSquares(ps));
    CompareFactors(SlopeOf(ps), high, PairSquares(ps));
  }

  // ------------------------------------------------------------------
  // Shifts
  // ------------------------------------------------------------------

  function Shifted(ps: seq<Point>, dx: real, dy: real): seq<Point> {
    seq(|ps|, i requires 0 <= i < |ps| => Point(ps[i].x + dx, ps[i].y + dy))
  }

  lemma {:induction false} ShiftedSums(ps: seq<Point>, dx: real, dy: real, x: real, y: real)
    ensures SumX(Shifted(ps, dx, dy)) == SumX(ps) + Product(|ps| as real, dx)
    ensures SumY(Shifted(ps, dx, dy)) == SumY(ps) + Product(|ps| as real, dy)
    ensures SquaresAround(Shifted(ps, dx, dy), x + dx) == SquaresAround(ps, x)
    ensures CrossAround(Shifted(ps, dx, dy), x + dx, y + dy) == CrossAround(ps, x, y)
    decreases |ps|
  {
    if ps != [] {
      var front := ps[..|ps| - 1];
      ShiftedSums(front, dx, dy, x, y);
      assert Shifted(ps, dx, dy)[..|ps| - 1] == Shifted(front, dx, dy);
      OneMore(|front|, dx);
      OneMore(|front|, dy);
    }
  }

  lemma ShiftedMean(n: real, sum: real, d: real, mean: real, shifted: real)
    requires n > 0.0 && Product(mean, n) == sum && Product(shifted, n) == sum + Product(n, d)
    ensures shifted == mean + d
  {
    assert (shifted - mean - d) * n == 0.0;
  }

  /** Moving the clock or the temperature scale does not change the slope. */
  lemma SlopeShiftInvariant(ps: seq<Point>, dx: real, dy: real)
    requires ps != []
    ensures SlopeOf(Shifted(ps, dx, dy)) == SlopeOf(ps)
  {
    var shifted := Shifted(ps, dx, dy);
    ShiftedSums(ps, dx, dy, MeanX(ps), MeanY(ps));
    ShiftedMean(|ps| as real, SumX(ps), dx, MeanX(ps), MeanX(shifted));
    ShiftedMean(|ps| as real, SumY(ps), dy, MeanY(ps), MeanY(shifted));
  }

  // ------------------------------------------------------------------
  // Least squares
  // ------------------------------------------------------------------

  /** The squared error of the line `y = a + b x`. */
  function SquaredError(ps: seq<Point>, a: real, b: real): real {
    if ps == [] then 0.0 else
      SquaredError(ps[..|ps| - 1], a, b) + Square(ps[|ps| - 1].y - a - Product(b, ps[|ps| - 1].x))
  }

  /** The summed residuals of a line, and the summed residuals times the times. */
  function Residuals(ps: seq<Point>, a: real, b: real): real {
    if ps == [] then 0.0 else Residuals(ps[..|ps| - 1], a, b) + (ps[|ps| - 1].y - a - Product(b, ps[|ps| - 1].x))
  }

  function TimedResiduals(ps: seq<Point>, a: real, b: real): real {
    if ps == [] then 0.0 else
      TimedResiduals(ps[..|ps| - 1], a, b) + Product(ps[|ps| - 1].x, ps[|ps| - 1].y - a - Product(b, ps[|ps| - 1].x))
  }

  lemma {:induction false} ResidualsExpand(ps: seq<Point>, a: real, b: real)
    ensures Residuals(ps, a, b) == SumY(ps) - Product(|ps| as real, a) - Product(b, SumX(ps))
    ensures TimedResiduals(ps, a, b) == SumXY(ps) - Product(a, SumX(ps)) - Product(b, SumXX(ps))
    decreases |ps|
  {
    if ps != [] {
      var front, last := ps[..|ps| - 1], ps[|ps| - 1];
      ResidualsExpand(front, a, b);
      OneMore(|front|, a);
      Distribute(b, SumX(front), last.x);
      Distribute(a, SumX(front), last.x);
      Distribute(b, SumXX(front), Square(last.x));
      TimedResidual(last.x, last.y, a, b);
    }
  }

  lemma TimedResidual(x: real, y: real, a: real, b: real)
    ensures Product(x, y - a - Product(b, x)) == Product(x, y) - Product(a, x) - Product(b, Square(x))
  {
  }

  lemma OtherLine(x: real, y: real, a: real, b: real, da: real, db: real)
    ensures var r := y - a - Product(b, x);
      Square(y - (a + da) - Product(b + db, x)) >= Square(r) - 2.0 * Product(da, r) - 2.0 * Product(db, Product(x, r))
  {
    var r := y - a - Product(b, x);
    var d := da + Product(db, x);
    assert Product(b + db, x) == Product(b, x) + Product(db, x);
    assert y - (a + da) - Product(b + db, x) == r - d;
    SquareOfDifference(r, d);
    SquareNonnegative(d);
    Distribute(r, da, Product(db, x));
    Associate(db, x, r);
    Commute(Product(db, x), r);
    Commute(da, r);
    Commute(d, r);
  }

  /** Moving away from a line by `(da, db)` costs at least the linear term. */
  lemma {:induction false} ErrorOfOtherLine(ps: seq<Point>, a: real, b: real, da: real, db: real)
    ensures SquaredError(ps, a + da, b + db)
      >= SquaredError(ps, a, b) - 2.0 * Product(da, Residuals(ps, a, b)) - 2.0 * Product(db, TimedResiduals(ps, a, b))
    decreases |ps|
  {
    if ps != [] {
      var front, last := ps[..|ps| - 1], ps[|ps| - 1];
      ErrorOfOtherLine(front, a, b, da, db);
      OtherLine(last.x, last.y, a, b, da, db);
      var r := last.y - a - Product(b, last.x);
      Distribute(da, Residuals(front, a, b), r);
      Distribute(db, TimedResiduals(front, a, b), Product(last.x, r));
    }
  }

  /** The line through the means with the computed slope satisfies the normal equations. */
  lemma NormalEquations(ps: seq<Point>)
    requires ps != [] && SquaresAround(ps, MeanX(ps)) > 0.0
    ensures var b := SlopeOf(ps);
      var a := MeanY(ps) - Product(b, MeanX(ps));
      Residuals(ps, a, b) == 0.0 && TimedResiduals(ps, a, b) == 0.0
  {
    var n, mx, my, b := |ps| as real, MeanX(ps), MeanY(ps), SlopeOf(ps);
    var a := my - Product(b, mx);
    AroundMeans(ps);
    ResidualsExpand(ps, a, b);
    // n a = n my - n b mx = SumY - b SumX
    Distribute(n, my, -Product(b, mx));
    Negate(n, Product(b, mx));
    Associate(n, b, mx);
    Commute(n, mx);
    Commute(n, my);
    // a SumX = my SumX - b mx SumX
    Distribute(SumX(ps), my, -Product(b, mx));
    Negate(Product(b, mx), SumX(ps));
    Associate(b, mx, SumX(ps));
    Distribute(b, SumXX(ps), -Product(mx, SumX(ps)));
    Negate(b, Product(mx, SumX(ps)));
  }

  /** No line fits the window better than the one with the computed slope. */
  lemma SlopeIsLeastSquares(ps: seq<Point>, a: real, b: real)
    requires |ps| >= 2 && TimesIncrease(ps)
    ensures SquaredError(ps, MeanY(ps) - Product(SlopeOf(ps), MeanX(ps)), SlopeOf(ps)) <= SquaredError(ps, a, b)
  {
    DenominatorPositive(ps);
    NormalEquations(ps);
    var best := SlopeOf(ps);
    var base := MeanY(ps) - Product(best, MeanX(ps));
    ErrorOfOtherLine(ps, base, best, a - base, b - best);
    assert Product(a - base, 0.0) == 0.0 && Product(b - best, 0.0) == 0.0;
  }
}
