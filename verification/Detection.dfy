/** The request-level detection oracle: greedy one-to-one matching of boxes by
    intersection over union (analysis/build_application_prediction_trace.py). */
module Detection {
  import opened Arithmetic
  import opened Common

  // ------------------------------------------------------------------
  // Boxes and their overlap
  // ------------------------------------------------------------------

  /** An entry of a detections array, before the parser has accepted it. */
  datatype Entry = Malformed | Entry(kind: string, x: real, y: real, width: real, height: real)

  datatype Rectangle = Rectangle(kind: string, left: real, top: real, right: real, bottom: real)

  /** A parsed box has positive width and height. */
  type Box = r: Rectangle | r.left < r.right && r.top < r.bottom witness Rectangle("", 0.0, 0.0, 1.0, 1.0)

  function ParseBox(entry: Entry): Option<Box> {
    match entry
    case Malformed => None
    case Entry(kind, x, y, width, height) =>
      if width <= 0.0 || height <= 0.0 then None else Some(Rectangle(kind, x, y, x + width, y + height))
  }

  function Max(x: real, y: real): real { if x >= y then x else y }

  function Min(x: real, y: real): real { if x <= y then x else y }

  /** The length two intervals have in common. */
  function Overlap(left0: real, right0: real, left1: real, right1: real): real {
    Max(0.0, Min(right0, right1) - Max(left0, left1))
  }

  function Intersection(c: Box, e: Box): real {
    Product(Overlap(c.left, c.right, e.left, e.right), Overlap(c.top, c.bottom, e.top, e.bottom))
  }

  function Area(b: Box): real { Product(b.right - b.left, b.bottom - b.top) }

  function Union(c: Box, e: Box): real { Area(c) + Area(e) - Intersection(c, e) }

  /** A box is accepted exactly when both its sides are positive; it keeps its class, its corner, its
      sides and so its area. */
  lemma BoxExactly(entry: Entry)
    ensures ParseBox(entry).Some? <==> entry.Entry? && entry.width > 0.0 && entry.height > 0.0
    ensures ParseBox(entry).Some? ==> var b := ParseBox(entry).value;
      && b.kind == entry.kind && b.left == entry.x && b.top == entry.y
      && b.right - b.left == entry.width && b.bottom - b.top == entry.height
      && Area(b) == Product(entry.width, entry.height)
  {
  }

  /** What two intervals have in common is positive exactly when they meet, and then it is the stretch
      from the later begin to the earlier end. */
  lemma OverlapExactly(left0: real, right0: real, left1: real, right1: real)
    requires left0 < right0 && left1 < right1
    ensures Overlap(left0, right0, left1, right1) > 0.0 <==> left0 < right1 && left1 < right0
    ensures left0 <= left1 <= right0 <= right1 ==> Overlap(left0, right0, left1, right1) == right0 - left1
    ensures left0 <= left1 && right1 <= right0 ==> Overlap(left0, right0, left1, right1) == right1 - left1
    ensures Overlap(left0, right0, left1, right1) == Overlap(left1, right1, left0, right0)
  {
  }

  lemma IntersectionBounds(c: Box, e: Box)
    ensures 0.0 <= Intersection(c, e) <= Area(c) && Intersection(c, e) <= Area(e)
    ensures Area(c) > 0.0 && Area(e) > 0.0
  {
    var w, h := Overlap(c.left, c.right, e.left, e.right), Overlap(c.top, c.bottom, e.top, e.bottom);
    ProductMonotone(w, h, c.right - c.left, c.bottom - c.top);
    ProductMonotone(w, h, e.right - e.left, e.bottom - e.top);
    ProductPositive(c.right - c.left, c.bottom - c.top);
    ProductPositive(e.right - e.left, e.bottom - e.top);
  }

  /** Intersection over union: the denominator is positive and the ratio lies in [0, 1]. */
  function IoU(c: Box, e: Box): (ratio: real)
    ensures Union(c, e) > 0.0
    ensures 0.0 <= ratio <= 1.0
    ensures Product(ratio, Union(c, e)) == Intersection(c, e)
  {
    IntersectionBounds(c, e);
    PartOfWhole(Intersection(c, e), Union(c, e));
    Ratio(Intersection(c, e), Union(c, e))
  }

  lemma PartOfWhole(part: real, whole: real)
    requires 0.0 <= part <= whole && whole > 0.0
    ensures 0.0 <= Ratio(part, whole) <= 1.0
  {
  }

  predicate Compatible(c: Box, e: Box, threshold: real) {
    c.kind == e.kind && IoU(c, e) >= threshold
  }

  // ------------------------------------------------------------------
  // What the oracle promises: a perfect matching
  // ------------------------------------------------------------------

  ghost predicate Injective(choice: seq<nat>) {
    forall i, j :: 0 <= i < j < |choice| ==> choice[i] != choice[j]
  }

  /** `choice[i]` is the expected box of predicted box `i`; no expected box is used twice. */
  ghost predicate Pairs(choice: seq<nat>, predicted: seq<Box>, expected: seq<Box>, threshold: real) {
    && |choice| <= |predicted|
    && Injective(choice)
    && forall i :: 0 <= i < |choice| ==>
      choice[i] < |expected| && Compatible(predicted[i], expected[choice[i]], threshold)
  }

  /** A class-preserving bijection of the predicted boxes onto the expected ones. */
  ghost predicate PerfectMatching(choice: seq<nat>, predicted: seq<Box>, expected: seq<Box>, threshold: real) {
    && |choice| == |predicted| == |expected|
    && Pairs(choice, predicted, expected, threshold)
    && forall k :: 0 <= k < |expected| ==> k in choice
  }

  ghost predicate Matchable(predicted: seq<Box>, expected: seq<Box>, threshold: real) {
    exists choice :: PerfectMatching(choice, predicted, expected, threshold)
  }

  // ------------------------------------------------------------------
  // The greedy choice
  // ------------------------------------------------------------------

  /** The best still unmatched expected box among the first `n`; a later box wins only when
      its ratio is strictly larger. */
  function BestAmong(c: Box, expected: seq<Box>, unmatched: set<nat>, threshold: real, n: nat): Option<nat>
    requires n <= |expected|
    ensures var r := BestAmong(c, expected, unmatched, threshold, n);
      r.Some? ==> r.value < n && r.value in unmatched && Compatible(c, expected[r.value], threshold)
  {
    if n == 0 then None else
      var best := BestAmong(c, expected, unmatched, threshold, n - 1);
      if n - 1 in unmatched && Compatible(c, expected[n - 1], threshold)
         && (best.None? || IoU(c, expected[n - 1]) > IoU(c, expected[best.value]))
      then Some(n - 1) else best
  }

  /** Nothing unmatched and compatible is passed over, and the winner has the largest ratio. */
  lemma {:induction false} BestIsBest(c: Box, expected: seq<Box>, unmatched: set<nat>, threshold: real, n: nat, k: nat)
    requires k < n <= |expected| && k in unmatched && Compatible(c, expected[k], threshold)
    ensures var r := BestAmong(c, expected, unmatched, threshold, n);
      r.Some? && IoU(c, expected[r.value]) >= IoU(c, expected[k])
  {
    if k < n - 1 {
      BestIsBest(c, expected, unmatched, threshold, n - 1, k);
    }
  }

  /** Taking the best box for each predicted box in turn leaves nothing over. */
  predicate GreedyMatches(predicted: seq<Box>, expected: seq<Box>, unmatched: set<nat>, threshold: real) {
    if predicted == [] then unmatched == {} else
      var best := BestAmong(predicted[0], expected, unmatched, threshold, |expected|);
      best.Some? && GreedyMatches(predicted[1..], expected, unmatched - {best.value}, threshold)
  }

  function Indices(n: nat): (s: set<nat>)
    ensures |s| == n && forall k :: k in s <==> 0 <= k < n
  {
    if n == 0 then {} else Indices(n - 1) + {n - 1}
  }

  function Elements(choice: seq<nat>): set<nat> { set k | k in choice }

  lemma {:induction false} ElementsOfInjective(choice: seq<nat>)
    requires Injective(choice)
    ensures |Elements(choice)| == |choice|
  {
    if choice != [] {
      var front, last := choice[..|choice| - 1], choice[|choice| - 1];
      ElementsOfInjective(front);
      assert Elements(choice) == Elements(front) + {last};
    }
  }

  /** An injective choice as long as the list it chooses from covers the list. */
  lemma InjectiveIsOnto(choice: seq<nat>, n: nat)
    requires Injective(choice) && |choice| == n && forall i :: 0 <= i < n ==> choice[i] < n
    ensures forall k :: 0 <= k < n ==> k in choice
  {
    ElementsOfInjective(choice);
    SubsetOfSameSize(Elements(choice), Indices(n));
    forall k | 0 <= k < n
      ensures k in choice
    {
      assert k in Indices(n);
    }
  }

  lemma SubsetOfSameSize(s: set<nat>, t: set<nat>)
    requires s <= t && |s| == |t|
    ensures s == t
  {
    if !(t <= s) {
      var k :| k in t && k !in s;
      SmallerSubset(s, t - {k});
    }
  }

  lemma {:induction false} SmallerSubset(s: set<nat>, t: set<nat>)
    requires s <= t
    ensures |s| <= |t|
    decreases s
  {
    if k :| k in s {
      SmallerSubset(s - {k}, t - {k});
    }
  }

  /** The expected boxes that `choice` leaves over. */
  function Remaining(choice: seq<nat>, expected: seq<Box>): set<nat> {
    Indices(|expected|) - Elements(choice)
  }

  /** One turn of the greedy loop: the answer depends on the best box for the next predicted box. */
  lemma GreedyUnfolds(predicted: seq<Box>, expected: seq<Box>, i: nat, left: set<nat>, threshold: real)
    requires i < |predicted|
    ensures var best := BestAmong(predicted[i], expected, left, threshold, |expected|);
      GreedyMatches(predicted[i..], expected, left, threshold)
        == (best.Some? && GreedyMatches(predicted[i + 1..], expected, left - {best.value}, threshold))
  {
    assert predicted[i..][0] == predicted[i] && predicted[i..][1..] == predicted[i + 1..];
  }

  /** Taking the best box extends the pairs made so far. */
  lemma GreedyExtends(choice: seq<nat>, predicted: seq<Box>, expected: seq<Box>, threshold: real, best: nat)
    requires Pairs(choice, predicted, expected, threshold) && |choice| < |predicted|
    requires best in Remaining(choice, expected) && Compatible(predicted[|choice|], expected[best], threshold)
    ensures Pairs(choice + [best], predicted, expected, threshold)
    ensures Remaining(choice + [best], expected) == Remaining(choice, expected) - {best}
  {
    assert Elements(choice + [best]) == Elements(choice) + {best};
  }

  /** A full set of pairs uses every expected box. */
  lemma AllPlaced(choice: seq<nat>, predicted: seq<Box>, expected: seq<Box>, threshold: real)
    requires Pairs(choice, predicted, expected, threshold) && |choice| == |predicted| == |expected|
    ensures PerfectMatching(choice, predicted, expected, threshold) && Remaining(choice, expected) == {}
  {
    InjectiveIsOnto(choice, |expected|);
  }

  /** The inner loop: the best still unmatched expected box. */
  method BestUnmatched(c: Box, expected: seq<Box>, unmatched: set<nat>, threshold: real) returns (best: Option<nat>)
    ensures best == BestAmong(c, expected, unmatched, threshold, |expected|)
  {
    best := None;
    var index := 0;
    while index < |expected|
      invariant 0 <= index <= |expected|
      invariant best == BestAmong(c, expected, unmatched, threshold, index)
    {
      if index in unmatched && c.kind == expected[index].kind {
        var ratio := IoU(c, expected[index]);
        if ratio >= threshold && (best.None? || ratio > IoU(c, expected[best.value])) {
          best := Some(index);
        }
      }
      index := index + 1;
    }
  }

  /** The loop over the predicted boxes of `_detection_request_correct`. */
  method MatchBoxes(predicted: seq<Box>, expected: seq<Box>, threshold: real) returns (correct: bool)
    requires |predicted| == |expected|
    ensures correct == GreedyMatches(predicted, expected, Indices(|expected|), threshold)
    ensures correct ==> Matchable(predicted, expected, threshold)
  {
    var unmatched := Indices(|expected|);
    ghost var choice: seq<nat> := [];
    assert predicted[0..] == predicted && Remaining([], expected) == unmatched;
    for i := 0 to |predicted|
      invariant |choice| == i && Pairs(choice, predicted, expected, threshold)
      invariant unmatched == Remaining(choice, expected)
      invariant GreedyMatches(predicted[i..], expected, unmatched, threshold)
        == GreedyMatches(predicted, expected, Indices(|expected|), threshold)
    {
      GreedyUnfolds(predicted, expected, i, unmatched, threshold);
      var best := BestUnmatched(predicted[i], expected, unmatched, threshold);
      if best.None? {
        return false;
      }
      GreedyExtends(choice, predicted, expected, threshold, best.value);
      unmatched := unmatched - {best.value};
      choice := choice + [best.value];
    }
    AllPlaced(choice, predicted, expected, threshold);
    correct := unmatched == {};
  }

  // ------------------------------------------------------------------
  // Completeness
  // ------------------------------------------------------------------

  /** Predicted boxes that share one compatible expected box share them all. */
  ghost predicate Interchangeable(predicted: seq<Box>, expected: seq<Box>, threshold: real) {
    forall p, q, e, f :: 0 <= p < |predicted| && 0 <= q < |predicted| && 0 <= e < |expected| && 0 <= f < |expected|
      && Compatible(predicted[p], expected[e], threshold) && Compatible(predicted[p], expected[f], threshold)
      && Compatible(predicted[q], expected[e], threshold)
      ==> Compatible(predicted[q], expected[f], threshold)
  }

  /** No predicted box is compatible with two expected boxes. */
  ghost predicate Unambiguous(predicted: seq<Box>, expected: seq<Box>, threshold: real) {
    forall p, e, f :: 0 <= p < |predicted| && 0 <= e < |expected| && 0 <= f < |expected|
      && Compatible(predicted[p], expected[e], threshold) && Compatible(predicted[p], expected[f], threshold)
      ==> e == f
  }

  lemma {:induction false} NoInjectionIntoSmaller(f: map<nat, nat>, target: set<nat>)
    requires forall x :: x in f ==> f[x] in target
    requires forall x, y :: x in f && y in f && x != y ==> f[x] != f[y]
    ensures |f.Keys| <= |target|
    decreases |f.Keys|
  {
    if x :| x in f.Keys {
      var g := f - {x};
      assert g.Keys == f.Keys - {x};
      NoInjectionIntoSmaller(g, target - {f[x]});
    }
  }

  /** The earlier predicted boxes whose choice predicted box `i` could have taken. */
  ghost function Holders(choice: seq<nat>, c: Box, expected: seq<Box>, threshold: real): set<nat>
    requires forall i :: 0 <= i < |choice| ==> choice[i] < |expected|
  {
    set j: nat | j < |choice| && Compatible(c, expected[choice[j]], threshold)
  }

  /** A perfect matching sends a holder to a box that predicted box `i` is compatible with. */
  lemma HolderStaysInGroup(choice: seq<nat>, matching: seq<nat>, predicted: seq<Box>, expected: seq<Box>,
      threshold: real, j: nat)
    requires Interchangeable(predicted, expected, threshold)
    requires PerfectMatching(matching, predicted, expected, threshold)
    requires Pairs(choice, predicted, expected, threshold) && |choice| < |predicted|
    requires j == |choice| || j in Holders(choice, predicted[|choice|], expected, threshold)
    ensures Compatible(predicted[|choice|], expected[matching[j]], threshold)
  {
    if j < |choice| {
      var p, q, e, f := j, |choice|, choice[j], matching[j];
      assert Compatible(predicted[p], expected[e], threshold) && Compatible(predicted[p], expected[f], threshold);
      assert Compatible(predicted[q], expected[e], threshold);
    }
  }

  /** A matching cannot send a larger group of predicted boxes into the choices of a smaller one. */
  lemma GroupTooLarge(choice: seq<nat>, matching: seq<nat>, group: set<nat>, holders: set<nat>)
    requires Injective(matching)
    requires forall j :: j in group ==>
      j < |matching| && matching[j] in choice && IndexOf(choice, matching[j]) in holders
    ensures |group| <= |holders|
  {
    var back := map j | j in group :: IndexOf(choice, matching[j]);
    forall x, y | x in back && y in back && x != y
      ensures back[x] != back[y]
    {
      assert matching[x] != matching[y];
      assert choice[back[x]] == matching[x] && choice[back[y]] == matching[y];
    }
    assert back.Keys == group;
    NoInjectionIntoSmaller(back, holders);
  }

  /** The matching sends the holders and predicted box `i` to boxes that `c` is compatible with. */
  ghost predicate StaysInGroup(choice: seq<nat>, matching: seq<nat>, c: Box, expected: seq<Box>, threshold: real)
    requires |choice| < |matching|
    requires forall i :: 0 <= i < |choice| ==> choice[i] < |expected|
    requires forall i :: 0 <= i < |matching| ==> matching[i] < |expected|
  {
    && Compatible(c, expected[matching[|choice|]], threshold)
    && forall j :: j in Holders(choice, c, expected, threshold) ==> Compatible(c, expected[matching[j]], threshold)
  }

  lemma FreeInGroup(choice: seq<nat>, matching: seq<nat>, c: Box, expected: seq<Box>,
      threshold: real) returns (free: nat)
    requires Injective(matching) && |choice| < |matching|
    requires forall i :: 0 <= i < |choice| ==> choice[i] < |expected|
    requires forall i :: 0 <= i < |matching| ==> matching[i] < |expected|
    requires StaysInGroup(choice, matching, c, expected, threshold)
    ensures free in Remaining(choice, expected) && Compatible(c, expected[free], threshold)
  {
    hide Compatible, Injective;
    var holders := Holders(choice, c, expected, threshold);
    var group := NextIndex(holders, |choice|);
    if j :| j in group && matching[j] !in choice {
      return matching[j];
    }
    forall j | j in group
      ensures j < |matching| && matching[j] in choice && IndexOf(choice, matching[j]) in holders
    {
      assert Compatible(c, expected[matching[j]], threshold);
    }
    GroupTooLarge(choice, matching, group, holders);
    assert false;
  }

  ghost function NextIndex(holders: set<nat>, i: nat): (group: set<nat>)
    requires forall j :: j in holders ==> j < i
    ensures |group| == |holders| + 1
    ensures forall j :: j in group <==> j == i || j in holders
  {
    holders + {i}
  }

  /** While choices were compatible, a matchable interchangeable request still has a free
      expected box for the next predicted box. */
  lemma StillPlaceable(choice: seq<nat>, matching: seq<nat>, predicted: seq<Box>, expected: seq<Box>,
      threshold: real) returns (free: nat)
    requires Interchangeable(predicted, expected, threshold)
    requires PerfectMatching(matching, predicted, expected, threshold)
    requires Pairs(choice, predicted, expected, threshold) && |choice| < |predicted|
    ensures free in Remaining(choice, expected) && Compatible(predicted[|choice|], expected[free], threshold)
  {
    var c := predicted[|choice|];
    HolderStaysInGroup(choice, matching, predicted, expected, threshold, |choice|);
    forall j | j in Holders(choice, c, expected, threshold)
      ensures Compatible(c, expected[matching[j]], threshold)
    {
      HolderStaysInGroup(choice, matching, predicted, expected, threshold, j);
    }
    free := FreeInGroup(choice, matching, c, expected, threshold);
  }

  ghost function IndexOf(choice: seq<nat>, k: nat): (i: nat)
    requires k in choice
    ensures i < |choice| && choice[i] == k
  {
    var i: nat :| i < |choice| && choice[i] == k;
    i
  }

  lemma {:induction false} GreedyFrom(choice: seq<nat>, matching: seq<nat>, predicted: seq<Box>,
      expected: seq<Box>, threshold: real)
    requires Interchangeable(predicted, expected, threshold)
    requires PerfectMatching(matching, predicted, expected, threshold)
    requires Pairs(choice, predicted, expected, threshold)
    ensures GreedyMatches(predicted[|choice|..], expected, Remaining(choice, expected), threshold)
    decreases |predicted| - |choice|
  {
    var i := |choice|;
    if i == |predicted| {
      AllPlaced(choice, predicted, expected, threshold);
    } else {
      var free := StillPlaceable(choice, matching, predicted, expected, threshold);
      BestIsBest(predicted[i], expected, Remaining(choice, expected), threshold, |expected|, free);
      var best := BestAmong(predicted[i], expected, Remaining(choice, expected), threshold, |expected|).value;
      GreedyUnfolds(predicted, expected, i, Remaining(choice, expected), threshold);
      GreedyExtends(choice, predicted, expected, threshold, best);
      GreedyFrom(choice + [best], matching, predicted, expected, threshold);
    }
  }

  /** On interchangeable requests greedy finds a perfect matching whenever there is one. */
  lemma GreedyIsComplete(predicted: seq<Box>, expected: seq<Box>, threshold: real)
    requires Interchangeable(predicted, expected, threshold) && Matchable(predicted, expected, threshold)
    ensures GreedyMatches(predicted, expected, Indices(|expected|), threshold)
  {
    var matching :| PerfectMatching(matching, predicted, expected, threshold);
    GreedyFrom([], matching, predicted, expected, threshold);
    assert predicted[0..] == predicted && Remaining([], expected) == Indices(|expected|);
  }

  /** A finished run of the greedy choice is a perfect matching, whatever was chosen before. */
  lemma {:induction false} GreedySoundFrom(choice: seq<nat>, predicted: seq<Box>, expected: seq<Box>, threshold: real)
    requires |predicted| == |expected| && Pairs(choice, predicted, expected, threshold)
    requires GreedyMatches(predicted[|choice|..], expected, Remaining(choice, expected), threshold)
    ensures Matchable(predicted, expected, threshold)
    decreases |predicted| - |choice|
  {
    var i := |choice|;
    if i == |predicted| {
      AllPlaced(choice, predicted, expected, threshold);
    } else {
      GreedyUnfolds(predicted, expected, i, Remaining(choice, expected), threshold);
      var best := BestAmong(predicted[i], expected, Remaining(choice, expected), threshold, |expected|).value;
      GreedyExtends(choice, predicted, expected, threshold, best);
      GreedySoundFrom(choice + [best], predicted, expected, threshold);
    }
  }

  lemma GreedyIsSound(predicted: seq<Box>, expected: seq<Box>, threshold: real)
    requires |predicted| == |expected| && GreedyMatches(predicted, expected, Indices(|expected|), threshold)
    ensures Matchable(predicted, expected, threshold)
  {
    assert predicted[0..] == predicted && Remaining([], expected) == Indices(|expected|);
    GreedySoundFrom([], predicted, expected, threshold);
  }

  /** The greedy answer on a request is whether a perfect matching exists. */
  ghost predicate Decides(predicted: seq<Box>, expected: seq<Box>, threshold: real) {
    GreedyMatches(predicted, expected, Indices(|expected|), threshold) <==> Matchable(predicted, expected, threshold)
  }

  /** On interchangeable requests greedy finds a perfect matching exactly when there is one. */
  lemma InterchangeableDecided(predicted: seq<Box>, expected: seq<Box>, threshold: real)
    requires |predicted| == |expected| && Interchangeable(predicted, expected, threshold)
    ensures Decides(predicted, expected, threshold)
  {
    if Matchable(predicted, expected, threshold) {
      GreedyIsComplete(predicted, expected, threshold);
    } else if GreedyMatches(predicted, expected, Indices(|expected|), threshold) {
      GreedyIsSound(predicted, expected, threshold);
    }
  }

  // ------------------------------------------------------------------
  // When requests are unambiguous: the area argument
  // ------------------------------------------------------------------

  /** Expected boxes of one class do not overlap. */
  ghost predicate DisjointWithinClass(expected: seq<Box>) {
    forall e, f :: 0 <= e < f < |expected| && expected[e].kind == expected[f].kind ==>
      Intersection(expected[e], expected[f]) == 0.0
  }

  lemma OverlapsAdd(left: real, right: real, l0: real, r0: real, l1: real, r1: real)
    requires left < right && l0 < r0 && l1 < r1 && Overlap(l0, r0, l1, r1) == 0.0
    ensures Overlap(left, right, l0, r0) + Overlap(left, right, l1, r1) <= right - left
  {
  }

  lemma SideBySide(w0: real, h0: real, w1: real, h1: real, w: real, h: real)
    requires 0.0 <= w0 && 0.0 <= w1 && w0 + w1 <= w
    requires 0.0 <= h0 <= h && 0.0 <= h1 <= h
    ensures Product(w0, h0) + Product(w1, h1) <= Product(w, h)
    ensures Product(h0, w0) + Product(h1, w1) <= Product(h, w)
  {
    assert w0 * h0 <= w0 * h;
    assert w1 * h1 <= w1 * h;
    assert w0 * h + w1 * h == (w0 + w1) * h <= w * h;
  }

  /** Two boxes that do not overlap share at most the whole area of a third. */
  lemma DisjointSharesAdd(p: Box, e: Box, f: Box)
    requires Intersection(e, f) == 0.0
    ensures Intersection(p, e) + Intersection(p, f) <= Area(p)
  {
    var w, h := p.right - p.left, p.bottom - p.top;
    var we, wf := Overlap(p.left, p.right, e.left, e.right), Overlap(p.left, p.right, f.left, f.right);
    var he, hf := Overlap(p.top, p.bottom, e.top, e.bottom), Overlap(p.top, p.bottom, f.top, f.bottom);
    var wef, hef := Overlap(e.left, e.right, f.left, f.right), Overlap(e.top, e.bottom, f.top, f.bottom);
    if wef > 0.0 && hef > 0.0 {
      ProductPositive(wef, hef);
    } else if wef == 0.0 {
      OverlapsAdd(p.left, p.right, e.left, e.right, f.left, f.right);
      SideBySide(we, he, wf, hf, w, h);
    } else {
      OverlapsAdd(p.top, p.bottom, e.top, e.bottom, f.top, f.bottom);
      SideBySide(he, we, hf, wf, h, w);
    }
  }

  /** A ratio above one half means that more than half of the predicted area is shared. */
  lemma MoreThanHalfShared(p: Box, e: Box, threshold: real)
    requires threshold > 0.5 && IoU(p, e) >= threshold
    ensures Intersection(p, e) + Intersection(p, e) > Area(p)
  {
    IntersectionBounds(p, e);
    MoreThanHalf(IoU(p, e), Union(p, e), threshold);
  }

  lemma MoreThanHalf(ratio: real, whole: real, threshold: real)
    requires ratio >= threshold > 0.5 && whole > 0.0
    ensures Product(ratio, whole) + Product(ratio, whole) > whole
  {
    assert ratio * whole > 0.5 * whole;
  }

  lemma DisjointRequestsAreUnambiguous(predicted: seq<Box>, expected: seq<Box>, threshold: real)
    requires threshold > 0.5 && DisjointWithinClass(expected)
    ensures Unambiguous(predicted, expected, threshold)
  {
    forall p, e, f | 0 <= p < |predicted| && 0 <= e < f < |expected|
      && Compatible(predicted[p], expected[e], threshold) && Compatible(predicted[p], expected[f], threshold)
      ensures false
    {
      MoreThanHalfShared(predicted[p], expected[e], threshold);
      MoreThanHalfShared(predicted[p], expected[f], threshold);
      DisjointSharesAdd(predicted[p], expected[e], expected[f]);
    }
  }

  /** Above one half, on expected boxes that do not overlap within a class, the greedy loop
      answers true exactly when a perfect matching exists. */
  lemma AboveHalfGreedyDecides(predicted: seq<Box>, expected: seq<Box>, threshold: real)
    requires |predicted| == |expected| && threshold > 0.5 && DisjointWithinClass(expected)
    ensures GreedyMatches(predicted, expected, Indices(|expected|), threshold) <==>
      Matchable(predicted, expected, threshold)
  {
    DisjointRequestsAreUnambiguous(predicted, expected, threshold);
    assert Interchangeable(predicted, expected, threshold);
    InterchangeableDecided(predicted, expected, threshold);
  }

  /** At threshold zero any two boxes of one class are compatible, so the choice never matters. */
  lemma AtZeroGreedyDecides(predicted: seq<Box>, expected: seq<Box>)
    requires |predicted| == |expected|
    ensures Decides(predicted, expected, 0.0)
  {
    assert Interchangeable(predicted, expected, 0.0);
    InterchangeableDecided(predicted, expected, 0.0);
  }

  // ------------------------------------------------------------------
  // Where completeness stops
  // ------------------------------------------------------------------

  /** What the greedy loop answers on two predicted and two expected boxes. */
  lemma PairGreedy(p: Box, q: Box, e: Box, f: Box, threshold: real)
    ensures GreedyMatches([p, q], [e, f], Indices(2), threshold) ==
      if Compatible(p, f, threshold) && (!Compatible(p, e, threshold) || IoU(p, f) > IoU(p, e)) then Compatible(q, e,
        threshold)
      else Compatible(p, e, threshold) && Compatible(q, f, threshold)
  {
    PairBest(p, e, f, Indices(2), threshold);
    LastGreedy(q, e, f, 0, threshold);
    LastGreedy(q, e, f, 1, threshold);
    assert Indices(2) - {1} == {0} && Indices(2) - {0} == {1};
    assert [p, q][0] == p && [p, q][1..] == [q];
  }

  lemma LastGreedy(q: Box, e: Box, f: Box, k: nat, threshold: real)
    requires k < 2
    ensures GreedyMatches([q], [e, f], {k}, threshold) == Compatible(q, [e, f][k], threshold)
  {
    PairBest(q, e, f, {k}, threshold);
    assert [q][0] == q && [q][1..] == [] && {k} - {k} == {};
  }

  lemma PairBest(c: Box, e: Box, f: Box, unmatched: set<nat>, threshold: real)
    ensures BestAmong(c, [e, f], unmatched, threshold, 2) == (
      var first, second := 0 in unmatched && Compatible(c, e, threshold), 1 in unmatched && Compatible(c, f, threshold);
      if second && (!first || IoU(c, f) > IoU(c, e)) then Some(1) else if first then Some(0) else None)
  {
    var expected := [e, f];
    assert BestAmong(c, expected, unmatched, threshold, 0) == None;
    assert BestAmong(c, expected, unmatched, threshold, 1) == if 0 in unmatched && Compatible(c, e,
      threshold) then Some(0) else None;
  }

  lemma PairMatchable(p: Box, q: Box, e: Box, f: Box, threshold: real)
    ensures Matchable([p, q], [e, f], threshold)
      == ((Compatible(p, e, threshold) && Compatible(q, f, threshold)) || (Compatible(p, f, threshold) && Compatible(q,
        e, threshold)))
  {
    var predicted, expected := [p, q], [e, f];
    if Matchable(predicted, expected, threshold) {
      var choice :| PerfectMatching(choice, predicted, expected, threshold);
      assert choice[0] != choice[1];
      assert Compatible(predicted[0], expected[choice[0]], threshold) && Compatible(predicted[1], expected[choice[1]],
        threshold);
    }
    if Compatible(p, e, threshold) && Compatible(q, f, threshold) {
      assert PerfectMatching([0, 1], predicted, expected, threshold);
    }
    if Compatible(p, f, threshold) && Compatible(q, e, threshold) {
      assert PerfectMatching([1, 0], predicted, expected, threshold);
    }
  }

  /** Two predicted and two expected boxes: a matchable request is answered false exactly when
      the first predicted box takes the only box that the second one fits. */
  lemma PairAnswer(p: Box, q: Box, e: Box, f: Box, threshold: real)
    ensures (Matchable([p, q], [e, f], threshold) && !GreedyMatches([p, q], [e, f], Indices(2), threshold))
      == (Compatible(p, e, threshold) && Compatible(p, f, threshold)
        && if IoU(p, f) > IoU(p, e) then Compatible(q, f, threshold) && !Compatible(q, e, threshold)
           else Compatible(q, e, threshold) && !Compatible(q, f, threshold))
  {
    PairMatchable(p, q, e, f, threshold);
    PairGreedy(p, q, e, f, threshold);
  }

  function LeftHalf(p: Box): Box { Rectangle(p.kind, p.left, p.top, (p.left + p.right) / 2.0, p.bottom) }

  function RightHalf(p: Box): Box { Rectangle(p.kind, (p.left + p.right) / 2.0, p.top, p.right, p.bottom) }

  lemma Contained(p: Box, e: Box)
    requires p.left <= e.left && e.right <= p.right && p.top <= e.top && e.bottom <= p.bottom
    ensures Intersection(p, e) == Area(e)
  {
    assert Overlap(p.left, p.right, e.left, e.right) == e.right - e.left;
    assert Overlap(p.top, p.bottom, e.top, e.bottom) == e.bottom - e.top;
  }

  lemma Touching(e: Box, f: Box)
    requires e.right <= f.left
    ensures Intersection(e, f) == 0.0
  {
    assert Overlap(e.left, e.right, f.left, f.right) == 0.0;
  }

  lemma HalfProduct(x: real, y: real)
    ensures Product(x / 2.0, y) == Product(x, y) / 2.0
  {
  }

  lemma HalfAreas(p: Box)
    ensures Area(LeftHalf(p)) == Area(p) / 2.0 && Area(RightHalf(p)) == Area(p) / 2.0
  {
    HalfProduct(p.right - p.left, p.bottom - p.top);
    assert LeftHalf(p).right - LeftHalf(p).left == (p.right - p.left) / 2.0;
    assert RightHalf(p).right - RightHalf(p).left == (p.right - p.left) / 2.0;
  }

  lemma RatioIs(p: Box, e: Box, ratio: real)
    requires Product(ratio, Union(p, e)) == Intersection(p, e)
    ensures IoU(p, e) == ratio
  {
    assert (IoU(p, e) - ratio) * Union(p, e) == Product(IoU(p, e), Union(p, e)) - Product(ratio, Union(p, e));
  }

  lemma HalfRatio(p: Box, e: Box)
    requires Intersection(p, e) == Area(e) == Area(p) / 2.0
    ensures IoU(p, e) == 0.5
  {
    assert Union(p, e) == Area(p);
    assert Product(0.5, Area(p)) == Area(p) / 2.0;
    RatioIs(p, e, 0.5);
  }

  lemma WholeRatio(e: Box)
    ensures IoU(e, e) == 1.0
  {
    Contained(e, e);
    assert Product(1.0, Area(e)) == Area(e);
    RatioIs(e, e, 1.0);
  }

  lemma ZeroRatio(e: Box, f: Box)
    requires Intersection(e, f) == 0.0
    ensures IoU(e, f) == 0.0
  {
    RatioIs(e, f, 0.0);
  }

  lemma IntersectionSymmetric(c: Box, e: Box)
    ensures Intersection(c, e) == Intersection(e, c)
  {
  }

  lemma RatioSymmetric(c: Box, e: Box)
    ensures IoU(c, e) == IoU(e, c)
  {
    IntersectionSymmetric(c, e);
    RatioIs(c, e, IoU(e, c));
  }

  /** The right quarter of the left half. */
  function InnerQuarter(p: Box): Box { RightHalf(LeftHalf(p)) }

  /** From one half down the area argument stops, for every box: its two halves are disjoint and
      equally compatible with it, so it takes the left one, which its inner quarter needs. */
  lemma HalfThresholdIsTooLow(p: Box, threshold: real)
    requires 0.0 < threshold <= 0.5
    ensures DisjointWithinClass([LeftHalf(p), RightHalf(p)])
    ensures Matchable([p, InnerQuarter(p)], [LeftHalf(p), RightHalf(p)], threshold)
      && !GreedyMatches([p, InnerQuarter(p)], [LeftHalf(p), RightHalf(p)], Indices(2), threshold)
  {
    var e, f, q := LeftHalf(p), RightHalf(p), InnerQuarter(p);
    HalfAreas(p);
    HalfAreas(e);
    Contained(p, e);
    Contained(p, f);
    Contained(e, q);
    HalfRatio(p, e);
    HalfRatio(p, f);
    HalfRatio(e, q);
    RatioSymmetric(e, q);
    Touching(e, f);
    Touching(q, f);
    ZeroRatio(q, f);
    PairAnswer(p, q, e, f, threshold);
  }

  // ------------------------------------------------------------------
  // The exact thresholds
  // ------------------------------------------------------------------

  /** Python's order of strings. */
  predicate NotAfter(a: string, b: string) {
    a == "" || (b != "" && (a[0] < b[0] || (a[0] == b[0] && NotAfter(a[1..], b[1..]))))
  }

  predicate SortsBefore(b: Box, c: Box) {
    if b.kind != c.kind then NotAfter(b.kind, c.kind)
    else if b.left != c.left then b.left < c.left
    else if b.top != c.top then b.top < c.top
    else if b.right != c.right then b.right < c.right
    else b.bottom <= c.bottom
  }

  predicate Whole(x: real) { x.Floor as real == x }

  /** The classes that the decoder writes. */
  const DECODED := ["Car", "RoadSign", "TwoWheeler"]

  /** A box as the decoder emits it: of a decoded class, in whole pixels inside the clipped frame. */
  predicate InFrame(b: Box) {
    && b.kind in DECODED
    && Whole(b.left) && Whole(b.top) && Whole(b.right) && Whole(b.bottom)
    && 0.0 <= b.left && b.right <= 639.0 && 0.0 <= b.top && b.bottom <= 367.0
  }

  /** A detections array in the form `_decode_resnet10_detection` writes: boxes in the frame,
      sorted by class and coordinates. */
  ghost predicate Emitted(boxes: seq<Box>) {
    && (forall i :: 0 <= i < |boxes| ==> InFrame(boxes[i]))
    && (forall i, j :: 0 <= i < j < |boxes| ==> SortsBefore(boxes[i], boxes[j]))
  }

  /** Greedy decides every request whose expected boxes are disjoint within a class. */
  ghost predicate DecidesDisjoint(threshold: real) {
    forall predicted: seq<Box>, expected: seq<Box> :: |predicted| == |expected| && DisjointWithinClass(expected) ==>
      Decides(predicted, expected, threshold)
  }

  /** The same for requests in which both arrays have the decoder's form. */
  ghost predicate DecidesEmitted(threshold: real) {
    forall predicted: seq<Box>, expected: seq<Box> ::
      |predicted| == |expected| && DisjointWithinClass(expected) && Emitted(predicted) && Emitted(expected) ==>
        Decides(predicted, expected, threshold)
  }

  /** Strings are ordered by their first difference, and the beginning of a string comes first. */
  lemma {:induction false} NotAfterDecided(common: string, a: string, b: string)
    ensures NotAfter(common, common + b)
    ensures a != "" && b != "" && a[0] != b[0] ==> (NotAfter(common + a, common + b) <==> a[0] < b[0])
    ensures a != "" ==> !NotAfter(common + a, common)
  {
    if common == "" {
      assert common + a == a && common + b == b;
    } else {
      assert (common + a)[1..] == common[1..] + a && (common + b)[1..] == common[1..] + b;
      NotAfterDecided(common[1..], a, b);
    }
  }

  lemma {:induction false} NotAfterOrders(a: string, b: string)
    ensures NotAfter(a, b) || NotAfter(b, a)
    ensures NotAfter(a, b) && NotAfter(b, a) ==> a == b
  {
    if a != "" && b != "" && a[0] == b[0] {
      NotAfterOrders(a[1..], b[1..]);
      assert a == [a[0]] + a[1..] && b == [b[0]] + b[1..];
    }
  }

  lemma SortsBeforeOrders(b: Box, c: Box)
    ensures SortsBefore(b, c) || SortsBefore(c, b)
    ensures SortsBefore(b, c) && SortsBefore(c, b) ==> b == c
  {
    hide NotAfter;
    NotAfterOrders(b.kind, c.kind);
  }

  /** The frame in numbers: whole pixels from 0 to 639 and from 0 to 367, of three classes. */
  lemma FrameInNumbers(b: Box, kind: string, left: int, top: int, right: int, bottom: int)
    requires left < right && top < bottom
    ensures InFrame(b) ==>
      b == Rectangle(b.kind, b.left.Floor as real, b.top.Floor as real, b.right.Floor as real, b.bottom.Floor as real)
    ensures InFrame(Rectangle(kind, left as real, top as real, right as real, bottom as real)) <==>
      && kind in {"Car", "RoadSign", "TwoWheeler"}
      && 0 <= left && right <= 639 && 0 <= top && bottom <= 367
  {
    assert Whole(left as real) && Whole(top as real) && Whole(right as real) && Whole(bottom as real);
  }

  lemma FirstIsLeast(a: seq<Box>, b: Box)
    requires Emitted(a) && b in a
    ensures a[0] == b || SortsBefore(a[0], b)
  {
    hide InFrame, SortsBefore;
  }

  lemma TailEmitted(a: seq<Box>)
    requires Emitted(a) && a != []
    ensures Emitted(a[1..])
  {
    hide InFrame, SortsBefore;
  }

  lemma TailMultiset(a: seq<Box>)
    requires a != []
    ensures multiset(a[1..]) == multiset(a) - multiset{a[0]}
  {
    assert a == [a[0]] + a[1..];
  }

  lemma SameFirst(a: seq<Box>, b: seq<Box>)
    requires Emitted(a) && Emitted(b) && a != [] && b != [] && multiset(a) == multiset(b)
    ensures a[0] == b[0]
  {
    hide Emitted, SortsBefore;
    assert a[0] in multiset(b) && b[0] in multiset(a);
    FirstIsLeast(b, a[0]);
    FirstIsLeast(a, b[0]);
    SortsBeforeOrders(a[0], b[0]);
  }

  /** The written form is canonical: two sorted arrays of the same boxes are the same array. */
  lemma {:induction false} EmittedCanonical(a: seq<Box>, b: seq<Box>)
    requires Emitted(a) && Emitted(b) && multiset(a) == multiset(b)
    ensures a == b
  {
    hide Emitted;
    assert |a| == |multiset(a)| == |multiset(b)| == |b|;
    if a != [] {
      SameFirst(a, b);
      TailEmitted(a);
      TailEmitted(b);
      TailMultiset(a);
      TailMultiset(b);
      EmittedCanonical(a[1..], b[1..]);
      assert a == [a[0]] + a[1..] && b == [b[0]] + b[1..];
    }
  }

  const SAMPLE: Box := Rectangle("Car", 0.0, 0.0, 4.0, 1.0)

  lemma PixelBox(b: Box, left: nat, right: nat)
    requires b.left == left as real && b.right == right as real && right <= 639 && b.top == 0.0 && b.bottom == 1.0
    requires b.kind == DECODED[0]
    ensures InFrame(b)
  {
  }

  lemma PairEmitted(b: Box, c: Box)
    requires InFrame(b) && InFrame(c) && b.kind == c.kind && b.left < c.left
    ensures Emitted([b, c])
  {
    hide InFrame;
  }

  lemma HalfSides(p: Box)
    ensures LeftHalf(p).left == p.left && LeftHalf(p).right == (p.left + p.right) / 2.0 == RightHalf(p).left
    ensures RightHalf(p).right == p.right
    ensures LeftHalf(p).top == RightHalf(p).top == p.top && LeftHalf(p).bottom == RightHalf(p).bottom == p.bottom
    ensures LeftHalf(p).kind == RightHalf(p).kind == p.kind
  {
  }

  /** A request in the decoder's form that greedy answers wrongly from one half down. */
  lemma EmittedCounterexample(threshold: real)
    requires 0.0 < threshold <= 0.5
    ensures !DecidesEmitted(threshold)
  {
    hide LeftHalf, RightHalf, GreedyMatches, Matchable, DisjointWithinClass, Emitted, InFrame;
    HalfThresholdIsTooLow(SAMPLE, threshold);
    HalfSides(SAMPLE);
    HalfSides(LeftHalf(SAMPLE));
    PixelBox(SAMPLE, 0, 4);
    PixelBox(InnerQuarter(SAMPLE), 1, 2);
    PixelBox(LeftHalf(SAMPLE), 0, 2);
    PixelBox(RightHalf(SAMPLE), 2, 4);
    PairEmitted(SAMPLE, InnerQuarter(SAMPLE));
    PairEmitted(LeftHalf(SAMPLE), RightHalf(SAMPLE));
    assert !Decides([SAMPLE, InnerQuarter(SAMPLE)], [LeftHalf(SAMPLE), RightHalf(SAMPLE)], threshold);
  }

  /** Which thresholds make the greedy choice exact on disjoint expected boxes: those above one
      half, and zero.  Restricting the requests to what the decoder emits changes nothing. */
  lemma DecidesExactlyWhen(threshold: real)
    requires 0.0 <= threshold <= 1.0
    ensures DecidesDisjoint(threshold) <==> threshold > 0.5 || threshold == 0.0
    ensures DecidesEmitted(threshold) <==> threshold > 0.5 || threshold == 0.0
  {
    if threshold > 0.5 || threshold == 0.0 {
      forall predicted: seq<Box>, expected: seq<Box> | |predicted| == |expected| && DisjointWithinClass(expected)
        ensures Decides(predicted, expected, threshold)
      {
        if threshold == 0.0 {
          AtZeroGreedyDecides(predicted, expected);
        } else {
          AboveHalfGreedyDecides(predicted, expected, threshold);
        }
      }
    } else {
      EmittedCounterexample(threshold);
    }
  }

  // ------------------------------------------------------------------
  // Overlapping expected boxes
  // ------------------------------------------------------------------

  lemma FullSides(w: real, h: real, width: real, height: real)
    requires 0.0 <= w <= width && 0.0 <= h <= height && width > 0.0 && height > 0.0
    requires Product(w, h) >= Product(width, height)
    ensures w == width && h == height
  {
    ProductGrows(h, height, w);
    ProductGrows(w, width, height);
    ProductStrict(w, width, height);
    ProductGrows(w, width, h);
    ProductStrict(h, height, width);
    assert Product(h, width) == Product(width, h) && Product(height, width) == Product(width, height);
  }

  /** A box that shares its whole area with another lies inside it. */
  lemma SharedWhollyInside(c: Box, e: Box)
    requires Intersection(c, e) >= Area(c)
    ensures e.left <= c.left && c.right <= e.right && e.top <= c.top && c.bottom <= e.bottom
  {
    FullSides(Overlap(c.left, c.right, e.left, e.right), Overlap(c.top, c.bottom, e.top, e.bottom), c.right - c.left,
      c.bottom - c.top);
  }

  /** Only equal boxes of one class are compatible at threshold one. */
  lemma CompatibleAtOne(c: Box, e: Box)
    ensures Compatible(c, e, 1.0) <==> c == e
  {
    IntersectionBounds(c, e);
    if c == e {
      WholeRatio(e);
    }
    if Compatible(c, e, 1.0) {
      assert Product(1.0, Union(c, e)) == Union(c, e);
      IntersectionSymmetric(c, e);
      SharedWhollyInside(c, e);
      SharedWhollyInside(e, c);
    }
  }

  lemma AtOneGreedyDecides(predicted: seq<Box>, expected: seq<Box>)
    requires |predicted| == |expected|
    ensures Decides(predicted, expected, 1.0)
  {
    hide Compatible;
    forall p, q, e, f | 0 <= p < |predicted| && 0 <= q < |predicted| && 0 <= e < |expected| && 0 <= f < |expected|
      && Compatible(predicted[p], expected[e], 1.0) && Compatible(predicted[p], expected[f], 1.0)
      && Compatible(predicted[q], expected[e], 1.0)
      ensures Compatible(predicted[q], expected[f], 1.0)
    {
      CompatibleAtOne(predicted[p], expected[e]);
      CompatibleAtOne(predicted[p], expected[f]);
    }
    InterchangeableDecided(predicted, expected, 1.0);
  }

  /** A unit square. */
  function SquareAt(x: real): Box { Rectangle("Car", x, 0.0, x + 1.0, 1.0) }

  lemma SquaresShare(x: real, y: real)
    requires x <= y
    ensures var shared := Max(0.0, 1.0 - (y - x));
      Intersection(SquareAt(x), SquareAt(y)) == shared && Union(SquareAt(x), SquareAt(y)) == 2.0 - shared
  {
    var shared := Max(0.0, 1.0 - (y - x));
    assert Overlap(x, x + 1.0, y, y + 1.0) == shared && Overlap(0.0, 1.0, 0.0, 1.0) == 1.0;
    assert Product(shared, 1.0) == shared && Area(SquareAt(x)) == 1.0 && Area(SquareAt(y)) == 1.0;
  }

  /** The distance at which two unit squares have a given ratio. */
  function Distance(ratio: real): (d: real)
    requires 0.0 < ratio < 1.0
    ensures 0.0 < d < 1.0 && Product(ratio, 1.0 + d) == 1.0 - d
  {
    var d := Ratio(1.0 - ratio, 1.0 + ratio);
    assert d * (1.0 + ratio) == 1.0 - ratio;
    d
  }

  /** Strictly between zero and one some request without disjoint boxes is answered wrongly: four
      unit squares in a row, of which the first predicted one takes the exact copy that the second
      predicted one needs. */
  lemma BetweenIsTooLow(threshold: real)
    requires 0.0 < threshold < 1.0
    ensures var d := Distance(threshold);
      !Decides([SquareAt(d), SquareAt(0.0)], [SquareAt(d), SquareAt(2.0 * d)], threshold)
  {
    hide Distance, GreedyMatches, Matchable, SquareAt, Indices, IoU, Product, Intersection, Union, Max;
    var d := Distance(threshold);
    NeighbourRatio(0.0, d, threshold);
    NeighbourRatio(d, 2.0 * d, threshold);
    WholeRatio(SquareAt(d));
    SquaresShare(0.0, 2.0 * d);
    FarProduct(d, threshold);
    SomeUnion(SquareAt(0.0), SquareAt(2.0 * d));
    SmallerRatio(IoU(SquareAt(0.0), SquareAt(2.0 * d)), threshold, Union(SquareAt(0.0), SquareAt(2.0 * d)));
    SquareKind(0.0);
    SquareKind(d);
    SquareKind(2.0 * d);
    PairAnswer(SquareAt(d), SquareAt(0.0), SquareAt(d), SquareAt(2.0 * d), threshold);
  }

  lemma SquareKind(x: real)
    ensures SquareAt(x).kind == "Car"
  {
  }

  lemma NeighbourRatio(x: real, y: real, ratio: real)
    requires 0.0 < ratio < 1.0 && 0.0 < y - x < 1.0 && Product(ratio, 1.0 + (y - x)) == 1.0 - (y - x)
    ensures IoU(SquareAt(x), SquareAt(y)) == ratio
  {
    SquaresShare(x, y);
    RatioIs(SquareAt(x), SquareAt(y), ratio);
  }

  lemma SomeUnion(c: Box, e: Box)
    ensures Union(c, e) > 0.0 && Product(IoU(c, e), Union(c, e)) == Intersection(c, e)
  {
    hide Product, Intersection, Union;
    assert IoU(c, e) >= 0.0;
  }

  lemma SmallerRatio(x: real, y: real, whole: real)
    requires whole > 0.0 && Product(x, whole) < Product(y, whole)
    ensures x < y
  {
    if y <= x {
      ProductGrows(y, x, whole);
    }
  }

  lemma FarProduct(d: real, ratio: real)
    requires 0.0 < ratio < 1.0 && 0.0 < d < 1.0 && Product(ratio, 1.0 + d) == 1.0 - d
    ensures Product(ratio, 2.0 - Max(0.0, 1.0 - 2.0 * d)) > Max(0.0, 1.0 - 2.0 * d)
  {
    assert ratio * (1.0 + 2.0 * d) == ratio * (1.0 + d) + ratio * d;
    assert ratio * d > 0.0;
  }

  /** Greedy decides every request. */
  ghost predicate DecidesAll(threshold: real) {
    forall predicted: seq<Box>, expected: seq<Box> :: |predicted| == |expected| ==>
      Decides(predicted, expected, threshold)
  }

  /** Without any condition on the expected boxes only the two end points are exact. */
  lemma DecidesAllExactlyWhen(threshold: real)
    requires 0.0 <= threshold <= 1.0
    ensures DecidesAll(threshold) <==> threshold == 0.0 || threshold == 1.0
  {
    if threshold == 0.0 || threshold == 1.0 {
      forall predicted: seq<Box>, expected: seq<Box> | |predicted| == |expected|
        ensures Decides(predicted, expected, threshold)
      {
        if threshold == 0.0 {
          AtZeroGreedyDecides(predicted, expected);
        } else {
          AtOneGreedyDecides(predicted, expected);
        }
      }
    } else {
      BetweenIsTooLow(threshold);
    }
  }

  // ------------------------------------------------------------------
  // The whole request
  // ------------------------------------------------------------------

  datatype Error = BadThreshold | BadBoxes

  ghost predicate AllParse(entries: seq<Entry>) {
    forall i :: 0 <= i < |entries| ==> ParseBox(entries[i]).Some?
  }

  ghost function Parsed(entries: seq<Entry>): (boxes: seq<Box>)
    requires AllParse(entries)
  {
    seq(|entries|, i requires 0 <= i < |entries| => ParseBox(entries[i]).value)
  }

  method ParseAll(entries: seq<Entry>) returns (boxes: Option<seq<Box>>)
    ensures boxes.Some? == AllParse(entries)
    ensures boxes.Some? ==> boxes.value == Parsed(entries)
  {
    var parsed: seq<Box> := [];
    for i := 0 to |entries|
      invariant |parsed| == i
      invariant forall k :: 0 <= k < i ==> ParseBox(entries[k]) == Some(parsed[k])
    {
      var box := ParseBox(entries[i]);
      if box.None? {
        return None;
      }
      parsed := parsed + [box.value];
    }
    boxes := Some(parsed);
  }

  /** `_detection_request_correct` on the two detections arrays.  A true answer always comes
      from a perfect matching; a false one rules it out on interchangeable requests. */
  method DetectionRequestCorrect(predicted: seq<Entry>, expected: seq<Entry>,
      threshold: real) returns (r: Result<bool, Error>)
    ensures r == Err(BadThreshold) <==> !(0.0 <= threshold <= 1.0)
    ensures r == Err(BadBoxes) <==>
      0.0 <= threshold <= 1.0 && |predicted| == |expected| && !(AllParse(predicted) && AllParse(expected))
    ensures r.Ok? && |predicted| != |expected| ==> !r.value
    ensures r.Ok? && |predicted| == |expected| ==> AllParse(predicted) && AllParse(expected)
    ensures r.Ok? && |predicted| == |expected| ==>
      (r.value ==> Matchable(Parsed(predicted), Parsed(expected), threshold))
    ensures r.Ok? && |predicted| == |expected| && Interchangeable(Parsed(predicted), Parsed(expected), threshold) ==>
      r.value == Matchable(Parsed(predicted), Parsed(expected), threshold)
  {
    if !(0.0 <= threshold <= 1.0) {
      return Err(BadThreshold);
    }
    if predicted == [] && expected == [] {
      assert PerfectMatching([], [], [], threshold);
      assert Parsed(predicted) == [] && Parsed(expected) == [];
      return Ok(true);
    }
    if |predicted| != |expected| {
      return Ok(false);
    }
    var parsedPredicted := ParseAll(predicted);
    var parsedExpected := ParseAll(expected);
    if parsedPredicted.None? || parsedExpected.None? {
      return Err(BadBoxes);
    }
    var p, e := parsedPredicted.value, parsedExpected.value;
    var correct := MatchBoxes(p, e, threshold);
    if !correct && Interchangeable(p, e, threshold) && Matchable(p, e, threshold) {
      GreedyIsComplete(p, e, threshold);
    }
    r := Ok(correct);
  }
}
