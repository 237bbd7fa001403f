/** The two-row edit-distance loop behind the word error rate
    (analysis/build_application_prediction_trace.py).  Transcripts arrive as the word
    lists that the tokenizer extracted. */
module WordErrorRate {
  import opened Arithmetic
  import opened Common

  /** A word of a transcript, already case-folded. */
  datatype Word = Word(text: string)

  // ------------------------------------------------------------------
  // Edit scripts: the independent meaning of the distance
  // ------------------------------------------------------------------

  /** One step of a script. */
  datatype Edit = Keep(word: Word) | Insert(added: Word) | Delete(removed: Word) | Substitute(before: Word, after: Word)

  /** A script, read from its last step. */
  datatype Script = Done | Then(earlier: Script, step: Edit)

  /** The script turns the first `i` words of `a` into the first `j` words of `b`. */
  predicate Rewrites(script: Script, a: seq<Word>, i: nat, b: seq<Word>, j: nat)
    requires i <= |a| && j <= |b|
  {
    match script
    case Done => i == 0 && j == 0
    case Then(earlier, Keep(w)) => i > 0 && j > 0 && a[i - 1] == w == b[j - 1] && Rewrites(earlier, a, i - 1, b, j - 1)
    case Then(earlier, Insert(w)) => j > 0 && w == b[j - 1] && Rewrites(earlier, a, i, b, j - 1)
    case Then(earlier, Delete(w)) => i > 0 && a[i - 1] == w && Rewrites(earlier, a, i - 1, b, j)
    case Then(earlier, Substitute(v, w)) => i > 0 && j > 0 && a[i - 1] == v && w == b[j - 1] && Rewrites(earlier, a,
      i - 1, b, j - 1)
  }

  /** The number of insertions, deletions and substitutions. */
  function Cost(script: Script): nat {
    if script.Done? then 0 else Cost(script.earlier) + if script.step.Keep? then 0 else 1
  }

  ghost predicate RewritesAll(script: Script, a: seq<Word>, b: seq<Word>) {
    Rewrites(script, a, |a|, b, |b|)
  }

  // ------------------------------------------------------------------
  // The recurrence the loop tabulates
  // ------------------------------------------------------------------

  function Min(x: nat, y: nat): nat { if x <= y then x else y }

  function Best(left: nat, up: nat, diagonal: nat, differ: bool): nat {
    Min(Min(left + 1, up + 1), diagonal + if differ then 1 else 0)
  }

  /** The distance between the first `i` words of `a` and the first `j` words of `b`. */
  function PrefixDistance(a: seq<Word>, i: nat, b: seq<Word>, j: nat): nat
    requires i <= |a| && j <= |b|
    decreases i + j
  {
    if i == 0 then j
    else if j == 0 then i
    else Best(PrefixDistance(a, i, b, j - 1), PrefixDistance(a, i - 1, b, j), PrefixDistance(a, i - 1, b, j - 1),
      a[i - 1] != b[j - 1])
  }

  function Distance(a: seq<Word>, b: seq<Word>): nat { PrefixDistance(a, |a|, b, |b|) }

  /** Dropping the last word of either text changes the distance by at most one. */
  lemma {:induction false} OneMoreWord(a: seq<Word>, i: nat, b: seq<Word>, j: nat)
    requires i <= |a| && j <= |b|
    ensures i > 0 ==> PrefixDistance(a, i, b, j) <= PrefixDistance(a, i - 1, b, j) + 1
    ensures j > 0 ==> PrefixDistance(a, i, b, j) <= PrefixDistance(a, i, b, j - 1) + 1
  {
  }

  /** No script is cheaper than the distance. */
  lemma {:induction false} EveryScriptCostsAtLeastDistance(script: Script, a: seq<Word>, i: nat, b: seq<Word>, j: nat)
    requires i <= |a| && j <= |b| && Rewrites(script, a, i, b, j)
    ensures PrefixDistance(a, i, b, j) <= Cost(script)
    decreases script
  {
    match script
    case Done =>
    case Then(earlier, Keep(_)) => EveryScriptCostsAtLeastDistance(earlier, a, i - 1, b, j - 1);
    case Then(earlier, Insert(_)) =>
      EveryScriptCostsAtLeastDistance(earlier, a, i, b, j - 1);
      OneMoreWord(a, i, b, j);
    case Then(earlier, Delete(_)) =>
      EveryScriptCostsAtLeastDistance(earlier, a, i - 1, b, j);
      OneMoreWord(a, i, b, j);
    case Then(earlier, Substitute(_, _)) => EveryScriptCostsAtLeastDistance(earlier, a, i - 1, b, j - 1);
  }

  /** The distance of two prefixes is that of smaller prefixes and one last edit. */
  lemma CheapestLastEdit(a: seq<Word>, i: nat, b: seq<Word>, j: nat)
    requires i <= |a| && j <= |b|
    ensures var d := PrefixDistance(a, i, b, j);
      || (i == 0 && j == 0 && d == 0)
      || (j > 0 && d == PrefixDistance(a, i, b, j - 1) + 1)
      || (i > 0 && d == PrefixDistance(a, i - 1, b, j) + 1)
      || (i > 0 && j > 0 && d == PrefixDistance(a, i - 1, b, j - 1) + if a[i - 1] == b[j - 1] then 0 else 1)
  {
  }

  /** Some script costs exactly the distance. */
  lemma {:induction false} SomeScriptCostsDistance(a: seq<Word>, i: nat, b: seq<Word>, j: nat) returns (script: Script)
    requires i <= |a| && j <= |b|
    ensures Rewrites(script, a, i, b, j) && Cost(script) == PrefixDistance(a, i, b, j)
    decreases i + j
  {
    hide PrefixDistance;
    CheapestLastEdit(a, i, b, j);
    var d := PrefixDistance(a, i, b, j);
    if i == 0 && j == 0 {
      script := Done;
    } else if i == 0 || (j > 0 && d == PrefixDistance(a, i, b, j - 1) + 1) {
      script := SomeScriptCostsDistance(a, i, b, j - 1);
      script := Then(script, Insert(b[j - 1]));
    } else if j == 0 || d == PrefixDistance(a, i - 1, b, j) + 1 {
      script := SomeScriptCostsDistance(a, i - 1, b, j);
      script := Then(script, Delete(a[i - 1]));
    } else {
      script := SomeScriptCostsDistance(a, i - 1, b, j - 1);
      script := Then(script, if a[i - 1] == b[j - 1] then Keep(a[i - 1]) else Substitute(a[i - 1], b[j - 1]));
    }
  }

  /** The distance is the cost of a cheapest script. */
  lemma DistanceIsShortestScript(a: seq<Word>, b: seq<Word>)
    ensures exists script :: RewritesAll(script, a, b) && Cost(script) == Distance(a, b)
    ensures forall script :: RewritesAll(script, a, b) ==> Cost(script) >= Distance(a, b)
  {
    var best := SomeScriptCostsDistance(a, |a|, b, |b|);
    assert RewritesAll(best, a, b);
    forall script | RewritesAll(script, a, b)
      ensures Cost(script) >= Distance(a, b)
    {
      EveryScriptCostsAtLeastDistance(script, a, |a|, b, |b|);
    }
  }

  // ------------------------------------------------------------------
  // The distance is a metric, and is bounded by the lengths
  // ------------------------------------------------------------------

  lemma {:induction false} ZeroIffEqualPrefixes(a: seq<Word>, i: nat, b: seq<Word>, j: nat)
    requires i <= |a| && j <= |b|
    ensures PrefixDistance(a, i, b, j) == 0 <==> i == j && forall k :: 0 <= k < i ==> a[k] == b[k]
    decreases i
  {
    if i > 0 && j > 0 {
      ZeroIffEqualPrefixes(a, i - 1, b, j - 1);
    }
  }

  lemma DistanceZeroIffEqual(a: seq<Word>, b: seq<Word>)
    ensures Distance(a, b) == 0 <==> a == b
  {
    ZeroIffEqualPrefixes(a, |a|, b, |b|);
  }

  /** The script that undoes another one. */
  lemma {:induction false} Inverted(script: Script, a: seq<Word>, i: nat, b: seq<Word>,
      j: nat) returns (inverse: Script)
    requires i <= |a| && j <= |b| && Rewrites(script, a, i, b, j)
    ensures Rewrites(inverse, b, j, a, i) && Cost(inverse) == Cost(script)
    decreases script
  {
    match script
    case Done => inverse := Done;
    case Then(earlier, Keep(w)) =>
      inverse := Inverted(earlier, a, i - 1, b, j - 1);
      inverse := Then(inverse, Keep(w));
    case Then(earlier, Insert(w)) =>
      inverse := Inverted(earlier, a, i, b, j - 1);
      inverse := Then(inverse, Delete(w));
    case Then(earlier, Delete(w)) =>
      inverse := Inverted(earlier, a, i - 1, b, j);
      inverse := Then(inverse, Insert(w));
    case Then(earlier, Substitute(v, w)) =>
      inverse := Inverted(earlier, a, i - 1, b, j - 1);
      inverse := Then(inverse, Substitute(w, v));
  }

  lemma ShortestInverted(a: seq<Word>, b: seq<Word>)
    ensures Distance(b, a) <= Distance(a, b)
  {
    var script := SomeScriptCostsDistance(a, |a|, b, |b|);
    var inverse := Inverted(script, a, |a|, b, |b|);
    EveryScriptCostsAtLeastDistance(inverse, b, |b|, a, |a|);
  }

  lemma DistanceSymmetric(a: seq<Word>, b: seq<Word>)
    ensures Distance(a, b) == Distance(b, a)
  {
    ShortestInverted(a, b);
    ShortestInverted(b, a);
  }

  lemma DistanceStep(a: seq<Word>, i: nat, b: seq<Word>, j: nat)
    requires i <= |a| && j <= |b|
    ensures i == 0 ==> PrefixDistance(a, i, b, j) == j
    ensures j == 0 ==> PrefixDistance(a, i, b, j) == i
    ensures i > 0 && j > 0 ==> PrefixDistance(a, i, b, j) == Best(PrefixDistance(a, i, b, j - 1),
      PrefixDistance(a, i - 1, b, j), PrefixDistance(a, i - 1, b, j - 1), a[i - 1] != b[j - 1])
  {
    hide Best;
  }

  lemma {:induction false} PrefixBounds(a: seq<Word>, i: nat, b: seq<Word>, j: nat, d: nat)
    requires i <= |a| && j <= |b| && d == PrefixDistance(a, i, b, j)
    ensures i - j <= d && j - i <= d && (d <= i || d <= j)
    decreases i + j
  {
    hide PrefixDistance;
    DistanceStep(a, i, b, j);
    if i > 0 && j > 0 {
      PrefixBounds(a, i, b, j - 1, PrefixDistance(a, i, b, j - 1));
      PrefixBounds(a, i - 1, b, j, PrefixDistance(a, i - 1, b, j));
      PrefixBounds(a, i - 1, b, j - 1, PrefixDistance(a, i - 1, b, j - 1));
    }
  }

  /** Between the length difference and the longer length. */
  lemma DistanceBounds(a: seq<Word>, b: seq<Word>)
    ensures |a| - |b| <= Distance(a, b) && |b| - |a| <= Distance(a, b)
    ensures Distance(a, b) <= |a| || Distance(a, b) <= |b|
  {
    PrefixBounds(a, |a|, b, |b|, Distance(a, b));
  }

  /** Two scripts in a row make one that costs no more than both. */
  lemma {:induction false} Composed(first: Script, second: Script, a: seq<Word>, i: nat, b: seq<Word>, j: nat,
      c: seq<Word>, k: nat)
      returns (script: Script)
    requires i <= |a| && j <= |b| && k <= |c| && Rewrites(first, a, i, b, j) && Rewrites(second, b, j, c, k)
    ensures Rewrites(script, a, i, c, k) && Cost(script) <= Cost(first) + Cost(second)
    decreases first, second
  {
    if first.Then? && first.step.Delete? {
      script := Composed(first.earlier, second, a, i - 1, b, j, c, k);
      script := Then(script, first.step);
    } else if second.Then? && second.step.Insert? {
      script := Composed(first, second.earlier, a, i, b, j, c, k - 1);
      script := Then(script, second.step);
    } else if first.Done? {
      script := Done;
    } else if first.step.Insert? {
      script := Composed(first.earlier, second.earlier, a, i, b, j - 1, c, if second.step.Delete? then k else k - 1);
      script := if second.step.Delete? then script else Then(script, Insert(c[k - 1]));
    } else if second.step.Delete? {
      script := Composed(first.earlier, second.earlier, a, i - 1, b, j - 1, c, k);
      script := Then(script, Delete(a[i - 1]));
    } else {
      script := Composed(first.earlier, second.earlier, a, i - 1, b, j - 1, c, k - 1);
      script := Then(script, if first.step.Keep? && second.step.Keep? then Keep(a[i - 1]) else Substitute(a[i - 1],
        c[k - 1]));
    }
  }

  lemma DistanceTriangle(a: seq<Word>, b: seq<Word>, c: seq<Word>)
    ensures Distance(a, c) <= Distance(a, b) + Distance(b, c)
  {
    var first := SomeScriptCostsDistance(a, |a|, b, |b|);
    var second := SomeScriptCostsDistance(b, |b|, c, |c|);
    var script := Composed(first, second, a, |a|, b, |b|, c, |c|);
    EveryScriptCostsAtLeastDistance(script, a, |a|, c, |c|);
  }

  // ------------------------------------------------------------------
  // The two-row loop
  // ------------------------------------------------------------------

  /** The row holds the distances from the first `i` words of the hypothesis to the first
      prefixes of the reference. */
  ghost predicate IsRow(row: seq<nat>, hypothesis: seq<Word>, i: nat, reference: seq<Word>) {
    i <= |hypothesis| && |row| <= |reference| + 1 && forall j :: 0 <= j < |row| ==>
      row[j] == PrefixDistance(hypothesis, i, reference, j)
  }

  /** `ratio` is the exact quotient `edits / words`. */
  ghost predicate IsRatio(ratio: real, edits: nat, words: nat) {
    words > 0 && Product(ratio, words as real) == edits as real
  }

  /** `_word_error_rate`, with `None` for the exception raised on an empty reference. */
  method WordErrorRateOf(hypothesis: seq<Word>, reference: seq<Word>) returns (rate: Option<real>)
    ensures rate.None? <==> reference == []
    ensures rate.Some? ==> IsRatio(rate.value, Distance(hypothesis, reference), |reference|)
  {
    if reference == [] {
      return None;
    }
    var previous: seq<nat> := seq(|reference| + 1, j => j);
    for i := 0 to |hypothesis|
      invariant |previous| == |reference| + 1 && IsRow(previous, hypothesis, i, reference)
    {
      var current: seq<nat> := [i + 1];
      for j := 0 to |reference|
        invariant |current| == j + 1 && IsRow(current, hypothesis, i + 1, reference)
      {
        current := current + [Best(current[j], previous[j + 1], previous[j], hypothesis[i] != reference[j])];
      }
      previous := current;
    }
    rate := Some(Ratio(previous[|previous| - 1] as real, |reference| as real));
  }

  /** Some script rewrites `a` into `b` with at most `budget` edits. */
  ghost predicate RewritableFor(a: seq<Word>, b: seq<Word>, budget: real) {
    exists script :: RewritesAll(script, a, b) && Cost(script) as real <= budget
  }

  lemma AffordableIffDistanceAffordable(a: seq<Word>, b: seq<Word>, budget: real)
    ensures RewritableFor(a, b, budget) <==> Distance(a, b) as real <= budget
  {
    DistanceIsShortestScript(a, b);
  }

  /** The number of edits that `maxWer` edits for each of `words` words allow. */
  ghost function EditBudget(maxWer: real, words: nat): real {
    Product(maxWer, words as real)
  }

  /** `_asr_request_correct`: accepted exactly when the hypothesis can be rewritten into the
      reference with at most `maxWer` edits for each reference word. */
  method AsrRequestCorrect(hypothesis: seq<Word>, reference: seq<Word>, maxWer: real) returns (correct: Option<bool>)
    ensures correct.None? <==> reference == []
    ensures correct == Some(true) ==>
      exists script ::
        RewritesAll(script, hypothesis, reference) && Cost(script) as real <= maxWer * |reference| as real
    ensures correct == Some(false) ==>
      !exists script ::
        RewritesAll(script, hypothesis, reference) && Cost(script) as real <= maxWer * |reference| as real
  {
    var rate := WordErrorRateOf(hypothesis, reference);
    if rate.None? {
      return None;
    }
    RatioAtMost(rate.value, Distance(hypothesis, reference), |reference|, maxWer);
    AffordableIffDistanceAffordable(hypothesis, reference, EditBudget(maxWer, |reference|));
    assert EditBudget(maxWer, |reference|) == maxWer * |reference| as real;
    correct := Some(rate.value <= maxWer);
  }

  lemma RatioAtMost(ratio: real, edits: nat, words: nat, bound: real)
    requires IsRatio(ratio, edits, words)
    ensures ratio <= bound <==> edits as real <= EditBudget(bound, words)
  {
  }
}
