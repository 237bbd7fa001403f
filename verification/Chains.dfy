/** Strictly increasing chains of clocks, and increasing positions in a log. */
module Chains {
  import opened Telemetry

  function Last(xs: seq<int>): int
    requires xs != []
  {
    xs[|xs| - 1]
  }

  /** `any(current <= previous ...)` is false: neighbours increase. */
  predicate Chain(xs: seq<int>) {
    forall i :: 0 <= i < |xs| - 1 ==> xs[i] < xs[i + 1]
  }

  lemma {:induction false} ChainIncreasesBetween(xs: seq<int>, i: nat, j: nat)
    requires Chain(xs) && i < j < |xs|
    ensures xs[i] < xs[j]
    decreases j
  {
    if i < j - 1 {
      ChainIncreasesBetween(xs, i, j - 1);
    }
    assert xs[j - 1] < xs[j - 1 + 1];
  }

  /** Checking neighbours is enough. */
  lemma ChainIsIncreasing(xs: seq<int>)
    ensures Chain(xs) <==> Increasing(xs)
  {
    if Chain(xs) {
      forall i, j | 0 <= i < j < |xs|
        ensures xs[i] < xs[j]
      {
        ChainIncreasesBetween(xs, i, j);
      }
    }
  }

  /** Two chains joined by an increase form one chain. */
  lemma ChainConcat(xs: seq<int>, ys: seq<int>)
    requires Chain(xs) && Chain(ys) && (xs == [] || ys == [] || Last(xs) < ys[0])
    ensures Chain(xs + ys)
  {
  }

  lemma EmptyChain()
    ensures Chain([])
  {
  }

  /** A chain between two other clocks. */
  lemma ChainAround(first: int, middle: seq<int>, after: seq<int>)
    requires Chain(middle) && Chain(after) && middle != [] && after != [] && first < middle[0]
    requires Last(middle) < after[0]
    ensures Chain([first] + middle + after)
  {
    ChainConcat([first], middle);
    ChainConcat([first] + middle, after);
  }

  lemma JoinedLine(xs: seq<int>, last: int)
    requires xs != [] && Chain(xs) && Last(xs) < last
    ensures Increasing(xs + [last])
  {
    ChainConcat(xs, [last]);
    ChainIsIncreasing(xs + [last]);
  }

  // ------------------------------------------------------------------
  // Increasing positions
  // ------------------------------------------------------------------

  ghost predicate Within(refs: seq<nat>, n: nat) { forall i :: 0 <= i < |refs| ==> refs[i] < n }

  ghost predicate Ascending(refs: seq<nat>) { forall i, j :: 0 <= i < j < |refs| ==> refs[i] < refs[j] }

  /** Between ascending positions there is room for as many positions as lie between their indices. */
  lemma {:induction false} Room(refs: seq<nat>, i: nat, j: nat)
    requires i <= j < |refs| && Ascending(refs)
    ensures refs[j] - refs[i] >= j - i && refs[i] >= i
    decreases j + i
  {
    if i < j {
      Room(refs, i, j - 1);
    } else if i > 0 {
      Room(refs, i - 1, i - 1);
    }
  }

  /** When ascending positions reach every place below `n`, each is in its own place. */
  lemma {:induction false} InPlace(refs: seq<nat>, n: nat, k: nat)
    requires Ascending(refs) && k < n && forall i: nat :: i < n ==> i in refs
    ensures k < |refs| && refs[k] == k
  {
    assert k in refs;
    var j :| 0 <= j < |refs| && refs[j] == k;
    Room(refs, j, j);
    if j < k {
      InPlace(refs, n, j);
    }
  }

  /** Ascending positions below `n` reach every place exactly when there are `n` of them, and then
      they are 0, 1, ..., n - 1. */
  lemma FullExactlyWhen(refs: seq<nat>, n: nat)
    requires Within(refs, n) && Ascending(refs)
    ensures |refs| <= n
    ensures |refs| == n <==> forall k: nat :: k < n ==> k in refs
    ensures |refs| == n ==> forall k :: 0 <= k < n ==> refs[k] == k
  {
    if refs != [] {
      Room(refs, 0, |refs| - 1);
    }
    if |refs| == n {
      forall k | 0 <= k < n
        ensures refs[k] == k && k in refs
      {
        Room(refs, k, n - 1);
      }
    } else if forall k: nat :: k < n ==> k in refs {
      InPlace(refs, n, n - 1);
    }
  }
}
