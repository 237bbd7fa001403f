/** Marker lookups as positions in a log: what a replay reads, and at which clocks. */
module Accounting {
  import opened Telemetry
  import opened Chains

  /** Exactly one marker answers. */
  predicate Answered<X>(markers: seq<Marker<X>>, q: Query) { Lookup(markers, q).Some? }

  function Answer<X>(markers: seq<Marker<X>>, q: Query): Marker<X>
    requires Answered(markers, q)
  {
    markers[Lookup(markers, q).value]
  }

  /** The clock of the answer. */
  function AnswerNs<X>(markers: seq<Marker<X>>, q: Query): int {
    if Answered(markers, q) then Answer(markers, q).ns else 0
  }

  /** Exactly one marker answers, and its metadata is what the replay expects. */
  predicate AnsweredWith<X(==)>(markers: seq<Marker<X>>, q: Query, metadata: Metadata<X>) {
    Answered(markers, q) && Answer(markers, q).metadata == metadata
  }

  /** The log position of a lookup's answer. */
  function At<X>(markers: seq<Marker<X>>, q: Query): nat {
    if Answered(markers, q) then Lookup(markers, q).value else 0
  }

  // ------------------------------------------------------------------
  // Lookups by exact metadata
  // ------------------------------------------------------------------

  /** The positions of the first `n` markers with this name and exactly this metadata. */
  function ExactUpTo<X(==)>(markers: seq<Marker<X>>, name: Name, metadata: Metadata<X>, n: nat): (found: seq<nat>)
    requires n <= |markers|
    ensures forall k :: k in found ==> k < n && markers[k].name == name && markers[k].metadata == metadata
  {
    if n == 0 then [] else
      var front := ExactUpTo(markers, name, metadata, n - 1);
      if markers[n - 1].name == name && markers[n - 1].metadata == metadata then front + [n - 1] else front
  }

  /** `marker_timestamp` of the deadline freezer returns: exactly one marker has this name and this
      metadata. */
  predicate Exact<X(==)>(markers: seq<Marker<X>>, name: Name, metadata: Metadata<X>) {
    |ExactUpTo(markers, name, metadata, |markers|)| == 1
  }

  function ExactAt<X(==)>(markers: seq<Marker<X>>, name: Name, metadata: Metadata<X>): nat {
    if Exact(markers, name, metadata) then ExactUpTo(markers, name, metadata, |markers|)[0] else 0
  }

  /** The clock it returns. */
  function ExactNs<X(==)>(markers: seq<Marker<X>>, name: Name, metadata: Metadata<X>): int {
    NsAt(markers, ExactAt(markers, name, metadata))
  }

  lemma ExactAnswer<X>(markers: seq<Marker<X>>, name: Name, metadata: Metadata<X>)
    requires Exact(markers, name, metadata)
    ensures var k := ExactAt(markers, name, metadata);
      k < |markers| && markers[k].name == name && markers[k].metadata == metadata && NsAt(markers,
        k) == ExactNs(markers, name, metadata)
  {
    var found := ExactUpTo(markers, name, metadata, |markers|);
    assert found[0] in found;
  }

  predicate IsExactly<X(==)>(m: Marker<X>, name: Name,
      metadata: Metadata<X>) { m.name == name && m.metadata == metadata }

  lemma {:induction false} OnlyExact<X>(markers: seq<Marker<X>>, name: Name, metadata: Metadata<X>, k: nat, n: nat)
    requires k < |markers| && n <= |markers| && IsExactly(markers[k], name, metadata)
    requires forall j: nat :: j < |markers| && IsExactly(markers[j], name, metadata) ==> j == k
    ensures ExactUpTo(markers, name, metadata, n) == if n <= k then [] else [k]
  {
    if n > 0 {
      OnlyExact(markers, name, metadata, k, n - 1);
      assert IsExactly(markers[n - 1], name, metadata) <==> n - 1 == k;
    }
  }

  /** The only marker with a name and metadata is the one found. */
  lemma ExactWhenUnique<X>(markers: seq<Marker<X>>, name: Name, metadata: Metadata<X>, k: nat)
    requires k < |markers| && IsExactly(markers[k], name, metadata)
    requires forall j: nat :: j < |markers| && IsExactly(markers[j], name, metadata) ==> j == k
    ensures Exact(markers, name, metadata) && ExactAt(markers, name, metadata) == k
    ensures ExactNs(markers, name, metadata) == markers[k].ns
  {
    OnlyExact(markers, name, metadata, k, |markers|);
  }

  function NsAt<X>(markers: seq<Marker<X>>, k: nat): int { if k < |markers| then markers[k].ns else 0 }

  function NsOf<X>(markers: seq<Marker<X>>, refs: seq<nat>): (clocks: seq<int>)
    ensures |clocks| == |refs| && forall i :: 0 <= i < |refs| ==> clocks[i] == NsAt(markers, refs[i])
  {
    seq(|refs|, i requires 0 <= i < |refs| => NsAt(markers, refs[i]))
  }

  lemma NsOfConcat<X>(markers: seq<Marker<X>>, xs: seq<nat>, ys: seq<nat>)
    ensures NsOf(markers, xs + ys) == NsOf(markers, xs) + NsOf(markers, ys)
  {
  }

  lemma AnswerAt<X>(markers: seq<Marker<X>>, q: Query)
    requires Answered(markers, q)
    ensures At(markers, q) < |markers| && NsAt(markers, At(markers, q)) == AnswerNs(markers, q)
  {
  }

  lemma ClockOrder(clocks: seq<int>, a: nat, b: nat)
    requires Increasing(clocks) && a < |clocks| && b < |clocks| && clocks[a] < clocks[b]
    ensures a < b
  {
  }

  /** Positions that carry increasing clocks in an increasing log ascend. */
  lemma PositionsAscend<X>(markers: seq<Marker<X>>, refs: seq<nat>)
    requires Increasing(MarkerClocks(markers)) && Within(refs, |markers|) && Increasing(NsOf(markers, refs))
    ensures Ascending(refs)
  {
    forall i, j | 0 <= i < j < |refs|
      ensures refs[i] < refs[j]
    {
      assert NsOf(markers, refs)[i] < NsOf(markers, refs)[j];
      assert MarkerClocks(markers)[refs[i]] < MarkerClocks(markers)[refs[j]];
      ClockOrder(MarkerClocks(markers), refs[i], refs[j]);
    }
  }

  // ------------------------------------------------------------------
  // Accounting for some of the names
  // ------------------------------------------------------------------

  /** How many of the first `n` markers have a name in `chain`. */
  function CountNamed<X>(markers: seq<Marker<X>>, chain: Name -> bool, n: nat): (count: nat)
    requires n <= |markers|
    ensures count <= n
  {
    if n == 0 then 0 else CountNamed(markers, chain, n - 1) + if chain(markers[n - 1].name) then 1 else 0
  }

  ghost predicate AllNamed<X>(markers: seq<Marker<X>>, chain: Name -> bool, refs: seq<nat>) {
    forall i :: 0 <= i < |refs| ==> refs[i] < |markers| && chain(markers[refs[i]].name)
  }

  /** The rank of each position among the markers with a name in `chain`. */
  function Ranks<X>(markers: seq<Marker<X>>, chain: Name -> bool, refs: seq<nat>): (ranks: seq<nat>)
    requires Within(refs, |markers|)
    ensures |ranks| == |refs| && forall i :: 0 <= i < |refs| ==> ranks[i] == CountNamed(markers, chain, refs[i])
  {
    seq(|refs|, i requires 0 <= i < |refs| => CountNamed(markers, chain, refs[i]))
  }

  lemma {:induction false} CountGrows<X>(markers: seq<Marker<X>>, chain: Name -> bool, m: nat, n: nat)
    requires m <= n <= |markers|
    ensures CountNamed(markers, chain, m) <= CountNamed(markers, chain, n)
    ensures m < n && chain(markers[m].name) ==> CountNamed(markers, chain, m) < CountNamed(markers, chain, n)
  {
    if m < n - 1 {
      CountGrows(markers, chain, m, n - 1);
    }
  }

  /** Every rank below the count belongs to some marker. */
  lemma {:induction false} OfRank<X>(markers: seq<Marker<X>>, chain: Name -> bool, rank: nat, n: nat) returns (k: nat)
    requires n <= |markers| && rank < CountNamed(markers, chain, n)
    ensures k < n && chain(markers[k].name) && CountNamed(markers, chain, k) == rank
  {
    if rank < CountNamed(markers, chain, n - 1) {
      k := OfRank(markers, chain, rank, n - 1);
    } else {
      k := n - 1;
    }
  }

  /** Ascending positions of markers in `chain` hold all of them exactly when there are as many. */
  lemma AllReadExactlyWhen<X>(markers: seq<Marker<X>>, chain: Name -> bool, refs: seq<nat>)
    requires AllNamed(markers, chain, refs) && Ascending(refs)
    ensures |refs| <= CountNamed(markers, chain, |markers|)
    ensures |refs| == CountNamed(markers, chain, |markers|) <==>
      forall k: nat :: k < |markers| && chain(markers[k].name) ==> k in refs
  {
    var n := CountNamed(markers, chain, |markers|);
    var ranks := Ranks(markers, chain, refs);
    forall i | 0 <= i < |refs|
      ensures ranks[i] < n
    {
      CountGrows(markers, chain, refs[i], |markers|);
    }
    forall i, j | 0 <= i < j < |refs|
      ensures ranks[i] < ranks[j]
    {
      CountGrows(markers, chain, refs[i], refs[j]);
    }
    FullExactlyWhen(ranks, n);
    if |refs| == n {
      forall k: nat | k < |markers| && chain(markers[k].name)
        ensures k in refs
      {
        CountGrows(markers, chain, k, |markers|);
        var r := CountNamed(markers, chain, k);
        assert ranks[r] == r;
        SameRank(markers, chain, refs[r], k);
      }
    }
    if forall k: nat :: k < |markers| && chain(markers[k].name) ==> k in refs {
      forall r: nat | r < n
        ensures r in ranks
      {
        var k := OfRank(markers, chain, r, |markers|);
        assert k in refs;
        var i :| 0 <= i < |refs| && refs[i] == k;
        assert ranks[i] == r;
      }
    }
  }

  lemma SameRank<X>(markers: seq<Marker<X>>, chain: Name -> bool, a: nat, b: nat)
    requires a < |markers| && b < |markers| && chain(markers[a].name) && chain(markers[b].name)
    requires CountNamed(markers, chain, a) == CountNamed(markers, chain, b)
    ensures a == b
  {
    if a < b {
      CountGrows(markers, chain, a, b);
    } else if b < a {
      CountGrows(markers, chain, b, a);
    }
  }

  /** Markers of different names never share a clock in an increasing log. */
  lemma NamesSeparateClocks<X>(markers: seq<Marker<X>>, a: nat, b: nat)
    requires Increasing(MarkerClocks(markers)) && a < |markers| && b < |markers| && markers[a].name != markers[b].name
    ensures NsAt(markers, a) != NsAt(markers, b)
  {
    var clocks := MarkerClocks(markers);
    assert clocks[a] == NsAt(markers, a) && clocks[b] == NsAt(markers, b);
  }
}
