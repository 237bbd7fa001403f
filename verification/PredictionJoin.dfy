/** Joining captured outputs, wall timings and the request manifest into prediction rows
    (analysis/build_application_prediction_trace.py:53-80, 152-187, 326-441). */
module PredictionJoin {
  import opened Common
  import opened LittleEndian
  import OutputTrace

  // ------------------------------------------------------------------
  // The request manifest
  // ------------------------------------------------------------------

  /** One manifest line; `intact` stands for its schema, label and hash checks. */
  datatype Line = Line(iteration: int, requestId: string, arrival: int, inputSha: string, expected: string,
      intact: bool)

  type Requests = map<int, Line>

  predicate LineValid(l: Line) { l.intact && l.iteration >= 0 && l.requestId != "" && l.arrival >= 0 }

  ghost predicate DistinctLines(lines: seq<Line>) {
    forall i, j :: 0 <= i < j < |lines| ==>
      && lines[i].iteration != lines[j].iteration && lines[i].requestId != lines[j].requestId
      && lines[i].arrival != lines[j].arrival
  }

  /** The arrivals that `n` requests must have. */
  function Places(n: nat): (places: set<int>)
    ensures forall k :: k in places <==> 0 <= k < n
  {
    if n == 0 then {} else Places(n - 1) + {n - 1}
  }

  function ArrivalsOf(lines: seq<Line>, n: nat): set<int>
    requires n <= |lines|
  {
    if n == 0 then {} else ArrivalsOf(lines, n - 1) + {lines[n - 1].arrival}
  }

  /** The manifest names every iteration, request and arrival once, and its arrivals are dense. */
  ghost predicate ManifestValid(lines: seq<Line>) {
    && lines != []
    && (forall i :: 0 <= i < |lines| ==> LineValid(lines[i]))
    && DistinctLines(lines)
    && ArrivalsOf(lines, |lines|) == Places(|lines|)
  }

  /** The dictionary of the first `n` lines. */
  function RequestsOf(lines: seq<Line>, n: nat): Requests
    requires n <= |lines|
  {
    if n == 0 then map[] else RequestsOf(lines, n - 1)[lines[n - 1].iteration := lines[n - 1]]
  }

  /** No line among the first `n` shares a key with line `n`. */
  predicate NewLine(lines: seq<Line>, n: nat)
    requires n < |lines|
  {
    forall i :: 0 <= i < n ==>
      && lines[i].iteration != lines[n].iteration && lines[i].requestId != lines[n].requestId
      && lines[i].arrival != lines[n].arrival
  }

  /** The sets that the reader keeps hold the keys of the first `n` lines. */
  ghost predicate Seen(lines: seq<Line>, n: nat, iterations: set<int>, requestIds: set<string>, arrivals: set<int>)
    requires n <= |lines|
  {
    && (forall k :: k in iterations <==> exists i :: 0 <= i < n && lines[i].iteration == k)
    && (forall k :: k in requestIds <==> exists i :: 0 <= i < n && lines[i].requestId == k)
    && (forall k :: k in arrivals <==> exists i :: 0 <= i < n && lines[i].arrival == k)
  }

  lemma SeenMore(lines: seq<Line>, n: nat, iterations: set<int>, requestIds: set<string>, arrivals: set<int>)
    requires n < |lines| && Seen(lines, n, iterations, requestIds, arrivals)
    ensures Seen(lines, n + 1, iterations + {lines[n].iteration}, requestIds + {lines[n].requestId},
      arrivals + {lines[n].arrival})
    ensures NewLine(lines, n) <==>
      lines[n].iteration !in iterations && lines[n].requestId !in requestIds && lines[n].arrival !in arrivals
  {
  }

  /** `_read_request_manifest`. */
  method ReadManifest(lines: seq<Line>) returns (rows: Option<Requests>)
    ensures rows.Some? <==> ManifestValid(lines)
    ensures rows.Some? ==> rows.value == RequestsOf(lines, |lines|)
  {
    hide Seen, NewLine, LineValid, RequestsOf, ArrivalsOf, DistinctLines;
    var read: Requests := map[];
    NothingSeen(lines);
    assert read.Keys == {};
    var requestIds: set<string> := {};
    var arrivals: set<int> := {};
    for n := 0 to |lines|
      invariant forall i :: 0 <= i < n ==> LineValid(lines[i]) && NewLine(lines, i)
      invariant read == RequestsOf(lines, n) && arrivals == ArrivalsOf(lines, n)
      invariant Seen(lines, n, read.Keys, requestIds, arrivals)
    {
      var l := lines[n];
      if !LineValid(l) || l.iteration in read || l.requestId in requestIds || l.arrival in arrivals {
        SeenMore(lines, n, read.Keys, requestIds, arrivals);
        if ManifestValid(lines) { DistinctAreNew(lines, n); }
        return None;
      }
      SeenMore(lines, n, read.Keys, requestIds, arrivals);
      OneMoreLine(lines, n);
      assert read[l.iteration := l].Keys == read.Keys + {l.iteration};
      read := read[l.iteration := l];
      requestIds := requestIds + {l.requestId};
      arrivals := arrivals + {l.arrival};
    }
    if lines == [] || arrivals != Places(|lines|) {
      return None;
    }
    NewAreDistinct(lines);
    rows := Some(read);
  }

  lemma NothingSeen(lines: seq<Line>)
    ensures Seen(lines, 0, {}, {}, {}) && RequestsOf(lines, 0) == map[] && ArrivalsOf(lines, 0) == {}
  {
  }

  lemma OneMoreLine(lines: seq<Line>, n: nat)
    requires n < |lines|
    ensures RequestsOf(lines, n + 1) == RequestsOf(lines, n)[lines[n].iteration := lines[n]]
    ensures ArrivalsOf(lines, n + 1) == ArrivalsOf(lines, n) + {lines[n].arrival}
  {
  }

  lemma DistinctAreNew(lines: seq<Line>, n: nat)
    requires DistinctLines(lines) && n < |lines|
    ensures NewLine(lines, n)
  {
  }

  lemma NewAreDistinct(lines: seq<Line>)
    requires forall i :: 0 <= i < |lines| ==> NewLine(lines, i)
    ensures DistinctLines(lines)
  {
    forall i, j | 0 <= i < j < |lines|
      ensures lines[i].iteration != lines[j].iteration && lines[i].requestId != lines[j].requestId
      ensures lines[i].arrival != lines[j].arrival
    {
      assert NewLine(lines, j);
    }
  }

  lemma {:induction false} RequestFrom(lines: seq<Line>, n: nat, iteration: int) returns (i: nat)
    requires n <= |lines| && iteration in RequestsOf(lines, n)
    ensures i < n && lines[i].iteration == iteration && RequestsOf(lines, n)[iteration] == lines[i]
  {
    if lines[n - 1].iteration == iteration {
      i := n - 1;
    } else {
      i := RequestFrom(lines, n - 1, iteration);
    }
  }

  // ------------------------------------------------------------------
  // The pipeline CSV
  // ------------------------------------------------------------------

  /** One CSV row; `intact` stands for its number and hash syntax. */
  datatype Timing = Timing(iteration: int, latency: real, miss: bool, inputSha: string, intact: bool)

  type Timings = map<int, Timing>

  predicate TimingValid(t: Timing, deadline: real, bound: bool) {
    && t.intact && t.iteration >= 0 && t.latency >= 0.0
    && t.miss == (t.latency > deadline)
    && (bound ==> t.inputSha != "")
  }

  predicate NewTiming(ts: seq<Timing>, n: nat)
    requires n < |ts|
  {
    forall i :: 0 <= i < n ==> ts[i].iteration != ts[n].iteration
  }

  ghost predicate CsvValid(ts: seq<Timing>, deadline: real, bound: bool) {
    ts != [] && forall i :: 0 <= i < |ts| ==> TimingValid(ts[i], deadline, bound) && NewTiming(ts, i)
  }

  function TimingsOf(ts: seq<Timing>, n: nat): Timings
    requires n <= |ts|
  {
    if n == 0 then map[] else TimingsOf(ts, n - 1)[ts[n - 1].iteration := ts[n - 1]]
  }

  /** The dictionary has the iterations of the rows, and holds a row of each. */
  lemma {:induction false} TimingsFrom(ts: seq<Timing>, n: nat, iteration: int)
    requires n <= |ts|
    ensures iteration in TimingsOf(ts, n) <==> exists t :: 0 <= t < n && ts[t].iteration == iteration
    ensures iteration in TimingsOf(ts, n) ==>
      exists t :: 0 <= t < n && ts[t].iteration == iteration && TimingsOf(ts, n)[iteration] == ts[t]
  {
    if n > 0 {
      TimingsFrom(ts, n - 1, iteration);
    }
  }

  /** The rows from the first measured iteration on. */
  function Measured(all: Timings, warmup: nat): Timings { map k | k in all && k >= warmup :: all[k] }

  /** `_read_wall_csv`. */
  method ReadWallCsv(ts: seq<Timing>, deadline: real, bound: bool, warmup: nat) returns (rows: Option<Timings>)
    ensures rows.Some? <==> CsvValid(ts, deadline, bound)
    ensures rows.Some? ==> rows.value == Measured(TimingsOf(ts, |ts|), warmup)
    ensures rows.Some? ==> AllClassified(rows.value, deadline)
  {
    var read: Timings := map[];
    for n := 0 to |ts|
      invariant forall i :: 0 <= i < n ==> TimingValid(ts[i], deadline, bound) && NewTiming(ts, i)
      invariant read == TimingsOf(ts, n) && read.Keys == (set i | 0 <= i < n :: ts[i].iteration)
      invariant AllClassified(read, deadline)
    {
      var t := ts[n];
      if !TimingValid(t, deadline, bound) || t.iteration in read {
        return None;
      }
      read := read[t.iteration := t];
    }
    if ts == [] {
      return None;
    }
    rows := Some(Measured(read, warmup));
  }

  /** Every stored miss flag says whether the latency exceeds the deadline. */
  ghost predicate AllClassified(timings: Timings, deadline: real) {
    forall k :: k in timings ==> timings[k].miss == (timings[k].latency > deadline)
  }

  // ------------------------------------------------------------------
  // The join
  // ------------------------------------------------------------------

  /** A captured output: its iteration and the prediction its bytes decode to, if any. */
  datatype Output = Output(iteration: nat, prediction: Option<string>, sha: string)

  datatype Row = Row(requestId: string, arrival: int, inputSha: string, expected: string, prediction: string,
      correct: bool,
    outputSha: string, latency: real, miss: bool)

  /** The correctness test of the prediction mode on a prediction and a label; it may raise. */
  type Judge = (string, string) -> Option<bool>

  /** An output joins one request and one timing that agree on the input, and its prediction can be judged. */
  predicate Joins(o: Output, requests: Requests, timings: Timings, correct: Judge) {
    && o.iteration in requests && o.iteration in timings
    && (timings[o.iteration].inputSha != "" ==> timings[o.iteration].inputSha == requests[o.iteration].inputSha)
    && o.prediction.Some? && correct(o.prediction.value, requests[o.iteration].expected).Some?
  }

  function RowOf(o: Output, requests: Requests, timings: Timings, correct: Judge): Row
    requires Joins(o, requests, timings, correct)
  {
    var q, t, p := requests[o.iteration], timings[o.iteration], o.prediction.value;
    Row(q.requestId, q.arrival, q.inputSha, q.expected, p, correct(p, q.expected).value, o.sha, t.latency, t.miss)
  }

  ghost predicate AllJoin(outputs: seq<Output>, requests: Requests, timings: Timings, correct: Judge) {
    forall i :: 0 <= i < |outputs| ==> Joins(outputs[i], requests, timings, correct)
  }

  /** The joined rows, in the order of the outputs. */
  function RowsOf(outputs: seq<Output>, requests: Requests, timings: Timings, correct: Judge): (rows: seq<Row>)
    requires forall i :: 0 <= i < |outputs| ==> Joins(outputs[i], requests, timings, correct)
    ensures |rows| == |outputs| && forall i :: 0 <= i < |outputs| ==>
      rows[i] == RowOf(outputs[i], requests, timings, correct)
  {
    seq(|outputs|, i requires 0 <= i < |outputs| => RowOf(outputs[i], requests, timings, correct))
  }

  function ArrivalList(rows: seq<Row>): (arrivals: seq<int>)
    ensures |arrivals| == |rows| && forall i :: 0 <= i < |rows| ==> arrivals[i] == rows[i].arrival
  {
    seq(|rows|, i requires 0 <= i < |rows| => rows[i].arrival)
  }

  function Counting(n: nat): (list: seq<int>)
    ensures |list| == n && forall i :: 0 <= i < n ==> list[i] == i
  {
    seq(n, i => i)
  }

  /** `sorted(arrivals) == list(range(n))`: the arrivals are a rearrangement of 0, ..., n - 1. */
  predicate Dense(rows: seq<Row>) { multiset(ArrivalList(rows)) == multiset(Counting(|rows|)) }

  /** The measured outputs, in order. */
  function From(outputs: seq<Output>, warmup: nat): seq<Output> {
    if outputs == [] then [] else
      var front, last := From(outputs[..|outputs| - 1], warmup), outputs[|outputs| - 1];
      if last.iteration >= warmup then front + [last] else front
  }

  /** `build` returns. */
  ghost predicate Builds(measured: seq<Output>, requests: Requests, timings: Timings, correct: Judge) {
    && |measured| == |timings|
    && AllJoin(measured, requests, timings, correct)
    && Dense(RowsOf(measured, requests, timings, correct))
  }

  /** The join of `build`, from its readers' results on. */
  method Build(outputs: seq<Output>, requests: Requests, timings: Timings, warmup: nat, correct: Judge)
    returns (rows: Option<seq<Row>>)
    ensures rows.Some? <==> Builds(From(outputs, warmup), requests, timings, correct)
    ensures rows.Some? ==> rows.value == RowsOf(From(outputs, warmup), requests, timings, correct)
  {
    var measured := From(outputs, warmup);
    if |measured| != |timings| {
      return None;
    }
    var read: seq<Row> := [];
    for i := 0 to |measured|
      invariant |read| == i
      invariant forall k :: 0 <= k < i ==>
        Joins(measured[k], requests, timings, correct) && read[k] == RowOf(measured[k], requests, timings, correct)
    {
      if !Joins(measured[i], requests, timings, correct) {
        return None;
      }
      read := read + [RowOf(measured[i], requests, timings, correct)];
    }
    assert read == RowsOf(measured, requests, timings, correct);
    rows := if Dense(read) then Some(read) else None;
  }

  // ------------------------------------------------------------------
  // What a built trace says
  // ------------------------------------------------------------------

  function Iteration(): Output -> nat { (o: Output) => o.iteration }

  /** Leaving out the warmup keeps iterations distinct. */
  lemma {:induction false} FromKeepsDistinct(outputs: seq<Output>, warmup: nat)
    requires DistinctBy(outputs, Iteration())
    ensures DistinctBy(From(outputs, warmup), Iteration())
    ensures forall o :: o in From(outputs, warmup) <==> o in outputs && o.iteration >= warmup
    decreases |outputs|
  {
    if outputs != [] {
      var front, last := outputs[..|outputs| - 1], outputs[|outputs| - 1];
      assert outputs == front + [last];
      DistinctGrows(front, last, Iteration());
      FromKeepsDistinct(front, warmup);
      DistinctGrows(From(front, warmup), last, Iteration());
      assert forall i :: 0 <= i < |From(front, warmup)| ==> From(front, warmup)[i] in front;
    }
  }

  lemma SameSizeSubset(a: set<int>, b: set<int>)
    requires a <= b && |a| == |b|
    ensures a == b
  {
    assert |b - a| == |b| - |a|;
    assert b - a == {};
  }

  /** The measured outputs and the measured timings are for exactly the same iterations. */
  lemma SameIterations(measured: seq<Output>, requests: Requests, timings: Timings, correct: Judge)
    requires Builds(measured, requests, timings, correct) && DistinctBy(measured, Iteration())
    ensures forall k :: k in KeysBy(measured, Iteration()) <==> k in timings
  {
    DistinctCount(measured, Iteration());
    var keys: set<int> := KeysBy(measured, Iteration());
    forall k | k in keys
      ensures k in timings
    {
      var i :| 0 <= i < |measured| && measured[i].iteration == k;
      assert Joins(measured[i], requests, timings, correct);
    }
    SameSizeSubset(keys, timings.Keys);
  }

  /** Each arrival below the number of rows is emitted by exactly one row. */
  lemma ArrivalsArePermutation(rows: seq<Row>, k: nat) returns (i: nat)
    requires Dense(rows) && k < |rows|
    ensures i < |rows| && rows[i].arrival == k && forall j :: 0 <= j < |rows| && rows[j].arrival == k ==> j == i
  {
    var arrivals, counting := ArrivalList(rows), Counting(|rows|);
    assert counting[k] in multiset(counting);
    assert k in arrivals;
    i :| 0 <= i < |rows| && arrivals[i] == k;
    forall j | 0 <= j < |rows| && rows[j].arrival == k
      ensures j == i
    {
      if j != i {
        TwiceCounted(arrivals, i, j);
        OnceCounted(|rows|, k);
      }
    }
  }

  lemma TwiceCounted(xs: seq<int>, i: nat, j: nat)
    requires i < |xs| && j < |xs| && i != j && xs[i] == xs[j]
    ensures multiset(xs)[xs[i]] >= 2
  {
    var a, b := if i < j then i else j, if i < j then j else i;
    assert xs == xs[..a] + [xs[a]] + xs[a + 1..b] + [xs[b]] + xs[b + 1..];
  }

  lemma {:induction false} OnceCounted(n: nat, k: nat)
    requires k < n
    ensures multiset(Counting(n))[k as int] == 1
  {
    assert Counting(n) == Counting(n - 1) + [n - 1];
    if k < n - 1 {
      OnceCounted(n - 1, k);
    } else {
      NeverCounted(n - 1, n - 1);
    }
  }

  lemma {:induction false} NeverCounted(n: nat, k: nat)
    requires n <= k
    ensures multiset(Counting(n))[k as int] == 0
  {
    if n > 0 {
      assert Counting(n) == Counting(n - 1) + [n - 1];
      NeverCounted(n - 1, k);
    }
  }

  // ------------------------------------------------------------------
  // When the density test passes
  // ------------------------------------------------------------------

  ghost predicate DistinctValues(xs: seq<int>) { forall i, j :: 0 <= i < j < |xs| ==> xs[i] != xs[j] }

  function Values(xs: seq<int>): set<int> {
    if xs == [] then {} else Values(xs[..|xs| - 1]) + {xs[|xs| - 1]}
  }

  lemma {:induction false} ValuesOf(xs: seq<int>)
    ensures forall k :: k in Values(xs) <==> k in xs
    ensures DistinctValues(xs) ==> |Values(xs)| == |xs| && forall k :: multiset(xs)[k] <= 1
    decreases |xs|
  {
    if xs != [] {
      var front, last := xs[..|xs| - 1], xs[|xs| - 1];
      ValuesOf(front);
      assert xs == front + [last];
      if DistinctValues(xs) {
        forall i | 0 <= i < |front|
          ensures front[i] != last
        {
          assert xs[i] != xs[|xs| - 1];
        }
        assert last !in multiset(front);
      }
    }
  }

  lemma {:induction false} PlacesCount(n: nat)
    ensures |Places(n)| == n
  {
    if n > 0 {
      PlacesCount(n - 1);
    }
  }

  /** `n` distinct numbers below `n` are a rearrangement of 0, ..., n - 1. */
  lemma DistinctBelowArePermutation(xs: seq<int>)
    requires DistinctValues(xs) && forall i :: 0 <= i < |xs| ==> 0 <= xs[i] < |xs|
    ensures multiset(xs) == multiset(Counting(|xs|))
  {
    var n := |xs|;
    ValuesOf(xs);
    PlacesCount(n);
    SameSizeSubset(Values(xs), Places(n));
    forall k: int
      ensures multiset(xs)[k] == multiset(Counting(n))[k]
    {
      if 0 <= k < n {
        OnceCounted(n, k);
        assert k in Places(n);
      } else {
        assert k !in Counting(n) && k !in xs;
      }
    }
  }

  lemma {:induction false} FewerValues(xs: seq<int>)
    ensures |Values(xs)| <= |xs| && (|Values(xs)| == |xs| ==> DistinctValues(xs))
    decreases |xs|
  {
    if xs != [] {
      var front, last := xs[..|xs| - 1], xs[|xs| - 1];
      FewerValues(front);
      ValuesOf(front);
      if |Values(xs)| == |xs| {
        assert last !in front;
        forall i, j | 0 <= i < j < |xs|
          ensures xs[i] != xs[j]
        {
          assert j < |front| ==> front[i] != front[j];
          assert j == |front| ==> front[i] in front;
        }
      }
    }
  }

  function Arrivals(lines: seq<Line>): (arrivals: seq<int>)
    ensures |arrivals| == |lines| && forall i :: 0 <= i < |lines| ==> arrivals[i] == lines[i].arrival
  {
    seq(|lines|, i requires 0 <= i < |lines| => lines[i].arrival)
  }

  lemma {:induction false} ArrivalsIn(lines: seq<Line>, n: nat, k: int)
    requires n <= |lines|
    ensures k in ArrivalsOf(lines, n) <==> exists i :: 0 <= i < n && lines[i].arrival == k
  {
    if n > 0 {
      ArrivalsIn(lines, n - 1, k);
    }
  }

  /** Some line arrives in place `k`. */
  ghost predicate Taken(lines: seq<Line>, k: int) { exists i :: 0 <= i < |lines| && lines[i].arrival == k }

  ghost predicate EachPlaceTaken(lines: seq<Line>) { forall k :: 0 <= k < |lines| ==> Taken(lines, k) }

  lemma ArrivalValues(lines: seq<Line>, k: int)
    ensures k in Values(Arrivals(lines)) <==> Taken(lines, k)
    ensures k in ArrivalsOf(lines, |lines|) <==> Taken(lines, k)
  {
    var xs := Arrivals(lines);
    ValuesOf(xs);
    ArrivalsIn(lines, |lines|, k);
    if Taken(lines, k) {
      var i :| 0 <= i < |lines| && lines[i].arrival == k;
      assert xs[i] == k;
    }
  }

  /** As many arrivals as places, and every place taken: each is taken once, by an arrival in range. */
  lemma PlacesTakenOnce(lines: seq<Line>)
    requires EachPlaceTaken(lines)
    ensures DistinctValues(Arrivals(lines)) && Values(Arrivals(lines)) == Places(|lines|)
  {
    var xs, n := Arrivals(lines), |lines|;
    hide Values, Arrivals, DistinctValues, Taken, Places;
    FewerValues(xs);
    PlacesCount(n);
    forall k | k in Places(n)
      ensures k in Values(xs)
    {
      ArrivalValues(lines, k);
    }
    SmallerSet(Places(n), Values(xs));
    SameSizeSubset(Places(n), Values(xs));
  }

  /** The set that the reader compares is the set of places exactly when each place is taken. */
  lemma DenseArrivals(lines: seq<Line>)
    ensures ArrivalsOf(lines, |lines|) == Places(|lines|) <==> EachPlaceTaken(lines)
  {
    hide ArrivalsOf, Places, Taken, Values, Arrivals, DistinctValues;
    var places: set<int> := Places(|lines|);
    if EachPlaceTaken(lines) {
      PlacesTakenOnce(lines);
      forall k: int
        ensures k in ArrivalsOf(lines, |lines|) <==> k in places
      {
        ArrivalValues(lines, k);
      }
    }
    if ArrivalsOf(lines, |lines|) == places {
      forall k | 0 <= k < |lines|
        ensures Taken(lines, k)
      {
        assert k in places;
        ArrivalValues(lines, k);
      }
    }
  }

  lemma TakenInPlace(lines: seq<Line>)
    requires EachPlaceTaken(lines)
    ensures forall i :: 0 <= i < |lines| ==> 0 <= lines[i].arrival < |lines|
    ensures forall i, j :: 0 <= i < j < |lines| ==> lines[i].arrival != lines[j].arrival
    ensures multiset(Arrivals(lines)) == multiset(Counting(|lines|))
  {
    var xs := Arrivals(lines);
    PlacesTakenOnce(lines);
    hide Values;
    forall i | 0 <= i < |lines|
      ensures 0 <= lines[i].arrival < |lines|
    {
      assert Taken(lines, xs[i]);
      ArrivalValues(lines, xs[i]);
    }
    forall i, j | 0 <= i < j < |lines|
      ensures lines[i].arrival != lines[j].arrival
    {
      assert xs[i] != xs[j];
    }
    DistinctBelowArePermutation(xs);
  }

  lemma SmallerSet(a: set<int>, b: set<int>)
    requires a <= b
    ensures |a| <= |b|
  {
    assert b == a + (b - a);
  }

  /** A manifest is accepted exactly when it has a line, every line is intact with an iteration that is
      not negative and a request identifier, no two lines share either, and each number below the
      number of lines is some arrival.  Then the arrivals are these numbers in some order. */
  lemma ManifestExactly(lines: seq<Line>)
    ensures ManifestValid(lines) <==>
      && lines != []
      && (forall i :: 0 <= i < |lines| ==> lines[i].intact && lines[i].iteration >= 0 && lines[i].requestId != "")
      && (forall i, j :: 0 <= i < j < |lines| ==>
        lines[i].iteration != lines[j].iteration && lines[i].requestId != lines[j].requestId)
      && forall k :: 0 <= k < |lines| ==> Taken(lines, k)
    ensures ManifestValid(lines) ==> multiset(Arrivals(lines)) == multiset(Counting(|lines|))
  {
    DenseArrivals(lines);
    if EachPlaceTaken(lines) {
      TakenInPlace(lines);
    }
    hide ArrivalsOf, Places, Arrivals, Counting, DistinctValues, Taken;
  }

  /** A table is accepted exactly when it has a row, every row is intact with an iteration and a latency
      that are not negative, its miss flag says whether the latency exceeds the deadline, it names its
      input when inputs are bound, and no two rows share an iteration. */
  lemma CsvExactly(ts: seq<Timing>, deadline: real, bound: bool)
    ensures CsvValid(ts, deadline, bound) <==>
      && ts != []
      && (forall i :: 0 <= i < |ts| ==>
        ts[i].intact && ts[i].iteration >= 0 && ts[i].latency >= 0.0 && (ts[i].miss <==> ts[i].latency > deadline))
      && (bound ==> forall i :: 0 <= i < |ts| ==> ts[i].inputSha != "")
      && forall i, j :: 0 <= i < j < |ts| ==> ts[i].iteration != ts[j].iteration
  {
    if CsvValid(ts, deadline, bound) {
      forall i, j | 0 <= i < j < |ts|
        ensures ts[i].iteration != ts[j].iteration
      {
        assert NewTiming(ts, j);
      }
    }
  }

  /** The dictionary keeps exactly the rows from the first measured iteration on. */
  lemma MeasuredExactly(ts: seq<Timing>, deadline: real, bound: bool, warmup: nat, t: Timing)
    requires CsvValid(ts, deadline, bound)
    ensures var kept := Measured(TimingsOf(ts, |ts|), warmup);
      t.iteration in kept && kept[t.iteration] == t <==> t in ts && t.iteration >= warmup
  {
    TimingsFrom(ts, |ts|, t.iteration);
    CsvExactly(ts, deadline, bound);
  }

  lemma {:induction false} LineIsRequest(lines: seq<Line>, n: nat, i: nat)
    requires i < n <= |lines| && DistinctLines(lines)
    ensures lines[i].iteration in RequestsOf(lines, n) && RequestsOf(lines, n)[lines[i].iteration] == lines[i]
  {
    if i < n - 1 {
      LineIsRequest(lines, n - 1, i);
    }
  }

  /** The dictionary of an accepted manifest holds exactly its lines, each under its iteration. */
  lemma RequestsExactly(lines: seq<Line>, l: Line)
    requires ManifestValid(lines)
    ensures var rows := RequestsOf(lines, |lines|);
      l.iteration in rows && rows[l.iteration] == l <==> l in lines
  {
    if l in lines {
      var i :| 0 <= i < |lines| && lines[i] == l;
      LineIsRequest(lines, |lines|, i);
    }
    if l.iteration in RequestsOf(lines, |lines|) {
      var i := RequestFrom(lines, |lines|, l.iteration);
    }
  }

  /** After a valid manifest the density test can fail only through an arrival past the number of
      measured requests: the arrivals of the rows are distinct anyway. */
  lemma DenseExactlyWhen(lines: seq<Line>, measured: seq<Output>, timings: Timings, correct: Judge)
    requires ManifestValid(lines) && DistinctBy(measured, Iteration())
    requires AllJoin(measured, RequestsOf(lines, |lines|), timings, correct)
    ensures var rows := RowsOf(measured, RequestsOf(lines, |lines|), timings, correct);
      Dense(rows) <==> forall i :: 0 <= i < |rows| ==> rows[i].arrival < |rows|
  {
    var requests := RequestsOf(lines, |lines|);
    var rows := RowsOf(measured, requests, timings, correct);
    var xs := ArrivalList(rows);
    if Dense(rows) {
      forall i | 0 <= i < |rows|
        ensures rows[i].arrival < |rows|
      {
        assert xs[i] in multiset(xs);
        assert xs[i] in Counting(|rows|);
      }
    }
    if forall i :: 0 <= i < |rows| ==> rows[i].arrival < |rows| {
      forall i | 0 <= i < |xs|
        ensures 0 <= xs[i] < |xs|
      {
        var m := RequestFrom(lines, |lines|, measured[i].iteration);
        assert LineValid(lines[m]);
      }
      forall i, j | 0 <= i < j < |xs|
        ensures xs[i] != xs[j]
      {
        var m := RequestFrom(lines, |lines|, measured[i].iteration);
        var k := RequestFrom(lines, |lines|, measured[j].iteration);
        assert lines[m].iteration != lines[k].iteration;
      }
      DistinctBelowArePermutation(xs);
    }
  }

  // ------------------------------------------------------------------
  // The whole script
  // ------------------------------------------------------------------

  /** What the prediction mode makes of the bytes of one record, and their digest. */
  datatype Capture = Capture(prediction: Option<string>, sha: string)

  function Captured(iteration: nat, c: Capture): Output { Output(iteration, c.prediction, c.sha) }

  /** The captured outputs of a parsed trace, in its order. */
  function OutputsOf(c: OutputTrace.Container, tokens: seq<nat> -> Capture,
      tensors: seq<seq<Byte>> -> Capture): (outputs: seq<Output>)
    ensures |outputs| == if c.Asr? then |c.tokens| else |c.trace.records|
    ensures forall i :: 0 <= i < |outputs| ==>
      outputs[i].iteration == if c.Asr? then c.tokens[i].iteration else c.trace.records[i].iteration
  {
    match c
    case Asr(rs) => seq(|rs|, i requires 0 <= i < |rs| => Captured(rs[i].iteration, tokens(rs[i].tokens)))
    case Tensors(t) =>
      var rs := t.records;
      seq(|rs|, i requires 0 <= i < |rs| => Captured(rs[i].iteration, tensors(rs[i].outputs)))
  }

  lemma ParsedOutputsDistinct(raw: seq<Byte>, float32: bool, tokens: seq<nat> -> Capture,
      tensors: seq<seq<Byte>> -> Capture)
    requires OutputTrace.Parses(raw, float32).Some?
    ensures DistinctBy(OutputsOf(OutputTrace.Parses(raw, float32).value, tokens, tensors), Iteration())
  {
    OutputTrace.ParsedDistinct(raw, float32);
    hide OutputTrace.Parses, OutputsOf;
  }

  /** Line `m` is the only manifest line of an iteration. */
  ghost predicate OnlyLine(lines: seq<Line>, m: nat, iteration: int) {
    m < |lines| && forall j :: 0 <= j < |lines| ==> (lines[j].iteration == iteration <==> j == m)
  }

  /** Row `t` is the only CSV row of an iteration. */
  ghost predicate OnlyTiming(ts: seq<Timing>, t: nat, iteration: int) {
    t < |ts| && forall j :: 0 <= j < |ts| ==> (ts[j].iteration == iteration <==> j == t)
  }

  /** Row `i` is the only emitted row with an arrival. */
  ghost predicate OnlyArrival(rows: seq<Row>, i: nat, arrival: int) {
    i < |rows| && forall j :: 0 <= j < |rows| ==> (rows[j].arrival == arrival <==> j == i)
  }

  ghost predicate EmittedOnce(rows: seq<Row>, arrival: int) { exists i: nat :: OnlyArrival(rows, i, arrival) }

  /** A row carries the data of the one manifest line and the one CSV row of its output, which
      agree on the input, and its flags say what they mean. */
  ghost predicate Sourced(row: Row, o: Output, lines: seq<Line>, ts: seq<Timing>, deadline: real, correct: Judge) {
    exists m: nat, t: nat :: OnlyLine(lines, m, o.iteration) && OnlyTiming(ts, t, o.iteration)
      && FromLine(row, lines[m]) && row.latency == ts[t].latency && row.miss == (row.latency > deadline)
      && (ts[t].inputSha != "" ==> ts[t].inputSha == row.inputSha)
      && o.prediction == Some(row.prediction) && row.outputSha == o.sha
      && correct(row.prediction, row.expected) == Some(row.correct)
  }

  predicate FromLine(row: Row, l: Line) {
    row.requestId == l.requestId && row.arrival == l.arrival && row.inputSha == l.inputSha && row.expected == l.expected
  }

  /** What the readers and the join accept together. */
  ghost predicate Inputs(measured: seq<Output>, lines: seq<Line>, ts: seq<Timing>, deadline: real, bound: bool,
      warmup: nat, correct: Judge) {
    && ManifestValid(lines) && CsvValid(ts, deadline, bound)
    && Builds(measured, RequestsOf(lines, |lines|), Measured(TimingsOf(ts, |ts|), warmup), correct)
  }

  lemma TimingOf(ts: seq<Timing>, deadline: real, bound: bool, iteration: int) returns (t: nat)
    requires CsvValid(ts, deadline, bound) && iteration in TimingsOf(ts, |ts|)
    ensures OnlyTiming(ts, t, iteration) && TimingsOf(ts, |ts|)[iteration] == ts[t]
    ensures ts[t].miss == (ts[t].latency > deadline)
  {
    TimingsFrom(ts, |ts|, iteration);
    t :| 0 <= t < |ts| && ts[t].iteration == iteration && TimingsOf(ts, |ts|)[iteration] == ts[t];
    assert TimingValid(ts[t], deadline, bound);
    forall j | 0 <= j < |ts| && ts[j].iteration == iteration
      ensures j == t
    {
      assert NewTiming(ts, j) && NewTiming(ts, t);
    }
  }

  lemma LineOf(lines: seq<Line>, iteration: int) returns (m: nat)
    requires DistinctLines(lines) && iteration in RequestsOf(lines, |lines|)
    ensures OnlyLine(lines, m, iteration) && RequestsOf(lines, |lines|)[iteration] == lines[m]
  {
    m := RequestFrom(lines, |lines|, iteration);
  }

  /** A line and a CSV row of the output's iteration, which is measured; they agree on the input, the
      prediction can be judged, and the arrival is below `n`. */
  predicate Fits(o: Output, l: Line, t: Timing, warmup: nat, n: nat, correct: Judge) {
    && l.iteration == o.iteration == t.iteration && o.iteration >= warmup
    && (t.inputSha == "" || t.inputSha == l.inputSha)
    && o.prediction.Some? && correct(o.prediction.value, l.expected).Some?
    && l.arrival < n
  }

  ghost predicate HasSources(o: Output, lines: seq<Line>, ts: seq<Timing>, warmup: nat, n: nat, correct: Judge) {
    exists l: Line, t: Timing :: l in lines && t in ts && Fits(o, l, t, warmup, n, correct)
  }

  lemma JoinsExactly(o: Output, lines: seq<Line>, ts: seq<Timing>, deadline: real, bound: bool, warmup: nat, n: nat,
      correct: Judge)
    requires ManifestValid(lines) && CsvValid(ts, deadline, bound)
    ensures var requests, timings := RequestsOf(lines, |lines|), Measured(TimingsOf(ts, |ts|), warmup);
      (Joins(o, requests, timings, correct) && requests[o.iteration].arrival < n) <==>
        HasSources(o, lines, ts, warmup, n, correct)
  {
    var requests, timings := RequestsOf(lines, |lines|), Measured(TimingsOf(ts, |ts|), warmup);
    hide RequestsOf, TimingsOf, ManifestValid, CsvValid;
    if Joins(o, requests, timings, correct) && requests[o.iteration].arrival < n {
      var l, t := requests[o.iteration], timings[o.iteration];
      KeyedLine(lines, o.iteration);
      KeyedTiming(ts, deadline, bound, o.iteration);
      RequestsExactly(lines, l);
      MeasuredExactly(ts, deadline, bound, warmup, t);
      assert Fits(o, l, t, warmup, n, correct);
    }
    if HasSources(o, lines, ts, warmup, n, correct) {
      var l: Line, t: Timing :| l in lines && t in ts && Fits(o, l, t, warmup, n, correct);
      RequestsExactly(lines, l);
      MeasuredExactly(ts, deadline, bound, warmup, t);
    }
  }

  lemma KeyedLine(lines: seq<Line>, k: int)
    requires k in RequestsOf(lines, |lines|)
    ensures RequestsOf(lines, |lines|)[k].iteration == k
  {
    var i := RequestFrom(lines, |lines|, k);
  }

  lemma KeyedTiming(ts: seq<Timing>, deadline: real, bound: bool, k: int)
    requires k in TimingsOf(ts, |ts|)
    ensures TimingsOf(ts, |ts|)[k].iteration == k
  {
    TimingsFrom(ts, |ts|, k);
  }

  /** There are as many measured outputs as measured rows exactly when every measured row has one. */
  lemma CountExactly(measured: seq<Output>, requests: Requests, timings: Timings, correct: Judge)
    requires AllJoin(measured, requests, timings, correct) && DistinctBy(measured, Iteration())
    ensures |measured| == |timings| <==>
      forall k :: k in timings ==> exists i :: 0 <= i < |measured| && measured[i].iteration == k
  {
    DistinctCount(measured, Iteration());
    var keys: set<int> := KeysBy(measured, Iteration());
    forall k | k in keys
      ensures k in timings
    {
      var i :| 0 <= i < |measured| && measured[i].iteration == k;
      assert Joins(measured[i], requests, timings, correct);
    }
    if |measured| == |timings| {
      SameSizeSubset(keys, timings.Keys);
      forall k | k in timings
        ensures exists i :: 0 <= i < |measured| && measured[i].iteration == k
      {
        assert k in keys;
      }
    }
    if forall k :: k in timings ==> exists i :: 0 <= i < |measured| && measured[i].iteration == k {
      forall k | k in timings.Keys
        ensures k in keys
      {
        var i :| 0 <= i < |measured| && measured[i].iteration == k;
        assert measured[i] in measured;
      }
      assert keys == timings.Keys;
    }
  }

  /** Some output is for this iteration. */
  ghost predicate Captures(measured: seq<Output>, k: int) {
    exists i :: 0 <= i < |measured| && measured[i].iteration == k
  }

  /** When the script succeeds: the manifest and the table are accepted, every measured output has a line
      and a CSV row that fit it and an arrival below the number of outputs, and every measured CSV row
      has an output. */
  lemma BuildsExactly(measured: seq<Output>, lines: seq<Line>, ts: seq<Timing>, deadline: real, bound: bool,
      warmup: nat, correct: Judge)
    requires DistinctBy(measured, Iteration())
    ensures Inputs(measured, lines, ts, deadline, bound, warmup, correct) <==>
      && ManifestValid(lines) && CsvValid(ts, deadline, bound)
      && (forall i :: 0 <= i < |measured| ==> HasSources(measured[i], lines, ts, warmup, |measured|, correct))
      && forall t :: t in ts && t.iteration >= warmup ==> Captures(measured, t.iteration)
  {
    if ManifestValid(lines) && CsvValid(ts, deadline, bound) {
      var requests, timings := RequestsOf(lines, |lines|), Measured(TimingsOf(ts, |ts|), warmup);
      hide RequestsOf, TimingsOf, ManifestValid, CsvValid, HasSources, Dense, DistinctBy, Joins;
      forall i | 0 <= i < |measured|
        ensures (Joins(measured[i], requests, timings, correct)
          && requests[measured[i].iteration].arrival < |measured|) <==>
          HasSources(measured[i], lines, ts, warmup, |measured|, correct)
      {
        JoinsIn(measured[i], requests, timings, correct);
        JoinsExactly(measured[i], lines, ts, deadline, bound, warmup, |measured|, correct);
      }
      if AllJoin(measured, requests, timings, correct) {
        CountExactly(measured, requests, timings, correct);
        DenseExactlyWhen(lines, measured, timings, correct);
        ArrivalsOfRows(measured, requests, timings, correct);
        AllCaptured(measured, ts, deadline, bound, warmup);
      }
      hide Measured;
    }
  }

  lemma JoinsIn(o: Output, requests: Requests, timings: Timings, correct: Judge)
    ensures Joins(o, requests, timings, correct) ==> o.iteration in requests
  {
  }

  lemma ArrivalsOfRows(measured: seq<Output>, requests: Requests, timings: Timings, correct: Judge)
    requires AllJoin(measured, requests, timings, correct)
    ensures forall i :: 0 <= i < |measured| ==>
      measured[i].iteration in requests && RowsOf(measured, requests, timings, correct)[i].arrival
        == requests[measured[i].iteration].arrival
  {
    forall i | 0 <= i < |measured|
      ensures measured[i].iteration in requests && RowsOf(measured, requests, timings, correct)[i].arrival
        == requests[measured[i].iteration].arrival
    {
      assert Joins(measured[i], requests, timings, correct);
    }
  }

  lemma AllCaptured(measured: seq<Output>, ts: seq<Timing>, deadline: real, bound: bool, warmup: nat)
    requires CsvValid(ts, deadline, bound)
    ensures (forall k :: k in Measured(TimingsOf(ts, |ts|), warmup) ==> Captures(measured, k)) <==>
      forall t :: t in ts && t.iteration >= warmup ==> Captures(measured, t.iteration)
  {
    var kept := Measured(TimingsOf(ts, |ts|), warmup);
    hide TimingsOf, CsvValid, Captures;
    forall t | t in ts && t.iteration >= warmup
      ensures t.iteration in kept
    {
      MeasuredExactly(ts, deadline, bound, warmup, t);
    }
    forall k | k in kept
      ensures kept[k] in ts && kept[k].iteration == k >= warmup
    {
      KeyedTiming(ts, deadline, bound, k);
      MeasuredExactly(ts, deadline, bound, warmup, kept[k]);
    }
  }

  /** Every emitted row has exactly one manifest line and exactly one CSV row behind it. */
  lemma RowIsSourced(measured: seq<Output>, lines: seq<Line>, ts: seq<Timing>, deadline: real, bound: bool, warmup: nat,
      correct: Judge, i: nat)
    requires Inputs(measured, lines, ts, deadline, bound, warmup, correct) && i < |measured|
    ensures var rows := RowsOf(measured, RequestsOf(lines, |lines|), Measured(TimingsOf(ts, |ts|), warmup), correct);
      Sourced(rows[i], measured[i], lines, ts, deadline, correct)
  {
    var requests, timings := RequestsOf(lines, |lines|), Measured(TimingsOf(ts, |ts|), warmup);
    var o := measured[i];
    assert Joins(o, requests, timings, correct);
    var m := LineOf(lines, o.iteration);
    var t := TimingOf(ts, deadline, bound, o.iteration);
    hide OnlyLine, OnlyTiming, RequestsOf, TimingsOf, Dense, ManifestValid, CsvValid;
    var row := RowOf(o, requests, timings, correct);
    assert FromLine(row, lines[m]) && row.latency == ts[t].latency;
  }

  /** What a prediction trace says about its inputs: it covers exactly the measured iterations of
      the CSV, every row is sourced, no request is emitted twice, and each arrival below the number
      of rows is emitted by exactly one row. */
  ghost predicate Traced(rows: seq<Row>, measured: seq<Output>, lines: seq<Line>, ts: seq<Timing>, deadline: real,
      warmup: nat,
      correct: Judge)
  {
    && |rows| == |measured|
    && (forall k: nat :: k in KeysBy(measured, Iteration()) <==>
      k >= warmup && exists t :: 0 <= t < |ts| && ts[t].iteration == k)
    && (forall i :: 0 <= i < |rows| ==> Sourced(rows[i], measured[i], lines, ts, deadline, correct))
    && (forall i, j :: 0 <= i < j < |rows| ==> rows[i].requestId != rows[j].requestId)
    && (forall k :: 0 <= k < |rows| ==> EmittedOnce(rows, k))
  }

  lemma RequestsDistinct(rows: seq<Row>, measured: seq<Output>, lines: seq<Line>, ts: seq<Timing>, deadline: real,
      correct: Judge,
      i: nat, j: nat)
    requires DistinctLines(lines) && DistinctBy(measured, Iteration()) && |rows| == |measured| && i < j < |rows|
    requires Sourced(rows[i], measured[i], lines, ts, deadline, correct)
    requires Sourced(rows[j], measured[j], lines, ts, deadline, correct)
    ensures rows[i].requestId != rows[j].requestId
  {
    var m: nat :| OnlyLine(lines, m, measured[i].iteration) && FromLine(rows[i], lines[m]);
    var n: nat :| OnlyLine(lines, n, measured[j].iteration) && FromLine(rows[j], lines[n]);
    assert measured[i].iteration != measured[j].iteration;
    assert m != n;
  }

  lemma CoversMeasured(measured: seq<Output>, lines: seq<Line>, ts: seq<Timing>, deadline: real, bound: bool,
      warmup: nat,
      correct: Judge, k: nat)
    requires Inputs(measured, lines, ts, deadline, bound, warmup, correct) && DistinctBy(measured, Iteration())
    ensures k in KeysBy(measured, Iteration()) <==> k >= warmup && exists t :: 0 <= t < |ts| && ts[t].iteration == k
  {
    hide RequestsOf, TimingsOf, CsvValid, ManifestValid, KeysBy, DistinctBy, Builds;
    SameIterations(measured, RequestsOf(lines, |lines|), Measured(TimingsOf(ts, |ts|), warmup), correct);
    TimingsFrom(ts, |ts|, k);
  }

  lemma ArrivesOnce(rows: seq<Row>, k: nat)
    requires Dense(rows) && k < |rows|
    ensures EmittedOnce(rows, k)
  {
    var i := ArrivalsArePermutation(rows, k);
    hide Dense;
    assert OnlyArrival(rows, i, k);
  }

  lemma InputParts(measured: seq<Output>, lines: seq<Line>, ts: seq<Timing>, deadline: real, bound: bool, warmup: nat,
      correct: Judge)
    requires Inputs(measured, lines, ts, deadline, bound, warmup, correct)
    ensures DistinctLines(lines)
    ensures Builds(measured, RequestsOf(lines, |lines|), Measured(TimingsOf(ts, |ts|), warmup), correct)
  {
    hide Builds, RequestsOf, TimingsOf, CsvValid, DistinctLines, ArrivalsOf, Places, LineValid;
  }

  lemma BuiltIsTraced(measured: seq<Output>, lines: seq<Line>, ts: seq<Timing>, deadline: real, bound: bool,
      warmup: nat, correct: Judge)
    requires Inputs(measured, lines, ts, deadline, bound, warmup, correct) && DistinctBy(measured, Iteration())
    ensures var rows := RowsOf(measured, RequestsOf(lines, |lines|), Measured(TimingsOf(ts, |ts|), warmup), correct);
      Traced(rows, measured, lines, ts, deadline, warmup, correct)
  {
    hide Sourced, EmittedOnce, Inputs, RequestsOf, TimingsOf, DistinctLines, Dense, Joins, KeysBy, DistinctBy;
    InputParts(measured, lines, ts, deadline, bound, warmup, correct);
    var rows := RowsOf(measured, RequestsOf(lines, |lines|), Measured(TimingsOf(ts, |ts|), warmup), correct);
    forall k: nat
      ensures k in KeysBy(measured, Iteration()) <==> k >= warmup && exists t :: 0 <= t < |ts| && ts[t].iteration == k
    {
      CoversMeasured(measured, lines, ts, deadline, bound, warmup, correct, k);
    }
    forall i | 0 <= i < |rows|
      ensures Sourced(rows[i], measured[i], lines, ts, deadline, correct)
    {
      RowIsSourced(measured, lines, ts, deadline, bound, warmup, correct, i);
    }
    forall i, j | 0 <= i < j < |rows|
      ensures rows[i].requestId != rows[j].requestId
    {
      RequestsDistinct(rows, measured, lines, ts, deadline, correct, i, j);
    }
    forall k | 0 <= k < |rows|
      ensures EmittedOnce(rows, k)
    {
      ArrivesOnce(rows, k);
    }
  }

  /** The measured outputs of a parsed trace. */
  function MeasuredOf(c: OutputTrace.Container, tokens: seq<nat> -> Capture, tensors: seq<seq<Byte>> -> Capture,
      warmup: nat): seq<Output> {
    From(OutputsOf(c, tokens, tensors), warmup)
  }

  /** `build`, from the raw output trace, the manifest lines and the CSV rows. */
  method BuildTrace(raw: seq<Byte>, float32: bool, lines: seq<Line>, ts: seq<Timing>, deadline: real, bound: bool,
      warmup: nat,
      tokens: seq<nat> -> Capture, tensors: seq<seq<Byte>> -> Capture, correct: Judge)
    returns (rows: Option<seq<Row>>)
    ensures var c := OutputTrace.Parses(raw, float32);
      rows.Some? <==>
        deadline > 0.0 && c.Some? && Inputs(MeasuredOf(c.value, tokens, tensors, warmup), lines, ts, deadline, bound,
          warmup, correct)
    ensures rows.Some? ==>
      Traced(rows.value, MeasuredOf(OutputTrace.Parses(raw, float32).value, tokens, tensors, warmup), lines, ts,
        deadline, warmup, correct)
  {
    hide OutputTrace.Parses, Traced, From, ManifestValid, CsvValid, Builds, RequestsOf, TimingsOf, DistinctBy;
    hide OutputsOf;
    if deadline <= 0.0 {
      return None;
    }
    var c := OutputTrace.Parse(raw, float32);
    if c.None? {
      return None;
    }
    var outputs := OutputsOf(c.value, tokens, tensors);
    var requests := ReadManifest(lines);
    if requests.None? {
      return None;
    }
    var timings := ReadWallCsv(ts, deadline, bound, warmup);
    if timings.None? {
      return None;
    }
    rows := Build(outputs, requests.value, timings.value, warmup, correct);
    if rows.Some? {
      ParsedOutputsDistinct(raw, float32, tokens, tensors);
      FromKeepsDistinct(outputs, warmup);
      BuiltIsTraced(From(outputs, warmup), lines, ts, deadline, bound, warmup, correct);
    }
  }
}
