/** Freezing a pipeline deadline from calibration blocks
    (analysis/freeze_p9_pipeline_deadline.py:86-109, 112-209). */
module PipelineDeadline {
  import opened Arithmetic
  import opened Common
  import opened Percentile

  const SLO_FACTOR := 1.10
  const P99 := 0.99
  const MINIMUM_BLOCKS: nat := 2

  /** One trace row: the latency in the chosen column, and the stored miss flag. */
  datatype TraceRow = TraceRow(value: real, miss: int)

  /** A calibration block: its stored index and hashes, its trace, and the p99 its result states;
      `conforms` stands for the fields of the result compared with the contract. */
  datatype Block = Block(index: int, traceSha: string, rows: seq<TraceRow>, statedP99: real, conforms: bool)

  predicate RowValid(r: TraceRow) { r.value > 0.0 && r.miss == 0 }

  ghost predicate RowsValid(rows: seq<TraceRow>, n: nat)
    requires n <= |rows|
  {
    forall i :: 0 <= i < n ==> RowValid(rows[i])
  }

  function ValuesOf(rows: seq<TraceRow>, n: nat): (values: seq<real>)
    requires n <= |rows|
    ensures |values| == n && forall i :: 0 <= i < n ==> values[i] == rows[i].value
  {
    seq(n, i requires 0 <= i < n => rows[i].value)
  }

  /** `replay_trace`, after its hash check. */
  method ReplayTrace(rows: seq<TraceRow>) returns (values: Option<seq<real>>)
    ensures values.Some? <==> RowsValid(rows, |rows|)
    ensures values.Some? <==> forall i :: 0 <= i < |rows| ==> rows[i].value > 0.0 && rows[i].miss == 0
    ensures values.Some? ==> values.value == ValuesOf(rows, |rows|)
  {
    var read: seq<real> := [];
    for i := 0 to |rows|
      invariant RowsValid(rows, i) && read == ValuesOf(rows, i)
    {
      if !RowValid(rows[i]) {
        assert !(rows[i].value > 0.0 && rows[i].miss == 0);
        return None;
      }
      read := read + [rows[i].value];
    }
    assert forall i :: 0 <= i < |rows| ==> RowValid(rows[i]);
    values := Some(read);
  }

  const RELATIVE_TOLERANCE := 0.000000001
  const ABSOLUTE_TOLERANCE := 0.01

  function Larger(x: real, y: real): real { if x >= y then x else y }

  /** `math.isclose` with an absolute tolerance of 0.01 microseconds. */
  predicate Close(a: real, b: real) {
    Abs(a - b) <= Larger(RELATIVE_TOLERANCE * Larger(Abs(a), Abs(b)), ABSOLUTE_TOLERANCE)
  }

  /** Block `i` is in order, its trace is valid and complete, and its stated p99 is the raw one. */
  ghost predicate BlockReplays(b: Block, i: nat, samples: nat) {
    && b.index == i && b.conforms
    && RowsValid(b.rows, |b.rows|)
    && |b.rows| == samples
    && b.rows != []
    && Close(Type7(ValuesOf(b.rows, |b.rows|), P99), b.statedP99)
  }

  /** No two of the first `n` blocks share a trace hash. */
  predicate NewTrace(blocks: seq<Block>, n: nat)
    requires n < |blocks|
  {
    forall i :: 0 <= i < n ==> blocks[i].traceSha != blocks[n].traceSha
  }

  ghost predicate BlocksReplay(blocks: seq<Block>, samples: nat, n: nat)
    requires n <= |blocks|
  {
    forall i :: 0 <= i < n ==> BlockReplays(blocks[i], i, samples) && NewTrace(blocks, i)
  }

  /** The pooled values of the first `n` blocks. */
  function Pooled(blocks: seq<Block>, n: nat): seq<real>
    requires n <= |blocks|
  {
    if n == 0 then [] else Pooled(blocks, n - 1) + ValuesOf(blocks[n - 1].rows, |blocks[n - 1].rows|)
  }

  lemma {:induction false} PooledSamples(blocks: seq<Block>, samples: nat, n: nat)
    requires n <= |blocks| && BlocksReplay(blocks, samples, n)
    ensures |Pooled(blocks, n)| == Span(n, samples) && Positive(Pooled(blocks, n))
  {
    hide BlockReplays, ValuesOf, NewTrace, Positive;
    if n == 0 {
      NothingPooled();
    } else {
      PooledSamples(blocks, samples, n - 1);
      PositiveBlock(blocks[n - 1], n - 1, samples);
      PositiveConcat(Pooled(blocks, n - 1), ValuesOf(blocks[n - 1].rows, |blocks[n - 1].rows|));
    }
  }

  ghost predicate Positive(values: seq<real>) { forall i :: 0 <= i < |values| ==> values[i] > 0.0 }

  lemma NothingPooled()
    ensures Positive([])
  {
  }

  lemma PositiveConcat(xs: seq<real>, ys: seq<real>)
    requires Positive(xs) && Positive(ys)
    ensures Positive(xs + ys)
  {
  }

  lemma PositiveBlock(b: Block, i: nat, samples: nat)
    requires BlockReplays(b, i, samples)
    ensures |ValuesOf(b.rows, |b.rows|)| == samples && Positive(ValuesOf(b.rows, |b.rows|))
  {
    hide Type7;
    forall k | 0 <= k < samples
      ensures b.rows[k].value > 0.0
    {
      assert RowValid(b.rows[k]);
    }
  }

  /** What is frozen: the number of pooled samples, their p99 and the deadline. */
  datatype Lock = Lock(samples: nat, p99: real, deadline: real)

  /** `build_lock`, after its contract checks. */
  method BuildLock(blocks: seq<Block>, expectedBlocks: int, samples: nat) returns (lock: Option<Lock>)
    ensures lock.Some? <==>
      |blocks| == expectedBlocks && |blocks| >= 2 && BlocksReplay(blocks, samples, |blocks|)
    ensures lock.Some? ==> Pooled(blocks, |blocks|) != []
    ensures lock.Some? ==> var pooled := Pooled(blocks, |blocks|);
      lock.value == Lock(|pooled|, Type7(pooled, P99), Product(Type7(pooled, P99), SLO_FACTOR))
  {
    hide Type7, PercentileByWeights, Product, RowsValid;
    if |blocks| != expectedBlocks || |blocks| < MINIMUM_BLOCKS {
      return None;
    }
    var pooled: seq<real> := [];
    var seen: set<string> := {};
    for i := 0 to |blocks|
      invariant BlocksReplay(blocks, samples, i) && pooled == Pooled(blocks, i)
      invariant i > 0 ==> pooled != []
      invariant forall sha :: sha in seen <==> exists k :: 0 <= k < i && blocks[k].traceSha == sha
    {
      var b := blocks[i];
      if b.index != i || b.traceSha in seen {
        return None;
      }
      seen := seen + {b.traceSha};
      var values := ReplayTrace(b.rows);
      if values.None? || !b.conforms || |values.value| != samples || values.value == [] {
        return None;
      }
      WeightedSpellingAgrees(values.value, P99);
      if !Close(PercentileByWeights(values.value, P99).value, b.statedP99) {
        return None;
      }
      pooled := pooled + values.value;
    }
    WeightedSpellingAgrees(pooled, P99);
    var p99 := PercentileByWeights(pooled, P99).value;
    lock := Some(Lock(|pooled|, p99, Product(p99, SLO_FACTOR)));
  }

  /** A frozen deadline rests on all samples of all blocks, from traces with distinct hashes; it is
      positive headroom over their p99, and at most ceil(0.01 (N - 1)) of them exceed it. */
  lemma DeadlineIsRarelyMissed(blocks: seq<Block>, samples: nat)
    requires |blocks| >= MINIMUM_BLOCKS && BlocksReplay(blocks, samples, |blocks|) && samples > 0
    ensures |Pooled(blocks, |blocks|)| == Span(|blocks|, samples) > 0
    ensures var pooled := Pooled(blocks, |blocks|);
      CountAbove(pooled, Product(Type7(pooled, P99), SLO_FACTOR)) <= Exceedances(Span(|blocks|, samples), P99)
    ensures forall i, j :: 0 <= i < j < |blocks| ==> blocks[i].traceSha != blocks[j].traceSha
  {
    hide Type7, BlockReplays, CountAbove, Exceedances;
    PooledSamples(blocks, samples, |blocks|);
    DeadlineMisses(Pooled(blocks, |blocks|));
    forall i, j | 0 <= i < j < |blocks|
      ensures blocks[i].traceSha != blocks[j].traceSha
    {
      assert NewTrace(blocks, j);
    }
  }

  /** The deadline in plain numbers: 1.1 times the 0.99 quantile of the pooled values, `k` steps and a
      fraction `f` of the next one from the least of the ordered values. */
  lemma DeadlineInNumbers(pooled: seq<real>, ordered: seq<real>, k: nat, f: real)
    requires Orders(ordered, pooled) && k + 1 < |pooled| && 0.0 <= f <= 1.0
    requires 0.99 * (|pooled| - 1) as real == k as real + f
    ensures |ordered| == |pooled|
    ensures var p99 := ordered[k] + f * (ordered[k + 1] - ordered[k]);
      Type7(pooled, P99) == p99 && Product(Type7(pooled, P99), SLO_FACTOR) == 1.1 * p99
  {
    hide Type7;
    InterpolatesExactly(pooled, ordered, 0.99, k, f);
  }

  /** A stated p99 is close when it differs by at most 0.01, or by at most a billionth of either value. */
  lemma CloseExactly(a: real, b: real)
    ensures Close(a, b) <==>
      Abs(a - b) <= 0.01 || Abs(a - b) <= 0.000000001 * Abs(a) || Abs(a - b) <= 0.000000001 * Abs(b)
  {
  }

  /** A block has its index, a trace of as many rows as are due, at least one, all of them positive and
      none a miss, and a close p99. */
  ghost predicate BlockStands(b: Block, i: nat, samples: nat) {
    && b.index == i && b.conforms && |b.rows| == samples > 0
    && (forall k :: 0 <= k < |b.rows| ==> b.rows[k].value > 0.0 && b.rows[k].miss == 0)
    && Close(Type7(ValuesOf(b.rows, |b.rows|), 0.99), b.statedP99)
  }

  lemma BlockExactly(b: Block, i: nat, samples: nat)
    ensures BlockReplays(b, i, samples) <==> BlockStands(b, i, samples)
  {
    hide Type7, Close, ValuesOf;
    if BlockReplays(b, i, samples) {
      forall k | 0 <= k < |b.rows|
        ensures b.rows[k].value > 0.0 && b.rows[k].miss == 0
      {
        assert RowValid(b.rows[k]);
      }
    }
  }

  /** The blocks are accepted exactly when each of them stands in its place and no two share a trace. */
  lemma BlocksExactly(blocks: seq<Block>, samples: nat)
    ensures BlocksReplay(blocks, samples, |blocks|) <==>
      && (forall i :: 0 <= i < |blocks| ==> BlockStands(blocks[i], i, samples))
      && forall i, j :: 0 <= i < j < |blocks| ==> blocks[i].traceSha != blocks[j].traceSha
  {
    hide BlockReplays, BlockStands;
    forall i | 0 <= i < |blocks|
      ensures BlockReplays(blocks[i], i, samples) <==> BlockStands(blocks[i], i, samples)
    {
      BlockExactly(blocks[i], i, samples);
    }
    if BlocksReplay(blocks, samples, |blocks|) {
      forall i, j | 0 <= i < j < |blocks|
        ensures blocks[i].traceSha != blocks[j].traceSha
      {
        assert NewTrace(blocks, j);
      }
    }
  }
}
