/** Guard values and the additive envelope of analysis/freeze_p9_guard.py: rounding up to a
    quantum, the single-client guard, and the per-instance sum for client mixes. */
module GuardBound {
  import opened Arithmetic
  import opened Common
  import opened Percentile

  const QUANTILE := 0.999
  const MARGIN := 1.20
  const ROUNDING_MS := 0.1
  const FORMAL_PERIOD_MS := 20.0

  datatype GuardError = BadSamples(error: Percentile.Error) | DoesNotFitPeriod

  datatype RoundingError = NegativeValue | NonpositiveQuantum

  // ------------------------------------------------------------------
  // Rounding up
  // ------------------------------------------------------------------

  function Multiple(units: int, quantum: real): real { Product(units as real, quantum) }

  /** `round_up_ms` in exact decimal arithmetic. */
  function RoundUp(value: real, quantum: real): Result<real, RoundingError> {
    if value < 0.0 then Err(NegativeValue)
    else if quantum <= 0.0 then Err(NonpositiveQuantum)
    else Ok(Multiple(Ceiling(Ratio(value, quantum)), quantum))
  }

  /** The rounded value is the least multiple of the quantum that is not below the value. */
  lemma RoundUpIsLeastMultiple(value: real, quantum: real, units: int)
    requires value >= 0.0 && quantum > 0.0
    ensures RoundUp(value, quantum).Ok?
    ensures exists k: int :: RoundUp(value, quantum).value == Multiple(k, quantum)
    ensures value <= RoundUp(value, quantum).value < value + quantum
    ensures Multiple(units, quantum) >= value ==> Multiple(units, quantum) >= RoundUp(value, quantum).value
  {
    var ratio := Ratio(value, quantum);
    var k := Ceiling(ratio);
    assert RoundUp(value, quantum).value == Multiple(k, quantum);
    ProductGrows(ratio, k as real, quantum);
    assert Product(k as real - 1.0, quantum) == Product(k as real, quantum) - quantum;
    ProductStrict(k as real - 1.0, ratio, quantum);
    if units < k {
      ProductStrict(units as real, ratio, quantum);
    } else {
      ProductGrows(k as real, units as real, quantum);
    }
  }

  // ------------------------------------------------------------------
  // The single-client guard
  // ------------------------------------------------------------------

  /** The guard frozen from a raw p99.9. */
  function Frozen(raw: real): Result<real, RoundingError> {
    RoundUp(Product(raw, MARGIN), ROUNDING_MS)
  }

  /** `estimate_guard_ms`: the pooled p99.9 and the guard frozen from it. */
  function EstimateGuard(values: seq<real>): Result<(real, real), GuardError> {
    match PercentileType7(values, QUANTILE)
    case Err(e) => Err(BadSamples(e))
    case Ok(raw) =>
      match Frozen(raw)
      case Err(_) => Err(BadSamples(NegativeSample))
      case Ok(guard) => if guard >= FORMAL_PERIOD_MS then Err(DoesNotFitPeriod) else Ok((raw, guard))
  }

  lemma PercentileOfNonnegative(values: seq<real>, q: real)
    requires values != [] && AllNonnegative(values) && 0.0 <= q <= 1.0
    ensures Type7(values, q) >= 0.0
  {
    var ordered := Sorted(values);
    var position := Position(|values|, q);
    BetweenNeighbours(ordered, position);
    assert ordered[Floor(position)] in multiset(ordered);
    assert ordered[Floor(position)] in values;
  }

  lemma FrozenCoversMargin(raw: real)
    requires raw >= 0.0
    ensures Frozen(raw).Ok? && raw <= Product(raw, MARGIN) <= Frozen(raw).value < Product(raw, MARGIN) + ROUNDING_MS
  {
    RoundUpIsLeastMultiple(Product(raw, MARGIN), ROUNDING_MS, 0);
  }

  /** A guard is frozen exactly when there are samples, none is negative, and the margin over
      their p99.9 rounds up to less than the formal period. */
  lemma GuardAcceptedExactlyWhen(values: seq<real>)
    ensures EstimateGuard(values).Ok? <==>
      values != [] && AllNonnegative(values) && Frozen(Type7(values, QUANTILE)).Ok? && Frozen(Type7(values,
        QUANTILE)).value < FORMAL_PERIOD_MS
  {
    if values != [] {
      GuardSpellingAgrees(values, QUANTILE);
    }
  }

  /** A frozen guard is the margin over the pooled p99.9 up to one quantum, and at most
      ceil(0.001 (n - 1)) of the n pooled drains exceed it. */
  lemma GuardBoundsDrains(values: seq<real>)
    requires EstimateGuard(values).Ok?
    ensures values != [] && AllNonnegative(values)
    ensures var (raw, guard) := EstimateGuard(values).value;
      && raw == Type7(values, QUANTILE)
      && Product(raw, MARGIN) <= guard < Product(raw, MARGIN) + ROUNDING_MS
      && CountAbove(values, guard) <= Exceedances(|values|, QUANTILE)
  {
    GuardAcceptedExactlyWhen(values);
    GuardSpellingAgrees(values, QUANTILE);
    PercentileOfNonnegative(values, QUANTILE);
    var raw := Type7(values, QUANTILE);
    FrozenCoversMargin(raw);
    CountAboveAntitone(values, raw, Frozen(raw).value);
    FewAbovePercentile(values, QUANTILE);
  }

  lemma TwelveTenths(raw: real)
    ensures Ratio(Product(raw, MARGIN), ROUNDING_MS) == 12.0 * raw && Product(raw, MARGIN) == 1.2 * raw
  {
  }

  lemma InTenths(units: int)
    ensures Multiple(units, ROUNDING_MS) == units as real * 0.1
  {
  }

  lemma CeilingIs(x: real, n: int)
    requires (n - 1) as real < x <= n as real
    ensures Ceiling(x) == n
  {
  }

  lemma Tenths(raw: real, units: int)
    requires raw >= 0.0 && (units - 1) as real * 0.1 < 1.2 * raw <= units as real * 0.1
    ensures Frozen(raw) == Ok(units as real * 0.1)
  {
    hide Ratio, Product, Multiple, Ceiling;
    TwelveTenths(raw);
    InTenths(units);
    CeilingIs(12.0 * raw, units);
  }

  /** The guard in plain numbers: with `raw` the 0.999 quantile of the ordered drains, `k` steps and a
      fraction `f` of the next one from the least, it is the least number of tenths of a millisecond
      that covers 1.2 times `raw`, and there is none when that is 20 ms or more. */
  lemma GuardInNumbers(values: seq<real>, ordered: seq<real>, k: nat, f: real, units: int)
    requires Orders(ordered, values) && k + 1 < |values| && 0.0 <= f <= 1.0
    requires 0.999 * (|values| - 1) as real == k as real + f
    requires |ordered| == |values| && forall i :: 0 <= i < |values| ==> values[i] >= 0.0
    requires var raw := ordered[k] + f * (ordered[k + 1] - ordered[k]);
      (units - 1) as real * 0.1 < 1.2 * raw <= units as real * 0.1
    ensures var raw := ordered[k] + f * (ordered[k + 1] - ordered[k]);
      EstimateGuard(values) == if units < 200 then Ok((raw, units as real * 0.1)) else Err(DoesNotFitPeriod)
  {
    InterpolatesExactly(values, ordered, 0.999, k, f);
    PercentileOfNonnegative(values, 0.999);
    hide Type7, PercentileType7, Frozen, Sorted;
    Tenths(Type7(values, 0.999), units);
  }

  /** Without samples, or with a negative one, there is none either. */
  lemma NoGuard(values: seq<real>)
    ensures values == [] ==> EstimateGuard(values) == Err(BadSamples(NoSamples))
    ensures (exists i :: 0 <= i < |values| && values[i] < 0.0) ==>
      EstimateGuard(values) == Err(BadSamples(NegativeSample))
  {
  }

  /** For the 10,000 drains of a case the quantile lies one thousandth of the way from the 9990th to
      the 9991st of the ordered drains. */
  lemma GuardOfPool(pool: seq<real>, ordered: seq<real>, units: int)
    requires |pool| == 10000 && Orders(ordered, pool) && |ordered| == 10000
    requires forall i :: 0 <= i < |pool| ==> pool[i] >= 0.0
    requires (units - 1) as real * 0.1 < 1.2 * (ordered[9989] + 0.001 * (ordered[9990] - ordered[9989]))
      <= units as real * 0.1
    ensures EstimateGuard(pool).Ok? <==> units < 200
    ensures units < 200 ==> EstimateGuard(pool).value.1 == units as real * 0.1
  {
    hide EstimateGuard;
    GuardInNumbers(pool, ordered, 9989, 0.001, units);
  }

  // ------------------------------------------------------------------
  // The additive envelope
  // ------------------------------------------------------------------

  datatype Client = Client(placement: string, quota: string, modality: string, count: int)

  type Guards = map<(string, string, string), real>

  datatype EnvelopeError = Uncalibrated(key: (string, string, string)) | NoClients

  function Key(c: Client): (string, string, string) { (c.placement, c.quota, c.modality) }

  predicate Calibrated(clients: seq<Client>, guards: Guards) {
    forall i :: 0 <= i < |clients| ==> Key(clients[i]) in guards
  }

  function Placements(clients: seq<Client>): set<string> {
    set i | 0 <= i < |clients| :: clients[i].placement
  }

  /** What one client adds to the load of an instance. */
  function Share(c: Client, guards: Guards, placement: string): real
    requires Key(c) in guards
  {
    if c.placement == placement then Product(c.count as real, guards[Key(c)]) else 0.0
  }

  /** The summed guards of the clients placed on one instance. */
  function Load(clients: seq<Client>, guards: Guards, placement: string): real
    requires Calibrated(clients, guards)
  {
    if clients == [] then 0.0 else
      Load(clients[..|clients| - 1], guards, placement) + Share(clients[|clients| - 1], guards, placement)
  }

  /** The largest load over the instances that hold a client. */
  ghost predicate IsEnvelope(envelope: real, clients: seq<Client>, guards: Guards)
    requires Calibrated(clients, guards)
  {
    && (exists p :: p in Placements(clients) && Load(clients, guards, p) == envelope)
    && forall p :: p in Placements(clients) ==> Load(clients, guards, p) <= envelope
  }

  method MaximumOf(loads: map<string, real>) returns (largest: real)
    requires loads != map[]
    ensures largest in loads.Values && forall p :: p in loads ==> loads[p] <= largest
  {
    var left := loads.Keys;
    assert loads.Keys != {};
    var first :| first in left;
    largest := loads[first];
    left := left - {first};
    while left != {}
      invariant left <= loads.Keys && largest in loads.Values
      invariant forall p :: p in loads && p !in left ==> loads[p] <= largest
      decreases |left|
    {
      var p :| p in left;
      if loads[p] > largest {
        largest := loads[p];
      }
      left := left - {p};
    }
  }

  /** `additive_envelope_ms`. */
  method AdditiveEnvelope(clients: seq<Client>, guards: Guards) returns (r: Result<(real, map<string, real>),
      EnvelopeError>)
    ensures r.Ok? <==> clients != [] && Calibrated(clients, guards)
    ensures r.Err? && r.error.NoClients? <==> clients == []
    ensures r.Ok? ==>
      && IsEnvelope(r.value.0, clients, guards)
      && r.value.1.Keys == Placements(clients)
      && forall p :: p in r.value.1 ==> r.value.1[p] == Load(clients, guards, p)
  {
    var perInstance: map<string, real> := map[];
    assert clients[..0] == [];
    for i := 0 to |clients|
      invariant Calibrated(clients[..i], guards)
      invariant perInstance.Keys == Placements(clients[..i])
      invariant forall p :: p in perInstance ==> perInstance[p] == Load(clients[..i], guards, p)
    {
      var client := clients[i];
      var key := Key(client);
      if key !in guards {
        return Err(Uncalibrated(key));
      }
      var so := if key.0 in perInstance then perInstance[key.0] else 0.0;
      OneMoreClient(clients, guards, i);
      perInstance := perInstance[key.0 := so + Product(client.count as real, guards[key])];
    }
    assert clients[..|clients|] == clients;
    if clients == [] {
      return Err(NoClients);
    }
    assert clients[0].placement in Placements(clients);
    var envelope := MaximumOf(perInstance);
    r := Ok((envelope, perInstance));
  }

  lemma OneMoreClient(clients: seq<Client>, guards: Guards, i: nat)
    requires i < |clients| && Calibrated(clients[..i], guards) && Key(clients[i]) in guards
    ensures Calibrated(clients[..i + 1], guards)
    ensures Placements(clients[..i + 1]) == Placements(clients[..i]) + {clients[i].placement}
    ensures forall p :: Load(clients[..i + 1], guards, p) == Load(clients[..i], guards, p) + Share(clients[i], guards,
      p)
    ensures forall p :: p !in Placements(clients[..i]) ==> Load(clients[..i], guards, p) == 0.0
  {
    assert clients[..i + 1] == clients[..i] + [clients[i]];
    PlacementsAdd(clients[..i], [clients[i]]);
    assert Placements([clients[i]]) == {clients[i].placement};
    forall p
      ensures Load(clients[..i + 1], guards, p) == Load(clients[..i], guards, p) + Share(clients[i], guards, p)
    {
      assert clients[..i + 1][..i] == clients[..i];
    }
    forall p | p !in Placements(clients[..i])
      ensures Load(clients[..i], guards, p) == 0.0
    {
      NoLoadElsewhere(clients[..i], guards, p);
    }
  }

  lemma PlacementsAdd(xs: seq<Client>, ys: seq<Client>)
    ensures Placements(xs + ys) == Placements(xs) + Placements(ys)
  {
    forall p | p in Placements(xs) + Placements(ys)
      ensures p in Placements(xs + ys)
    {
      if i :| 0 <= i < |xs| && xs[i].placement == p {
        assert (xs + ys)[i].placement == p;
      } else {
        var j :| 0 <= j < |ys| && ys[j].placement == p;
        assert (xs + ys)[|xs| + j].placement == p;
      }
    }
  }

  lemma {:induction false} NoLoadElsewhere(clients: seq<Client>, guards: Guards, placement: string)
    requires Calibrated(clients, guards) && placement !in Placements(clients)
    ensures Load(clients, guards, placement) == 0.0
    decreases |clients|
  {
    if clients != [] {
      var front := clients[..|clients| - 1];
      assert clients == front + [clients[|clients| - 1]];
      PlacementsAdd(front, [clients[|clients| - 1]]);
      assert clients[|clients| - 1].placement in Placements(clients);
      NoLoadElsewhere(front, guards, placement);
    }
  }

  /** One client adds its count times the guard of its placement, quota and modality to the instance it
      is placed on, and nothing to any other. */
  lemma LoadOfOne(c: Client, guards: Guards, placement: string)
    requires Calibrated([c], guards)
    ensures (c.placement, c.quota, c.modality) in guards
    ensures Load([c], guards, placement)
      == if c.placement == placement then c.count as real * guards[(c.placement, c.quota, c.modality)] else 0.0
  {
    assert [c][0] == c && [c][..0] == [];
  }

  lemma {:induction false} LoadAdds(xs: seq<Client>, ys: seq<Client>, guards: Guards, placement: string)
    requires Calibrated(xs, guards) && Calibrated(ys, guards)
    ensures Calibrated(xs + ys, guards)
    ensures Load(xs + ys, guards, placement) == Load(xs, guards, placement) + Load(ys, guards, placement)
    decreases |ys|
  {
    if ys == [] {
      assert xs + ys == xs;
    } else {
      var front := ys[..|ys| - 1];
      assert (xs + ys)[..|xs + ys| - 1] == xs + front;
      LoadAdds(xs, front, guards, placement);
    }
  }

  lemma EnvelopeUnique(a: real, b: real, clients: seq<Client>, guards: Guards)
    requires Calibrated(clients, guards) && IsEnvelope(a, clients, guards) && IsEnvelope(b, clients, guards)
    ensures a == b
  {
  }

  /** Two client lists with the same instances and loads have the same envelope. */
  lemma SameLoadsSameEnvelope(xs: seq<Client>, ys: seq<Client>, guards: Guards, envelope: real)
    requires Calibrated(xs, guards) && Calibrated(ys, guards) && IsEnvelope(envelope, xs, guards)
    requires Placements(xs) == Placements(ys)
    requires forall p :: p in Placements(xs) ==> Load(xs, guards, p) == Load(ys, guards, p)
    ensures IsEnvelope(envelope, ys, guards)
  {
    var p :| p in Placements(xs) && Load(xs, guards, p) == envelope;
    assert p in Placements(ys) && Load(ys, guards, p) == envelope;
  }

  lemma LoadWithout(pre: seq<Client>, c: Client, post: seq<Client>, guards: Guards, placement: string)
    requires Calibrated(pre, guards) && Calibrated(post, guards) && Key(c) in guards
    ensures Calibrated(pre + [c] + post, guards) && Calibrated(pre + post, guards)
    ensures Load(pre + [c] + post, guards, placement) == Load(pre + post, guards, placement) + Load([c], guards,
      placement)
  {
    LoadAdds(pre, [c], guards, placement);
    LoadAdds(pre + [c], post, guards, placement);
    LoadAdds(pre, post, guards, placement);
  }

  lemma TakeOut(xs: seq<Client>, c: Client) returns (pre: seq<Client>, post: seq<Client>)
    requires c in multiset(xs)
    ensures xs == pre + [c] + post && multiset(pre + post) == multiset(xs) - multiset{c}
  {
    var i :| 0 <= i < |xs| && xs[i] == c;
    pre, post := xs[..i], xs[i + 1..];
    assert xs == pre + [c] + post;
  }

  lemma TakeHead(xs: seq<Client>)
    requires xs != []
    ensures xs[0] in multiset(xs) && multiset(xs[1..]) == multiset(xs) - multiset{xs[0]}
  {
    assert xs == [xs[0]] + xs[1..];
  }

  lemma LoadHead(xs: seq<Client>, guards: Guards, placement: string)
    requires xs != [] && Calibrated(xs, guards)
    ensures Load(xs, guards, placement) == Load([xs[0]], guards, placement) + Load(xs[1..], guards, placement)
  {
    assert xs == [xs[0]] + xs[1..];
    LoadAdds([xs[0]], xs[1..], guards, placement);
  }

  lemma {:induction false} ReorderedLoad(xs: seq<Client>, ys: seq<Client>, guards: Guards, placement: string)
    requires Calibrated(xs, guards) && Calibrated(ys, guards) && multiset(xs) == multiset(ys)
    ensures Load(xs, guards, placement) == Load(ys, guards, placement)
    decreases |xs|
  {
    if xs == [] {
      assert |multiset(ys)| == |ys|;
    } else {
      TakeHead(xs);
      var pre, post := TakeOut(ys, xs[0]);
      PartsCalibrated(pre, xs[0], post, guards);
      LoadHead(xs, guards, placement);
      LoadWithout(pre, xs[0], post, guards, placement);
      ReorderedLoad(xs[1..], pre + post, guards, placement);
    }
  }

  lemma PartsCalibrated(pre: seq<Client>, c: Client, post: seq<Client>, guards: Guards)
    requires Calibrated(pre + [c] + post, guards)
    ensures Calibrated(pre, guards) && Key(c) in guards && Calibrated(post, guards) && Calibrated(pre + post, guards)
  {
    var all := pre + [c] + post;
    assert all[|pre|] == c;
    forall i | 0 <= i < |pre|
      ensures Key(pre[i]) in guards
    {
      assert all[i] == pre[i];
    }
    forall i | 0 <= i < |post|
      ensures Key(post[i]) in guards
    {
      assert all[|pre| + 1 + i] == post[i];
    }
  }

  /** Reordering the clients leaves the envelope unchanged. */
  lemma EnvelopeReordered(xs: seq<Client>, ys: seq<Client>, guards: Guards, envelope: real)
    requires Calibrated(xs, guards) && multiset(xs) == multiset(ys) && IsEnvelope(envelope, xs, guards)
    ensures Calibrated(ys, guards) && IsEnvelope(envelope, ys, guards)
  {
    forall i | 0 <= i < |ys|
      ensures Key(ys[i]) in guards && ys[i].placement in Placements(xs)
    {
      assert ys[i] in multiset(ys);
      assert ys[i] in xs;
    }
    forall i | 0 <= i < |xs|
      ensures xs[i].placement in Placements(ys)
    {
      assert xs[i] in multiset(xs);
      assert xs[i] in ys;
    }
    assert Placements(xs) == Placements(ys);
    forall p | p in Placements(xs)
      ensures Load(xs, guards, p) == Load(ys, guards, p)
    {
      ReorderedLoad(xs, ys, guards, p);
    }
    SameLoadsSameEnvelope(xs, ys, guards, envelope);
  }

  /** Splitting one client group into two of the same kind leaves the envelope unchanged. */
  lemma EnvelopeSplit(pre: seq<Client>, c: Client, m: int, n: int, post: seq<Client>, guards: Guards, envelope: real)
    requires Calibrated(pre + [c.(count := m + n)] + post, guards)
    requires IsEnvelope(envelope, pre + [c.(count := m + n)] + post, guards)
    ensures Calibrated(pre + [c.(count := m), c.(count := n)] + post, guards)
      && IsEnvelope(envelope, pre + [c.(count := m), c.(count := n)] + post, guards)
  {
    var whole, halves := [c.(count := m + n)], [c.(count := m), c.(count := n)];
    var xs, ys := pre + whole + post, pre + halves + post;
    assert Key(c.(count := m + n)) == Key(c.(count := m)) == Key(c.(count := n)) == Key(c);
    PartsCalibrated(pre, c.(count := m + n), post, guards);
    PlacementsAdd(pre, whole);
    PlacementsAdd(pre + whole, post);
    PlacementsAdd(pre, halves);
    PlacementsAdd(pre + halves, post);
    assert whole[0].placement == c.placement;
    assert halves[0].placement == c.placement && halves[1].placement == c.placement;
    assert Placements(whole) == {c.placement} && Placements(halves) == {c.placement};
    forall p
      ensures Load(xs, guards, p) == Load(ys, guards, p)
    {
      LoadAdds(pre, whole, guards, p);
      LoadAdds(pre + whole, post, guards, p);
      LoadAdds(pre, halves, guards, p);
      LoadAdds(pre + halves, post, guards, p);
      SplitShare(c, m, n, guards, p);
    }
    SameLoadsSameEnvelope(xs, ys, guards, envelope);
  }

  lemma SplitShare(c: Client, m: int, n: int, guards: Guards, placement: string)
    requires Key(c) in guards
    ensures Calibrated([c.(count := m + n)], guards) && Calibrated([c.(count := m), c.(count := n)], guards)
    ensures Load([c.(count := m + n)], guards, placement) == Load([c.(count := m), c.(count := n)], guards, placement)
  {
    var halves := [c.(count := m), c.(count := n)];
    assert halves[..1] == [c.(count := m)] && halves[..1][..0] == [];
    assert Product((m + n) as real, guards[Key(c)]) == Product(m as real, guards[Key(c)]) + Product(n as real,
      guards[Key(c)]);
  }

  ghost predicate NonnegativeMix(clients: seq<Client>, guards: Guards)
    requires Calibrated(clients, guards)
  {
    forall i :: 0 <= i < |clients| ==> clients[i].count >= 0 && guards[Key(clients[i])] >= 0.0
  }

  lemma {:induction false} LoadNonnegative(clients: seq<Client>, guards: Guards, placement: string)
    requires Calibrated(clients, guards) && NonnegativeMix(clients, guards)
    ensures Load(clients, guards, placement) >= 0.0
    decreases |clients|
  {
    if clients != [] {
      var last := clients[|clients| - 1];
      LoadNonnegative(clients[..|clients| - 1], guards, placement);
      ProductGrows(0.0, last.count as real, guards[Key(last)]);
    }
  }

  /** Adding clients never lowers the envelope, and the envelope of a concatenation is at most
      the sum of the two envelopes. */
  lemma EnvelopeOfConcatenation(xs: seq<Client>, ys: seq<Client>, guards: Guards, ex: real, ey: real, both: real)
    requires Calibrated(xs, guards) && Calibrated(ys, guards) && Calibrated(xs + ys, guards)
    requires forall i :: 0 <= i < |xs| ==> xs[i].count >= 0 && guards[Key(xs[i])] >= 0.0
    requires forall i :: 0 <= i < |ys| ==> ys[i].count >= 0 && guards[Key(ys[i])] >= 0.0
    requires IsEnvelope(ex, xs, guards) && IsEnvelope(ey, ys, guards) && IsEnvelope(both, xs + ys, guards)
    ensures ex <= both && ey <= both && both <= ex + ey
  {
    PlacementsAdd(xs, ys);
    var px :| px in Placements(xs) && Load(xs, guards, px) == ex;
    var py :| py in Placements(ys) && Load(ys, guards, py) == ey;
    var p :| p in Placements(xs + ys) && Load(xs + ys, guards, p) == both;
    LoadParts(xs, ys, guards, px);
    LoadParts(xs, ys, guards, py);
    LoadParts(xs, ys, guards, p);
    assert p in Placements(xs) ==> Load(xs, guards, p) <= ex;
    assert p in Placements(ys) ==> Load(ys, guards, p) <= ey;
  }

  lemma LoadParts(xs: seq<Client>, ys: seq<Client>, guards: Guards, p: string)
    requires Calibrated(xs, guards) && Calibrated(ys, guards) && NonnegativeMix(xs, guards)
    requires NonnegativeMix(ys, guards)
    ensures Calibrated(xs + ys, guards) && Load(xs + ys, guards, p) == Load(xs, guards, p) + Load(ys, guards, p)
    ensures Load(xs, guards, p) >= 0.0 && Load(ys, guards, p) >= 0.0
    ensures p !in Placements(xs) ==> Load(xs, guards, p) == 0.0
    ensures p !in Placements(ys) ==> Load(ys, guards, p) == 0.0
  {
    LoadAdds(xs, ys, guards, p);
    LoadNonnegative(xs, guards, p);
    LoadNonnegative(ys, guards, p);
    if p !in Placements(xs) { NoLoadElsewhere(xs, guards, p); }
    if p !in Placements(ys) { NoLoadElsewhere(ys, guards, p); }
  }
}
