/** The JDGOUT1 tensor container (analysis/read_application_output_trace.py:106-168).  The
    serializer writes the layout that the parser fixes. */
module OutputTrace {
  import opened Arithmetic
  import opened Common
  import opened LittleEndian
  import AsrTrace

  const MAX_OUTPUTS: nat := 64
  const MAX_SIZE: nat := 17179869184

  /** The raw bytes of each output tensor of one iteration. */
  datatype Record = Record(iteration: nat, outputs: seq<seq<Byte>>)

  datatype Trace = Trace(sizes: seq<nat>, records: seq<Record>)

  function Iteration(): Record -> nat { (r: Record) => r.iteration }

  function Magic(): seq<Byte> { [74, 68, 71, 79, 85, 84, 49, 0] }

  // ------------------------------------------------------------------
  // The layout
  // ------------------------------------------------------------------

  predicate ValidSize(size: nat) { 1 <= size <= MAX_SIZE }

  predicate ValidSizes(sizes: seq<nat>) {
    1 <= |sizes| <= MAX_OUTPUTS && forall i :: 0 <= i < |sizes| ==> ValidSize(sizes[i])
  }

  predicate Fits(r: Record, sizes: seq<nat>) {
    && r.iteration < Limit(4)
    && |r.outputs| == |sizes|
    && forall i :: 0 <= i < |sizes| ==> |r.outputs[i]| == sizes[i]
  }

  ghost predicate AllFit(rs: seq<Record>, sizes: seq<nat>) { forall i :: 0 <= i < |rs| ==> Fits(rs[i], sizes) }

  /** What a trace may hold; it may hold no record. */
  ghost predicate ValidTrace(t: Trace) {
    ValidSizes(t.sizes) && AllFit(t.records, t.sizes) && DistinctBy(t.records, Iteration())
  }

  /** The bytes of the first `n` outputs. */
  function Total(sizes: seq<nat>, n: nat): nat
    requires n <= |sizes|
  {
    if n == 0 then 0 else Total(sizes, n - 1) + sizes[n - 1]
  }

  function RecordSize(sizes: seq<nat>): nat { 4 + Total(sizes, |sizes|) }

  function SizesBytes(sizes: seq<nat>, n: nat): (bytes: seq<Byte>)
    requires n <= |sizes|
    ensures |bytes| == 8 * n
  {
    if n == 0 then [] else SizesBytes(sizes, n - 1) + Pack(sizes[n - 1], 8)
  }

  function HeaderBytes(sizes: seq<nat>): (bytes: seq<Byte>)
    ensures |bytes| == HeaderSize(sizes)
  {
    Magic() + Pack(|sizes|, 4) + SizesBytes(sizes, |sizes|)
  }

  function HeaderSize(sizes: seq<nat>): nat { 12 + 8 * |sizes| }

  function OutputsBytes(outputs: seq<seq<Byte>>, n: nat): seq<Byte>
    requires n <= |outputs|
  {
    if n == 0 then [] else OutputsBytes(outputs, n - 1) + outputs[n - 1]
  }

  function RecordBytes(r: Record): seq<Byte> { Pack(r.iteration, 4) + OutputsBytes(r.outputs, |r.outputs|) }

  function RecordsBytes(rs: seq<Record>): seq<Byte> {
    if rs == [] then [] else RecordsBytes(rs[..|rs| - 1]) + RecordBytes(rs[|rs| - 1])
  }

  function TraceBytes(t: Trace): seq<Byte> { HeaderBytes(t.sizes) + RecordsBytes(t.records) }

  // ------------------------------------------------------------------
  // Reading
  // ------------------------------------------------------------------

  /** The first `n` tensor sizes. */
  function SizesAfter(raw: seq<Byte>, n: nat): Option<seq<nat>>
  {
    if n == 0 then Some([]) else
      match SizesAfter(raw, n - 1)
      case None => None
      case Some(sizes) =>
        if 12 + 8 * n > |raw| || !ValidSize(NumberAt(raw, 4 + 8 * n, 8)) then None
        else Some(sizes + [NumberAt(raw, 4 + 8 * n, 8)])
  }

  /** The first `n` outputs of the record at `offset`. */
  function OutputsAt(raw: seq<Byte>, offset: nat, sizes: seq<nat>, n: nat): (outputs: seq<seq<Byte>>)
    requires n <= |sizes| && offset + Total(sizes, n) <= |raw|
    ensures |outputs| == n
  {
    if n == 0 then [] else
      OutputsAt(raw, offset, sizes, n - 1) + [raw[offset + Total(sizes, n - 1)..offset + Total(sizes, n)]]
  }

  function RecordAt(raw: seq<Byte>, offset: nat, sizes: seq<nat>): Record
    requires offset + RecordSize(sizes) <= |raw|
  {
    Record(NumberAt(raw, offset, 4), OutputsAt(raw, offset + 4, sizes, |sizes|))
  }

  /** The record loop from `offset` on, after `before` was read. */
  function From(raw: seq<Byte>, sizes: seq<nat>, offset: nat, before: seq<Record>): Option<seq<Record>>
    decreases |raw| - offset
  {
    if offset >= |raw| then Some(before)
    else if offset + RecordSize(sizes) > |raw| then None
    else
      var r := RecordAt(raw, offset, sizes);
      if !FreshBy(r, before, Iteration()) then None else From(raw, sizes, offset + RecordSize(sizes), before + [r])
  }

  predicate WholeRecords(bytes: int, size: nat)
    requires size > 0
  {
    bytes % size == 0
  }

  /** `parse` on a JDGOUT1 trace before its final sort. */
  function Parsed(raw: seq<Byte>): Option<Trace> {
    if |raw| < 12 || raw[..8] != Magic() then None else
      var count := NumberAt(raw, 8, 4);
      if count == 0 || count > MAX_OUTPUTS then None else
        match SizesAfter(raw, count)
        case None => None
        case Some(sizes) =>
          if !WholeRecords(|raw| - HeaderSize(sizes), RecordSize(sizes)) then None else
            match From(raw, sizes, HeaderSize(sizes), [])
            case None => None
            case Some(records) => Some(Trace(sizes, records))
  }

  // ------------------------------------------------------------------
  // Header
  // ------------------------------------------------------------------

  lemma NumbersFit()
    ensures Limit(4) == 4294967296 && MAX_SIZE < Limit(8) && MAX_OUTPUTS < Limit(4)
  {
    assert Limit(1) == 256 && Limit(2) == 65536 && Limit(3) == 16777216 && Limit(4) == 4294967296;
    assert Limit(5) == 1099511627776 && Limit(6) >= Limit(5) && Limit(7) >= Limit(6) && Limit(8) >= Limit(7);
  }

  /** What a trace may hold, in numbers: 1 to 64 outputs of up to 16 GiB each, and records of distinct
      32-bit iterations with one value of the stated size for each output. */
  lemma ValidExactly(t: Trace)
    ensures ValidTrace(t) <==>
      && 1 <= |t.sizes| <= 64 && (forall i :: 0 <= i < |t.sizes| ==> 1 <= t.sizes[i] <= 17179869184)
      && (forall r :: 0 <= r < |t.records| ==>
        t.records[r].iteration < 4294967296 && |t.records[r].outputs| == |t.sizes|)
      && (forall r, i :: 0 <= r < |t.records| && 0 <= i < |t.sizes| && i < |t.records[r].outputs| ==>
        |t.records[r].outputs[i]| == t.sizes[i])
      && forall i, j :: 0 <= i < j < |t.records| ==> t.records[i].iteration != t.records[j].iteration
  {
    NumbersFit();
    hide Limit;
  }

  lemma {:induction false} SizesReadSize(raw: seq<Byte>, n: nat)
    requires SizesAfter(raw, n).Some?
    ensures |SizesAfter(raw, n).value| == n && (n > 0 ==> 12 + 8 * n <= |raw|)
  {
    hide NumberAt, ValidSize;
    if n > 0 {
      SizesReadSize(raw, n - 1);
    }
  }

  /** The sizes read are the sizes written, whatever follows them. */
  lemma {:induction false} SizesRead(raw: seq<Byte>, sizes: seq<nat>, n: nat)
    requires |raw| >= 12 && n <= |sizes| && forall i :: 0 <= i < |sizes| ==> ValidSize(sizes[i])
    ensures Stands(raw, 12, SizesBytes(sizes, n)) <==> SizesAfter(raw, n) == Some(sizes[..n])
  {
    hide Pack, NumberAt, Limit, Stands, SizesAfter, SizesBytes, ValidSize;
    if n == 0 {
      NoSizes(raw, sizes);
    } else {
      var size := sizes[n - 1];
      SizesRead(raw, sizes, n - 1);
      SizeFits(size);
      SizesBytesStep(sizes, n);
      StandsConcat(raw, 12, SizesBytes(sizes, n - 1), Pack(size, 8));
      if 12 + 8 * n <= |raw| {
        NumberStands(raw, 4 + 8 * n, size, 8);
      } else {
        TooShort(raw, 4 + 8 * n, Pack(size, 8));
      }
      SizesAfterStep(raw, sizes, n);
    }
  }

  lemma NoSizes(raw: seq<Byte>, sizes: seq<nat>)
    requires |raw| >= 12
    ensures Stands(raw, 12, SizesBytes(sizes, 0)) && SizesAfter(raw, 0) == Some(sizes[..0])
  {
  }

  lemma SizesBytesStep(sizes: seq<nat>, n: nat)
    requires 1 <= n <= |sizes|
    ensures SizesBytes(sizes, n) == SizesBytes(sizes, n - 1) + Pack(sizes[n - 1], 8)
  {
    hide Pack;
  }

  lemma SizeFits(size: nat)
    requires ValidSize(size)
    ensures size < Limit(8)
  {
    NumbersFit();
  }

  lemma TooShort(raw: seq<Byte>, offset: nat, bytes: seq<Byte>)
    requires offset + |bytes| > |raw|
    ensures !Stands(raw, offset, bytes)
  {
  }

  /** One more size is read. */
  lemma SizesAfterStep(raw: seq<Byte>, sizes: seq<nat>, n: nat)
    requires 1 <= n <= |sizes| && ValidSize(sizes[n - 1])
    ensures SizesAfter(raw, n) == Some(sizes[..n]) <==>
      SizesAfter(raw, n - 1) == Some(sizes[..n - 1]) && 12 + 8 * n <= |raw| && NumberAt(raw, 4 + 8 * n,
        8) == sizes[n - 1]
  {
    hide NumberAt;
    assert sizes[..n] == sizes[..n - 1] + [sizes[n - 1]];
    if SizesAfter(raw, n) == Some(sizes[..n]) {
      var before := SizesAfter(raw, n - 1).value;
      SizesReadSize(raw, n - 1);
      assert before == (before + [NumberAt(raw, 4 + 8 * n, 8)])[..n - 1];
    }
  }

  /** The header reads back the magic, the count and the sizes. */
  lemma HeaderStands(raw: seq<Byte>, sizes: seq<nat>)
    requires ValidSizes(sizes)
    ensures Stands(raw, 0, HeaderBytes(sizes)) <==>
      |raw| >= 12 && raw[..8] == Magic() && NumberAt(raw, 8, 4) == |sizes| && SizesAfter(raw, |sizes|) == Some(sizes)
  {
    NumbersFit();
    var count := Pack(|sizes|, 4);
    StandsConcat(raw, 0, Magic() + count, SizesBytes(sizes, |sizes|));
    StandsConcat(raw, 0, Magic(), count);
    assert sizes[..|sizes|] == sizes;
    if |raw| >= 12 {
      hide Limit, Pack, SizesBytes, SizesAfter;
      NumberStands(raw, 8, |sizes|, 4);
      SizesRead(raw, sizes, |sizes|);
      assert raw[0..8] == raw[..8];
    }
  }

  lemma {:induction false} SizesReadValid(raw: seq<Byte>, n: nat)
    requires SizesAfter(raw, n).Some?
    ensures |SizesAfter(raw, n).value| == n
    ensures forall i :: 0 <= i < n ==> ValidSize(SizesAfter(raw, n).value[i])
  {
    hide NumberAt, ValidSize;
    if n > 0 {
      SizesReadValid(raw, n - 1);
    }
  }

  // ------------------------------------------------------------------
  // One record
  // ------------------------------------------------------------------

  lemma {:induction false} OutputsSize(outputs: seq<seq<Byte>>, sizes: seq<nat>, n: nat)
    requires n <= |outputs| == |sizes| && forall i :: 0 <= i < |sizes| ==> |outputs[i]| == sizes[i]
    ensures |OutputsBytes(outputs, n)| == Total(sizes, n)
  {
    if n > 0 {
      OutputsSize(outputs, sizes, n - 1);
    }
  }

  lemma {:induction false} TotalGrows(sizes: seq<nat>, k: nat, n: nat)
    requires k <= n <= |sizes|
    ensures Total(sizes, k) <= Total(sizes, n)
  {
    if k < n {
      TotalGrows(sizes, k, n - 1);
    }
  }

  lemma RecordBytesSize(r: Record, sizes: seq<nat>)
    requires Fits(r, sizes)
    ensures |RecordBytes(r)| == RecordSize(sizes)
  {
    OutputsSize(r.outputs, sizes, |sizes|);
  }

  lemma {:induction false} OutputsStand(raw: seq<Byte>, offset: nat, outputs: seq<seq<Byte>>, sizes: seq<nat>, n: nat)
    requires n <= |outputs| == |sizes| && forall i :: 0 <= i < |sizes| ==> |outputs[i]| == sizes[i]
    requires offset + Total(sizes, n) <= |raw|
    ensures Stands(raw, offset, OutputsBytes(outputs, n)) <==> OutputsAt(raw, offset, sizes, n) == outputs[..n]
  {
    hide Stands, OutputsAt, OutputsBytes;
    if n == 0 {
      NoOutputs(raw, offset, outputs, sizes);
    } else {
      OutputsBytesStep(outputs, n);
      OutputsStand(raw, offset, outputs, sizes, n - 1);
      OutputsSize(outputs, sizes, n - 1);
      StandsConcat(raw, offset, OutputsBytes(outputs, n - 1), outputs[n - 1]);
      SliceStands(raw, offset + Total(sizes, n - 1), outputs[n - 1]);
      OutputsStep(raw, offset, outputs, sizes, n);
    }
  }

  lemma NoOutputs(raw: seq<Byte>, offset: nat, outputs: seq<seq<Byte>>, sizes: seq<nat>)
    requires offset <= |raw|
    ensures Stands(raw, offset, OutputsBytes(outputs, 0)) && OutputsAt(raw, offset, sizes, 0) == outputs[..0]
  {
  }

  lemma OutputsBytesStep(outputs: seq<seq<Byte>>, n: nat)
    requires 1 <= n <= |outputs|
    ensures OutputsBytes(outputs, n) == OutputsBytes(outputs, n - 1) + outputs[n - 1]
  {
  }

  lemma SliceStands(raw: seq<Byte>, offset: nat, bytes: seq<Byte>)
    requires offset + |bytes| <= |raw|
    ensures Stands(raw, offset, bytes) <==> raw[offset..offset + |bytes|] == bytes
  {
  }

  lemma OutputsStep(raw: seq<Byte>, offset: nat, outputs: seq<seq<Byte>>, sizes: seq<nat>, n: nat)
    requires 1 <= n <= |outputs| == |sizes| && offset + Total(sizes, n) <= |raw|
    ensures OutputsAt(raw, offset, sizes, n) == outputs[..n] <==>
      OutputsAt(raw, offset, sizes, n - 1) == outputs[..n - 1] && raw[offset + Total(sizes,
        n - 1)..offset + Total(sizes, n)] == outputs[n - 1]
  {
    var front := OutputsAt(raw, offset, sizes, n - 1);
    assert outputs[..n] == outputs[..n - 1] + [outputs[n - 1]];
    if OutputsAt(raw, offset, sizes, n) == outputs[..n] {
      assert front == OutputsAt(raw, offset, sizes, n)[..n - 1];
      assert OutputsAt(raw, offset, sizes, n)[n - 1] == outputs[n - 1];
    }
  }

  /** A record that fits stands at an offset exactly when it is what is read there. */
  lemma RecordStands(raw: seq<Byte>, offset: nat, r: Record, sizes: seq<nat>)
    requires Fits(r, sizes) && offset + RecordSize(sizes) <= |raw|
    ensures Stands(raw, offset, RecordBytes(r)) <==> RecordAt(raw, offset, sizes) == r
  {
    assert r.outputs[..|sizes|] == r.outputs;
    hide Pack, NumberAt, Limit, Stands, OutputsBytes, OutputsAt;
    StandsConcat(raw, offset, Pack(r.iteration, 4), OutputsBytes(r.outputs, |r.outputs|));
    NumberStands(raw, offset, r.iteration, 4);
    OutputsStand(raw, offset + 4, r.outputs, sizes, |sizes|);
  }

  lemma {:induction false} OutputsAtFit(raw: seq<Byte>, offset: nat, sizes: seq<nat>, n: nat)
    requires n <= |sizes| && offset + Total(sizes, n) <= |raw|
    ensures forall i :: 0 <= i < n ==> |OutputsAt(raw, offset, sizes, n)[i]| == sizes[i]
  {
    if n > 0 {
      OutputsAtFit(raw, offset, sizes, n - 1);
    }
  }

  lemma RecordAtFits(raw: seq<Byte>, offset: nat, sizes: seq<nat>)
    requires offset + RecordSize(sizes) <= |raw|
    ensures Fits(RecordAt(raw, offset, sizes), sizes)
  {
    NumberBelow(raw, offset, 4);
    OutputsAtFit(raw, offset + 4, sizes, |sizes|);
  }

  // ------------------------------------------------------------------
  // All records
  // ------------------------------------------------------------------

  lemma RecordsSnoc(before: seq<Record>, r: Record)
    ensures RecordsBytes(before + [r]) == RecordsBytes(before) + RecordBytes(r)
  {
    assert (before + [r])[..|before|] == before;
  }

  /** What the record loop has read. */
  ghost predicate Read(raw: seq<Byte>, sizes: seq<nat>, start: nat, offset: nat, rs: seq<Record>) {
    && AllFit(rs, sizes) && DistinctBy(rs, Iteration())
    && offset == start + |RecordsBytes(rs)| <= |raw|
    && Stands(raw, start, RecordsBytes(rs))
  }

  lemma ReadOneMore(raw: seq<Byte>, sizes: seq<nat>, start: nat, offset: nat, before: seq<Record>)
    requires Read(raw, sizes, start, offset, before) && offset + RecordSize(sizes) <= |raw|
    requires FreshBy(RecordAt(raw, offset, sizes), before, Iteration())
    ensures Read(raw, sizes, start, offset + RecordSize(sizes), before + [RecordAt(raw, offset, sizes)])
  {
    var r := RecordAt(raw, offset, sizes);
    RecordAtFits(raw, offset, sizes);
    RecordBytesSize(r, sizes);
    RecordStands(raw, offset, r, sizes);
    hide RecordAt, RecordSize, RecordsBytes, RecordBytes, Stands, Fits;
    RecordsSnoc(before, r);
    StandsConcat(raw, start, RecordsBytes(before), RecordBytes(r));
  }

  /** The record loop reaches the end of the file exactly, and what it read stands in the file. */
  lemma {:induction false} FromSound(raw: seq<Byte>, sizes: seq<nat>, start: nat, offset: nat, before: seq<Record>)
    requires Read(raw, sizes, start, offset, before) && From(raw, sizes, offset, before).Some?
    ensures Read(raw, sizes, start, |raw|, From(raw, sizes, offset, before).value)
    decreases |raw| - offset
  {
    hide Read, RecordAt, FreshBy;
    ReadEnds(raw, sizes, start, offset, before);
    if offset < |raw| {
      ReadOneMore(raw, sizes, start, offset, before);
      FromSound(raw, sizes, start, offset + RecordSize(sizes), before + [RecordAt(raw, offset, sizes)]);
    }
  }

  lemma ReadEnds(raw: seq<Byte>, sizes: seq<nat>, start: nat, offset: nat, rs: seq<Record>)
    requires Read(raw, sizes, start, offset, rs)
    ensures offset <= |raw|
  {
  }

  /** The record loop reads back the rest of a list that stands in the file to its end. */
  lemma {:induction false} FromComplete(raw: seq<Byte>, sizes: seq<nat>, start: nat, before: seq<Record>,
      rest: seq<Record>)
    requires Read(raw, sizes, start, |raw|, before + rest)
    ensures start + |RecordsBytes(before)| <= |raw|
    ensures From(raw, sizes, start + |RecordsBytes(before)|, before) == Some(before + rest)
    decreases |rest|
  {
    hide Stands, RecordAt, RecordBytes, RecordsBytes, Fits;
    if rest == [] {
      assert before + rest == before;
    } else {
      var r := rest[0];
      assert before + rest == before + [r] + rest[1..];
      FromComplete(raw, sizes, start, before + [r], rest[1..]);
      RecordsSnoc(before, r);
      NextRecord(raw, sizes, start, before, r, rest[1..]);
    }
  }

  /** The next record of a list that stands in the file is the one read. */
  lemma NextRecord(raw: seq<Byte>, sizes: seq<nat>, start: nat, before: seq<Record>, r: Record, rest: seq<Record>)
    requires Read(raw, sizes, start, |raw|, before + [r] + rest)
    ensures var offset := start + |RecordsBytes(before)|;
      && offset < |raw| && |RecordBytes(r)| == RecordSize(sizes) && offset + RecordSize(sizes) <= |raw|
      && RecordAt(raw, offset, sizes) == r && FreshBy(r, before, Iteration())
  {
    ReadFront(raw, sizes, start, before + [r], rest);
    hide Read;
    LastRead(raw, sizes, start, before, r);
  }

  lemma ReadFront(raw: seq<Byte>, sizes: seq<nat>, start: nat, front: seq<Record>, rest: seq<Record>)
    requires Read(raw, sizes, start, |raw|, front + rest)
    ensures AllFit(front, sizes) && DistinctBy(front, Iteration()) && Stands(raw, start, RecordsBytes(front))
  {
    hide Stands, RecordsBytes, Fits;
    assert forall i :: 0 <= i < |front| ==> (front + rest)[i] == front[i];
    RecordsStandPrefix(raw, start, front, rest);
  }

  lemma LastRead(raw: seq<Byte>, sizes: seq<nat>, start: nat, before: seq<Record>, r: Record)
    requires AllFit(before + [r], sizes) && DistinctBy(before + [r], Iteration())
    requires Stands(raw, start, RecordsBytes(before + [r]))
    ensures var offset := start + |RecordsBytes(before)|;
      && offset < |raw| && |RecordBytes(r)| == RecordSize(sizes) && offset + RecordSize(sizes) <= |raw|
      && RecordAt(raw, offset, sizes) == r && FreshBy(r, before, Iteration())
  {
    hide Stands, RecordAt, RecordBytes, RecordsBytes, Fits, FreshBy, AllFit, DistinctBy, RecordSize;
    Member(sizes, before, r);
    RecordBytesSize(r, sizes);
    SomeBytes(sizes);
    RecordsSnoc(before, r);
    StandsConcat(raw, start, RecordsBytes(before), RecordBytes(r));
    StandsInside(raw, start + |RecordsBytes(before)|, RecordBytes(r));
    RecordStands(raw, start + |RecordsBytes(before)|, r, sizes);
  }

  lemma Member(sizes: seq<nat>, before: seq<Record>, r: Record)
    requires AllFit(before + [r], sizes) && DistinctBy(before + [r], Iteration())
    ensures Fits(r, sizes) && FreshBy(r, before, Iteration())
  {
    hide Fits;
    var all := before + [r];
    assert all[|before|] == r && forall i :: 0 <= i < |before| ==> all[i] == before[i];
  }

  lemma SomeBytes(sizes: seq<nat>)
    ensures RecordSize(sizes) >= 4
  {
  }

  lemma {:induction false} RecordsStandPrefix(raw: seq<Byte>, start: nat, front: seq<Record>, rest: seq<Record>)
    requires Stands(raw, start, RecordsBytes(front + rest))
    ensures Stands(raw, start, RecordsBytes(front))
    decreases |rest|
  {
    hide Stands, RecordBytes, RecordsBytes;
    if rest == [] {
      assert front + rest == front;
    } else {
      var less, last := rest[..|rest| - 1], rest[|rest| - 1];
      assert front + rest == front + less + [last];
      RecordsSnoc(front + less, last);
      StandsConcat(raw, start, RecordsBytes(front + less), RecordBytes(last));
      RecordsStandPrefix(raw, start, front, less);
    }
  }

  // ------------------------------------------------------------------
  // Whole traces
  // ------------------------------------------------------------------

  /** Division with remainder has one answer. */
  lemma OneQuotient(a: int, q: int, r: int, size: nat)
    requires size > 0 && a == q * size + r && 0 <= r < size
    ensures a / size == q && a % size == r
  {
    var d := a / size - q;
    assert a == (a / size) * size + a % size;
    assert d * size == r - a % size;
    FarMultiple(d, size);
  }

  lemma FarMultiple(d: int, size: nat)
    ensures d >= 1 ==> d * size >= size
    ensures d <= -1 ==> d * size <= 0 - size
  {
  }

  lemma OneMoreRecord(bytes: int, size: nat)
    requires size > 0
    ensures (bytes + size) / size == bytes / size + 1 && (bytes + size) % size == bytes % size
  {
    var q := bytes / size;
    assert (q + 1) * size == q * size + size;
    OneQuotient(bytes + size, q + 1, bytes % size, size);
  }

  lemma {:induction false} SpanIsWhole(n: nat, size: nat)
    requires size > 0
    ensures WholeRecords(Span(n, size), size) && Span(n, size) / size == n
  {
    if n > 0 {
      SpanIsWhole(n - 1, size);
      OneMoreRecord(Span(n - 1, size), size);
    }
  }

  lemma {:induction false} RecordsSpan(rs: seq<Record>, sizes: seq<nat>)
    requires AllFit(rs, sizes)
    ensures |RecordsBytes(rs)| == Span(|rs|, RecordSize(sizes))
    decreases |rs|
  {
    hide Fits, RecordBytes, RecordSize;
    if rs != [] {
      var front, r := rs[..|rs| - 1], rs[|rs| - 1];
      assert rs == front + [r];
      RecordsSpan(front, sizes);
      RecordBytesSize(r, sizes);
    }
  }

  /** A file that is a header and records parses to them. */
  lemma ParsesStanding(raw: seq<Byte>, t: Trace)
    requires ValidTrace(t) && raw == TraceBytes(t)
    ensures Parsed(raw) == Some(t)
  {
    SomeBytes(t.sizes);
    hide Magic, SizesAfter, RecordsBytes, HeaderBytes, NumberAt, Stands, From, Fits, RecordSize, WholeRecords;
    WholeStands(raw);
    StandsConcat(raw, 0, HeaderBytes(t.sizes), RecordsBytes(t.records));
    HeaderStands(raw, t.sizes);
    RecordsSpan(t.records, t.sizes);
    SpanIsWhole(|t.records|, RecordSize(t.sizes));
    NothingBefore();
    assert [] + t.records == t.records;
    FromComplete(raw, t.sizes, HeaderSize(t.sizes), [], t.records);
  }

  lemma NothingBefore()
    ensures RecordsBytes([]) == []
  {
  }

  /** Parsing a serialized trace returns its sizes and its records. */
  lemma ParseOfSerialized(t: Trace)
    requires ValidTrace(t)
    ensures Parsed(TraceBytes(t)) == Some(t)
  {
    hide ValidTrace, TraceBytes, Parsed;
    ParsesStanding(TraceBytes(t), t);
  }

  /** Serializing what was parsed returns the same bytes, and only valid traces parse. */
  lemma SerializeOfParsed(raw: seq<Byte>)
    requires Parsed(raw).Some?
    ensures ValidTrace(Parsed(raw).value) && TraceBytes(Parsed(raw).value) == raw
  {
    var t := Parsed(raw).value;
    hide Magic, SizesAfter, RecordsBytes, HeaderBytes, NumberAt, Stands, From, Fits, RecordSize, WholeRecords;
    hide ValidSize;
    SizesReadValid(raw, NumberAt(raw, 8, 4));
    HeaderStands(raw, t.sizes);
    HeaderInside(raw, t.sizes);
    NothingRead(raw, t.sizes);
    FromSound(raw, t.sizes, HeaderSize(t.sizes), HeaderSize(t.sizes), []);
    StandsConcat(raw, 0, HeaderBytes(t.sizes), RecordsBytes(t.records));
    StandsAtEnd(raw, TraceBytes(t));
  }

  lemma HeaderInside(raw: seq<Byte>, sizes: seq<nat>)
    requires Stands(raw, 0, HeaderBytes(sizes))
    ensures HeaderSize(sizes) <= |raw|
  {
  }

  lemma NothingRead(raw: seq<Byte>, sizes: seq<nat>)
    requires HeaderSize(sizes) <= |raw|
    ensures Read(raw, sizes, HeaderSize(sizes), HeaderSize(sizes), [])
  {
  }

  /** The bytes that parse are exactly the serialized valid traces. */
  lemma ParsesExactlySerialized(raw: seq<Byte>)
    ensures Parsed(raw).Some? <==> exists t :: ValidTrace(t) && raw == TraceBytes(t)
  {
    hide ValidTrace, TraceBytes, Parsed;
    if Parsed(raw).Some? {
      SerializeOfParsed(raw);
    }
    if t :| ValidTrace(t) && raw == TraceBytes(t) {
      ParseOfSerialized(t);
    }
  }

  // ------------------------------------------------------------------
  // Prefixes
  // ------------------------------------------------------------------

  /** The first `k` records of a trace are a trace. */
  lemma FewerRecords(t: Trace, k: nat)
    requires ValidTrace(t) && k <= |t.records|
    ensures ValidTrace(Trace(t.sizes, t.records[..k])) && TraceBytes(Trace(t.sizes, t.records[..k])) <= TraceBytes(t)
    ensures |TraceBytes(Trace(t.sizes, t.records[..k]))| == HeaderSize(t.sizes) + Span(k, RecordSize(t.sizes))
  {
    hide ValidSizes, HeaderBytes, RecordsBytes, Fits, RecordSize;
    RecordsSpan(t.records[..k], t.sizes);
    RecordsPrefix(t.records, k);
  }

  lemma {:induction false} RecordsPrefix(rs: seq<Record>, k: nat)
    requires k <= |rs|
    ensures RecordsBytes(rs[..k]) <= RecordsBytes(rs)
    decreases |rs|
  {
    hide RecordBytes;
    if k == |rs| {
      assert rs[..k] == rs;
    } else {
      var front := rs[..|rs| - 1];
      RecordsPrefix(front, k);
      assert front[..k] == rs[..k];
    }
  }

  lemma {:induction false} SpanGrows(m: nat, n: nat, size: nat)
    requires m <= n
    ensures Span(m, size) <= Span(n, size)
  {
    if m < n {
      SpanGrows(m, n - 1, size);
    }
  }

  lemma {:induction false} WholeIsSpan(bytes: nat, size: nat)
    requires size > 0 && WholeRecords(bytes, size)
    ensures bytes == Span(bytes / size, size)
    decreases bytes
  {
    if bytes >= size {
      OneMoreRecord(bytes - size, size);
      WholeIsSpan(bytes - size, size);
      SpanStep((bytes - size) / size, size);
    } else {
      OneQuotient(bytes, 0, bytes, size);
    }
  }

  /** A truncated trace is accepted exactly when it is cut at or after the end of the header, on a
      record boundary; it then parses to the records before the cut. */
  lemma PrefixAcceptedExactly(t: Trace, m: nat)
    requires ValidTrace(t) && m <= |TraceBytes(t)|
    ensures Parsed(TraceBytes(t)[..m]).Some? <==>
      m >= HeaderSize(t.sizes) && WholeRecords(m - HeaderSize(t.sizes), RecordSize(t.sizes))
    ensures Parsed(TraceBytes(t)[..m]).Some? ==>
      exists k: nat :: k <= |t.records| && Parsed(TraceBytes(t)[..m]) == Some(Trace(t.sizes, t.records[..k]))
  {
    hide ValidTrace, TraceBytes, Parsed, HeaderSize, RecordSize, WholeRecords, Span;
    SomeBytes(t.sizes);
    if m >= HeaderSize(t.sizes) && WholeRecords(m - HeaderSize(t.sizes), RecordSize(t.sizes)) {
      var k := CutAt(t, m);
      FewerRecords(t, k);
      ParseOfSerialized(Trace(t.sizes, t.records[..k]));
      PrefixOf(TraceBytes(Trace(t.sizes, t.records[..k])), TraceBytes(t));
    } else {
      CutElsewhere(t, m);
    }
  }

  lemma PrefixOf(a: seq<Byte>, b: seq<Byte>)
    requires a <= b
    ensures a == b[..|a|]
  {
  }

  /** The record boundary at which a whole number of records is cut. */
  lemma CutAt(t: Trace, m: nat) returns (k: nat)
    requires ValidTrace(t) && HeaderSize(t.sizes) <= m <= |TraceBytes(t)|
    requires WholeRecords(m - HeaderSize(t.sizes), RecordSize(t.sizes))
    ensures k <= |t.records| && m == HeaderSize(t.sizes) + Span(k, RecordSize(t.sizes))
  {
    hide ValidSizes, HeaderBytes, RecordsBytes, Fits, RecordSize, WholeRecords, Span, HeaderSize;
    SomeBytes(t.sizes);
    var size, bytes: nat := RecordSize(t.sizes), m - HeaderSize(t.sizes);
    k := bytes / size;
    WholeIsSpan(bytes, size);
    RecordsSpan(t.records, t.sizes);
    if k > |t.records| {
      SpanGrows(|t.records| + 1, k, size);
      SpanStep(|t.records|, size);
    }
  }

  lemma SpanStep(n: nat, size: nat)
    ensures Span(n + 1, size) == Span(n, size) + size
  {
  }

  /** Cut inside the header, or inside a record, a trace does not parse. */
  lemma CutElsewhere(t: Trace, m: nat)
    requires ValidTrace(t) && m <= |TraceBytes(t)|
    requires RecordSize(t.sizes) > 0
    requires m < HeaderSize(t.sizes) || !WholeRecords(m - HeaderSize(t.sizes), RecordSize(t.sizes))
    ensures Parsed(TraceBytes(t)[..m]).None?
  {
    hide Magic, SizesAfter, RecordsBytes, HeaderBytes, NumberAt, Stands, From, Fits, RecordSize, WholeRecords;
    hide ValidSize;
    var raw := TraceBytes(t)[..m];
    if |raw| >= 12 {
      SameStart(t, m);
      if m >= HeaderSize(t.sizes) {
        PrefixStands(raw, HeaderBytes(t.sizes));
        HeaderStands(raw, t.sizes);
      } else if SizesAfter(raw, |t.sizes|).Some? {
        SizesReadSize(raw, |t.sizes|);
      }
    }
  }

  /** Both the trace and the cut trace start with the count and, past it, the header. */
  lemma SameStart(t: Trace, m: nat)
    requires ValidTrace(t) && 12 <= m <= |TraceBytes(t)|
    ensures NumberAt(TraceBytes(t)[..m], 8, 4) == |t.sizes|
    ensures m >= HeaderSize(t.sizes) ==> HeaderBytes(t.sizes) <= TraceBytes(t)[..m]
  {
    var raw := TraceBytes(t);
    NumbersFit();
    assert raw[8..12] == Pack(|t.sizes|, 4);
    assert raw[..m][8..12] == raw[8..12];
    hide Pack, Limit, RecordsBytes, Fits, SizesBytes;
    UnpackPack(|t.sizes|, 4);
  }

  // ------------------------------------------------------------------
  // The parser
  // ------------------------------------------------------------------

  method ReadSizes(raw: seq<Byte>, count: nat) returns (sizes: Option<seq<nat>>)
    ensures sizes == SizesAfter(raw, count)
  {
    hide NumberAt;
    var read: seq<nat> := [];
    for i := 0 to count
      invariant SizesAfter(raw, i) == Some(read)
    {
      if 12 + 8 * (i + 1) > |raw| || !ValidSize(NumberAt(raw, 12 + 8 * i, 8)) {
        SizesStopped(raw, i + 1, count);
        return None;
      }
      read := read + [NumberAt(raw, 12 + 8 * i, 8)];
    }
    sizes := Some(read);
  }

  lemma {:induction false} SizesStopped(raw: seq<Byte>, k: nat, n: nat)
    requires k <= n && SizesAfter(raw, k).None?
    ensures SizesAfter(raw, n).None?
  {
    if k < n {
      SizesStopped(raw, k, n - 1);
    }
  }

  method ReadOutputs(raw: seq<Byte>, offset: nat, sizes: seq<nat>) returns (outputs: seq<seq<Byte>>, end: nat)
    requires offset + Total(sizes, |sizes|) <= |raw|
    ensures outputs == OutputsAt(raw, offset, sizes, |sizes|) && end == offset + Total(sizes, |sizes|)
  {
    outputs, end := [], offset;
    for i := 0 to |sizes|
      invariant end == offset + Total(sizes, i) <= |raw|
      invariant outputs == OutputsAt(raw, offset, sizes, i)
    {
      TotalGrows(sizes, i + 1, |sizes|);
      outputs := outputs + [raw[end..end + sizes[i]]];
      end := end + sizes[i];
    }
  }

  /** A remainder of whole records is either empty or holds one. */
  lemma RoomForOne(bytes: nat, size: nat)
    requires size > 0 && WholeRecords(bytes, size) && bytes > 0
    ensures bytes >= size && WholeRecords(bytes - size, size)
  {
    if bytes < size {
      OneQuotient(bytes, 0, bytes, size);
    } else {
      OneMoreRecord(bytes - size, size);
    }
  }

  // Reading the outputs as numbers, which `parse` does when its caller asks for them.

  /** Not an infinity and not a NaN: the exponent bits of a little-endian float32 are not all set. */
  predicate Finite(word: seq<Byte>)
    requires |word| == 4
  {
    !(word[3] % 128 == 127 && word[2] >= 128)
  }

  /** The exponent is bits 23 to 30 of the number that the four bytes stand for. */
  lemma FiniteExactly(word: seq<Byte>)
    requires |word| == 4
    ensures Finite(word) <==> Unpack(word) / 8388608 % 256 != 255
  {
    FourBytes(word);
    ExponentBits(word[0] as int + 256 * word[1] as int, word[2], word[3]);
    hide Unpack;
  }

  lemma ExponentBits(low: int, c: Byte, d: Byte)
    requires 0 <= low < 65536
    ensures (low + 65536 * c as int + 16777216 * d as int) / 8388608 == c as int / 128 + 2 * d as int
  {
    var q, n := c as int / 128 + 2 * d as int, low + 65536 * c as int + 16777216 * d as int;
    var r := low + 65536 * (c as int % 128);
    assert n == 8388608 * q + r && 0 <= r < 8388608;
  }

  lemma FourBytes(word: seq<Byte>)
    requires |word| == 4
    ensures Unpack(word) == word[0] as int + 256 * word[1] as int + 65536 * word[2] as int + 16777216 * word[3] as int
  {
    assert word[1..][1..] == word[2..] && word[2..][1..] == word[3..] && word[3..][1..] == [];
    assert Unpack([]) == 0 && Unpack(word[3..]) == word[3];
    assert Unpack(word[2..]) == word[2] as int + 256 * word[3] as int;
    assert Unpack(word[1..]) == word[1] as int + 256 * Unpack(word[2..]);
  }

  /** A whole number of finite float32 values. */
  predicate Float32s(value: seq<Byte>) {
    |value| % 4 == 0 && forall k :: 0 <= k < |value| / 4 ==> Finite(value[4 * k..4 * k + 4])
  }

  predicate Numeric(r: Record) { forall i :: 0 <= i < |r.outputs| ==> Float32s(r.outputs[i]) }

  predicate AllNumeric(rs: seq<Record>) { forall i :: 0 <= i < |rs| ==> Numeric(rs[i]) }

  /** What the loop returns contains what it has read. */
  lemma {:induction false} FromExtends(raw: seq<Byte>, sizes: seq<nat>, offset: nat, before: seq<Record>)
    requires From(raw, sizes, offset, before).Some?
    ensures before <= From(raw, sizes, offset, before).value
    decreases |raw| - offset
  {
    hide RecordAt, FreshBy;
    if offset < |raw| {
      FromExtends(raw, sizes, offset + RecordSize(sizes), before + [RecordAt(raw, offset, sizes)]);
    }
  }

  /** The records that the loop returns, when every value it has to read is a number. */
  function Readable(records: Option<seq<Record>>, float32: bool): Option<seq<Record>> {
    if records.Some? && float32 && !AllNumeric(records.value) then None else records
  }

  /** One record that does not decode stops the whole loop. */
  lemma NotNumeric(raw: seq<Byte>, sizes: seq<nat>, offset: nat, before: seq<Record>, r: Record)
    requires !Numeric(r)
    ensures Readable(From(raw, sizes, offset, before + [r]), true) == None
  {
    hide From, Numeric;
    if From(raw, sizes, offset, before + [r]).Some? {
      FromExtends(raw, sizes, offset, before + [r]);
      assert From(raw, sizes, offset, before + [r]).value[|before|] == r;
    }
  }

  /** The record loop. */
  method ReadRecords(raw: seq<Byte>, sizes: seq<nat>, start: nat, float32: bool) returns (records: Option<seq<Record>>)
    requires start <= |raw| && WholeRecords(|raw| - start, RecordSize(sizes))
    ensures records == Readable(From(raw, sizes, start, []), float32)
  {
    hide NumberAt, OutputsAt, WholeRecords, FreshBy, Numeric, KeysBy;
    var offset, read: seq<Record> := start, [];
    var seen: set<nat> := {};
    assert KeysBy(read, Iteration()) == {} by { NoKeys(); }
    while offset < |raw|
      invariant offset <= |raw| && WholeRecords(|raw| - offset, RecordSize(sizes))
      invariant From(raw, sizes, start, []) == From(raw, sizes, offset, read)
      invariant seen == KeysBy(read, Iteration())
      invariant float32 ==> AllNumeric(read)
      decreases |raw| - offset
    {
      RoomForOne(|raw| - offset, RecordSize(sizes));
      var iteration := NumberAt(raw, offset, 4);
      var outputs, end := ReadOutputs(raw, offset + 4, sizes);
      var r := Record(iteration, outputs);
      KeysGrow(read, r, Iteration());
      if iteration in seen {
        return None;
      }
      if float32 && !Numeric(r) {
        NotNumeric(raw, sizes, end, read, r);
        return None;
      }
      seen := seen + {iteration};
      read := read + [r];
      offset := end;
    }
    records := Some(read);
  }

  lemma NoKeys()
    ensures KeysBy<Record>([], Iteration()) == {}
  {
  }

  datatype Container = Asr(tokens: seq<AsrTrace.Record>) | Tensors(trace: Trace)

  function Sorted(t: Trace): Trace { Trace(t.sizes, SortBy(t.records, Iteration())) }

  /** What `parse` returns: whichever container the magic announces, with its records in order of
      iteration; `float32` makes it read every tensor as float32 numbers. */
  function Parses(raw: seq<Byte>, float32: bool): Option<Container> {
    if AsrTrace.Parsed(raw).Some? then Some(Asr(SortBy(AsrTrace.Parsed(raw).value, AsrTrace.Iteration())))
    else if Parsed(raw).None? || (float32 && !AllNumeric(Parsed(raw).value.records)) then None
    else Some(Tensors(Sorted(Parsed(raw).value)))
  }

  /** `parse`. */
  method Parse(raw: seq<Byte>, float32: bool) returns (c: Option<Container>)
    ensures c == Parses(raw, float32)
  {
    hide NumberAt, SizesAfter, AsrTrace.After, RecordSize, From, SortBy, WholeRecords, AsrTrace.Magic, Magic;
    hide AllNumeric;
    DifferentMagic();
    if |raw| >= 8 && raw[..8] == AsrTrace.Magic() {
      var records := AsrTrace.ParseAsr(raw);
      return if records.Some? then Some(Asr(records.value)) else None;
    }
    if |raw| < 12 || raw[..8] != Magic() {
      return None;
    }
    var count := NumberAt(raw, 8, 4);
    if count == 0 || count > MAX_OUTPUTS {
      return None;
    }
    var sizes := ReadSizes(raw, count);
    if sizes.None? {
      return None;
    }
    SizesReadSize(raw, count);
    SomeBytes(sizes.value);
    if !WholeRecords(|raw| - HeaderSize(sizes.value), RecordSize(sizes.value)) {
      return None;
    }
    var records := ReadRecords(raw, sizes.value, HeaderSize(sizes.value), float32);
    c := if records.Some? then Some(Tensors(Sorted(Trace(sizes.value, records.value)))) else None;
  }

  /** No two records of a parsed container share an iteration. */
  lemma ParsedDistinct(raw: seq<Byte>, float32: bool)
    requires Parses(raw, float32).Some?
    ensures var c := Parses(raw, float32).value;
      if c.Asr? then DistinctBy(c.tokens, AsrTrace.Iteration()) else DistinctBy(c.trace.records, Iteration())
  {
    hide AsrTrace.Parsed, Parsed, SortBy, DistinctBy, AsrTrace.TraceBytes, TraceBytes, AllNumeric;
    if AsrTrace.Parsed(raw).Some? {
      AsrTrace.SerializeOfParsed(raw);
      SortKeepsDistinct(AsrTrace.Parsed(raw).value, AsrTrace.Iteration());
    } else {
      SerializeOfParsed(raw);
      SortKeepsDistinct(Parsed(raw).value.records, Iteration());
    }
  }

  lemma DifferentMagic()
    ensures Magic() != AsrTrace.Magic()
  {
    assert Magic()[3] != AsrTrace.Magic()[3];
  }
}
