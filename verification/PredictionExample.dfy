/** Concrete captured outputs in both containers, byte by byte, and a prediction trace that is built
    from one of them (analysis/read_application_output_trace.py:46-168;
    analysis/build_application_prediction_trace.py:326-441). */
module PredictionExample {
  import opened Common
  import opened LittleEndian
  import opened PredictionJoin
  import AsrTrace
  import OutputTrace

  // ------------------------------------------------------------------
  // A tensor container
  // ------------------------------------------------------------------

  /** "JDGOUT1", one output of two bytes, and the records of iterations 258 and 3. */
  function TensorFile(): seq<Byte> {
    [74, 68, 71, 79, 85, 84, 49, 0, 1, 0, 0, 0, 2, 0, 0, 0, 0, 0, 0, 0, 2, 1, 0, 0, 7, 8, 3, 0, 0, 0, 9, 10]
  }

  function Early(): OutputTrace.Record { OutputTrace.Record(3, [[9, 10]]) }

  function Late(): OutputTrace.Record { OutputTrace.Record(258, [[7, 8]]) }

  function Stored(): OutputTrace.Trace { OutputTrace.Trace([2], [Late(), Early()]) }

  function Zeros(n: nat): (zeros: seq<Byte>)
    ensures |zeros| == n && forall i :: 0 <= i < n ==> zeros[i] == 0
  {
    seq(n, i => 0)
  }

  lemma {:induction false} PackedZero(width: nat)
    ensures Pack(0, width) == Zeros(width)
  {
    if width > 0 {
      PackedZero(width - 1);
    }
  }

  lemma PackedStep(low: Byte, high: nat, width: nat)
    ensures Pack(low as int + 256 * high, width + 1) == [low] + Pack(high, width)
  {
    LowByte(low, high);
  }

  lemma PackedByte(b: Byte, width: nat)
    ensures Pack(b, width + 1) == [b] + Zeros(width)
  {
    hide Pack;
    PackedStep(b, 0, width);
    PackedZero(width);
  }

  lemma PackedTwo(low: Byte, high: Byte, width: nat)
    ensures Pack(low as int + 256 * high as int, width + 2) == [low, high] + Zeros(width)
  {
    hide Pack;
    PackedByte(high, width);
    PackedStep(low, high, width + 1);
  }

  lemma Packed()
    ensures Pack(1, 4) == [1, 0, 0, 0] && Pack(3, 4) == [3, 0, 0, 0] && Pack(258, 4) == [2, 1, 0, 0]
    ensures Pack(2, 8) == [2, 0, 0, 0, 0, 0, 0, 0]
  {
    hide Pack;
    PackedByte(1, 3);
    PackedByte(3, 3);
    PackedByte(2, 7);
    PackedTwo(2, 1, 2);
    assert Zeros(2) == [0, 0] && Zeros(3) == [0, 0, 0] && Zeros(7) == [0, 0, 0, 0, 0, 0, 0];
  }

  lemma RecordFiled(iteration: nat, a: Byte, b: Byte)
    ensures OutputTrace.RecordBytes(OutputTrace.Record(iteration, [[a, b]])) == Pack(iteration, 4) + [a, b]
  {
    hide Pack;
    var outputs := [[a, b]];
    assert OutputTrace.OutputsBytes(outputs, 0) == [];
    assert OutputTrace.OutputsBytes(outputs, 1) == [] + [a, b];
  }

  lemma TensorRecordsFiled()
    ensures OutputTrace.RecordsBytes(Stored().records) == [2, 1, 0, 0, 7, 8, 3, 0, 0, 0, 9, 10]
  {
    hide Pack, OutputTrace.RecordBytes;
    Packed();
    RecordFiled(258, 7, 8);
    RecordFiled(3, 9, 10);
    var rs := Stored().records;
    assert rs[..1] == [Late()] && rs[..1][..0] == [] && OutputTrace.RecordsBytes([]) == [];
    assert OutputTrace.RecordsBytes([Late()]) == [] + OutputTrace.RecordBytes(Late());
    assert OutputTrace.RecordsBytes(rs)
      == OutputTrace.RecordsBytes([Late()]) + OutputTrace.RecordBytes(Early());
  }

  lemma TensorHeaderFiled()
    ensures OutputTrace.HeaderBytes([2])
      == [74, 68, 71, 79, 85, 84, 49, 0, 1, 0, 0, 0, 2, 0, 0, 0, 0, 0, 0, 0]
  {
    hide Pack;
    Packed();
    assert OutputTrace.SizesBytes([2], 0) == [] && OutputTrace.SizesBytes([2], 1) == [] + Pack(2, 8);
  }

  /** The file is the serialized trace. */
  lemma TensorFileIs()
    ensures OutputTrace.TraceBytes(Stored()) == TensorFile()
  {
    hide OutputTrace.RecordsBytes, OutputTrace.HeaderBytes;
    TensorHeaderFiled();
    TensorRecordsFiled();
  }

  lemma StoredIsValid()
    ensures OutputTrace.ValidTrace(Stored())
  {
    assert Limit(1) == 256 && Limit(2) == 65536 && Limit(3) == 16777216 && Limit(4) == 4294967296;
  }

  lemma SortedTwo()
    ensures OutputTrace.Sorted(Stored()) == OutputTrace.Trace([2], [Early(), Late()])
  {
    var rs, key := Stored().records, OutputTrace.Iteration();
    assert rs[1..] == [Early()] && rs[1..][1..] == [];
    assert SortBy([], key) == [];
    assert SortBy([Early()], key) == [Early()] + [];
    assert [Early()][1..] == [];
    assert InsertBy(Late(), [Early()], key) == [Early()] + InsertBy(Late(), [], key);
  }

  lemma OtherMagic(raw: seq<Byte>)
    requires |raw| >= 8 && raw[3] == 79
    ensures AsrTrace.Parsed(raw).None?
  {
    assert raw[..8][3] == 79 && AsrTrace.Magic()[3] == 65;
    hide AsrTrace.After, NumberAt;
  }

  /** It parses, in order of iteration. */
  lemma TensorFileParses()
    ensures OutputTrace.Parses(TensorFile(), false)
      == Some(OutputTrace.Tensors(OutputTrace.Trace([2], [Early(), Late()])))
  {
    OtherMagic(TensorFile());
    hide TensorFile, Stored, OutputTrace.Sorted, OutputTrace.TraceBytes, OutputTrace.Parsed, OutputTrace.ValidTrace;
    hide AsrTrace.Parsed, Early, Late;
    TensorFileIs();
    StoredIsValid();
    SortedTwo();
    OutputTrace.ParseOfSerialized(Stored());
  }

  // ------------------------------------------------------------------
  // The trace built from it
  // ------------------------------------------------------------------

  const FIRST_MEASURED: nat := 4
  const DEADLINE := 2.0

  /** The request of the warmup iteration arrives second, the measured one first. */
  function Manifest(): seq<Line> {
    [Line(3, "warmup", 1, "aa", "cat", true), Line(258, "measured", 0, "bb", "cat", true)]
  }

  function Table(): seq<Timing> { [Timing(3, 1.0, false, "aa", true), Timing(258, 3.0, true, "bb", true)] }

  function NoTokens(): seq<nat> -> Capture { (tokens: seq<nat>) => Capture(None, "") }

  function Seen(): seq<seq<Byte>> -> Capture { (outputs: seq<seq<Byte>>) => Capture(Some("cat"), "sha") }

  function SameLabel(): Judge { (prediction: string, expected: string) => Some(prediction == expected) }

  function TheOutput(): Output { Output(258, Some("cat"), "sha") }

  lemma MeasuredIsOne()
    ensures MeasuredOf(OutputTrace.Tensors(OutputTrace.Trace([2], [Early(), Late()])), NoTokens(), Seen(),
      FIRST_MEASURED) == [TheOutput()]
  {
    var outputs := OutputsOf(OutputTrace.Tensors(OutputTrace.Trace([2], [Early(), Late()])), NoTokens(), Seen());
    assert outputs == [Output(3, Some("cat"), "sha"), TheOutput()];
    assert outputs[..1] == [Output(3, Some("cat"), "sha")] && outputs[..1][..0] == [];
    assert From([], FIRST_MEASURED) == [] && From([Output(3, Some("cat"), "sha")], FIRST_MEASURED) == [];
    assert From(outputs, FIRST_MEASURED) == [] + [TheOutput()];
  }

  lemma ManifestHolds()
    ensures ManifestValid(Manifest())
    ensures RequestsOf(Manifest(), 2) == map[3 := Manifest()[0], 258 := Manifest()[1]]
  {
    var lines := Manifest();
    assert lines[1].arrival == 0 && lines[0].arrival == 1;
    assert "warmup"[0] != "measured"[0];
    assert Taken(lines, 0) && Taken(lines, 1);
    ManifestExactly(lines);
    assert RequestsOf(lines, 0) == map[] && RequestsOf(lines, 1) == map[3 := lines[0]];
  }

  lemma TableHolds()
    ensures CsvValid(Table(), DEADLINE, true)
    ensures Measured(TimingsOf(Table(), 2), FIRST_MEASURED) == map[258 := Table()[1]]
  {
    var ts := Table();
    assert TimingsOf(ts, 0) == map[] && TimingsOf(ts, 1) == map[3 := ts[0]];
    assert TimingsOf(ts, 2) == map[3 := ts[0], 258 := ts[1]];
    CsvExactly(ts, DEADLINE, true);
  }

  lemma TraceBuilds()
    ensures Inputs([TheOutput()], Manifest(), Table(), DEADLINE, true, FIRST_MEASURED, SameLabel())
  {
    hide ManifestValid, CsvValid, RequestsOf, TimingsOf, Measured;
    ManifestHolds();
    TableHolds();
    var requests, timings := RequestsOf(Manifest(), 2), Measured(TimingsOf(Table(), 2), FIRST_MEASURED);
    assert |timings| == 1;
    assert Joins(TheOutput(), requests, timings, SameLabel());
    assert ArrivalList(RowsOf([TheOutput()], requests, timings, SameLabel())) == [0] == Counting(1);
  }

  /** `build` returns on these inputs, and emits the one measured request. */
  method BuildTheTrace() returns (rows: Option<seq<Row>>)
    ensures rows.Some? && |rows.value| == 1
    ensures rows.value[0].requestId == "measured" && rows.value[0].arrival == 0 && rows.value[0].latency == 3.0
    ensures rows.value[0].miss && rows.value[0].correct && rows.value[0].prediction == "cat"
  {
    hide OutputTrace.Parses, Inputs, MeasuredOf, TensorFile, Early, Late;
    rows := BuildTrace(TensorFile(), false, Manifest(), Table(), DEADLINE, true, FIRST_MEASURED, NoTokens(), Seen(),
      SameLabel());
    TensorFileParses();
    MeasuredIsOne();
    TraceBuilds();
    OneRow(rows.value);
  }

  lemma OneRow(rows: seq<Row>)
    requires Traced(rows, [TheOutput()], Manifest(), Table(), DEADLINE, FIRST_MEASURED, SameLabel())
    ensures |rows| == 1
    ensures rows[0].requestId == "measured" && rows[0].arrival == 0 && rows[0].latency == 3.0
    ensures rows[0].miss && rows[0].correct && rows[0].prediction == "cat"
  {
    assert Sourced(rows[0], TheOutput(), Manifest(), Table(), DEADLINE, SameLabel());
  }

  // ------------------------------------------------------------------
  // A token container
  // ------------------------------------------------------------------

  /** "JDGASR1", version 1, two records: iteration 9 with tokens 50256 and 1, and iteration 2 with token 5. */
  function TokenFile(): seq<Byte> {
    [74, 68, 71, 65, 83, 82, 49, 0, 1, 0, 0, 0, 2, 0, 0, 0]
    + [9, 0, 0, 0, 2, 0, 0, 0, 80, 196, 0, 0, 1, 0, 0, 0]
    + [2, 0, 0, 0, 1, 0, 0, 0, 5, 0, 0, 0]
  }

  function First(): AsrTrace.Record { AsrTrace.Record(9, [50256, 1]) }

  function Second(): AsrTrace.Record { AsrTrace.Record(2, [5]) }

  lemma PackedTokens()
    ensures Pack(1, 4) == [1, 0, 0, 0] && Pack(2, 4) == [2, 0, 0, 0] && Pack(5, 4) == [5, 0, 0, 0]
    ensures Pack(9, 4) == [9, 0, 0, 0] && Pack(50256, 4) == [80, 196, 0, 0]
  {
    hide Pack;
    PackedByte(1, 3);
    PackedByte(2, 3);
    PackedByte(5, 3);
    PackedByte(9, 3);
    PackedTwo(80, 196, 2);
    assert Zeros(2) == [0, 0] && Zeros(3) == [0, 0, 0];
  }

  lemma FirstFiled()
    ensures AsrTrace.RecordBytes(First()) == [9, 0, 0, 0, 2, 0, 0, 0, 80, 196, 0, 0, 1, 0, 0, 0]
  {
    hide Pack;
    PackedTokens();
    var tokens := [50256, 1];
    assert AsrTrace.TokenBytes([]) == [] && tokens[..1] == [50256] && [50256][..0] == [];
    assert AsrTrace.TokenBytes([50256]) == [] + Pack(50256, 4);
    assert AsrTrace.TokenBytes(tokens) == AsrTrace.TokenBytes([50256]) + Pack(1, 4);
  }

  lemma SecondFiled()
    ensures AsrTrace.RecordBytes(Second()) == [2, 0, 0, 0, 1, 0, 0, 0, 5, 0, 0, 0]
  {
    hide Pack;
    PackedTokens();
    assert AsrTrace.TokenBytes([]) == [] && [5][..0] == [];
    assert AsrTrace.TokenBytes([5]) == [] + Pack(5, 4);
  }

  lemma TokenFileIs()
    ensures AsrTrace.TraceBytes([First(), Second()]) == TokenFile()
  {
    hide Pack, AsrTrace.RecordBytes, First, Second;
    PackedTokens();
    FirstFiled();
    SecondFiled();
    var rs := [First(), Second()];
    assert rs[..1] == [First()] && [First()][..0] == [] && AsrTrace.RecordsBytes([]) == [];
    assert AsrTrace.RecordsBytes([First()]) == [] + AsrTrace.RecordBytes(First());
    assert AsrTrace.RecordsBytes(rs) == AsrTrace.RecordsBytes([First()]) + AsrTrace.RecordBytes(Second());
  }

  lemma TokensSorted()
    ensures SortBy([First(), Second()], AsrTrace.Iteration()) == [Second(), First()]
  {
    var rs, key := [First(), Second()], AsrTrace.Iteration();
    assert rs[1..] == [Second()] && rs[1..][1..] == [];
    assert SortBy([], key) == [] && SortBy([Second()], key) == [Second()] + [] && [Second()][1..] == [];
    assert InsertBy(First(), [Second()], key) == [Second()] + InsertBy(First(), [], key);
  }

  /** It parses too. */
  lemma TokenFileParses(float32: bool)
    ensures OutputTrace.Parses(TokenFile(), float32) == Some(OutputTrace.Asr([Second(), First()]))
  {
    TokenFileIs();
    TokensSorted();
    assert Limit(1) == 256 && Limit(2) == 65536 && Limit(3) == 16777216 && Limit(4) == 4294967296;
    hide TokenFile, AsrTrace.TraceBytes, AsrTrace.Parsed, SortBy, Limit, OutputTrace.Parsed;
    AsrTrace.ParseOfSerialized([First(), Second()]);
  }
}
