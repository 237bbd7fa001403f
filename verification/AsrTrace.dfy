/** The JDGASR1 token container (analysis/read_application_output_trace.py:46-103).  The serializer
    writes the layout that the parser fixes. */
module AsrTrace {
  import opened Common
  import opened LittleEndian

  const VOCABULARY: nat := 51865
  const MAX_TOKENS: nat := 128
  const MAX_RECORDS: nat := 1000000

  datatype Record = Record(iteration: nat, tokens: seq<nat>)

  function Iteration(): Record -> nat { (r: Record) => r.iteration }

  function Magic(): seq<Byte> { [74, 68, 71, 65, 83, 82, 49, 0] }

  // ------------------------------------------------------------------
  // The layout
  // ------------------------------------------------------------------

  predicate ValidRecord(r: Record) {
    && r.iteration < Limit(4)
    && |r.tokens| <= MAX_TOKENS
    && forall i :: 0 <= i < |r.tokens| ==> r.tokens[i] < VOCABULARY
  }

  /** What a trace may hold. */
  ghost predicate ValidTrace(rs: seq<Record>) {
    && 1 <= |rs| <= MAX_RECORDS
    && (forall i :: 0 <= i < |rs| ==> ValidRecord(rs[i]))
    && DistinctBy(rs, Iteration())
  }

  function TokenBytes(tokens: seq<nat>): (bytes: seq<Byte>)
    ensures |bytes| == 4 * |tokens|
  {
    if tokens == [] then [] else TokenBytes(tokens[..|tokens| - 1]) + Pack(tokens[|tokens| - 1], 4)
  }

  function RecordBytes(r: Record): (bytes: seq<Byte>)
    ensures |bytes| == 8 + 4 * |r.tokens|
  {
    Pack(r.iteration, 4) + Pack(|r.tokens|, 4) + TokenBytes(r.tokens)
  }

  function RecordsBytes(rs: seq<Record>): seq<Byte> {
    if rs == [] then [] else RecordsBytes(rs[..|rs| - 1]) + RecordBytes(rs[|rs| - 1])
  }

  function HeaderBytes(count: nat): (bytes: seq<Byte>)
    ensures |bytes| == 16
  {
    Magic() + Pack(1, 4) + Pack(count, 4)
  }

  /** The container of a list of records, in file order. */
  function TraceBytes(rs: seq<Record>): seq<Byte> { HeaderBytes(|rs|) + RecordsBytes(rs) }

  // ------------------------------------------------------------------
  // Reading
  // ------------------------------------------------------------------

  /** The first `n` little-endian tokens at `offset`. */
  function TokensAt(raw: seq<Byte>, offset: nat, n: nat): (tokens: seq<nat>)
    requires offset + 4 * n <= |raw|
    ensures |tokens| == n
  {
    if n == 0 then [] else TokensAt(raw, offset, n - 1) + [NumberAt(raw, offset + 4 * (n - 1), 4)]
  }

  predicate InVocabulary(tokens: seq<nat>) { forall i :: 0 <= i < |tokens| ==> tokens[i] < VOCABULARY }

  /** The record at `offset`, unless it is truncated or holds too many or unknown tokens. */
  function RecordAt(raw: seq<Byte>, offset: nat): Option<Record> {
    if offset + 8 > |raw| then None else
      var count := NumberAt(raw, offset + 4, 4);
      if count > MAX_TOKENS || offset + 8 + 4 * count > |raw| then None
      else if !InVocabulary(TokensAt(raw, offset + 8, count)) then None
      else Some(Record(NumberAt(raw, offset, 4), TokensAt(raw, offset + 8, count)))
  }

  /** The cursor and the records after `k` turns of the record loop. */
  datatype Progress = Progress(offset: nat, records: seq<Record>)

  function After(raw: seq<Byte>, k: nat): Option<Progress> {
    if k == 0 then Some(Progress(16, [])) else
      match After(raw, k - 1)
      case None => None
      case Some(p) =>
        var r := RecordAt(raw, p.offset);
        if r.None? || !FreshBy(r.value, p.records, Iteration()) then None
        else Some(Progress(p.offset + 8 + 4 * |r.value.tokens|, p.records + [r.value]))
  }

  /** `_parse_asr` before its final sort: the records in file order. */
  function Parsed(raw: seq<Byte>): Option<seq<Record>> {
    if |raw| < 16 || raw[..8] != Magic() || NumberAt(raw, 8, 4) != 1 then None else
      var count := NumberAt(raw, 12, 4);
      if count == 0 || count > MAX_RECORDS then None else
        match After(raw, count)
        case None => None
        case Some(p) => if p.offset == |raw| then Some(p.records) else None
  }

  // ------------------------------------------------------------------
  // Tokens and records
  // ------------------------------------------------------------------

  /** What a trace may hold, in numbers: up to a million records of distinct 32-bit iterations, each of
      up to 128 of the 51,865 tokens. */
  lemma ValidExactly(rs: seq<Record>)
    ensures ValidTrace(rs) <==>
      && 1 <= |rs| <= 1000000
      && (forall i :: 0 <= i < |rs| ==> rs[i].iteration < 4294967296 && |rs[i].tokens| <= 128)
      && (forall i, k :: 0 <= i < |rs| && 0 <= k < |rs[i].tokens| ==> rs[i].tokens[k] < 51865)
      && forall i, j :: 0 <= i < j < |rs| ==> rs[i].iteration != rs[j].iteration
  {
    assert Limit(1) == 256 && Limit(2) == 65536 && Limit(3) == 16777216 && Limit(4) == 4294967296;
    hide Limit;
  }

  lemma VocabularyFits()
    ensures VOCABULARY < Limit(4) && MAX_TOKENS < Limit(4) && MAX_RECORDS < Limit(4) && 1 < Limit(4)
  {
    assert Limit(1) == 256 && Limit(2) == 65536 && Limit(3) == 16777216 && Limit(4) == 4294967296;
  }

  lemma {:induction false} TokensStand(raw: seq<Byte>, offset: nat, tokens: seq<nat>)
    requires offset + 4 * |tokens| <= |raw| && forall i :: 0 <= i < |tokens| ==> tokens[i] < Limit(4)
    ensures Stands(raw, offset, TokenBytes(tokens)) <==> TokensAt(raw, offset, |tokens|) == tokens
    decreases |tokens|
  {
    hide Pack, NumberAt, Stands, Limit;
    if tokens == [] {
      NothingStands(raw, offset);
    } else {
      var front, last := tokens[..|tokens| - 1], tokens[|tokens| - 1];
      TokensStand(raw, offset, front);
      StandsConcat(raw, offset, TokenBytes(front), Pack(last, 4));
      NumberStands(raw, offset + 4 * |front|, last, 4);
      assert tokens == front + [last];
    }
  }

  /** Whatever is read as a record is written back as the same bytes. */
  lemma RecordAtSound(raw: seq<Byte>, offset: nat)
    requires RecordAt(raw, offset).Some?
    ensures ValidRecord(RecordAt(raw, offset).value) && Stands(raw, offset, RecordBytes(RecordAt(raw, offset).value))
  {
    var r := RecordAt(raw, offset).value;
    VocabularyFits();
    NumberBelow(raw, offset, 4);
    hide Pack, NumberAt, Stands, Limit, TokensAt, TokenBytes;
    NumberStands(raw, offset, r.iteration, 4);
    NumberStands(raw, offset + 4, |r.tokens|, 4);
    TokensStand(raw, offset + 8, r.tokens);
    StandsConcat(raw, offset, Pack(r.iteration, 4), Pack(|r.tokens|, 4));
    StandsConcat(raw, offset, Pack(r.iteration, 4) + Pack(|r.tokens|, 4), TokenBytes(r.tokens));
  }

  /** A written record is read back. */
  lemma RecordAtComplete(raw: seq<Byte>, offset: nat, r: Record)
    requires ValidRecord(r) && Stands(raw, offset, RecordBytes(r))
    ensures RecordAt(raw, offset) == Some(r)
  {
    VocabularyFits();
    StandsConcat(raw, offset, Pack(r.iteration, 4) + Pack(|r.tokens|, 4), TokenBytes(r.tokens));
    StandsConcat(raw, offset, Pack(r.iteration, 4), Pack(|r.tokens|, 4));
    assert offset + 8 + 4 * |r.tokens| <= |raw|;
    hide Pack, NumberAt, Stands, Limit, TokensAt, TokenBytes;
    NumberStands(raw, offset, r.iteration, 4);
    NumberStands(raw, offset + 4, |r.tokens|, 4);
    TokensStand(raw, offset + 8, r.tokens);
  }

  // ------------------------------------------------------------------
  // Whole traces
  // ------------------------------------------------------------------

  ghost predicate AllValid(rs: seq<Record>) { forall i :: 0 <= i < |rs| ==> ValidRecord(rs[i]) }

  /** What a cursor at `offset` has behind it: the header and the records read. */
  ghost predicate Behind(raw: seq<Byte>, offset: nat, rs: seq<Record>) {
    && AllValid(rs) && DistinctBy(rs, Iteration())
    && offset == 16 + |RecordsBytes(rs)| <= |raw| && Stands(raw, 16, RecordsBytes(rs))
  }

  lemma RecordsSnoc(rs: seq<Record>, r: Record)
    ensures RecordsBytes(rs + [r]) == RecordsBytes(rs) + RecordBytes(r)
  {
    hide RecordBytes;
    assert (rs + [r])[..|rs|] == rs;
  }

  lemma OneMoreBehind(raw: seq<Byte>, offset: nat, rs: seq<Record>)
    requires Behind(raw, offset, rs) && RecordAt(raw, offset).Some?
    requires FreshBy(RecordAt(raw, offset).value, rs, Iteration())
    ensures var r := RecordAt(raw, offset).value;
      Behind(raw, offset + 8 + 4 * |r.tokens|, rs + [r])
  {
    var r := RecordAt(raw, offset).value;
    hide RecordBytes, RecordsBytes, RecordAt, ValidRecord, Stands, DistinctBy, FreshBy;
    RecordAtSound(raw, offset);
    RecordSize(r);
    RecordsSnoc(rs, r);
    StandsConcat(raw, 16, RecordsBytes(rs), RecordBytes(r));
    StandsInside(raw, offset, RecordBytes(r));
    DistinctGrows(rs, r, Iteration());
  }

  lemma NothingRead(raw: seq<Byte>)
    ensures After(raw, 0) == Some(Progress(16, [])) && RecordsBytes([]) == []
    ensures |raw| >= 16 ==> Behind(raw, 16, [])
  {
    if |raw| >= 16 {
      NothingStands(raw, 16);
    }
  }

  lemma AfterStep(raw: seq<Byte>, k: nat)
    requires k > 0 && After(raw, k).Some?
    ensures After(raw, k - 1).Some?
    ensures var p := After(raw, k - 1).value;
      && RecordAt(raw, p.offset).Some?
      && var r := RecordAt(raw, p.offset).value;
      FreshBy(r, p.records, Iteration()) && After(raw, k).value == Progress(p.offset + 8 + 4 * |r.tokens|,
        p.records + [r])
  {
    hide RecordAt, FreshBy;
  }

  /** The cursor never passes the end, and what lies behind it is the header and the records read. */
  lemma {:induction false} AfterSound(raw: seq<Byte>, k: nat)
    requires |raw| >= 16 && After(raw, k).Some?
    ensures |After(raw, k).value.records| == k && Behind(raw, After(raw, k).value.offset, After(raw, k).value.records)
  {
    hide After, Behind, RecordAt, FreshBy;
    if k == 0 {
      NothingRead(raw);
    } else {
      AfterStep(raw, k);
      AfterSound(raw, k - 1);
      OneMoreBehind(raw, After(raw, k - 1).value.offset, After(raw, k - 1).value.records);
    }
  }

  /** One more record of a container is read. */
  lemma AfterOneMore(raw: seq<Byte>, before: seq<Record>, r: Record)
    requires After(raw, |before|) == Some(Progress(16 + |RecordsBytes(before)|, before))
    requires ValidRecord(r) && FreshBy(r, before, Iteration())
    requires Stands(raw, 16 + |RecordsBytes(before)|, RecordBytes(r))
    ensures After(raw, |before| + 1) == Some(Progress(16 + |RecordsBytes(before)| + |RecordBytes(r)|, before + [r]))
  {
    hide RecordBytes, RecordsBytes, RecordAt, ValidRecord, Stands, FreshBy;
    RecordAtComplete(raw, 16 + |RecordsBytes(before)|, r);
    RecordSize(r);
  }

  lemma Parts(rs: seq<Record>)
    requires rs != [] && AllValid(rs) && DistinctBy(rs, Iteration())
    ensures var front, r := rs[..|rs| - 1], rs[|rs| - 1];
      && rs == front + [r] && AllValid(front) && DistinctBy(front, Iteration()) && ValidRecord(r) && FreshBy(r, front,
        Iteration())
      && RecordsBytes(rs) == RecordsBytes(front) + RecordBytes(r)
  {
    hide ValidRecord, RecordBytes;
  }

  /** The records of a container are read back one by one, whatever follows the container. */
  lemma {:induction false} AfterComplete(raw: seq<Byte>, rs: seq<Record>)
    requires AllValid(rs) && DistinctBy(rs, Iteration()) && Stands(raw, 16, RecordsBytes(rs))
    ensures After(raw, |rs|) == Some(Progress(16 + |RecordsBytes(rs)|, rs))
    decreases |rs|
  {
    hide RecordsBytes, RecordBytes, After, AllValid, DistinctBy, FreshBy, Stands, ValidRecord;
    if rs == [] {
      NothingRead(raw);
    } else {
      var front, r := rs[..|rs| - 1], rs[|rs| - 1];
      Parts(rs);
      StandsConcat(raw, 16, RecordsBytes(front), RecordBytes(r));
      AfterComplete(raw, front);
      AfterOneMore(raw, front, r);
    }
  }

  lemma RecordSize(r: Record)
    ensures |RecordBytes(r)| == 8 + 4 * |r.tokens|
  {
  }

  /** The header reads back the magic, the schema and the count. */
  lemma HeaderStands(raw: seq<Byte>, count: nat)
    requires count <= MAX_RECORDS
    ensures Stands(raw, 0, HeaderBytes(count)) <==>
      |raw| >= 16 && raw[..8] == Magic() && NumberAt(raw, 8, 4) == 1 && NumberAt(raw, 12, 4) == count
  {
    VocabularyFits();
    var one, n := Pack(1, 4), Pack(count, 4);
    StandsConcat(raw, 0, Magic() + one, n);
    StandsConcat(raw, 0, Magic(), one);
    if |raw| >= 16 {
      hide Limit, Pack;
      NumberStands(raw, 8, 1, 4);
      NumberStands(raw, 12, count, 4);
      assert raw[0..8] == raw[..8];
    }
  }

  /** Parsing a serialized trace returns its records. */
  lemma ParseOfSerialized(rs: seq<Record>)
    requires ValidTrace(rs)
    ensures Parsed(TraceBytes(rs)) == Some(rs)
  {
    var raw := TraceBytes(rs);
    hide Magic, After, RecordsBytes, ValidRecord, HeaderBytes, NumberAt;
    WholeStands(raw);
    StandsConcat(raw, 0, HeaderBytes(|rs|), RecordsBytes(rs));
    HeaderStands(raw, |rs|);
    AfterComplete(raw, rs);
  }

  lemma ParsedParts(raw: seq<Byte>)
    requires Parsed(raw).Some?
    ensures |raw| >= 16 && raw[..8] == Magic() && NumberAt(raw, 8, 4) == 1 && 1 <= NumberAt(raw, 12, 4) <= MAX_RECORDS
    ensures After(raw, NumberAt(raw, 12, 4)) == Some(Progress(|raw|, Parsed(raw).value))
  {
    hide After, Magic, NumberAt;
  }

  lemma BehindParts(raw: seq<Byte>, offset: nat, rs: seq<Record>)
    requires Behind(raw, offset, rs) && 1 <= |rs| <= MAX_RECORDS
    ensures ValidTrace(rs) && Stands(raw, 16, RecordsBytes(rs)) && offset == 16 + |RecordsBytes(rs)|
  {
    hide ValidRecord, RecordsBytes, Stands, DistinctBy;
  }

  /** Serializing what was parsed returns the same bytes, and only valid traces parse. */
  lemma SerializeOfParsed(raw: seq<Byte>)
    requires Parsed(raw).Some?
    ensures ValidTrace(Parsed(raw).value) && TraceBytes(Parsed(raw).value) == raw
  {
    hide Parsed, Magic, After, RecordsBytes, ValidTrace, HeaderBytes, NumberAt, Behind, Stands;
    var rs := Parsed(raw).value;
    ParsedParts(raw);
    AfterSound(raw, NumberAt(raw, 12, 4));
    BehindParts(raw, |raw|, rs);
    HeaderStands(raw, |rs|);
    StandsConcat(raw, 0, HeaderBytes(|rs|), RecordsBytes(rs));
    StandsAtEnd(raw, TraceBytes(rs));
  }

  /** The bytes that parse are exactly the serialized valid traces. */
  lemma ParsesExactlySerialized(raw: seq<Byte>)
    ensures Parsed(raw).Some? <==> exists rs :: ValidTrace(rs) && raw == TraceBytes(rs)
  {
    hide ValidTrace, TraceBytes, Parsed;
    if Parsed(raw).Some? {
      SerializeOfParsed(raw);
    }
    if rs :| ValidTrace(rs) && raw == TraceBytes(rs) {
      ParseOfSerialized(rs);
    }
  }

  /** Valid JDGASR1 traces are prefix-free: none is the beginning of another. */
  lemma TracesArePrefixFree(a: seq<Record>, b: seq<Record>)
    requires ValidTrace(a) && ValidTrace(b) && TraceBytes(a) <= TraceBytes(b)
    ensures a == b
  {
    var raw := TraceBytes(b);
    hide Magic, After, RecordsBytes, ValidRecord, HeaderBytes, NumberAt, Stands, DistinctBy;
    WholeStands(raw);
    PrefixStands(raw, TraceBytes(a));
    StandsConcat(raw, 0, HeaderBytes(|b|), RecordsBytes(b));
    StandsConcat(raw, 0, HeaderBytes(|a|), RecordsBytes(a));
    HeaderStands(raw, |a|);
    HeaderStands(raw, |b|);
    AfterComplete(raw, a);
    AfterComplete(raw, b);
  }

  // ------------------------------------------------------------------
  // The parser
  // ------------------------------------------------------------------

  method ReadTokens(raw: seq<Byte>, offset: nat, count: nat) returns (tokens: seq<nat>)
    requires offset + 4 * count <= |raw|
    ensures tokens == TokensAt(raw, offset, count)
  {
    tokens := [];
    for i := 0 to count
      invariant tokens == TokensAt(raw, offset, i)
    {
      tokens := tokens + [NumberAt(raw, offset + 4 * i, 4)];
    }
  }

  /** One turn of the record loop. */
  method ReadRecord(raw: seq<Byte>, offset: nat, seen: set<nat>) returns (r: Option<Record>)
    ensures r == if RecordAt(raw, offset).Some? && RecordAt(raw, offset).value.iteration !in seen then RecordAt(raw,
      offset) else None
  {
    hide NumberAt, TokensAt, InVocabulary;
    if offset + 8 > |raw| {
      return None;
    }
    var iteration, count := NumberAt(raw, offset, 4), NumberAt(raw, offset + 4, 4);
    if iteration in seen || count > MAX_TOKENS || offset + 8 + 4 * count > |raw| {
      return None;
    }
    var tokens := ReadTokens(raw, offset + 8, count);
    r := if InVocabulary(tokens) then Some(Record(iteration, tokens)) else None;
  }

  /** What one turn of the loop does to the cursor. */
  lemma TurnOf(raw: seq<Byte>, k: nat, offset: nat, records: seq<Record>, seen: set<nat>)
    requires After(raw, k) == Some(Progress(offset, records)) && seen == KeysBy(records, Iteration())
    ensures var r := RecordAt(raw, offset); r.None? || r.value.iteration in seen ==> After(raw, k + 1).None?
    ensures var r := RecordAt(raw, offset);
      r.Some? && r.value.iteration !in seen ==>
        After(raw, k + 1) == Some(Progress(offset + 8 + 4 * |r.value.tokens|, records + [r.value]))
    ensures var r := RecordAt(raw, offset); r.Some? ==>
      seen + {r.value.iteration} == KeysBy(records + [r.value], Iteration())
  {
    hide RecordAt, FreshBy, KeysBy;
    if RecordAt(raw, offset).Some? {
      KeysGrow(records, RecordAt(raw, offset).value, Iteration());
    }
  }

  lemma NothingSeen()
    ensures KeysBy<Record>([], Iteration()) == {}
  {
  }

  /** `_parse_asr`: the records in order of iteration, or `None` when it raises. */
  method ParseAsr(raw: seq<Byte>) returns (sorted: Option<seq<Record>>)
    ensures sorted.Some? <==> Parsed(raw).Some?
    ensures sorted.Some? ==> sorted.value == SortBy(Parsed(raw).value, Iteration())
  {
    hide NumberAt, Magic, SortBy, RecordAt, FreshBy, After, KeysBy;
    if |raw| < 16 || raw[..8] != Magic() || NumberAt(raw, 8, 4) != 1 {
      return None;
    }
    var count := NumberAt(raw, 12, 4);
    if count == 0 || count > MAX_RECORDS {
      return None;
    }
    var offset: nat := 16;
    var records: seq<Record> := [];
    var seen: set<nat> := {};
    NothingRead(raw);
    NothingSeen();
    for k := 0 to count
      invariant After(raw, k) == Some(Progress(offset, records))
      invariant seen == KeysBy(records, Iteration())
    {
      TurnOf(raw, k, offset, records, seen);
      var r := ReadRecord(raw, offset, seen);
      if r.None? {
        StoppedReading(raw, k + 1, count);
        return None;
      }
      offset := offset + 8 + 4 * |r.value.tokens|;
      seen := seen + {r.value.iteration};
      records := records + [r.value];
    }
    if offset != |raw| {
      return None;
    }
    sorted := Some(SortBy(records, Iteration()));
  }

  /** Once a turn raises, no later turn is reached. */
  lemma {:induction false} StoppedReading(raw: seq<Byte>, k: nat, n: nat)
    requires k <= n && After(raw, k).None?
    ensures After(raw, n).None?
  {
    if k < n {
      StoppedReading(raw, k, n - 1);
    }
  }

  /** What the parser returns for a serialized trace: the same records, ascending by iteration. */
  lemma ParsedRecordsSorted(rs: seq<Record>)
    requires ValidTrace(rs)
    ensures Parsed(TraceBytes(rs)).Some?
    ensures var sorted := SortBy(Parsed(TraceBytes(rs)).value, Iteration());
      multiset(sorted) == multiset(rs) && SortedBy(sorted, Iteration())
  {
    hide ValidTrace, TraceBytes, Parsed, SortBy;
    ParseOfSerialized(rs);
    SortBySorts(rs, Iteration());
  }
}
