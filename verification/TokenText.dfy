/** Decoding Whisper tokens: the ByteLevel alphabet and the token loop
    (analysis/decode_whisper_token_trace.py:31-43, 73-87). */
module TokenText {
  import opened Common
  import opened LittleEndian
  import opened Utf8

  // ------------------------------------------------------------------
  // The byte alphabet
  // ------------------------------------------------------------------

  /** A code point of a token string; unlike decoded text it may be a surrogate. */
  type Symbol = nat

  /** The bytes that stand for themselves: `!` to `~`, U+00A1 to U+00AC, U+00AE to U+00FF. */
  predicate Printable(n: int) { 33 <= n < 127 || 161 <= n < 173 || 174 <= n < 256 }

  /** How many bytes below `n` do not stand for themselves. */
  function Extra(n: nat): (extra: nat)
    ensures extra <= n
  {
    if n == 0 then 0 else Extra(n - 1) + if Printable(n - 1) then 0 else 1
  }

  /** The symbol of a byte: itself, or the next unused code point from 256 on. */
  function SymbolOf(b: Byte): Symbol {
    if Printable(b) then b else 256 + Extra(b)
  }

  lemma {:induction false} ExtraUpTo(n: nat)
    requires n <= 256
    ensures Extra(n) == if n < 33 then n else if n < 127 then 33 else if n < 161 then n - 94
      else if n <= 173 then 67 else 68
  {
    if n > 0 {
      ExtraUpTo(n - 1);
    }
  }

  /** The symbols in numbers: the control bytes and the space follow U+0100, the bytes from U+007F to
      the no-break space follow U+0121, the soft hyphen is U+0143, and every other byte is itself. */
  lemma SymbolExactly(b: Byte)
    ensures SymbolOf(b) == if b < 33 then 256 + b else if 127 <= b < 161 then 162 + b else if b == 173 then 323 else b
  {
    ExtraUpTo(b);
  }

  lemma {:induction false} ExtraGrows(m: nat, n: nat)
    requires m < n && !Printable(m)
    ensures Extra(m) < Extra(n)
  {
    if m < n - 1 {
      ExtraGrows(m, n - 1);
    }
  }

  /** The alphabet is a bijection between the 256 bytes and their symbols. */
  lemma SymbolsDistinct(a: Byte, b: Byte)
    ensures SymbolOf(a) == SymbolOf(b) <==> a == b
  {
    if !Printable(a) && !Printable(b) {
      if a < b {
        ExtraGrows(a, b);
      } else if b < a {
        ExtraGrows(b, a);
      }
    }
  }

  /** The byte below `n` with this symbol: `decoder[symbol]`, or `None` for its `KeyError`. */
  function ByteBelow(symbol: Symbol, n: nat): Option<Byte>
    requires n <= 256
  {
    if n == 0 then None else if SymbolOf(n - 1) == symbol then Some(n - 1) else ByteBelow(symbol, n - 1)
  }

  function ByteOf(symbol: Symbol): Option<Byte> { ByteBelow(symbol, 256) }

  lemma {:induction false} ByteBelowOf(b: Byte, n: nat)
    requires b < n <= 256
    ensures ByteBelow(SymbolOf(b), n) == Some(b)
  {
    SymbolsDistinct(b, n - 1);
    if b < n - 1 {
      ByteBelowOf(b, n - 1);
    }
  }

  function Range(from: nat, to: nat): (range: seq<Byte>)
    requires from <= to <= 256
    ensures |range| == to - from && forall i :: 0 <= i < |range| ==> range[i] == from + i
  {
    seq(to - from, i requires 0 <= i < to - from => from + i)
  }

  /** Byte and symbol lists that pair every byte, once, with its symbol. */
  ghost predicate Alphabet(values: seq<Byte>, symbols: seq<Symbol>) {
    && |values| == |symbols|
    && (forall i :: 0 <= i < |values| ==> symbols[i] == SymbolOf(values[i]))
    && (forall i, j :: 0 <= i < j < |values| ==> values[i] != values[j])
  }

  /** One turn of the second loop: a byte that does not stand for itself gets the next symbol. */
  lemma AlphabetGrows(values: seq<Byte>, symbols: seq<Symbol>, value: Byte)
    requires Alphabet(values, symbols) && value !in values && !Printable(value)
    ensures Alphabet(values + [value], symbols + [256 + Extra(value)])
  {
    hide Printable, Extra;
    assert SymbolOf(value) == 256 + Extra(value);
    hide SymbolOf;
  }

  lemma PrintableAlphabet(values: seq<Byte>)
    requires values == Range(33, 127) + Range(161, 173) + Range(174, 256)
    ensures Alphabet(values, values)
  {
    PrintableListed(values);
    forall i | 0 <= i < |values|
      ensures SymbolOf(values[i]) == values[i]
    {
      assert values[i] in values;
    }
  }

  /** `_byte_encoder`, as the two lists that it zips. */
  method ByteEncoder() returns (values: seq<Byte>, symbols: seq<Symbol>)
    ensures |values| == |symbols| && forall i :: 0 <= i < |values| ==> symbols[i] == SymbolOf(values[i])
    ensures (forall i, j :: 0 <= i < j < |values| ==> values[i] != values[j]) && forall b: Byte :: b in values
  {
    values := Range(33, 127) + Range(161, 173) + Range(174, 256);
    symbols := values;
    var extra := 0;
    PrintableListed(values);
    PrintableAlphabet(values);
    hide Alphabet, Printable, SymbolOf;
    for value := 0 to 256
      invariant Alphabet(values, symbols) && extra == Extra(value)
      invariant forall b: Byte :: b in values <==> Printable(b) || b < value
    {
      if value !in values {
        AlphabetGrows(values, symbols, value);
        values := values + [value];
        symbols := symbols + [256 + extra];
        extra := extra + 1;
      }
    }
    AlphabetParts(values, symbols);
  }

  lemma AlphabetParts(values: seq<Byte>, symbols: seq<Symbol>)
    requires Alphabet(values, symbols)
    ensures |values| == |symbols| && forall i :: 0 <= i < |values| ==> symbols[i] == SymbolOf(values[i])
    ensures forall i, j :: 0 <= i < j < |values| ==> values[i] != values[j]
  {
    hide SymbolOf;
  }

  lemma PrintableListed(values: seq<Byte>)
    requires values == Range(33, 127) + Range(161, 173) + Range(174, 256)
    ensures forall b: Byte :: b in values <==> Printable(b)
    ensures forall i, j :: 0 <= i < j < |values| ==> values[i] != values[j]
  {
    forall b: Byte | Printable(b)
      ensures b in values
    {
      var i := if b < 127 then b - 33 else if b < 173 then 94 + b - 161 else 106 + b - 174;
      assert values[i] == b;
    }
  }

  // ------------------------------------------------------------------
  // Tokens
  // ------------------------------------------------------------------

  /** Starts with `<|` and ends with `|>`; the two may overlap. */
  predicate Special(token: seq<Symbol>) {
    && |token| >= 2
    && token[0] == 60 && token[1] == 124
    && token[|token| - 2] == 124 && token[|token| - 1] == 62
  }

  /** The bytes that the symbols of a token stand for. */
  function BytesOf(token: seq<Symbol>): Option<seq<Byte>> {
    if token == [] then Some([]) else
      var front, last := BytesOf(token[..|token| - 1]), ByteOf(token[|token| - 1]);
      if front.None? || last.None? then None else Some(front.value + [last.value])
  }

  /** The token whose symbols stand for these bytes. */
  function Spelled(bytes: seq<Byte>): (token: seq<Symbol>)
    ensures |token| == |bytes| && forall i :: 0 <= i < |bytes| ==> token[i] == SymbolOf(bytes[i])
  {
    seq(|bytes|, i requires 0 <= i < |bytes| => SymbolOf(bytes[i]))
  }

  /** Reading the alphabet back is the inverse of spelling. */
  lemma {:induction false} BytesOfSpelled(bytes: seq<Byte>)
    ensures BytesOf(Spelled(bytes)) == Some(bytes)
    decreases |bytes|
  {
    hide ByteOf, SymbolOf;
    if bytes != [] {
      var front, last := bytes[..|bytes| - 1], bytes[|bytes| - 1];
      BytesOfSpelled(front);
      assert Spelled(bytes)[..|bytes| - 1] == Spelled(front);
      ByteOfSymbol(last);
      assert bytes == front + [last];
    }
  }

  lemma ByteOfSymbol(b: Byte)
    ensures ByteOf(SymbolOf(b)) == Some(b)
  {
    ByteBelowOf(b, 256);
  }

  type TokenMap = map<int, seq<Symbol>>

  datatype DecodeError = Absent(token: int) | NotByteLevel(token: int)

  /** What one token adds to the text. */
  function PieceOf(id: int, tokens: TokenMap): Result<seq<Scalar>, DecodeError> {
    if id !in tokens then Err(Absent(id))
    else if Special(tokens[id]) then Ok([])
    else
      var bytes := BytesOf(tokens[id]);
      if bytes.None? then Err(NotByteLevel(id)) else
        var text := Decode(bytes.value);
        if text.None? then Err(NotByteLevel(id)) else Ok(text.value)
  }

  /** The text of the tokens before it is stripped, or the error of the first token that raises. */
  function Text(ids: seq<int>, tokens: TokenMap): Result<seq<Scalar>, DecodeError> {
    if ids == [] then Ok([]) else
      var front := Text(ids[..|ids| - 1], tokens);
      if front.Err? then front else
        var piece := PieceOf(ids[|ids| - 1], tokens);
        if piece.Err? then piece else Ok(front.value + piece.value)
  }

  lemma {:induction false} SpelledBytes(token: seq<Symbol>)
    requires BytesOf(token).Some?
    ensures token == Spelled(BytesOf(token).value)
    decreases |token|
  {
    hide ByteOf, SymbolOf;
    if token != [] {
      var front, last := token[..|token| - 1], token[|token| - 1];
      SpelledBytes(front);
      SymbolOfByte(last);
      assert token == front + [last];
    }
  }

  lemma {:induction false} SymbolBelow(symbol: Symbol, n: nat)
    requires n <= 256 && ByteBelow(symbol, n).Some?
    ensures SymbolOf(ByteBelow(symbol, n).value) == symbol
  {
    hide SymbolOf;
    if SymbolOf(n - 1) != symbol {
      SymbolBelow(symbol, n - 1);
    }
  }

  lemma SymbolOfByte(symbol: Symbol)
    requires ByteOf(symbol).Some?
    ensures SymbolOf(ByteOf(symbol).value) == symbol
  {
    SymbolBelow(symbol, 256);
  }

  /** `<|`, anything, `|>`; or `<|>`, in which the two overlap. */
  ghost predicate Bracketed(token: seq<Symbol>) {
    token == [60, 124, 62] || exists body :: token == [60, 124] + body + [124, 62]
  }

  lemma BracketedExactly(token: seq<Symbol>)
    ensures Special(token) <==> Bracketed(token)
  {
    if Special(token) && token != [60, 124, 62] {
      assert token == [60, 124] + token[2..|token| - 2] + [124, 62];
    }
  }

  /** A token in brackets is dropped whatever the brackets hold, byte-level or not. */
  lemma BracketsDropped(id: int, tokens: TokenMap, body: seq<Symbol>)
    requires id in tokens && (tokens[id] == [60, 124] + body + [124, 62] || tokens[id] == [60, 124, 62])
    ensures PieceOf(id, tokens) == Ok([])
  {
    BracketedExactly(tokens[id]);
    hide Special, BytesOf, Decode;
  }

  /** What a token adds: nothing when it is bracketed, whatever the brackets hold; otherwise a text
      exactly when it spells the UTF-8 bytes of that text, and an error when it spells none. */
  lemma PieceInSymbols(id: int, tokens: TokenMap, text: seq<Scalar>)
    ensures id !in tokens ==> PieceOf(id, tokens) == Err(Absent(id))
    ensures id in tokens && Bracketed(tokens[id]) ==> PieceOf(id, tokens) == Ok([])
    ensures id in tokens && !Bracketed(tokens[id]) ==>
      (PieceOf(id, tokens) == Ok(text) <==> tokens[id] == Spelled(Encode(text)))
    ensures id in tokens && PieceOf(id, tokens).Err? ==> PieceOf(id, tokens) == Err(NotByteLevel(id))
  {
    if id in tokens && !Bracketed(tokens[id]) {
      BracketedExactly(tokens[id]);
      if PieceOf(id, tokens) == Ok(text) {
        EncodeOfDecoded(BytesOf(tokens[id]).value);
        SpelledBytes(tokens[id]);
      }
      if tokens[id] == Spelled(Encode(text)) {
        BytesOfSpelled(Encode(text));
        DecodeOfEncoded(text);
      }
    } else if id in tokens {
      BracketedExactly(tokens[id]);
    }
    hide BytesOf, Decode, Encode, Spelled, Special, Bracketed;
  }

  /** One token alone decodes to what it adds. */
  lemma TextOfOne(id: int, tokens: TokenMap)
    ensures Text([id], tokens) == PieceOf(id, tokens)
  {
    hide PieceOf;
    assert [id][..0] == [] && Text([], tokens) == Ok([]);
    if PieceOf(id, tokens).Ok? {
      assert [] + PieceOf(id, tokens).value == PieceOf(id, tokens).value;
    }
  }

  // ------------------------------------------------------------------
  // Stripping
  // ------------------------------------------------------------------

  function TrimLeft(text: seq<Scalar>, space: Scalar -> bool): seq<Scalar> {
    if text != [] && space(text[0]) then TrimLeft(text[1..], space) else text
  }

  function TrimRight(text: seq<Scalar>, space: Scalar -> bool): seq<Scalar> {
    if text != [] && space(text[|text| - 1]) then TrimRight(text[..|text| - 1], space) else text
  }

  /** `str.strip()`, with Python's notion of white space as a parameter. */
  function Strip(text: seq<Scalar>, space: Scalar -> bool): seq<Scalar> { TrimRight(TrimLeft(text, space), space) }

  ghost predicate Blank(text: seq<Scalar>, space: Scalar -> bool) { forall i :: 0 <= i < |text| ==> space(text[i]) }

  lemma {:induction false} TrimLeftSplits(text: seq<Scalar>, space: Scalar -> bool) returns (lead: seq<Scalar>)
    ensures text == lead + TrimLeft(text, space) && Blank(lead, space)
    ensures TrimLeft(text, space) != [] ==> !space(TrimLeft(text, space)[0])
    decreases |text|
  {
    if text != [] && space(text[0]) {
      var rest := TrimLeftSplits(text[1..], space);
      lead := [text[0]] + rest;
    } else {
      lead := [];
    }
  }

  lemma {:induction false} TrimRightSplits(text: seq<Scalar>, space: Scalar -> bool) returns (trail: seq<Scalar>)
    ensures text == TrimRight(text, space) + trail && Blank(trail, space)
    ensures TrimRight(text, space) != [] ==> !space(TrimRight(text, space)[|TrimRight(text, space)| - 1])
    decreases |text|
  {
    if text != [] && space(text[|text| - 1]) {
      var rest := TrimRightSplits(text[..|text| - 1], space);
      trail := rest + [text[|text| - 1]];
    } else {
      trail := [];
    }
  }

  /** Stripping removes only white space from the two ends, and all of it. */
  lemma StripTrims(text: seq<Scalar>, space: Scalar -> bool) returns (lead: seq<Scalar>, trail: seq<Scalar>)
    ensures text == lead + Strip(text, space) + trail && Blank(lead, space) && Blank(trail, space)
    ensures Strip(text, space) != [] ==>
      !space(Strip(text, space)[0]) && !space(Strip(text, space)[|Strip(text, space)| - 1])
  {
    lead := TrimLeftSplits(text, space);
    trail := TrimRightSplits(TrimLeft(text, space), space);
    assert Strip(text, space) != [] ==> Strip(text, space)[0] == TrimLeft(text, space)[0];
  }

  // ------------------------------------------------------------------
  // The decoder
  // ------------------------------------------------------------------

  method TokenBytes(token: seq<Symbol>) returns (bytes: Option<seq<Byte>>)
    ensures bytes == BytesOf(token)
  {
    hide ByteOf;
    var read: seq<Byte> := [];
    assert token[..0] == [];
    for i := 0 to |token|
      invariant BytesOf(token[..i]) == Some(read)
    {
      assert token[..i + 1][..i] == token[..i];
      var b := ByteOf(token[i]);
      if b.None? {
        BytesStopped(token, i + 1);
        return None;
      }
      read := read + [b.value];
    }
    assert token[..|token|] == token;
    bytes := Some(read);
  }

  lemma {:induction false} BytesStopped(token: seq<Symbol>, k: nat)
    requires k <= |token| && BytesOf(token[..k]).None?
    ensures BytesOf(token).None?
    decreases |token|
  {
    hide ByteOf;
    if k == |token| {
      assert token[..k] == token;
    } else {
      var front := token[..|token| - 1];
      assert front[..k] == token[..k];
      BytesStopped(front, k);
    }
  }

  /** `decode_tokens`. */
  method DecodeTokens(ids: seq<int>, tokens: TokenMap, space: Scalar -> bool) returns (r: Result<seq<Scalar>,
      DecodeError>)
    ensures r.Ok? <==> Text(ids, tokens).Ok?
    ensures r.Ok? ==> r.value == Strip(Text(ids, tokens).value, space)
    ensures r.Err? ==> r.error == Text(ids, tokens).error
  {
    hide BytesOf, Special, Decode, Strip;
    var text: seq<Scalar> := [];
    assert ids[..0] == [];
    for i := 0 to |ids|
      invariant Text(ids[..i], tokens) == Ok(text)
    {
      var id := ids[i];
      assert ids[..i + 1][..i] == ids[..i];
      if id !in tokens {
        TextStopped(ids, tokens, i + 1);
        return Err(Absent(id));
      }
      if Special(tokens[id]) {
        assert text + [] == text;
        continue;
      }
      var bytes := TokenBytes(tokens[id]);
      if bytes.None? || Decode(bytes.value).None? {
        TextStopped(ids, tokens, i + 1);
        return Err(NotByteLevel(id));
      }
      text := text + Decode(bytes.value).value;
    }
    assert ids[..|ids|] == ids;
    r := Ok(Strip(text, space));
  }

  /** The first token that raises decides the error. */
  lemma {:induction false} TextStopped(ids: seq<int>, tokens: TokenMap, k: nat)
    requires k <= |ids| && Text(ids[..k], tokens).Err?
    ensures Text(ids, tokens) == Text(ids[..k], tokens)
    decreases |ids|
  {
    hide PieceOf;
    if k == |ids| {
      assert ids[..k] == ids;
    } else {
      var front := ids[..|ids| - 1];
      assert front[..k] == ids[..k];
      TextStopped(front, tokens, k);
    }
  }

  // ------------------------------------------------------------------
  // What the text means
  // ------------------------------------------------------------------

  /** The ByteLevel bytes of one token: none for a special token. */
  function PieceBytes(id: int, tokens: TokenMap): seq<Byte> {
    if id !in tokens || Special(tokens[id]) || BytesOf(tokens[id]).None? then [] else BytesOf(tokens[id]).value
  }

  function ByteLevel(ids: seq<int>, tokens: TokenMap): seq<Byte> {
    if ids == [] then [] else ByteLevel(ids[..|ids| - 1], tokens) + PieceBytes(ids[|ids| - 1], tokens)
  }

  lemma PieceIsEncoded(id: int, tokens: TokenMap)
    requires PieceOf(id, tokens).Ok?
    ensures Encode(PieceOf(id, tokens).value) == PieceBytes(id, tokens)
  {
    hide Special, BytesOf, Decode;
    if !Special(tokens[id]) {
      EncodeOfDecoded(BytesOf(tokens[id]).value);
    }
  }

  /** The UTF-8 bytes of the text are the ByteLevel bytes of the tokens that are not special. */
  lemma {:induction false} TextIsByteLevel(ids: seq<int>, tokens: TokenMap)
    requires Text(ids, tokens).Ok?
    ensures Encode(Text(ids, tokens).value) == ByteLevel(ids, tokens)
    decreases |ids|
  {
    hide PieceOf, PieceBytes;
    if ids != [] {
      var front := ids[..|ids| - 1];
      TextIsByteLevel(front, tokens);
      PieceIsEncoded(ids[|ids| - 1], tokens);
      EncodeConcat(Text(front, tokens).value, PieceOf(ids[|ids| - 1], tokens).value);
    }
  }

  /** Decoding distributes over concatenation, and the first list's error comes first. */
  lemma {:induction false} TextConcat(xs: seq<int>, ys: seq<int>, tokens: TokenMap)
    ensures Text(xs, tokens).Err? ==> Text(xs + ys, tokens) == Text(xs, tokens)
    ensures Text(xs, tokens).Ok? && Text(ys, tokens).Err? ==> Text(xs + ys, tokens) == Text(ys, tokens)
    ensures Text(xs, tokens).Ok? && Text(ys, tokens).Ok? ==>
      Text(xs + ys, tokens) == Ok(Text(xs, tokens).value + Text(ys, tokens).value)
    decreases |ys|
  {
    hide PieceOf;
    if ys == [] {
      assert xs + ys == xs;
      if Text(xs, tokens).Ok? {
        assert Text(xs, tokens).value + [] == Text(xs, tokens).value;
      }
    } else {
      var front := ys[..|ys| - 1];
      assert (xs + ys)[..|xs + ys| - 1] == xs + front;
      TextConcat(xs, front, tokens);
      var piece := PieceOf(ys[|ys| - 1], tokens);
      if Text(xs, tokens).Ok? && Text(front, tokens).Ok? && piece.Ok? {
        assert Text(xs, tokens).value + Text(front, tokens).value + piece.value == Text(xs,
          tokens).value + (Text(front, tokens).value + piece.value);
      }
    }
  }

  // An ASCII character is one octet, and no octet of another character is ASCII.

  lemma FirstOctet(text: seq<Scalar>, c: int)
    requires 0 <= c < 128
    ensures text == [] <==> Encode(text) == []
    ensures text != [] ==> (Encode(text)[0] == c <==> text[0] == c)
    ensures text != [] && text[0] == c ==> Encode(text) == [c] + Encode(text[1..])
  {
    if text != [] {
      OctetsOf(text[0]);
    }
  }

  lemma LastOctet(text: seq<Scalar>, c: int)
    requires 0 <= c < 128 && text != []
    ensures Encode(text) != [] && (Encode(text)[|Encode(text)| - 1] == c <==> text[|text| - 1] == c)
    ensures text[|text| - 1] == c ==> Encode(text) == Encode(text[..|text| - 1]) + [c]
  {
    var front, last := text[..|text| - 1], text[|text| - 1];
    assert text == front + [last];
    EncodeConcat(front, [last]);
    assert [last][1..] == [];
    assert Encode([last]) == EncodeOne(last);
    OctetsOf(last);
  }

  lemma StartsSpecial(text: seq<Scalar>)
    ensures |Encode(text)| >= 2 && Encode(text)[0] == 60 && Encode(text)[1] == 124 <==>
      |text| >= 2 && text[0] == 60 && text[1] == 124
  {
    FirstOctet(text, 60);
    if text != [] && text[0] == 60 {
      FirstOctet(text[1..], 124);
    }
  }

  lemma EndsSpecial(text: seq<Scalar>)
    ensures (var e := Encode(text); |e| >= 2 && e[|e| - 2] == 124 && e[|e| - 1] == 62)
      <==> |text| >= 2 && text[|text| - 2] == 124 && text[|text| - 1] == 62
  {
    hide EncodeOne;
    if text != [] {
      LastOctet(text, 62);
      if text[|text| - 1] == 62 {
        if |text| >= 2 {
          LastOctet(text[..|text| - 1], 124);
        } else {
          assert text[..0] == [];
        }
      }
    }
  }

  /** Spelling a text makes it look like a special token exactly when it already does. */
  lemma SpecialSpelled(text: seq<Scalar>)
    ensures Special(Spelled(Encode(text))) <==> Special(text)
  {
    hide Encode;
    StartsSpecial(text);
    EndsSpecial(text);
  }

  /** A token spelled from a text decodes back to that text, unless it has the special shape. */
  lemma SpelledPiece(id: int, tokens: TokenMap, text: seq<Scalar>)
    requires id in tokens && tokens[id] == Spelled(Encode(text))
    ensures PieceOf(id, tokens) == Ok(if Special(text) then [] else text)
  {
    SpecialSpelled(text);
    hide Special, BytesOf, Decode, Encode, Spelled;
    BytesOfSpelled(Encode(text));
    DecodeOfEncoded(text);
  }

  function Joined(texts: seq<seq<Scalar>>): seq<Scalar> {
    if texts == [] then [] else Joined(texts[..|texts| - 1]) + texts[|texts| - 1]
  }

  /** Texts spelled in the byte alphabet, one token each, decode to their concatenation when none
      of them has the special shape. */
  lemma {:induction false} SpelledTexts(ids: seq<int>, tokens: TokenMap, texts: seq<seq<Scalar>>)
    requires |ids| == |texts| && forall i :: 0 <= i < |ids| ==>
      ids[i] in tokens && tokens[ids[i]] == Spelled(Encode(texts[i]))
    requires forall i :: 0 <= i < |texts| ==> !Special(texts[i])
    ensures Text(ids, tokens) == Ok(Joined(texts))
    decreases |ids|
  {
    hide PieceOf, Encode, Spelled, Special;
    if ids != [] {
      SpelledTexts(ids[..|ids| - 1], tokens, texts[..|texts| - 1]);
      SpelledPiece(ids[|ids| - 1], tokens, texts[|texts| - 1]);
    }
  }

  /** For a single text the round trip holds exactly when the text does not look like a special token. */
  lemma RoundTripExactly(id: int, tokens: TokenMap, text: seq<Scalar>)
    requires id in tokens && tokens[id] == Spelled(Encode(text))
    ensures Text([id], tokens) == Ok(text) <==> !Special(text)
  {
    SpelledPiece(id, tokens, text);
    hide PieceOf, Encode, Spelled;
    assert [id][..0] == [];
    assert [] + text == text;
  }

  // ------------------------------------------------------------------
  // Which token lists decode
  // ------------------------------------------------------------------

  /** Every token is in the map, and is special or written in the byte alphabet. */
  predicate Readable(ids: seq<int>, tokens: TokenMap) {
    forall id :: id in ids ==> id in tokens && (Special(tokens[id]) || BytesOf(tokens[id]).Some?)
  }

  /** No token begins in the middle of a character. */
  predicate Aligned(ids: seq<int>, tokens: TokenMap) {
    forall id :: id in ids ==> StartsCharacter(PieceBytes(id, tokens))
  }

  lemma PieceExactly(id: int, tokens: TokenMap)
    ensures PieceOf(id, tokens).Ok? <==>
      id in tokens && (Special(tokens[id]) || BytesOf(tokens[id]).Some?) && Decode(PieceBytes(id, tokens)).Some?
  {
    hide Special, BytesOf;
  }

  /** Two byte strings join to a valid one, of which the second begins a character, exactly when
      both are valid. */
  lemma JoinedExactly(bytes: seq<Byte>, piece: seq<Byte>)
    ensures Decode(bytes + piece).Some? && StartsCharacter(piece) <==> Decode(bytes).Some? && Decode(piece).Some?
  {
    hide Decode, StartsCharacter;
    if Decode(bytes + piece).Some? {
      CutsBetweenCharacters(bytes, piece);
    } else if Decode(bytes).Some? && Decode(piece).Some? {
      DecodeConcat(bytes, piece);
    }
  }

  lemma OneMoreToken(front: seq<int>, last: int, tokens: TokenMap)
    ensures Text(front + [last], tokens).Ok? <==> Text(front, tokens).Ok? && PieceOf(last, tokens).Ok?
    ensures Readable(front + [last], tokens) <==>
      Readable(front, tokens) && last in tokens && (Special(tokens[last]) || BytesOf(tokens[last]).Some?)
    ensures Aligned(front + [last], tokens) <==> Aligned(front, tokens) && StartsCharacter(PieceBytes(last, tokens))
    ensures ByteLevel(front + [last], tokens) == ByteLevel(front, tokens) + PieceBytes(last, tokens)
  {
    hide Special, BytesOf, PieceOf, PieceBytes, StartsCharacter;
    assert (front + [last])[..|front|] == front;
  }

  /** Decoding works token by token, so valid bytes are not enough: a readable token list whose
      bytes are valid UTF-8 decodes exactly when no token begins in the middle of a character. */
  lemma {:induction false} DecodesExactlyWhen(ids: seq<int>, tokens: TokenMap)
    ensures Text(ids, tokens).Ok? <==>
      Readable(ids, tokens) && Decode(ByteLevel(ids, tokens)).Some? && Aligned(ids, tokens)
    decreases |ids|
  {
    hide Special, BytesOf, Decode, PieceOf, PieceBytes, StartsCharacter, Text, ByteLevel, Readable, Aligned;
    if ids == [] {
      NoTokens(tokens);
    } else {
      var front, last := ids[..|ids| - 1], ids[|ids| - 1];
      assert ids == front + [last];
      DecodesExactlyWhen(front, tokens);
      OneMoreToken(front, last, tokens);
      PieceExactly(last, tokens);
      JoinedExactly(ByteLevel(front, tokens), PieceBytes(last, tokens));
    }
  }

  lemma NoTokens(tokens: TokenMap)
    ensures Text([], tokens).Ok? && Readable([], tokens) && Aligned([], tokens) && Decode(ByteLevel([], tokens)).Some?
  {
  }

  /** A token that ends, or begins, inside a character is not special. */
  lemma CutNotSpecial(text: seq<Byte>, s: Scalar, k: nat)
    requires 0 < k < |EncodeOne(s)|
    ensures !Special(Spelled(text + EncodeOne(s)[..k])) && !Special(Spelled(EncodeOne(s)[k..] + text))
    ensures Continuation(EncodeOne(s)[k])
  {
    var bytes := EncodeOne(s);
    assert bytes[k - 1] >= 128 && bytes[k] >= 128;
    assert (text + bytes[..k])[|text| + k - 1] == bytes[k - 1] && (bytes[k..] + text)[0] == bytes[k];
  }

  lemma UnreadablePiece(id: int, tokens: TokenMap, bytes: seq<Byte>)
    requires id in tokens && tokens[id] == Spelled(bytes) && !Special(Spelled(bytes)) && Decode(bytes).None?
    ensures PieceOf(id, tokens) == Err(NotByteLevel(id)) && PieceBytes(id, tokens) == bytes
  {
    hide Special, Decode, Spelled, BytesOf;
    BytesOfSpelled(bytes);
  }

  lemma TwoPieces(id1: int, id2: int, tokens: TokenMap)
    ensures ByteLevel([id1, id2], tokens) == PieceBytes(id1, tokens) + PieceBytes(id2, tokens)
    ensures PieceOf(id1, tokens).Err? ==> Text([id1, id2], tokens) == PieceOf(id1, tokens)
  {
    hide PieceBytes, PieceOf;
    var both, one := [id1, id2], [id1];
    assert both[..|both| - 1] == one && one[..|one| - 1] == [];
    assert ByteLevel([], tokens) == [] && Text([], tokens) == Ok([]);
    assert ByteLevel(one, tokens) == PieceBytes(id1, tokens);
    assert PieceOf(id1, tokens).Err? ==> Text(one, tokens) == PieceOf(id1, tokens);
  }

  /** Any character of more than one octet, cut anywhere, between any two texts: both tokens
      raise although their bytes join to valid UTF-8. */
  lemma CutCharacterRaises(u: seq<Scalar>, s: Scalar, v: seq<Scalar>, k: nat, id1: int, id2: int, tokens: TokenMap)
    requires 0 < k < |EncodeOne(s)| && id1 in tokens && id2 in tokens
    requires tokens[id1] == Spelled(Encode(u) + EncodeOne(s)[..k])
    requires tokens[id2] == Spelled(EncodeOne(s)[k..] + Encode(v))
    ensures PieceOf(id1, tokens) == Err(NotByteLevel(id1)) && PieceOf(id2, tokens) == Err(NotByteLevel(id2))
    ensures Text([id1, id2], tokens) == Err(NotByteLevel(id1))
    ensures Decode(ByteLevel([id1, id2], tokens)) == Some(u + [s] + v)
  {
    CutNotSpecial(Encode(u), s, k);
    CutNotSpecial(Encode(v), s, k);
    var a, b := Encode(u) + EncodeOne(s)[..k], EncodeOne(s)[k..] + Encode(v);
    assert !StartsCharacter(b);
    JoinedCut(u, s, v, k);
    hide EncodeOne, Encode, Decode, BytesOf, Special, Spelled, StartsCharacter, Text, ByteLevel, PieceOf, PieceBytes;
    CutsBetweenCharacters(a, b);
    UnreadablePiece(id1, tokens, a);
    UnreadablePiece(id2, tokens, b);
    TwoPieces(id1, id2, tokens);
  }

  lemma JoinedCut(u: seq<Scalar>, s: Scalar, v: seq<Scalar>, k: nat)
    requires 0 < k < |EncodeOne(s)|
    ensures Decode(Encode(u) + EncodeOne(s)[..k] + (EncodeOne(s)[k..] + Encode(v))) == Some(u + [s] + v)
  {
    hide EncodeOne, Decode;
    EncodeCons(s, v);
    EncodeConcat(u, [s] + v);
    DecodeOfEncoded(u + ([s] + v));
    assert u + ([s] + v) == u + [s] + v;
    hide Encode;
    var bytes := EncodeOne(s);
    assert bytes[..k] + bytes[k..] == bytes;
    assert Encode(u) + bytes[..k] + (bytes[k..] + Encode(v)) == Encode(u) + (bytes + Encode(v));
  }
}
