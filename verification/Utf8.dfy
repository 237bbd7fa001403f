/** UTF-8 as section 3 of RFC 3629 defines it, decoded strictly: no overlong forms, no surrogates
    and nothing above U+10FFFF. */
module Utf8 {
  import opened Common
  import opened LittleEndian

  /** A Unicode scalar value. */
  type Scalar = n: int | 0 <= n < 0xD800 || 0xE000 <= n < 0x110000 witness 0

  predicate IsScalar(n: int) { 0 <= n < 0xD800 || 0xE000 <= n < 0x110000 }

  /** One character as one to four octets. */
  function EncodeOne(s: Scalar): (bytes: seq<Byte>)
    ensures 1 <= |bytes| <= 4
  {
    if s < 0x80 then [s]
    else if s < 0x800 then [0xC0 + s / 64, 0x80 + s % 64]
    else if s < 0x10000 then [0xE0 + s / 64 / 64, 0x80 + s / 64 % 64, 0x80 + s % 64]
    else [0xF0 + s / 64 / 64 / 64, 0x80 + s / 64 / 64 % 64, 0x80 + s / 64 % 64, 0x80 + s % 64]
  }

  function Encode(text: seq<Scalar>): seq<Byte> {
    if text == [] then [] else EncodeOne(text[0]) + Encode(text[1..])
  }

  /** A character and the number of octets it took. */
  datatype Character = Character(scalar: Scalar, length: nat)

  predicate Continuation(b: Byte) { 0x80 <= b < 0xC0 }

  /** The number of octets that a first octet announces; 0 when no character starts with it. */
  function Announced(b: Byte): nat {
    if b < 0x80 then 1
    else if 0xC0 <= b < 0xE0 then 2
    else if 0xE0 <= b < 0xF0 then 3
    else if 0xF0 <= b < 0xF8 then 4
    else 0
  }

  /** The number in the payload bits of a sequence of `n` octets. */
  function Payload(bytes: seq<Byte>, n: nat): int
    requires 1 <= n <= 4 && n <= |bytes|
  {
    if n == 1 then bytes[0]
    else if n == 2 then Shift(bytes[0] as int - 0xC0, bytes[1])
    else if n == 3 then Shift(Shift(bytes[0] as int - 0xE0, bytes[1]), bytes[2])
    else Shift(Shift(Shift(bytes[0] as int - 0xF0, bytes[1]), bytes[2]), bytes[3])
  }

  /** Six more payload bits. */
  function Shift(high: int, b: Byte): int { high * 64 + (b as int - 0x80) }

  lemma Unshift(high: int, b: Byte)
    requires Continuation(b)
    ensures Shift(high, b) / 64 == high && 0x80 + Shift(high, b) % 64 == b
  {
  }

  /** The least number that needs `n` octets. */
  function Least(n: nat): nat {
    if n <= 1 then 0 else if n == 2 then 0x80 else if n == 3 then 0x800 else 0x10000
  }

  /** The first character of `bytes`, if there is a well-formed one. */
  function First(bytes: seq<Byte>): Option<Character>
    requires bytes != []
  {
    var n := Announced(bytes[0]);
    if n == 0 || n > |bytes| then None
    else if !(forall i :: 1 <= i < n ==> Continuation(bytes[i])) then None
    else if Payload(bytes, n) < Least(n) || !IsScalar(Payload(bytes, n)) then None
    else Some(Character(Payload(bytes, n), n))
  }

  /** `bytes.decode("utf-8")`, with `None` for its error. */
  function Decode(bytes: seq<Byte>): Option<seq<Scalar>>
    decreases |bytes|
  {
    if bytes == [] then Some([]) else
      var c := First(bytes);
      if c.None? || c.value.length == 0 then None else
        var rest := Decode(bytes[c.value.length..]);
        if rest.None? then None else Some([c.value.scalar] + rest.value)
  }

  lemma OctetsOf(s: Scalar)
    ensures var bytes := EncodeOne(s);
      && Announced(bytes[0]) == |bytes| && Least(|bytes|) <= s
      && forall i :: 1 <= i < |bytes| ==> Continuation(bytes[i])
  {
  }

  /** The octets in numbers, as the table in section 3 of RFC 3629 gives them. */
  lemma OctetsInNumbers(s: Scalar)
    ensures var b := EncodeOne(s);
      && |b| == (if s < 128 then 1 else if s < 2048 then 2 else if s < 65536 then 3 else 4)
      && (forall i :: 1 <= i < |b| ==> 128 <= b[i] < 192)
      && (|b| == 1 ==> s == b[0])
      && (|b| == 2 ==> 192 <= b[0] < 224 && s == (b[0] as int - 192) * 64 + (b[1] as int - 128))
      && (|b| == 3 ==>
        224 <= b[0] < 240
        && s == ((b[0] as int - 224) * 64 + (b[1] as int - 128)) * 64 + (b[2] as int - 128))
      && (|b| == 4 ==>
        240 <= b[0] < 248
        && s == (((b[0] as int - 240) * 64 + (b[1] as int - 128)) * 64 + (b[2] as int - 128)) * 64
          + (b[3] as int - 128))
  {
    OctetsOf(s);
    PayloadOf(s);
  }

  lemma PayloadOf(s: Scalar)
    ensures Payload(EncodeOne(s), |EncodeOne(s)|) == s
  {
  }

  /** A character is read back from its octets, whatever follows them. */
  lemma FirstOfEncoded(s: Scalar, rest: seq<Byte>)
    ensures First(EncodeOne(s) + rest) == Some(Character(s, |EncodeOne(s)|))
  {
    OctetsOf(s);
    PayloadOf(s);
    var bytes, n := EncodeOne(s) + rest, |EncodeOne(s)|;
    hide EncodeOne, Announced, Continuation, Least, Shift;
    assert forall i :: 0 <= i < n ==> bytes[i] == EncodeOne(s)[i];
    assert Payload(bytes, n) == Payload(EncodeOne(s), n);
  }

  /** The octets of a decoded character are its encoding. */
  lemma EncodedOfFirst(bytes: seq<Byte>)
    requires bytes != [] && First(bytes).Some?
    ensures var c := First(bytes).value;
      1 <= c.length <= |bytes| && EncodeOne(c.scalar) == bytes[..c.length]
  {
    var n, s := Announced(bytes[0]), Payload(bytes, Announced(bytes[0]));
    assert forall i :: 1 <= i < n ==> Continuation(bytes[i]);
    if n == 1 {
      assert bytes[..1] == [bytes[0]];
    } else if n == 2 {
      assert Continuation(bytes[1]);
      TwoOctets(bytes);
    } else if n == 3 {
      assert Continuation(bytes[1]) && Continuation(bytes[2]);
      ThreeOctets(bytes);
    } else {
      assert Continuation(bytes[1]) && Continuation(bytes[2]) && Continuation(bytes[3]);
      FourOctets(bytes);
    }
  }

  lemma TwoOctets(b: seq<Byte>)
    requires |b| >= 2 && Announced(b[0]) == 2 && Continuation(b[1]) && Payload(b, 2) >= 0x80
    ensures IsScalar(Payload(b, 2)) && EncodeOne(Payload(b, 2)) == b[..2]
  {
    Unshift(b[0] as int - 0xC0, b[1]);
  }

  lemma ThreeBound(b: seq<Byte>)
    requires |b| >= 3 && Announced(b[0]) == 3 && Continuation(b[1]) && Continuation(b[2])
    ensures Payload(b, 3) < 0x10000
  {
  }

  lemma ThreeOctets(b: seq<Byte>)
    requires |b| >= 3 && Announced(b[0]) == 3 && Continuation(b[1]) && Continuation(b[2])
    requires Payload(b, 3) >= 0x800 && IsScalar(Payload(b, 3))
    ensures EncodeOne(Payload(b, 3)) == b[..3]
  {
    var high := Shift(b[0] as int - 0xE0, b[1]);
    Unshift(b[0] as int - 0xE0, b[1]);
    Unshift(high, b[2]);
    ThreeBound(b);
    hide Shift;
  }

  lemma FourOctets(b: seq<Byte>)
    requires |b| >= 4 && Announced(b[0]) == 4 && Continuation(b[1]) && Continuation(b[2]) && Continuation(b[3])
    requires Payload(b, 4) >= 0x10000 && IsScalar(Payload(b, 4))
    ensures EncodeOne(Payload(b, 4)) == b[..4]
  {
    var high := Shift(b[0] as int - 0xF0, b[1]);
    var middle := Shift(high, b[2]);
    Unshift(b[0] as int - 0xF0, b[1]);
    Unshift(high, b[2]);
    Unshift(middle, b[3]);
    hide Shift;
  }

  lemma SomeOctets(s: Scalar)
    ensures |EncodeOne(s)| >= 1
  {
  }

  lemma EncodeCons(s: Scalar, rest: seq<Scalar>)
    ensures Encode([s] + rest) == EncodeOne(s) + Encode(rest)
  {
    assert ([s] + rest)[1..] == rest;
  }

  /** Decoding inverts encoding. */
  lemma {:induction false} DecodeOfEncoded(text: seq<Scalar>)
    ensures Decode(Encode(text)) == Some(text)
    decreases |text|
  {
    hide EncodeOne, First;
    if text != [] {
      var first, rest := EncodeOne(text[0]), Encode(text[1..]);
      DecodeOfEncoded(text[1..]);
      SomeOctets(text[0]);
      FirstOfEncoded(text[0], rest);
      assert (first + rest)[|first|..] == rest;
      assert text == [text[0]] + text[1..];
    }
  }

  /** Encoding inverts decoding: a valid byte string is the encoding of what it decodes to. */
  lemma {:induction false} EncodeOfDecoded(bytes: seq<Byte>)
    requires Decode(bytes).Some?
    ensures Encode(Decode(bytes).value) == bytes
    decreases |bytes|
  {
    hide EncodeOne, First;
    if bytes != [] {
      EncodedOfFirst(bytes);
      var c := First(bytes).value;
      var rest := Decode(bytes[c.length..]).value;
      EncodeOfDecoded(bytes[c.length..]);
      EncodeCons(c.scalar, rest);
    }
  }

  lemma {:induction false} EncodeConcat(x: seq<Scalar>, y: seq<Scalar>)
    ensures Encode(x + y) == Encode(x) + Encode(y)
    decreases |x|
  {
    hide EncodeOne;
    if x == [] {
      assert x + y == y;
    } else {
      assert (x + y)[1..] == x[1..] + y;
      EncodeConcat(x[1..], y);
    }
  }

  /** Valid byte strings join to valid byte strings, and their texts join with them. */
  lemma DecodeConcat(a: seq<Byte>, b: seq<Byte>)
    requires Decode(a).Some? && Decode(b).Some?
    ensures Decode(a + b) == Some(Decode(a).value + Decode(b).value)
  {
    hide Encode, Decode;
    EncodeOfDecoded(a);
    EncodeOfDecoded(b);
    EncodeConcat(Decode(a).value, Decode(b).value);
    DecodeOfEncoded(Decode(a).value + Decode(b).value);
  }

  /** The first character is decided by its own octets. */
  lemma FirstOfPrefix(a: seq<Byte>, b: seq<Byte>)
    requires a != [] && First(a + b).Some?
    ensures First(a + b).value.length <= |a| ==> First(a) == First(a + b)
    ensures First(a + b).value.length > |a| ==> First(a).None? && Continuation(b[0])
  {
    var bytes, n := a + b, Announced(a[0]);
    hide Announced, Continuation, IsScalar, Least, Shift;
    assert forall i :: 0 <= i < |a| ==> bytes[i] == a[i];
    if n <= |a| {
      assert Payload(bytes, n) == Payload(a, n);
    } else {
      assert bytes[|a|] == b[0] && 1 <= |a| < n;
    }
  }

  /** A byte string that does not begin in the middle of a character. */
  predicate StartsCharacter(bytes: seq<Byte>) { bytes == [] || !Continuation(bytes[0]) }

  lemma ValidStart(bytes: seq<Byte>)
    requires Decode(bytes).Some?
    ensures StartsCharacter(bytes)
  {
  }

  /** A string is valid when its first character is and what follows it is. */
  lemma ValidTail(bytes: seq<Byte>, n: nat)
    requires bytes != [] && 1 <= n <= |bytes|
    requires First(bytes).Some? && First(bytes).value.length == n
    ensures Decode(bytes).Some? <==> Decode(bytes[n..]).Some?
  {
    hide First;
  }

  lemma NoFirstCharacter(bytes: seq<Byte>)
    requires bytes != [] && First(bytes).None?
    ensures Decode(bytes).None?
  {
  }

  /** Where a valid byte string may be cut: its two parts are valid, each of them, exactly when
      the second does not begin with a continuation octet. */
  lemma {:induction false} CutsBetweenCharacters(a: seq<Byte>, b: seq<Byte>)
    requires Decode(a + b).Some?
    ensures Decode(a).Some? <==> StartsCharacter(b)
    ensures Decode(b).Some? <==> StartsCharacter(b)
    decreases |a|
  {
    if a == [] {
      assert a + b == b;
      ValidStart(b);
    } else {
      CutBehindFirst(a, b);
    }
  }

  lemma {:induction false} CutBehindFirst(a: seq<Byte>, b: seq<Byte>)
    requires Decode(a + b).Some? && a != []
    ensures Decode(a).Some? <==> StartsCharacter(b)
    ensures Decode(b).Some? <==> StartsCharacter(b)
    decreases |a|, 0
  {
    if First(a + b).None? {
      NoFirstCharacter(a + b);
    }
    FirstOfPrefix(a, b);
    EncodedOfFirst(a + b);
    hide First, Decode, EncodeOne, Continuation;
    var n := First(a + b).value.length;
    if Decode(b).Some? {
      ValidStart(b);
    }
    if n <= |a| {
      assert (a + b)[n..] == a[n..] + b;
      ValidTail(a + b, n);
      ValidTail(a, n);
      CutsBetweenCharacters(a[n..], b);
    } else {
      NoFirstCharacter(a);
    }
  }
}
