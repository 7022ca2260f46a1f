/**
 * `btoa` and `atob`: the base64 encoding of section 4 of RFC 4648 (alphabet
 * A-Z a-z 0-9 + /, padded with '=' to a multiple of four characters), and the
 * forgiving decoder browsers use for `atob`, which also accepts white space and
 * missing padding and fails (throws) on anything else.
 */
module Base64 {
  import opened Wrappers
  import opened CodeUnits

  /** A 6-bit value, one character of base64 text. */
  type Sextet = x: bv8 | x < 64

  const Pad: CodeUnit := 0x3D  // '='

  /** The character for a 6-bit value (Table 1 of RFC 4648). */
  function AlphabetChar(v: Sextet): CodeUnit {
    if v < 26 then 0x41 + Widen(v)             // 'A'..'Z'
    else if v < 52 then 0x61 + (Widen(v) - 26) // 'a'..'z'
    else if v < 62 then 0x30 + (Widen(v) - 52) // '0'..'9'
    else if v == 62 then 0x2B                  // '+'
    else 0x2F                                  // '/'
  }

  /** The 6-bit value of an alphabet character, `None` for any other code unit. */
  function SextetOf(u: CodeUnit): Option<Sextet> {
    if 0x41 <= u <= 0x5A then Some(Narrow(u - 0x41))
    else if 0x61 <= u <= 0x7A then Some(Narrow(u - 0x61) + 26)
    else if 0x30 <= u <= 0x39 then Some(Narrow(u - 0x30) + 52)
    else if u == 0x2B then Some(62)
    else if u == 0x2F then Some(63)
    else None
  }

  lemma AlphabetCharDecodes(v: Sextet)
    ensures SextetOf(AlphabetChar(v)) == Some(v)
  {
  }

  /** The ASCII white space the forgiving decoder skips: TAB, LF, FF, CR and SPACE. */
  predicate IsAsciiWhitespace(u: CodeUnit) {
    u == 0x09 || u == 0x0A || u == 0x0C || u == 0x0D || u == 0x20
  }

  // Splitting three bytes into four 6-bit values and back.
  function S0(b0: Byte): Sextet { b0 >> 2 }
  function S1(b0: Byte, b1: Byte): Sextet { ((b0 & 3) << 4) | (b1 >> 4) }
  function S2(b1: Byte, b2: Byte): Sextet { ((b1 & 15) << 2) | (b2 >> 6) }
  function S3(b2: Byte): Sextet { b2 & 63 }
  function B0(s0: Sextet, s1: Sextet): Byte { (s0 << 2) | (s1 >> 4) }
  function B1(s1: Sextet, s2: Sextet): Byte { ((s1 & 15) << 4) | (s2 >> 2) }
  function B2(s2: Sextet, s3: Sextet): Byte { ((s2 & 3) << 6) | s3 }

  /** The 6-bit values of `b`, three bytes at a time; a final group of one or two bytes is zero-filled. */
  function ToSextets(b: seq<Byte>): (r: seq<Sextet>)
    decreases |b|
  {
    if |b| == 0 then []
    else if |b| == 1 then [S0(b[0]), S1(b[0], 0)]
    else if |b| == 2 then [S0(b[0]), S1(b[0], b[1]), S2(b[1], 0)]
    else [S0(b[0]), S1(b[0], b[1]), S2(b[1], b[2]), S3(b[2])] + ToSextets(b[3..])
  }

  /** The bytes of a run of 6-bit values, four at a time; a final run of 2 or 3 values
      gives 1 or 2 bytes and its spare bits are discarded. */
  function FromSextets(s: seq<Sextet>): seq<Byte>
    decreases |s|
  {
    if |s| < 2 then []
    else if |s| == 2 then [B0(s[0], s[1])]
    else if |s| == 3 then [B0(s[0], s[1]), B1(s[1], s[2])]
    else [B0(s[0], s[1]), B1(s[1], s[2]), B2(s[2], s[3])] + FromSextets(s[4..])
  }

  function Chars(s: seq<Sextet>): (r: JsString)
    ensures |r| == |s|
    ensures forall i :: 0 <= i < |s| ==> r[i] == AlphabetChar(s[i])
  {
    if s == [] then [] else [AlphabetChar(s[0])] + Chars(s[1..])
  }

  /** The '=' characters that complete the last group of four. */
  function Padding(n: nat): JsString {
    if n % 3 == 1 then [Pad, Pad] else if n % 3 == 2 then [Pad] else []
  }

  /** `btoa` of the Latin-1 string with these bytes. */
  function Encode(b: seq<Byte>): (r: JsString)
    ensures |r| == 4 * ((|b| + 2) / 3)
  {
    SextetCount(b);
    Chars(ToSextets(b)) + Padding(|b|)
  }

  function RemoveWhitespace(d: JsString): (r: JsString) {
    if d == [] then []
    else (if IsAsciiWhitespace(d[0]) then [] else [d[0]]) + RemoveWhitespace(d[1..])
  }

  /** Drops one or two trailing '='. */
  function StripPadding(d: JsString): JsString {
    if |d| >= 2 && d[|d| - 1] == Pad && d[|d| - 2] == Pad then d[..|d| - 2]
    else if |d| >= 1 && d[|d| - 1] == Pad then d[..|d| - 1]
    else d
  }

  /** The 6-bit values of a text, `None` if some character is outside the alphabet. */
  function DecodeChars(d: JsString): Option<seq<Sextet>> {
    if d == [] then Some([])
    else
      var head := SextetOf(d[0]);
      var rest := DecodeChars(d[1..]);
      if head.None? || rest.None? then None else Some([head.value] + rest.value)
  }

  /** `atob`: the forgiving-base64 decode; `None` where `atob` throws. */
  function Decode(data: JsString): Option<seq<Byte>> {
    var d := RemoveWhitespace(data);
    var d' := if |d| % 4 == 0 then StripPadding(d) else d;
    if |d'| % 4 == 1 then None
    else match DecodeChars(d')
      case None => None
      case Some(s) => Some(FromSextets(s))
  }

  // ---- the round trip ------------------------------------------------------

  lemma {:induction false} SextetCount(b: seq<Byte>)
    ensures |ToSextets(b)| == 4 * (|b| / 3) + (if |b| % 3 == 0 then 0 else |b| % 3 + 1)
    decreases |b|
  {
    if |b| > 2 {
      SextetCount(b[3..]);
    }
  }

  /** The bit-level facts: splitting bytes into 6-bit values and joining them back is the identity,
      also for a zero-filled last group. */
  lemma BitsRoundTrip(b0: Byte, b1: Byte, b2: Byte)
    ensures B0(S0(b0), S1(b0, b1)) == b0
    ensures B1(S1(b0, b1), S2(b1, b2)) == b1
    ensures B2(S2(b1, b2), S3(b2)) == b2
  {
  }

  lemma {:induction false} SextetsRoundTrip(b: seq<Byte>)
    ensures FromSextets(ToSextets(b)) == b
    decreases |b|
  {
    if |b| == 0 {
    } else if |b| == 1 {
      BitsRoundTrip(b[0], 0, 0);
    } else if |b| == 2 {
      BitsRoundTrip(b[0], b[1], 0);
    } else {
      BitsRoundTrip(b[0], b[1], b[2]);
      var rest := ToSextets(b[3..]);
      var s := [S0(b[0]), S1(b[0], b[1]), S2(b[1], b[2]), S3(b[2])] + rest;
      assert ToSextets(b) == s;
      SextetCount(b[3..]);
      assert s[4..] == rest;
      SextetsRoundTrip(b[3..]);
      assert FromSextets(s) == [b[0], b[1], b[2]] + b[3..];
    }
  }

  lemma {:induction false} CharsDecode(s: seq<Sextet>)
    ensures DecodeChars(Chars(s)) == Some(s)
    decreases |s|
  {
    if s != [] {
      CharsDecode(s[1..]);
      AlphabetCharDecodes(s[0]);
      DecodeCons(AlphabetChar(s[0]), Chars(s[1..]), s[0], s[1..]);
      assert Chars(s) == [AlphabetChar(s[0])] + Chars(s[1..]);
      assert [s[0]] + s[1..] == s;
    }
  }

  /** Decoding one more character in front. */
  lemma DecodeCons(u: CodeUnit, t: JsString, v: Sextet, w: seq<Sextet>)
    requires SextetOf(u) == Some(v) && DecodeChars(t) == Some(w)
    ensures DecodeChars([u] + t) == Some([v] + w)
  {
    assert ([u] + t)[1..] == t;
  }

  lemma {:induction false} NoWhitespaceUnchanged(d: JsString)
    requires forall i :: 0 <= i < |d| ==> !IsAsciiWhitespace(d[i])
    ensures RemoveWhitespace(d) == d
    decreases |d|
  {
    if d != [] {
      NoWhitespaceUnchanged(d[1..]);
    }
  }

  /** Base64 text holds no white space and no '=' before its padding. */
  lemma EncodeShape(b: seq<Byte>)
    ensures var e := Encode(b); forall i :: 0 <= i < |e| ==> !IsAsciiWhitespace(e[i])
    ensures forall i :: 0 <= i < |Chars(ToSextets(b))| ==> Chars(ToSextets(b))[i] != Pad
  {
    var s := ToSextets(b);
    var body := Chars(s);
    forall i | 0 <= i < |body| ensures body[i] != Pad && !IsAsciiWhitespace(body[i]) {
      AlphabetCharDecodes(s[i]);
    }
  }

  /** Removing the padding of base64 text leaves the encoded characters. */
  lemma StripEncodePadding(b: seq<Byte>)
    ensures StripPadding(Encode(b)) == Chars(ToSextets(b))
  {
    var body := Chars(ToSextets(b));
    EncodeShape(b);
    var e := Encode(b);
    assert e == body + Padding(|b|);
    SextetCount(b);
    if |b| % 3 == 1 {
      assert e[..|e| - 2] == body;
    } else if |b| % 3 == 2 {
      assert e[..|e| - 1] == body;
    } else {
      assert e == body;
    }
  }

  /** `atob(btoa(x)) === x` for every Latin-1 string x. */
  lemma DecodeEncode(b: seq<Byte>)
    ensures Decode(Encode(b)) == Some(b)
  {
    var s := ToSextets(b);
    var e := Encode(b);
    EncodeShape(b);
    NoWhitespaceUnchanged(e);
    StripEncodePadding(b);
    EncodedLength(b);
    CharsDecode(s);
    SextetsRoundTrip(b);
    DecodeCanonical(e, Chars(s), s);
  }

  lemma MultipleOfFour(n: int)
    ensures (4 * n) % 4 == 0
  {
  }

  lemma EncodedLength(b: seq<Byte>)
    ensures |Encode(b)| % 4 == 0
    ensures |Chars(ToSextets(b))| % 4 != 1
  {
    SextetCount(b);
    var k := |b| / 3;
    assert |Encode(b)| == 4 * ((|b| + 2) / 3);
    MultipleOfFour((|b| + 2) / 3);
    if |b| % 3 == 0 {
      MultipleOfFour(k);
    } else {
      assert |Chars(ToSextets(b))| == 4 * k + (|b| % 3 + 1);
    }
  }

  /** How `atob` reads text that has no white space and whose length is a multiple of four. */
  lemma DecodeCanonical(e: JsString, body: JsString, s: seq<Sextet>)
    requires RemoveWhitespace(e) == e && |e| % 4 == 0
    requires StripPadding(e) == body && |body| % 4 != 1
    requires DecodeChars(body) == Some(s)
    ensures Decode(e) == Some(FromSextets(s))
  {
  }
}
