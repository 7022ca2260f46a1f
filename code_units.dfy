/**
 * JavaScript strings as the cipher sees them: sequences of UTF-16 code
 * units (`charCodeAt`, `String.fromCharCode`), and the bytes that `btoa`
 * and `atob` exchange with base64 text.
 */
module CodeUnits {

  type Byte = bv8

  type CodeUnit = bv16

  /** A JavaScript string: its UTF-16 code units. */
  type JsString = seq<CodeUnit>

  /** Every code unit is below 256: the strings `btoa` accepts and `atob` produces. */
  predicate IsLatin1(s: JsString) {
    forall i :: 0 <= i < |s| ==> s[i] < 0x100
  }

  /** `String.fromCharCode` of a byte. */
  function Widen(b: Byte): (u: CodeUnit)
    ensures u < 0x100
  {
    b as CodeUnit
  }

  /** The byte of a code unit below 256. */
  function Narrow(u: CodeUnit): (b: Byte)
    requires u < 0x100
    ensures Widen(b) == u
  {
    u as Byte
  }

  /** The Latin-1 string whose code units are the given bytes. */
  function FromBytes(b: seq<Byte>): (r: JsString)
    ensures |r| == |b| && IsLatin1(r)
  {
    seq(|b|, i requires 0 <= i < |b| => Widen(b[i]))
  }

  /** The bytes of a Latin-1 string. */
  function ToBytes(s: JsString): (r: seq<Byte>)
    requires IsLatin1(s)
    ensures |r| == |s|
  {
    seq(|s|, i requires 0 <= i < |s| => Narrow(s[i]))
  }

  lemma Latin1RoundTrip(s: JsString)
    requires IsLatin1(s)
    ensures FromBytes(ToBytes(s)) == s
  {
  }
}
