/**
 * The master-password fingerprint: the SHA-256 digest of the passphrase (an
 * injected function here) written as lower-case hexadecimal, two digits per
 * byte (`b.toString(16).padStart(2, '0')`, joined).
 */
module MasterKey {
  import opened Wrappers
  import opened CodeUnits

  /** A SHA-256 digest: 32 bytes (FIPS 180-4). */
  type Digest = d: seq<Byte> | |d| == 32 witness seq(32, _ => 0)

  /** The SHA-256 digest of the UTF-8 bytes of a passphrase (`TextEncoder` then `crypto.subtle.digest`). */
  type Sha256 = JsString -> Digest

  /** A lower-case hexadecimal digit for a value below 16. */
  function HexDigit(n: Byte): (u: CodeUnit)
    requires n < 16
    ensures IsHexDigit(u)
  {
    if n < 10 then 0x30 + Widen(n) else 0x57 + Widen(n)
  }

  /** '0'..'9' or 'a'..'f'. */
  predicate IsHexDigit(u: CodeUnit) {
    (0x30 <= u <= 0x39) || (0x61 <= u <= 0x66)
  }

  /** The value of a lower-case hexadecimal digit. */
  function HexValue(u: CodeUnit): Option<Byte> {
    if 0x30 <= u <= 0x39 then Some(Narrow(u - 0x30))
    else if 0x61 <= u <= 0x66 then Some(Narrow(u - 0x57))
    else None
  }

  lemma HexDigitValue(n: Byte)
    requires n < 16
    ensures HexValue(HexDigit(n)) == Some(n)
  {
  }

  /** `b.toString(16)`: no leading zero. */
  function ToHexString(b: Byte): (r: JsString) {
    if b < 16 then [HexDigit(b)] else [HexDigit(b >> 4), HexDigit(b & 15)]
  }

  /** `s.padStart(2, '0')`. */
  function PadStart2(s: JsString): (r: JsString)
    decreases 2 - |s|
  {
    if |s| >= 2 then s else PadStart2([0x30] + s)
  }

  function HexByte(b: Byte): JsString {
    PadStart2(ToHexString(b))
  }

  /** After padding every byte is exactly two digits, high nibble first. */
  lemma HexByteDigits(b: Byte)
    ensures HexByte(b) == [HexDigit(b >> 4), HexDigit(b & 15)]
  {
    if b < 16 {
      assert b >> 4 == 0 && b & 15 == b;
      assert PadStart2([HexDigit(b)]) == [0x30, HexDigit(b)];
    }
  }

  /** `Array.from(bytes).map(b => b.toString(16).padStart(2, '0')).join('')`. */
  function HexEncode(d: seq<Byte>): (r: JsString)
    ensures |r| == 2 * |d|
    ensures forall i :: 0 <= i < |r| ==> IsHexDigit(r[i])
  {
    if d == [] then []
    else
      HexByteDigits(d[0]);
      HexByte(d[0]) + HexEncode(d[1..])
  }

  /** The inverse of `HexEncode`: pairs of lower-case digits back to bytes. */
  function HexDecode(h: JsString): Option<seq<Byte>>
    decreases |h|
  {
    if h == [] then Some([])
    else if |h| == 1 then None
    else
      var hi := HexValue(h[0]);
      var lo := HexValue(h[1]);
      var rest := HexDecode(h[2..]);
      if hi.None? || lo.None? || rest.None? || hi.value >= 16 || lo.value >= 16 then None
      else Some([(hi.value << 4) | lo.value] + rest.value)
  }

  lemma {:induction false} HexDecodeEncode(d: seq<Byte>)
    ensures HexDecode(HexEncode(d)) == Some(d)
    decreases |d|
  {
    if d != [] {
      var b := d[0];
      HexByteDigits(b);
      HexDigitValue(b >> 4);
      HexDigitValue(b & 15);
      var h := HexEncode(d);
      assert h == [HexDigit(b >> 4), HexDigit(b & 15)] + HexEncode(d[1..]);
      assert h[2..] == HexEncode(d[1..]);
      HexDecodeEncode(d[1..]);
      assert ((b >> 4) << 4) | (b & 15) == b;
      assert [b] + d[1..] == d;
    }
  }

  /** Distinct digests have distinct hexadecimal forms. */
  lemma HexEncodeInjective(a: seq<Byte>, b: seq<Byte>)
    requires HexEncode(a) == HexEncode(b)
    ensures a == b
  {
    HexDecodeEncode(a);
    HexDecodeEncode(b);
  }

  /** `hashPassword`: 64 lower-case hexadecimal digits. */
  function HashPassword(sha: Sha256, password: JsString): (r: JsString)
    ensures |r| == 64
    ensures forall i :: 0 <= i < |r| ==> IsHexDigit(r[i])
  {
    HexEncode(sha(password))
  }

  /** `verifyPassword`: the candidate's hash equals the stored one, so only 64 hexadecimal
      digits can verify. */
  function VerifyPassword(sha: Sha256, password: JsString, hash: JsString): (r: bool)
    ensures r ==> |hash| == 64 && forall i :: 0 <= i < |hash| ==> IsHexDigit(hash[i])
  {
    HashPassword(sha, password) == hash
  }

  /** A candidate verifies against the stored hash of `password` exactly when the two digests
      agree; in particular `password` itself always verifies. */
  lemma VerifyIffSameDigest(sha: Sha256, password: JsString, candidate: JsString)
    ensures VerifyPassword(sha, candidate, HashPassword(sha, password)) <==> sha(candidate) == sha(password)
  {
    if VerifyPassword(sha, candidate, HashPassword(sha, password)) {
      HexEncodeInjective(sha(candidate), sha(password));
    }
  }
}
