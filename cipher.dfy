/**
 * The vault's cipher: every code unit of the text is XORed with the code unit
 * of the passphrase at the same position modulo the passphrase length, and the
 * result is base64-encoded with `btoa`; decryption undoes both steps and yields
 * the empty string where `atob` throws.
 */
module Cipher {
  import opened Wrappers
  import opened CodeUnits
  import Base64

  /** `p.charCodeAt(i % p.length)` as `^` sees it: for the empty passphrase `i % 0` is NaN,
      `charCodeAt(NaN)` is NaN and `^` reads NaN as 0. */
  function KeyAt(p: JsString, i: nat): (r: CodeUnit)
    ensures |p| == 0 ==> r == 0
    ensures |p| > 0 ==> r in p
  {
    if |p| == 0 then 0 else p[i % |p|]
  }

  /** The split/map/join shared by `encrypt` and `decrypt`: the text and the result differ,
      unit by unit, by exactly the key. */
  function XorStream(s: JsString, p: JsString): (r: JsString)
    ensures |r| == |s|
    ensures forall i :: 0 <= i < |s| ==> r[i] ^ s[i] == KeyAt(p, i)
  {
    seq(|s|, i requires 0 <= i < |s| => s[i] ^ KeyAt(p, i))
  }

  /** Applying the keystream twice gives back the text. */
  lemma XorStreamInvolutive(s: JsString, p: JsString)
    ensures XorStream(XorStream(s, p), p) == s
  {
    var x := XorStream(s, p);
    var y := XorStream(x, p);
    forall i | 0 <= i < |s|
      ensures y[i] == s[i]
    {
      assert y[i] == x[i] ^ KeyAt(p, i) == (s[i] ^ KeyAt(p, i)) ^ KeyAt(p, i);
    }
  }

  /** `encrypt`; `None` where `btoa` throws because some XORed unit is above 255. */
  function Encrypt(data: JsString, p: JsString): (r: Option<JsString>)
    ensures r.Some? <==> forall i :: 0 <= i < |data| ==> data[i] ^ KeyAt(p, i) < 0x100
    ensures r.Some? ==> |r.value| == 4 * ((|data| + 2) / 3)
  {
    var x := XorStream(data, p);
    assert |x| == |data| && forall i :: 0 <= i < |data| ==> x[i] == data[i] ^ KeyAt(p, i);
    if IsLatin1(x) then Some(Base64.Encode(ToBytes(x))) else None
  }

  /** `decrypt`: never throws; the empty string when `atob` rejects its input. */
  function Decrypt(data: JsString, p: JsString): (r: JsString)
    ensures Base64.Decode(data).None? ==> r == []
    ensures Base64.Decode(data).Some? ==> |r| == |Base64.Decode(data).value|
  {
    match Base64.Decode(data)
    case None => []
    case Some(b) => XorStream(FromBytes(b), p)
  }

  /** `decrypt(encrypt(s, p), p) === s` whenever `encrypt` does not throw, for every
      passphrase, the empty one included. */
  lemma DecryptEncrypt(s: JsString, p: JsString)
    requires Encrypt(s, p).Some?
    ensures Decrypt(Encrypt(s, p).value, p) == s
  {
    var x := XorStream(s, p);
    Base64.DecodeEncode(ToBytes(x));
    Latin1RoundTrip(x);
    XorStreamInvolutive(s, p);
  }

  /** `encrypt` never throws on Latin-1 text under a Latin-1 passphrase. */
  lemma EncryptLatin1(s: JsString, p: JsString)
    requires IsLatin1(s) && IsLatin1(p)
    ensures Encrypt(s, p).Some?
  {
    forall i | 0 <= i < |s| ensures s[i] ^ KeyAt(p, i) < 0x100 {
      assert KeyAt(p, i) < 0x100;
    }
  }

  /** The ciphertext of a non-empty text is non-empty (so the vault never reads it as "no blob"). */
  lemma EncryptNonEmpty(s: JsString, p: JsString)
    requires |s| > 0 && Encrypt(s, p).Some?
    ensures |Encrypt(s, p).value| > 0
  {
  }

  /** A passphrase unit above 255 can make `encrypt` throw: "a" under a passphrase made of
      the euro sign (U+20AC) XORs to 0x20CD, which `btoa` rejects. */
  lemma NonLatin1PassphraseThrows()
    ensures Encrypt([0x61], [0x20AC]).None?
  {
    assert KeyAt([0x20AC], 0) == 0x20AC;
    assert (0x61 as CodeUnit) ^ 0x20AC == 0x20CD;
  }
}
