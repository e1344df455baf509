/**
 * The keyless obfuscation of src/utils/crypto.ts: `encrypt` is base64 over
 * the percent-encoded text, `decrypt` undoes both steps, and each returns its
 * input unchanged when a step throws. It is an encoding, not a cipher.
 */
module Crypto {
  import opened Wrappers
  import opened JsText
  import Uri
  import Base64

  /** `encrypt(value)`: `btoa(encodeURIComponent(value))`, or `value` itself if that throws. */
  function Encrypt(value: JsString): (r: JsString)
    ensures !WellFormed(value) ==> r == value
  {
    match Uri.EncodeURIComponent(value)
    case None => value
    case Some(p) =>
      match Base64.Btoa(p)
      case None => value
      case Some(b) => b
  }

  /** `decrypt(value)`: `decodeURIComponent(atob(value))`, or `value` itself if that throws. */
  function Decrypt(value: JsString): (r: JsString)
    ensures Base64.Atob(value).None? ==> r == value
    ensures Base64.Atob(value).Some? && Uri.DecodeURIComponent(Base64.Atob(value).value).None? ==> r == value
  {
    match Base64.Atob(value)
    case None => value
    case Some(b) =>
      match Uri.DecodeURIComponent(b)
      case None => value
      case Some(t) => t
  }

  /** Percent-encoded text is ASCII, so `btoa` never throws inside `encrypt`. */
  lemma EncodedIsLatin1(value: JsString)
    requires WellFormed(value)
    ensures Base64.Latin1(Uri.EncodeURIComponent(value).value)
  {
    Uri.EncodedUnits(value);
  }

  /**
   * For a well-formed string, `encrypt` is exactly base64 of the
   * percent-encoding, written in the base64 alphabet and `=`.
   */
  lemma EncryptIsBase64(value: JsString)
    requires WellFormed(value)
    ensures Base64.Btoa(Uri.EncodeURIComponent(value).value).Some?
    ensures Encrypt(value) == Base64.Btoa(Uri.EncodeURIComponent(value).value).value
    ensures forall i :: 0 <= i < |Encrypt(value)| ==>
      Base64.InAlphabet(Encrypt(value)[i]) || Encrypt(value)[i] == Base64.PAD
  {
    EncodedIsLatin1(value);
    Base64.BtoaAlphabet(Uri.EncodeURIComponent(value).value);
  }

  /** `decrypt(encrypt(v)) === v` for every string without a lone surrogate. */
  lemma DecryptEncrypt(value: JsString)
    requires WellFormed(value)
    ensures Decrypt(Encrypt(value)) == value
  {
    var p := Uri.EncodeURIComponent(value).value;
    EncodedIsLatin1(value);
    Base64.AtobBtoa(p);
    Uri.DecodeEncode(value);
  }

  /** `encrypt` maps the empty string, and only it, to the empty string. */
  lemma EncryptNonEmpty(value: JsString)
    ensures Encrypt(value) != [] <==> value != []
  {
    if WellFormed(value) {
      Uri.EncodingGrows(value);
      EncodedIsLatin1(value);
    }
  }

  /** `encrypt` yields well-formed text exactly when it is given well-formed text. */
  lemma EncryptWellFormed(value: JsString)
    ensures WellFormed(Encrypt(value)) <==> WellFormed(value)
  {
    if WellFormed(value) {
      EncryptIsBase64(value);
      var r := Encrypt(value);
      forall i | 0 <= i < |r| ensures !IsHighSurrogate(r[i]) && !IsLowSurrogate(r[i]) {
      }
      NoSurrogatesWellFormed(r);
    }
  }
}
