/**
 * The envelope utilities of src/utils/index.ts: the expiry test, key
 * namespacing, and the three ways stored text becomes an item again (strict
 * decoding, bare JSON, raw string).
 */
module Envelope {
  import opened Wrappers
  import opened JsText
  import opened JsonValue
  import opened StorageTypes
  import Crypto

  // ---------------------------------------------------------------------
  // isExpired

  /**
   * `isExpired(item)` at instant `now`: a falsy `expires` (absent, `0`) never
   * expires; otherwise the item has expired once strictly more than
   * `expires` ms have passed since `timestamp`.
   */
  function IsExpired(item: Json, now: int): (r: bool)
    ensures !Truthy(Prop(item, ExpiresKey())) ==> !r
  {
    var expires := Prop(item, ExpiresKey());
    if !Truthy(expires) then false
    else
      match (ToNumber(Prop(item, TimestampKey())), ToNumber(expires))
      case (Some(t), Some(e)) => now - t > e
      case _ => false
  }

  /** On an envelope the core wrote itself, expiry is exactly the strict TTL test. */
  lemma ItemExpiry(item: Item, now: int)
    ensures IsExpired(ToJson(item), now) <==>
      item.expires.Some? && item.expires.value != 0 && now - item.timestamp > item.expires.value
  {
  }

  /** Once expired, an item stays expired as time goes on. */
  lemma ExpiryIsPermanent(item: Json, now: int, later: int)
    requires IsExpired(item, now) && now <= later
    ensures IsExpired(item, later)
  {
  }

  // ---------------------------------------------------------------------
  // namespaceKey

  function Colon(): CodeUnit { Unit(':') }

  /** `namespaceKey(key, ns)`: `ns:key` for a non-empty namespace, `key` itself otherwise. */
  function NamespaceKey(key: JsString, ns: JsString): (r: JsString)
    ensures ns == [] ==> r == key
    ensures ns != [] ==> StartsWith(r, ns + [Colon()]) && r[|ns| + 1..] == key
  {
    if ns != [] then ns + [Colon()] + key else key
  }

  /** Within one namespace, distinct keys never share a stored key. */
  lemma NamespaceKeyInjective(k1: JsString, k2: JsString, ns: JsString)
    requires NamespaceKey(k1, ns) == NamespaceKey(k2, ns)
    ensures k1 == k2
  {
    if ns != [] {
      assert k1 == NamespaceKey(k1, ns)[|ns| + 1..];
    }
  }

  // ---------------------------------------------------------------------
  // serializeItem / deserializeItem

  /** `serializeItem(item, shouldEncrypt)`: the JSON text, obfuscated when asked. */
  function SerializeItem(item: Item, shouldEncrypt: bool, json: JsonCodec): (r: JsString)
    ensures Lawful(json) ==> r != []
  {
    var serialized := json.stringify(ToJson(item));
    Crypto.EncryptNonEmpty(serialized);
    if shouldEncrypt then Crypto.Encrypt(serialized) else serialized
  }

  /** Serialized text is well-formed UTF-16, so percent-encoding it never fails. */
  lemma SerializedWellFormed(item: Item, shouldEncrypt: bool, json: JsonCodec)
    requires Lawful(json)
    ensures WellFormed(SerializeItem(item, shouldEncrypt, json))
  {
    var serialized := json.stringify(ToJson(item));
    assert WellFormed(serialized);
    Crypto.EncryptWellFormed(serialized);
  }

  /**
   * `deserializeItem(data, isEncrypted)`: de-obfuscate when asked, then parse;
   * a parse failure throws `Invalid storage item format`. The parsed value is
   * returned whatever its shape.
   */
  function DeserializeItem(data: JsString, isEncrypted: bool, json: JsonCodec): (r: Result<Json>)
    ensures r.Err? ==> r.error == InvalidFormat
    ensures !isEncrypted ==> (r.Ok? <==> json.parse(data).Some?)
  {
    var text := if isEncrypted then Crypto.Decrypt(data) else data;
    match json.parse(text)
    case Some(j) => Ok(j)
    case None => Err(InvalidFormat)
  }

  /** `deserializeItem(serializeItem(item, e), e)` gives back the item, with or without obfuscation. */
  lemma DeserializeSerialize(item: Item, shouldEncrypt: bool, json: JsonCodec)
    requires Lawful(json)
    ensures DeserializeItem(SerializeItem(item, shouldEncrypt, json), shouldEncrypt, json) == Ok(ToJson(item))
  {
    var serialized := json.stringify(ToJson(item));
    assert WellFormed(serialized) && json.parse(serialized) == Some(ToJson(item));
    if shouldEncrypt {
      Crypto.DecryptEncrypt(serialized);
    }
  }

  // ---------------------------------------------------------------------
  // parseStorageItem

  /** An object with both `value` and `timestamp`: what the strict step accepts as an item. */
  predicate IsEnvelope(j: Json) {
    j.JObj? && ValueKey() in j.fields && TimestampKey() in j.fields
  }

  /** An envelope is an object in which both `value` and `timestamp` are present; every written item is one. */
  lemma EnvelopeFields(j: Json, item: Item)
    ensures IsEnvelope(j) <==> j.JObj? && Prop(j, ValueKey()).Some? && Prop(j, TimestampKey()).Some?
    ensures IsEnvelope(ToJson(item))
  {
  }

  /** The value of a non-envelope entry: the raw text parsed as JSON, or the raw text itself. */
  function FallbackValue(data: JsString, json: JsonCodec): (v: Json)
    ensures json.parse(data).None? ==> v == JStr(data)
  {
    match json.parse(data)
    case Some(v) => v
    case None => JStr(data)
  }

  /**
   * `parseStorageItem(data, isEncrypted)` at instant `now`: `undefined` for
   * empty text; a strictly decoded envelope as it is; anything else wrapped
   * as a fresh item without expiry.
   */
  function ParseStorageItem(data: JsString, isEncrypted: bool, now: int, json: JsonCodec): (r: Option<Json>)
    ensures r.None? <==> data == []
    ensures r.Some? ==> IsEnvelope(r.value)
    ensures data != [] && DeserializeItem(data, isEncrypted, json).Ok? && IsEnvelope(DeserializeItem(data, isEncrypted, json).value)
      ==> r == Some(DeserializeItem(data, isEncrypted, json).value)
    ensures data != [] && !(DeserializeItem(data, isEncrypted, json).Ok? && IsEnvelope(DeserializeItem(data, isEncrypted, json).value))
      ==> r == Some(ToJson(Item(FallbackValue(data, json), now, None)))
  {
    if data == [] then None
    else
      var strict := DeserializeItem(data, isEncrypted, json);
      if strict.Ok? && IsEnvelope(strict.value) then Some(strict.value)
      else Some(ToJson(Item(FallbackValue(data, json), now, None)))
  }

  /** What the core wrote comes back unchanged through the lenient decoder. */
  lemma ParseSerialized(item: Item, shouldEncrypt: bool, now: int, json: JsonCodec)
    requires Lawful(json)
    ensures ParseStorageItem(SerializeItem(item, shouldEncrypt, json), shouldEncrypt, now, json) == Some(ToJson(item))
  {
    DeserializeSerialize(item, shouldEncrypt, json);
  }

  /**
   * The fallback wraps the RAW text: its value is `data` parsed as JSON (not
   * the de-obfuscated text), or `data` itself, stamped `now`, without expiry.
   */
  lemma FallbackParsesRawData(data: JsString, isEncrypted: bool, now: int, json: JsonCodec)
    requires data != []
    requires var strict := DeserializeItem(data, isEncrypted, json); !(strict.Ok? && IsEnvelope(strict.value))
    ensures var r := ParseStorageItem(data, isEncrypted, now, json).value;
      && Prop(r, ValueKey()) == Some(if json.parse(data).Some? then json.parse(data).value else JStr(data))
      && Prop(r, TimestampKey()) == Some(JNum(now))
      && Prop(r, ExpiresKey()) == None
  {
  }

  /** A wrapped fallback item never expires. */
  lemma FallbackNeverExpires(data: JsString, isEncrypted: bool, now: int, later: int, json: JsonCodec)
    requires data != []
    requires var strict := DeserializeItem(data, isEncrypted, json); !(strict.Ok? && IsEnvelope(strict.value))
    ensures !IsExpired(ParseStorageItem(data, isEncrypted, now, json).value, later)
  {
  }
}
