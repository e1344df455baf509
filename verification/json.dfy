/**
 * JSON values as `JSON.parse` yields them, and the few JavaScript coercions
 * the storage core applies to them (property access, truthiness, `ToNumber`).
 * `JSON.stringify` and `JSON.parse` themselves are a codec passed in as a
 * value; only their round-trip law is assumed of it, as a precondition.
 */
module JsonValue {
  import opened Wrappers
  import opened JsText

  /** A parsed JSON value. Numbers are integers in this model. */
  datatype Json =
    | JNull
    | JBool(b: bool)
    | JNum(n: int)
    | JStr(s: JsString)
    | JArr(items: seq<Json>)
    | JObj(fields: map<JsString, Json>)

  /** `JSON.stringify` and `JSON.parse` (a parse failure, i.e. a `SyntaxError`, is `None`). */
  datatype JsonCodec = JsonCodec(stringify: Json -> JsString, parse: JsString -> Option<Json>)

  /**
   * What the runtime's JSON guarantees: parsing what was stringified gives
   * the value back, and the text is non-empty, well-formed UTF-16 (lone
   * surrogates are written as `\u` escapes).
   */
  ghost predicate Lawful(codec: JsonCodec) {
    forall j: Json {:trigger codec.stringify(j)} ::
      codec.parse(codec.stringify(j)) == Some(j)
      && |codec.stringify(j)| > 0
      && WellFormed(codec.stringify(j))
  }

  /** `v[name]` on a parsed value: only objects have own properties here; `None` is `undefined`. */
  function Prop(v: Json, name: JsString): (r: Option<Json>)
    ensures r.Some? <==> v.JObj? && name in v.fields
  {
    if v.JObj? && name in v.fields then Some(v.fields[name]) else None
  }

  /** JavaScript truthiness of a value that may be `undefined`. */
  predicate Truthy(v: Option<Json>) {
    match v
    case None => false
    case Some(JNull) => false
    case Some(JBool(b)) => b
    case Some(JNum(n)) => n != 0
    case Some(JStr(s)) => s != []
    case Some(JArr(_)) => true
    case Some(JObj(_)) => true
  }

  /**
   * `ToNumber` as `-` and `>` apply it; `None` stands for `NaN`, which makes
   * every comparison false. Strings, arrays and objects are taken as `NaN`.
   */
  function ToNumber(v: Option<Json>): (r: Option<int>)
    ensures v.Some? && v.value.JNum? ==> r == Some(v.value.n)
    ensures v.None? ==> r.None?
  {
    match v
    case None => None
    case Some(JNull) => Some(0)
    case Some(JBool(b)) => Some(if b then 1 else 0)
    case Some(JNum(n)) => Some(n)
    case Some(_) => None
  }
}
