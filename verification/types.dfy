/**
 * The records the storage core passes around: the stored envelope
 * (`StorageItem`), the errors its operations throw, the clock it reads and
 * the registry names of the built-in adapters.
 */
module StorageTypes {
  import opened Wrappers
  import opened JsText
  import opened JsonValue

  /** `StorageItem`: the value, when it was written (ms) and its time to live (ms, optional). */
  datatype Item = Item(value: Json, timestamp: int, expires: Option<int>)

  function ValueKey(): JsString { Lit("value") }
  function TimestampKey(): JsString { Lit("timestamp") }
  function ExpiresKey(): JsString { Lit("expires") }

  /** The object `JSON.stringify` sees: an absent `expires` is left out of it. */
  function ToJson(item: Item): (r: Json)
    ensures r.JObj?
    ensures Prop(r, ValueKey()) == Some(item.value)
    ensures Prop(r, TimestampKey()) == Some(JNum(item.timestamp))
    ensures Prop(r, ExpiresKey()) == if item.expires.Some? then Some(JNum(item.expires.value)) else None
  {
    var base := map[ValueKey() := item.value, TimestampKey() := JNum(item.timestamp)];
    if item.expires.Some? then JObj(base[ExpiresKey() := JNum(item.expires.value)]) else JObj(base)
  }

  /** The exceptions the core throws, by the message they carry. */
  datatype StorageError =
    | AdapterNotFound(name: JsString)   // `Adapter '<name>' not found`
    | InvalidFormat                     // `Invalid storage item format`
    | SetCookieFailed(key: JsString)    // `Failed to set cookie '<key>'`
    | UriMalformed                      // the host's `URIError: URI malformed`
  {
    function Message(): JsString {
      match this
      case AdapterNotFound(name) => Lit("Adapter '") + name + Lit("' not found")
      case InvalidFormat => Lit("Invalid storage item format")
      case SetCookieFailed(key) => Lit("Failed to set cookie '") + key + Lit("'")
      case UriMalformed => Lit("URI malformed")
    }
  }

  /** A call that either returns a value or throws. */
  datatype Result<T> = Ok(value: T) | Err(error: StorageError)

  /** `Date.now()` at the call, and `Date.prototype.toUTCString` for a given instant (ms). */
  datatype Clock = Clock(now: int, toUTCString: int -> JsString)

  /** `ADAPTER_TYPES`: the registry names of the built-in adapters. */
  function LocalStorageName(): JsString { Lit("localStorage") }
  function SessionStorageName(): JsString { Lit("sessionStorage") }
  function MemoryName(): JsString { Lit("memory") }
  function CookieName(): JsString { Lit("cookie") }
}
