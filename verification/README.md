# storage-cache-kit, modelled in Dafny

This project models the core of storage-cache-kit, a TypeScript key-value
storage facade. A `StorageManager` keeps a registry of named adapters
(`localStorage`, `sessionStorage`, `memory`, `cookie`) and routes every call
to one of them. A key is prefixed with the manager's namespace. A value is
wrapped in an envelope (`value`, `timestamp`, `expires`) and serialized as
JSON. When asked, the text is obfuscated with base64 over percent-encoding.
An envelope that has outlived its TTL is removed the first time it is read.

Modules, one per source concern:

- `JsText` (`js_text.dfy`): JavaScript strings as UTF-16 code units, with `split`, `trim` and `startsWith`.
- `Uri` (`uri.dfy`): `encodeURIComponent` and `decodeURIComponent`.
- `Base64` (`base64.dfy`): `btoa` and `atob`, with the forgiving decoder.
- `Crypto` (`crypto.dfy`): `encrypt` and `decrypt` of `src/utils/crypto.ts`.
- `JsonValue` (`json.dfy`): JSON values, property access, truthiness and number coercion.
  - `JSON.stringify` and `JSON.parse` form a codec value.
  - The only thing assumed of that codec is its round-trip law, `Lawful`, and that law appears only as a hypothesis (a precondition, or the premise of a postcondition); it is never assumed.
- `StorageTypes` (`types.dfy`): the stored envelope, the thrown errors, the clock and the adapter names.
- `Envelope` (`envelope.dfy`): `isExpired`, `namespaceKey`, `serializeItem`, `deserializeItem` and `parseStorageItem` of `src/utils/index.ts`.
- `MemoryStorage` (`memory_storage.dfy`): the `Map`-backed adapter, as a class whose methods update its fields.
  - A `Map` keeps insertion order, so the class keeps the order as a sequence beside the map.
  - The same class with strict reading stands in for the localStorage and sessionStorage adapters.
- `CookieStorage` (`cookie_storage.dfy`): the cookie adapter, which works over a `CookieDocument`.
  - A `CookieDocument` holds the Cookie header that reading `document.cookie` returns.
  - It also holds every string assigned to `document.cookie`, oldest first.
- `Manager` (`storage_manager.dfy`): `StorageManager`, as a class holding the registry.
- `Scenarios` (`scenarios.dfy`): the behaviours of `src/__tests__/StorageManager.test.ts`, stated as methods with postconditions.

Host facilities are parameters:

- `Date.now()` and `Date.prototype.toUTCString` are a `Clock` value.
- The environment probes are an `Environment` value.
- `document` is a `CookieDocument?`, where `null` means no document.

Two consequences of the code are worth stating:

- The registry lookup in `getAdapter` is exact. Unlike a resolver with case folding and fallback, it neither folds case nor falls back to another adapter.
- The default adapter is never checked against the registry. Under pure Node, a caller's `defaultAdapter` other than `memory` names an adapter that was never registered, so every default-routed call throws. `Scenarios.NodeKeepsRequestedDefault` shows this.

## Model

| member | source | states |
|---|---|---|
| Crypto.Encrypt | src/utils/crypto.ts:11-19 | text with a lone surrogate, on which `encodeURIComponent` throws, comes back unchanged |
| Crypto.Decrypt | src/utils/crypto.ts:26-34 | text that is not base64, or whose decoding is not a valid percent-encoding, comes back unchanged |
| Crypto.EncodedIsLatin1 | src/utils/crypto.ts:14 | percent-encoded text is Latin-1, so `btoa` inside `encrypt` never throws |
| Crypto.EncryptIsBase64 | src/utils/crypto.ts:14 | for well-formed text, `encrypt` is exactly `btoa(encodeURIComponent(v))`, written only in the base64 alphabet and `=` |
| Crypto.DecryptEncrypt | src/utils/crypto.ts:11-34 | `decrypt(encrypt(v)) === v` for every well-formed string |
| Crypto.EncryptNonEmpty | src/utils/crypto.ts:11-19 | `encrypt(v)` is empty exactly when `v` is |
| Crypto.EncryptWellFormed | src/utils/crypto.ts:11-19 | `encrypt(v)` is well-formed UTF-16 exactly when `v` is |
| Uri.EncodeURIComponent | src/utils/crypto.ts:14 | encoding succeeds exactly on well-formed UTF-16 |
| Uri.DecodeEncode | src/utils/crypto.ts:14-29 | decoding the encoding of well-formed text gives the text back |
| Uri.DecodeURIComponent | src/adapters/cookieStorage.ts:88 | text without `%` decodes to itself |
| Uri.EncodedUnits | src/adapters/cookieStorage.ts:50 | encoded text holds only unreserved characters and `%`, so never `;`, `=` or whitespace |
| Uri.EncodingGrows | src/adapters/cookieStorage.ts:125-126 | encoding never shortens text, and strictly lengthens text that holds `%` |
| Uri.EncodeUnreserved | src/adapters/cookieStorage.ts:125-126 | text made only of unreserved characters is its own encoding |
| Base64.Btoa | src/utils/crypto.ts:14 | `btoa` succeeds exactly on Latin-1 text |
| Base64.AtobBtoa | src/utils/crypto.ts:14-29 | `atob(btoa(s)) === s` for Latin-1 text |
| Base64.DecodeGroup | src/utils/crypto.ts:14-29 | the four characters `btoa` writes for three bytes decode back to those bytes, before whatever follows |
| Base64.DecodeBody | src/utils/crypto.ts:14-29 | the unpadded characters of `btoa(s)` decode back to `s` |
| Base64.PaddingStripped | src/utils/crypto.ts:14-29 | the `=` padding `btoa` appends is exactly what `atob` strips |
| Base64.Atob | src/utils/crypto.ts:29 | what the forgiving decoder yields is a byte string |
| Base64.AtobRejects | src/utils/crypto.ts:29 | a unit that is neither ASCII whitespace, `=` nor in the alphabet makes `atob` throw |
| Base64.BtoaAlphabet | src/utils/crypto.ts:14 | `btoa` output uses only the base64 alphabet and `=` |
| JsText.Split | src/adapters/cookieStorage.ts:81 | `split` gives at least one part, and no part holds the separator |
| JsText.JoinSplit | src/adapters/cookieStorage.ts:81 | joining the parts of a split with the separator restores the text |
| JsText.Trim | src/adapters/cookieStorage.ts:85 | `trim` leaves neither leading nor trailing whitespace |
| JsText.TrimIsSlice | src/adapters/cookieStorage.ts:85 | `trim` keeps one contiguous slice of the text and drops only whitespace before and after it |
| JsonValue.Prop | src/core/StorageManager.ts:163 | a property read yields something exactly when the value is an object that has that key |
| JsonValue.ToNumber | src/utils/index.ts:13 | a number coerces to itself, and `undefined` to NaN |
| StorageTypes.ToJson | src/types/index.ts:14-21 | the envelope object has `value` and `timestamp`, and has `expires` exactly when one is given |
| Envelope.IsExpired | src/utils/index.ts:10-14 | an item without a truthy `expires` never expires |
| Envelope.ItemExpiry | src/utils/index.ts:10-14 | an envelope has expired exactly when its TTL is non-zero and strictly more than the TTL has elapsed |
| Envelope.ExpiryIsPermanent | src/utils/index.ts:10-14 | once expired, an item stays expired at every later instant |
| Envelope.NamespaceKey | src/utils/index.ts:101-103 | an empty namespace leaves the key as it is; otherwise the result is `ns:` followed by the key |
| Envelope.NamespaceKeyInjective | src/utils/index.ts:101-103 | within one namespace, distinct keys give distinct stored keys |
| Envelope.SerializeItem | src/utils/index.ts:22-25 | serialized text is never empty |
| Envelope.SerializedWellFormed | src/utils/index.ts:22-25 | serialized text, obfuscated or not, is well-formed UTF-16 |
| Envelope.DeserializeItem | src/utils/index.ts:33-41 | the only failure is `Invalid storage item format`; without obfuscation it succeeds exactly when the text parses |
| Envelope.DeserializeSerialize | src/utils/index.ts:22-41 | deserializing a serialized item, with the same obfuscation setting, gives the envelope back |
| Envelope.FallbackValue | src/utils/index.ts:72-85 | text that does not parse becomes a string value |
| Envelope.EnvelopeFields | src/utils/index.ts:56-61 | an envelope is an object in which both `value` and `timestamp` are present, and every written item is one |
| Envelope.ParseStorageItem | src/utils/index.ts:49-93 | the result is `undefined` exactly for empty text; text that strictly decodes to an envelope yields that envelope unchanged; any other text yields a fresh item around the fallback value, stamped `now`, without `expires` |
| Envelope.ParseSerialized | src/utils/index.ts:49-63 | the lenient reader returns what `serializeItem` wrote unchanged |
| Envelope.FallbackParsesRawData | src/utils/index.ts:72-92 | a non-envelope is wrapped around the raw text (parsed if possible, never the de-obfuscated text), stamped `now`, without `expires` |
| Envelope.FallbackNeverExpires | src/utils/index.ts:88-92 | a wrapped fallback item never expires |
| MemoryStorage.Without | src/adapters/memoryStorage.ts:57-59 | deleting a key from the insertion order keeps every other key and keeps the order duplicate-free; a one-key order loses that key or stays as it is |
| MemoryStorage.WithoutDistributes | src/adapters/memoryStorage.ts:57-59 | deletion works part by part on a concatenated order, so the remaining keys keep their insertion order |
| MemoryStorage.ReadEntry | src/adapters/memoryStorage.ts:40-51 | a missing or empty entry reads as `undefined`; the lenient reader yields an envelope for all other text; the strict reader yields exactly what `deserializeItem` parses |
| MemoryStorage.ReadAfterWrite | src/adapters/memoryStorage.ts:25-51 | an entry `setItem` wrote reads back as its envelope, leniently or strictly |
| MemoryStorage.MemoryStorageAdapter.constructor | src/adapters/memoryStorage.ts:16-18 | a new adapter is empty and valid |
| MemoryStorage.MemoryStorageAdapter.SetItem | src/adapters/memoryStorage.ts:25-33 | stores the serialized item under the key and appends a new key to the order |
| MemoryStorage.MemoryStorageAdapter.GetItem | src/adapters/memoryStorage.ts:40-51 | yields `ReadEntry` of the stored text |
| MemoryStorage.MemoryStorageAdapter.RemoveItem | src/adapters/memoryStorage.ts:57-59 | deletes exactly that key from the map and from the order |
| MemoryStorage.MemoryStorageAdapter.Clear | src/adapters/memoryStorage.ts:64-66 | empties the map and the order |
| MemoryStorage.MemoryStorageAdapter.Keys | src/adapters/memoryStorage.ts:72-74 | returns each stored key exactly once, in insertion order |
| CookieStorage.CeilDays | src/adapters/cookieStorage.ts:45 | yields the least `d` with `ms <= d` days, i.e. `Math.ceil(ms / 86400000)` |
| CookieStorage.CookieDays | src/adapters/cookieStorage.ts:45 | a truthy TTL gives its days rounded up; otherwise the default days |
| CookieStorage.Attributes | src/adapters/cookieStorage.ts:50-60 | `expires` comes first, then `path`; `samesite` comes last |
| CookieStorage.AttributesDomain | src/adapters/cookieStorage.ts:52-54 | a `domain=` attribute appears exactly when a domain is set |
| CookieStorage.AttributesSecure | src/adapters/cookieStorage.ts:56-58 | the `secure` flag appears exactly when it is on |
| CookieStorage.SetCookieString | src/adapters/cookieStorage.ts:50 | the string starts with `name=value` |
| CookieStorage.RemovalLines | src/adapters/cookieStorage.ts:108-112 | the first line is `name=; expires=Thu, 01 Jan 1970 00:00:00 GMT; path=<path>`; when a domain is set, a second line adds `; domain=<domain>` to it |
| CookieStorage.FirstMatch | src/adapters/cookieStorage.ts:84-91 | finds the first entry with the encoded key and a non-empty value, and no earlier entry matches |
| CookieStorage.CookieLookup | src/adapters/cookieStorage.ts:77-98 | a found item implies that the key could be encoded |
| CookieStorage.CookieNames | src/adapters/cookieStorage.ts:137-147 | the only failure is a malformed escape; at most one name per entry |
| CookieStorage.CookiePair | src/adapters/cookieStorage.ts:50 | the `name=value` pair that `setItem` writes holds no `;` |
| CookieStorage.LineStartsWithPair | src/adapters/cookieStorage.ts:50-60 | the string `setItem` assigns starts with that pair |
| CookieStorage.CookieRoundTrip | src/adapters/cookieStorage.ts:77-98 | a header that starts with the pair `setItem` wrote makes `getItem` return the written envelope |
| CookieStorage.KeysRoundTrip | src/adapters/cookieStorage.ts:134-148 | a header that starts with a pair for an encoded key lists that key first, then the names of the rest |
| CookieStorage.ClearReencodesName | src/adapters/cookieStorage.ts:124-127 | `clear` encodes a header name a second time. A name holding `%` is therefore not the name it expires; a name of unreserved characters is |
| CookieStorage.CookieStorageAdapter.constructor | src/adapters/cookieStorage.ts:19-33 | falsy options take the defaults: no obfuscation, 7 days, path `/`, not secure, `lax` |
| CookieStorage.CookieStorageAdapter.BuildCookieString | src/adapters/cookieStorage.ts:50-60 | the string built step by step equals the specified cookie string |
| CookieStorage.CookieStorageAdapter.SetItem | src/adapters/cookieStorage.ts:40-70 | throws `Failed to set cookie '<key>'` exactly when the key or the serialized text cannot be encoded; otherwise assigns the cookie string |
| CookieStorage.CookieStorageAdapter.GetItem | src/adapters/cookieStorage.ts:77-98 | yields `undefined` without a document, and otherwise `CookieLookup` of the header |
| CookieStorage.CookieStorageAdapter.RemoveItem | src/adapters/cookieStorage.ts:104-113 | assigns the removal lines of the encoded key; throws exactly when the key cannot be encoded |
| CookieStorage.CookieStorageAdapter.Clear | src/adapters/cookieStorage.ts:119-128 | assigns the removal lines of every header name, encoded again, and stops at the first name that cannot be encoded |
| CookieStorage.CookieStorageAdapter.Keys | src/adapters/cookieStorage.ts:134-148 | returns the decoded names of the non-blank entries, in order |
| Manager.MergeOptions | src/core/StorageManager.ts:56-62 | the TTL, obfuscation and namespace options default to 0, off and empty |
| Manager.EnvironmentDefault | src/core/StorageManager.ts:51-54 | under Node or outside a browser the environment picks memory; in a browser outside Node it picks the caller's non-empty `defaultAdapter`, or else localStorage |
| Manager.DefaultAdapterChoice | src/core/StorageManager.ts:46-62 | a given `defaultAdapter` always wins; otherwise memory under Node or outside a browser, and localStorage in a browser |
| Manager.AdapterName | src/core/StorageManager.ts:127 | a call routes to the adapter it names whenever that name is non-empty, and to the default otherwise (absent or empty) |
| Manager.AdapterNameStable | src/core/StorageManager.ts:150-159 | eviction in `get` routes to the adapter `get` read; an empty adapter option routes to the default |
| Manager.StoredItem | src/core/StorageManager.ts:126-135 | the envelope `set` writes always carries an `expires` |
| Manager.Interpret | src/core/StorageManager.ts:154-163 | a falsy or expired item reads as `undefined` |
| Manager.ReadBackStored | src/core/StorageManager.ts:126-163 | a stored value reads back until its non-zero TTL has strictly elapsed, and is evicted from then on |
| Manager.StripNamespace | src/core/StorageManager.ts:204-209 | without a namespace, the keys pass through unchanged |
| Manager.StripNamespaceMembers | src/core/StorageManager.ts:198-212 | a key is listed exactly when its namespaced form is among the adapter's keys |
| Manager.StripNamespaced | src/core/StorageManager.ts:198-212 | listing the namespaced forms of some keys gives those keys back, in order |
| Manager.NamesDistinct | src/adapters/index.ts:14-19 | the four built-in adapter names are distinct |
| Manager.ReadItem | src/core/StorageManager.ts:154 | the read `get` makes yields what the routed adapter's `getItem` yields in the current state |
| Manager.BuiltIns | src/core/StorageManager.ts:73-89 | the registry outside pure Node maps the four built-in names to their four adapters and nothing else |
| Manager.StorageManager.GetAdapter | src/core/StorageManager.ts:106-112 | exact lookup; a missing name throws `Adapter '<name>' not found` |
| Manager.StorageManager.constructor | src/core/StorageManager.ts:44-90 | pure Node registers only memory; anywhere else all four fresh adapters, with the cookie adapter on its defaults |
| Manager.StorageManager.RegisterAdapter | src/core/StorageManager.ts:97-99 | adds or replaces exactly one registry entry |
| Manager.StorageManager.Set | src/core/StorageManager.ts:121-138 | stores the envelope under the namespaced key in the chosen adapter; an unknown adapter throws |
| Manager.StorageManager.Remove | src/core/StorageManager.ts:172-180 | removes the namespaced key from the chosen adapter |
| Manager.StorageManager.Get | src/core/StorageManager.ts:146-164 | returns the item's `value` unless the item is falsy or expired; an expired item is removed |
| Manager.StorageManager.Clear | src/core/StorageManager.ts:187-191 | clears the chosen adapter |
| Manager.StorageManager.Keys | src/core/StorageManager.ts:198-212 | returns the adapter's keys, filtered and stripped by the namespace |
| Manager.StorageManager.Has | src/core/StorageManager.ts:220-226 | true exactly when `get` would return something other than `undefined`, with the same eviction |
| Scenarios.StoreAndRetrieve | src/__tests__/StorageManager.test.ts:14-22 | a stored value reads back equal |
| Scenarios.Expiration | src/__tests__/StorageManager.test.ts:24-41 | a 100 ms value reads back at once and is gone 110 ms later |
| Scenarios.ExpiredReadEvicts | src/core/StorageManager.ts:154-161 | reading an expired value removes it, so `has` then reports it missing |
| Scenarios.DifferentAdapters | src/__tests__/StorageManager.test.ts:43-55 | a value stored in memory is absent from localStorage |
| Scenarios.RemoveItems | src/__tests__/StorageManager.test.ts:57-65 | a removed value reads as `undefined` |
| Scenarios.HasKeys | src/__tests__/StorageManager.test.ts:67-76 | `has` is true for a stored key and false for another |
| Scenarios.NodeKeepsRequestedDefault | src/core/StorageManager.ts:51-69 | under pure Node, a `localStorage` default makes `set` and `get` throw `Adapter 'localStorage' not found` |
| Scenarios.NamespacedKeys | src/core/StorageManager.ts:198-212 | under a namespace, `keys` lists a stored key without its prefix |

## Left out

- Asynchrony:
  - every `async` method is modelled as a synchronous call;
  - interleavings of concurrent calls are not modelled.
- Console output (`console.error`, `console.debug`) is not modelled.
- `process.env.NODE_ENV`, used only for logging, is not modelled.
- JSON:
  - the grammar of `JSON.stringify` and `JSON.parse` is not modelled; they are a codec value satisfying a round-trip law;
  - JSON numbers are integers, so floating point, NaN literals and `undefined` values inside objects are not modelled.
- JsonValue.ToNumber: coercion is modelled for `undefined`, `null`, booleans and numbers. Strings, arrays and objects are taken as NaN, although JavaScript would convert numeric strings and some arrays.
- Manager.StorageManager.Set: the value is a JSON value. A `set` of `undefined` or of a function, whose property `JSON.stringify` drops, is not modelled.
- Options are present or absent. An option present with the value `undefined` is not modelled. For `expires` in `set`, that value still takes the destructuring default.
- Web Storage:
  - localStorage and sessionStorage are modelled by the `Map`-backed class with strict reading. The browser's shared, persistent storage and its quota errors (`Failed to set item`) are not modelled.
  - The Web Storage `keys()` skips an empty key name; the stand-in lists it.
- MemoryStorage.MemoryStorageAdapter.SetItem: the `Failed to set item` path cannot occur, because the modelled serializer is total.
- The cookie jar is not modelled: assigning to `document.cookie` does not change what reading it returns. `CookieRoundTrip` states what `getItem` returns once the host echoes a written pair.
- Manager.StorageManager.RegisterAdapter: only the built-in adapter kinds can be registered, a `Map`-backed adapter or a cookie adapter. A user-defined object implementing the `StorageAdapter` interface is not modelled, so nothing is stated about how the manager behaves with one.
- Adapter aliasing is not modelled. The manager's operations state the new state of the adapter they route to; what `registerAdapter` with an already-registered object does to other names follows from the frames only.
- Availability probing is not modelled. The environment probes (`src/utils/environment.ts`) are parameters.
- Per-call `encrypt` options do not exist in the source's manager, so none are modelled.
- `SimpleStore` (`src/core/SimpleStore.ts`) and the package's exports are not part of this model.
- Types and test plumbing (`src/__tests__/setup.ts`) are not part of this model.
