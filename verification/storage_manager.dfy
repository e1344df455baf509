/**
 * The facade of src/core/StorageManager.ts: a registry of named adapters,
 * and operations that route a namespaced key to one of them, wrap the value
 * in an envelope on the way in and drop expired envelopes on the way out.
 */
module Manager {
  import opened Wrappers
  import opened JsText
  import opened JsonValue
  import opened StorageTypes
  import opened Envelope
  import opened MemoryStorage
  import opened CookieStorage
  import Uri

  /** A registered adapter: the `Map`-backed class (also standing in for the Web Storage ones) or the cookie adapter. */
  datatype Adapter =
    | Memory(memory: MemoryStorageAdapter)
    | Cookie(jar: CookieStorageAdapter)
  {
    /** The objects the adapter's operations update. */
    function Footprint(): set<object> {
      match this
      case Memory(m) => {m}
      case Cookie(c) => c.Footprint()
    }
  }

  /** What the adapter's `getItem(key)` yields in the current state, at instant `now`. */
  function Peek(a: Adapter, key: JsString, now: int): Option<Json>
    reads a.Footprint()
  {
    match a
    case Memory(m) => ReadEntry(m.Lookup(key), m.encrypt, m.lenient, now, m.json)
    case Cookie(c) => if c.doc == null then None else CookieLookup(c.doc.cookie, key, c.encrypt, c.json)
  }

  /** What the adapter's `keys()` returns in the current state. */
  function AdapterKeys(a: Adapter): Result<seq<JsString>>
    reads a.Footprint()
  {
    match a
    case Memory(m) => Ok(m.order)
    case Cookie(c) => if c.doc == null then Ok([]) else CookieNames(Split(c.doc.cookie, Semicolon()))
  }

  /** The lines the cookie adapter's `removeItem(key)` assigns; none when the key cannot be encoded. */
  function RemovalFor(c: CookieStorageAdapter, key: JsString): seq<JsString> {
    match Uri.EncodeURIComponent(key)
    case Some(name) => RemovalLines(name, c.path, c.domain)
    case None => []
  }

  /** `adapter.getItem(key)`, dispatched on the kind of adapter. */
  method ReadItem(a: Adapter, key: JsString, now: int) returns (item: Option<Json>)
    ensures item == Peek(a, key, now)
  {
    match a {
      case Memory(m) =>
        item := m.GetItem(key, now);
      case Cookie(c) =>
        item := c.GetItem(key);
    }
  }

  /** The adapter's state after `removeItem(key)` when `removed`, and untouched otherwise. */
  twostate predicate RemovedIf(a: Adapter, key: JsString, removed: bool)
    reads a.Footprint()
  {
    match a
    case Memory(m) =>
      if removed then m.store == old(m.store) - {key} && m.order == Without(old(m.order), key)
      else m.store == old(m.store) && m.order == old(m.order)
    case Cookie(c) =>
      c.doc != null ==>
        c.doc.cookie == old(c.doc.cookie)
        && c.doc.written == old(c.doc.written) + (if removed then RemovalFor(c, key) else [])
  }

  // ---------------------------------------------------------------------
  // Options

  /** What the constructor learns from the host: `isNodeEnvironment()`, `isBrowserEnvironment()`, `isTestEnvironment()`. */
  datatype Environment = Environment(isNode: bool, isBrowser: bool, isTest: bool)

  /** `StorageManagerOptions`; `None` is a property left out. */
  datatype ManagerOptions = ManagerOptions(
    defaultAdapter: Option<JsString>,
    defaultExpires: Option<int>,
    defaultEncrypt: Option<bool>,
    namespace: Option<JsString>)

  /** The options every operation reads, once the defaults are filled in. */
  datatype Settings = Settings(defaultAdapter: JsString, defaultExpires: int, defaultEncrypt: bool, namespace: JsString)

  /** Pure Node, not under test: the one case where only the memory adapter is registered. */
  predicate PureNode(env: Environment) {
    env.isNode && !env.isTest
  }

  /** The adapter the environment picks: memory outside a browser (a test counts as one) or under Node. */
  function EnvironmentDefault(env: Environment, options: ManagerOptions): (name: JsString)
    ensures env.isNode || !(env.isBrowser || env.isTest) ==> name == MemoryName()
    ensures name == MemoryName() || name == LocalStorageName() || (IsSet(options.defaultAdapter) && name == options.defaultAdapter.value)
    ensures !(env.isNode || !(env.isBrowser || env.isTest)) ==>
      name == if IsSet(options.defaultAdapter) then options.defaultAdapter.value else LocalStorageName()
  {
    var isBrowser := env.isBrowser || env.isTest;
    if !isBrowser || env.isNode then MemoryName()
    else if IsSet(options.defaultAdapter) then options.defaultAdapter.value
    else LocalStorageName()
  }

  /**
   * The constructor's `{ defaults..., ...options }`: every option the caller
   * gives, even an empty or zero one, replaces the default, including the
   * adapter the environment picked.
   */
  function MergeOptions(env: Environment, options: ManagerOptions): (s: Settings)
    ensures s.defaultExpires == options.defaultExpires.GetOr(0)
    ensures s.defaultEncrypt == options.defaultEncrypt.GetOr(false)
    ensures s.namespace == options.namespace.GetOr([])
  {
    Settings(
      options.defaultAdapter.GetOr(EnvironmentDefault(env, options)),
      options.defaultExpires.GetOr(0),
      options.defaultEncrypt.GetOr(false),
      options.namespace.GetOr([]))
  }

  /**
   * The default adapter: the caller's choice whenever one is given; otherwise
   * memory under Node or outside a browser, and localStorage in a browser.
   */
  lemma DefaultAdapterChoice(env: Environment, options: ManagerOptions)
    ensures options.defaultAdapter.Some? ==> MergeOptions(env, options).defaultAdapter == options.defaultAdapter.value
    ensures options.defaultAdapter.None? ==>
      (MergeOptions(env, options).defaultAdapter == MemoryName() <==> env.isNode || !(env.isBrowser || env.isTest))
    ensures options.defaultAdapter.None? ==>
      (MergeOptions(env, options).defaultAdapter == LocalStorageName() <==> !env.isNode && (env.isBrowser || env.isTest))
  {
    assert MemoryName() != LocalStorageName() by {
      assert MemoryName()[0] != LocalStorageName()[0];
    }
  }

  /** `options.adapter || this.options.defaultAdapter`. */
  function AdapterName(requested: Option<JsString>, default: JsString): (name: JsString)
    ensures name == default || (requested == Some(name) && name != [])
    ensures IsSet(requested) ==> name == requested.value
    ensures !IsSet(requested) ==> name == default
  {
    if IsSet(requested) then requested.value else default
  }

  /** `get` evicts through `remove(key, { adapter: adapterName })`, which routes to the adapter `get` read. */
  lemma AdapterNameStable(requested: Option<JsString>, default: JsString)
    ensures AdapterName(Some(AdapterName(requested, default)), default) == AdapterName(requested, default)
    ensures requested == Some([]) ==> AdapterName(requested, default) == default
  {
  }

  // ---------------------------------------------------------------------
  // What `set` stores and what `get` makes of it

  /** The envelope `set` writes: the value, the clock's instant, and the TTL given or the default one. */
  function StoredItem(value: Json, now: int, expires: Option<int>, defaultExpires: int): (item: Item)
    ensures item.expires.Some?
  {
    Item(value, now, Some(expires.GetOr(defaultExpires)))
  }

  /** Whether `get` removes the entry it read: a truthy item that has expired. */
  predicate Evicts(item: Option<Json>, now: int) {
    Truthy(item) && IsExpired(item.value, now)
  }

  /** What `get` returns for what the adapter yielded: `undefined` when falsy or expired, else the `value` property. */
  function Interpret(item: Option<Json>, now: int): (r: Option<Json>)
    ensures Evicts(item, now) ==> r.None?
    ensures !Truthy(item) ==> r.None?
  {
    if !Truthy(item) then None
    else if IsExpired(item.value, now) then None
    else Prop(item.value, ValueKey())
  }

  /**
   * An envelope `set` wrote, read back at `now`: its value until strictly
   * more than its non-zero TTL has passed, and evicted from then on.
   */
  lemma ReadBackStored(value: Json, written: int, expires: Option<int>, defaultExpires: int, now: int)
    ensures var item := StoredItem(value, written, expires, defaultExpires);
      var ttl := item.expires.value;
      && (Evicts(Some(ToJson(item)), now) <==> ttl != 0 && now - written > ttl)
      && Interpret(Some(ToJson(item)), now) == (if ttl != 0 && now - written > ttl then None else Some(value))
  {
    var item := StoredItem(value, written, expires, defaultExpires);
    ItemExpiry(item, now);
    assert Truthy(Some(ToJson(item)));
  }

  /** `keys()` under a namespace: the keys that carry its prefix, with the prefix cut off, in order. */
  function StripNamespace(keys: seq<JsString>, ns: JsString): (r: seq<JsString>)
    ensures ns == [] ==> r == keys
    ensures |r| <= |keys|
    decreases |keys|
  {
    if ns == [] || keys == [] then keys
    else
      var rest := StripNamespace(keys[1..], ns);
      if StartsWith(keys[0], ns + [Colon()]) then [keys[0][|ns| + 1..]] + rest else rest
  }

  /** A key is listed under a namespace exactly when its namespaced form is among the adapter's keys. */
  lemma {:induction false} StripNamespaceMembers(keys: seq<JsString>, ns: JsString, k: JsString)
    ensures k in StripNamespace(keys, ns) <==> NamespaceKey(k, ns) in keys
    decreases |keys|
  {
    if ns != [] && keys != [] {
      StripNamespaceMembers(keys[1..], ns, k);
      var prefix := ns + [Colon()];
      assert keys == [keys[0]] + keys[1..];
      if StartsWith(keys[0], prefix) {
        assert keys[0] == prefix + keys[0][|ns| + 1..];
      }
      if keys[0] == NamespaceKey(k, ns) {
        assert keys[0][|ns| + 1..] == k;
      }
    }
  }

  /** Listing the namespaced forms of some keys under their namespace gives those keys back, in order. */
  lemma {:induction false} StripNamespaced(ks: seq<JsString>, ns: JsString)
    ensures StripNamespace(seq(|ks|, i requires 0 <= i < |ks| => NamespaceKey(ks[i], ns)), ns) == ks
    decreases |ks|
  {
    var stored := seq(|ks|, i requires 0 <= i < |ks| => NamespaceKey(ks[i], ns));
    if ns != [] && ks != [] {
      StripNamespaced(ks[1..], ns);
      assert stored[1..] == seq(|ks[1..]|, i requires 0 <= i < |ks[1..]| => NamespaceKey(ks[1..][i], ns));
      assert StartsWith(stored[0], ns + [Colon()]) && stored[0][|ns| + 1..] == ks[0];
      assert ks == [ks[0]] + ks[1..];
    }
  }

  /** The four built-in registry names differ (they differ in their first letter). */
  lemma NamesDistinct()
    ensures |{LocalStorageName(), SessionStorageName(), MemoryName(), CookieName()}| == 4
  {
    assert LocalStorageName()[0] != SessionStorageName()[0] && LocalStorageName()[0] != MemoryName()[0]
      && LocalStorageName()[0] != CookieName()[0] && SessionStorageName()[0] != MemoryName()[0]
      && SessionStorageName()[0] != CookieName()[0] && MemoryName()[0] != CookieName()[0];
  }

  /** The options of `set`: the adapter and the TTL, each optional. */
  datatype SetOptions = SetOptions(adapter: Option<JsString>, expires: Option<int>)

  /** The registry outside pure Node: the two Web Storage stand-ins, the memory adapter and the cookie adapter. */
  function BuiltIns(local: MemoryStorageAdapter, session: MemoryStorageAdapter, memory: MemoryStorageAdapter,
                    cookie: CookieStorageAdapter): (m: map<JsString, Adapter>)
    ensures m.Keys == {LocalStorageName(), SessionStorageName(), MemoryName(), CookieName()}
    ensures m[LocalStorageName()] == Memory(local) && m[SessionStorageName()] == Memory(session)
    ensures m[MemoryName()] == Memory(memory) && m[CookieName()] == Cookie(cookie)
    ensures forall n :: n in m && m[n].Memory? ==>
      (n == LocalStorageName() && m[n].memory == local)
      || (n == SessionStorageName() && m[n].memory == session)
      || (n == MemoryName() && m[n].memory == memory)
  {
    NamesDistinct();
    map[LocalStorageName() := Memory(local), SessionStorageName() := Memory(session),
        MemoryName() := Memory(memory), CookieName() := Cookie(cookie)]
  }

  class StorageManager {
    /** The registry: adapter name to adapter. */
    var adapters: map<JsString, Adapter>
    const settings: Settings

    ghost function MemoryStores(): set<MemoryStorageAdapter>
      reads this
    {
      set n | n in adapters && adapters[n].Memory? :: adapters[n].memory
    }

    /** Every registered `Map`-backed adapter keeps its order and its map in step. */
    ghost predicate Valid()
      reads this, MemoryStores()
    {
      forall m | m in MemoryStores() :: m.Valid()
    }

    /** `getAdapter(name)`: exact lookup, or `Adapter '<name>' not found`. */
    function GetAdapter(name: JsString): (r: Result<Adapter>)
      reads this
      ensures r.Ok? <==> name in adapters
      ensures r.Ok? ==> r.value == adapters[name]
      ensures r.Err? ==> r.error == AdapterNotFound(name) && r.error.Message() == Lit("Adapter '") + name + Lit("' not found")
    {
      if name in adapters then Ok(adapters[name]) else Err(AdapterNotFound(name))
    }

    /** The adapter a call with `{ adapter: requested }` uses. */
    function Target(requested: Option<JsString>): Result<Adapter>
      reads this
    {
      GetAdapter(AdapterName(requested, settings.defaultAdapter))
    }

    function Touched(requested: Option<JsString>): set<object>
      reads this
    {
      if Target(requested).Ok? then Target(requested).value.Footprint() else {}
    }

    /**
     * `new StorageManager(options)` in the given environment: pure Node
     * registers only the memory adapter; anywhere else the four built-in
     * adapters, each fresh and empty, reading with the default obfuscation.
     */
    constructor (options: ManagerOptions, env: Environment, doc: CookieDocument?, json: JsonCodec)
      ensures settings == MergeOptions(env, options)
      ensures Valid()
      ensures adapters.Keys == if PureNode(env) then {MemoryName()}
        else {LocalStorageName(), SessionStorageName(), MemoryName(), CookieName()}
      ensures forall n :: n in adapters && adapters[n].Memory? ==>
        var m := adapters[n].memory;
        fresh(m) && m.order == [] && m.store == map[] && m.encrypt == settings.defaultEncrypt && m.json == json
        && (m.lenient <==> n == MemoryName())
      ensures !PureNode(env) ==>
        && adapters[LocalStorageName()].Memory? && adapters[SessionStorageName()].Memory? && adapters[MemoryName()].Memory?
        && adapters[LocalStorageName()].memory != adapters[SessionStorageName()].memory
      ensures !PureNode(env) ==>
        adapters[CookieName()].Cookie?
        && var c := adapters[CookieName()].jar;
        c.encrypt == settings.defaultEncrypt && c.defaultDays == 7 && c.path == Lit("/") && c.domain.None?
        && !c.secure && c.sameSite == Lax && c.doc == doc && c.json == json
      ensures PureNode(env) ==> adapters[MemoryName()].Memory?
    {
      settings := MergeOptions(env, options);
      var encrypt := options.defaultEncrypt.GetOr(false);
      if env.isNode && !env.isTest {
        var memory := new MemoryStorageAdapter(encrypt, true, json);
        adapters := map[MemoryName() := Memory(memory)];
      } else {
        var local := new MemoryStorageAdapter(encrypt, false, json);
        var session := new MemoryStorageAdapter(encrypt, false, json);
        var memory := new MemoryStorageAdapter(encrypt, true, json);
        var cookie := new CookieStorageAdapter(CookieOptions(Some(encrypt), None, None, None, None, None), doc, json);
        adapters := BuiltIns(local, session, memory, cookie);
      }
    }

    /** `registerAdapter(name, adapter)`: add or replace one registry entry. */
    method RegisterAdapter(name: JsString, adapter: Adapter)
      requires Valid() && (adapter.Memory? ==> adapter.memory.Valid())
      modifies this
      ensures Valid()
      ensures adapters == old(adapters)[name := adapter]
    {
      adapters := adapters[name := adapter];
    }

    /**
     * `set(key, value, options)` at the clock's instant: the envelope goes
     * under the namespaced key of the chosen adapter; an unknown adapter
     * throws, and so does the cookie adapter for text it cannot encode.
     */
    method Set(key: JsString, value: Json, options: SetOptions, clock: Clock) returns (r: Result<()>)
      requires Valid()
      modifies Touched(options.adapter)
      ensures Valid()
      ensures Target(options.adapter).Err? ==> r == Err(Target(options.adapter).error)
      ensures Target(options.adapter).Ok? ==>
        var nk := NamespaceKey(key, settings.namespace);
        var item := StoredItem(value, clock.now, options.expires, settings.defaultExpires);
        match Target(options.adapter).value
        case Memory(m) =>
          && r == Ok(())
          && m.store == old(m.store)[nk := SerializeItem(item, m.encrypt, m.json)]
          && m.order == (if nk in old(m.store) then old(m.order) else old(m.order) + [nk])
        case Cookie(c) =>
          && (r.Ok? <==> WellFormed(nk) && WellFormed(SerializeItem(item, c.encrypt, c.json)))
          && (r.Err? ==> r.error == SetCookieFailed(nk))
          && (c.doc != null ==>
                c.doc.cookie == old(c.doc.cookie)
                && c.doc.written == old(c.doc.written) + (if r.Ok? then [c.CookieLine(nk, item, clock)] else []))
    {
      var name := AdapterName(options.adapter, settings.defaultAdapter);
      var target := GetAdapter(name);
      if target.Err? {
        return Err(target.error);
      }
      var nk := NamespaceKey(key, settings.namespace);
      var item := StoredItem(value, clock.now, options.expires, settings.defaultExpires);
      match target.value {
        case Memory(m) =>
          m.SetItem(nk, item);
          r := Ok(());
        case Cookie(c) =>
          r := c.SetItem(nk, item, clock);
      }
    }

    /**
     * `remove(key, options)`: the chosen adapter's `removeItem` on the
     * namespaced key; an unknown adapter throws, and so does the cookie
     * adapter for a key it cannot encode.
     */
    method Remove(key: JsString, adapter: Option<JsString>) returns (r: Result<()>)
      requires Valid()
      modifies Touched(adapter)
      ensures Valid()
      ensures Target(adapter).Err? ==> r == Err(Target(adapter).error)
      ensures Target(adapter).Ok? ==>
        var nk := NamespaceKey(key, settings.namespace);
        var a := Target(adapter).value;
        RemovedIf(a, nk, true)
        && (r.Err? <==> a.Cookie? && a.jar.doc != null && !WellFormed(nk))
        && (r.Err? ==> r.error == UriMalformed)
    {
      var name := AdapterName(adapter, settings.defaultAdapter);
      var target := GetAdapter(name);
      if target.Err? {
        return Err(target.error);
      }
      var nk := NamespaceKey(key, settings.namespace);
      match target.value {
        case Memory(m) =>
          m.RemoveItem(nk);
          r := Ok(());
        case Cookie(c) =>
          r := c.RemoveItem(nk);
      }
    }

    /**
     * `get(key, options)` at instant `now`: `undefined` for a falsy item;
     * an expired item is removed and reads as `undefined`; otherwise the
     * item's `value`.
     */
    method Get(key: JsString, adapter: Option<JsString>, now: int) returns (r: Result<Option<Json>>)
      requires Valid()
      modifies Touched(adapter)
      ensures Valid()
      ensures Target(adapter).Err? ==> r == Err(Target(adapter).error)
      ensures Target(adapter).Ok? ==>
        var nk := NamespaceKey(key, settings.namespace);
        var a := Target(adapter).value;
        var item := old(Peek(a, nk, now));
        r == Ok(Interpret(item, now)) && RemovedIf(a, nk, Evicts(item, now))
    {
      var name := AdapterName(adapter, settings.defaultAdapter);
      var target := GetAdapter(name);
      if target.Err? {
        return Err(target.error);
      }
      var nk := NamespaceKey(key, settings.namespace);
      ghost var a := target.value;
      var item := ReadItem(target.value, nk, now);
      if !Truthy(item) {
        r := Ok(None);
      } else if IsExpired(item.value, now) {
        AdapterNameStable(adapter, settings.defaultAdapter);
        assert a.Cookie? ==> a.jar.doc != null && WellFormed(nk);
        var removed := Remove(key, Some(name));
        if removed.Err? {
          // An item was read, so its key encodes and the removal cannot throw.
          assert false;
        }
        assert Target(Some(name)) == Ok(a) && RemovedIf(a, nk, true);
        r := Ok(None);
      } else {
        r := Ok(Prop(item.value, ValueKey()));
      }
    }

    /** `clear(options)`: the chosen adapter's `clear`. */
    method Clear(adapter: Option<JsString>) returns (r: Result<()>)
      requires Valid()
      modifies Touched(adapter)
      ensures Valid()
      ensures Target(adapter).Err? ==> r == Err(Target(adapter).error)
      ensures Target(adapter).Ok? ==>
        match Target(adapter).value
        case Memory(m) => r == Ok(()) && m.store == map[] && m.order == []
        case Cookie(c) =>
          && (c.doc == null ==> r == Ok(()))
          && (c.doc != null ==>
            var w := ClearWrites(Split(old(c.doc.cookie), Semicolon()), c.path, c.domain);
            c.doc.cookie == old(c.doc.cookie) && c.doc.written == old(c.doc.written) + w.lines
            && (r.Err? <==> w.failed) && (r.Err? ==> r.error == UriMalformed))
    {
      var name := AdapterName(adapter, settings.defaultAdapter);
      var target := GetAdapter(name);
      if target.Err? {
        return Err(target.error);
      }
      match target.value {
        case Memory(m) =>
          m.Clear();
          r := Ok(());
        case Cookie(c) =>
          r := c.Clear();
      }
    }

    /**
     * `keys(options)`: the chosen adapter's keys; under a namespace only
     * those in it, without the prefix.
     */
    method Keys(adapter: Option<JsString>) returns (r: Result<seq<JsString>>)
      requires Valid()
      ensures Target(adapter).Err? ==> r == Err(Target(adapter).error)
      ensures Target(adapter).Ok? ==>
        match AdapterKeys(Target(adapter).value)
        case Ok(ks) => r == Ok(StripNamespace(ks, settings.namespace))
        case Err(e) => r == Err(e)
    {
      var name := AdapterName(adapter, settings.defaultAdapter);
      var target := GetAdapter(name);
      if target.Err? {
        return Err(target.error);
      }
      var listed: Result<seq<JsString>>;
      match target.value {
        case Memory(m) =>
          var ks := m.Keys();
          listed := Ok(ks);
        case Cookie(c) =>
          listed := c.Keys();
      }
      if listed.Err? {
        return Err(listed.error);
      }
      return Ok(StripNamespace(listed.value, settings.namespace));
    }

    /** `has(key, options)`: whether `get` yields something other than `undefined`, with `get`'s eviction. */
    method Has(key: JsString, adapter: Option<JsString>, now: int) returns (r: Result<bool>)
      requires Valid()
      modifies Touched(adapter)
      ensures Valid()
      ensures Target(adapter).Err? ==> r == Err(Target(adapter).error)
      ensures Target(adapter).Ok? ==>
        var nk := NamespaceKey(key, settings.namespace);
        var a := Target(adapter).value;
        var item := old(Peek(a, nk, now));
        r == Ok(Interpret(item, now).Some?) && RemovedIf(a, nk, Evicts(item, now))
    {
      var value := Get(key, adapter, now);
      if value.Err? {
        return Err(value.error);
      }
      return Ok(value.value.Some?);
    }
  }
}
