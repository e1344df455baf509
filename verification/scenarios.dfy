/**
 * The behaviours src/__tests__/StorageManager.test.ts exercises, run on a
 * manager built as under Vitest: a Node process under test with a simulated
 * document, so all four adapters are registered and, Node winning, the
 * default adapter is memory. Two consequences of the constructor's option
 * handling follow.
 */
module Scenarios {
  import opened Wrappers
  import opened JsText
  import opened JsonValue
  import opened StorageTypes
  import opened Envelope
  import opened MemoryStorage
  import opened CookieStorage
  import opened Manager

  /** A Vitest run: Node, a simulated document, and the test flag. */
  function TestEnvironment(): Environment {
    Environment(true, true, true)
  }

  function NoOptions(): ManagerOptions {
    ManagerOptions(None, None, None, None)
  }

  /** What `set` wrote in a memory adapter without obfuscation reads back as `get` promises. */
  lemma ReadStored(m: MemoryStorageAdapter, key: JsString, value: Json, written: int, expires: Option<int>, now: int)
    requires Lawful(m.json) && !m.encrypt
    requires m.Lookup(key) == Some(SerializeItem(StoredItem(value, written, expires, 0), false, m.json))
    ensures var ttl := StoredItem(value, written, expires, 0).expires.value;
      var expired := ttl != 0 && now - written > ttl;
      && (Evicts(Peek(Memory(m), key, now), now) <==> expired)
      && Interpret(Peek(Memory(m), key, now), now) == (if expired then None else Some(value))
  {
    var item := StoredItem(value, written, expires, 0);
    ReadAfterWrite(item, false, m.lenient, now, m.json);
    ReadBackStored(value, written, expires, 0, now);
  }

  /** A value stored with the default options reads back unchanged at the same instant. */
  method StoreAndRetrieve(key: JsString, value: Json, clock: Clock, doc: CookieDocument?, json: JsonCodec)
    returns (got: Result<Option<Json>>)
    requires Lawful(json)
    ensures got == Ok(Some(value))
  {
    var manager := new StorageManager(NoOptions(), TestEnvironment(), doc, json);
    DefaultAdapterChoice(TestEnvironment(), NoOptions());
    var memory := manager.adapters[MemoryName()].memory;
    var stored := manager.Set(key, value, SetOptions(None, None), clock);
    ReadStored(memory, key, value, clock.now, None, clock.now);
    got := manager.Get(key, None, clock.now);
  }

  /** A value stored with a 100 ms TTL reads back at once and reads as missing 110 ms later. */
  method Expiration(key: JsString, value: Json, clock: Clock, doc: CookieDocument?, json: JsonCodec)
    returns (first: Result<Option<Json>>, second: Result<Option<Json>>)
    requires Lawful(json)
    ensures first == Ok(Some(value))
    ensures second == Ok(None)
  {
    var manager := new StorageManager(NoOptions(), TestEnvironment(), doc, json);
    DefaultAdapterChoice(TestEnvironment(), NoOptions());
    var memory := manager.adapters[MemoryName()].memory;
    var stored := manager.Set(key, value, SetOptions(None, Some(100)), clock);
    assert manager.Target(None) == Ok(Memory(memory));
    ReadStored(memory, key, value, clock.now, Some(100), clock.now);
    first := manager.Get(key, None, clock.now);
    ReadStored(memory, key, value, clock.now, Some(100), clock.now + 110);
    second := manager.Get(key, None, clock.now + 110);
  }

  /** Reading an expired value removes it, so `has` then reports it missing. */
  method ExpiredReadEvicts(key: JsString, value: Json, clock: Clock, doc: CookieDocument?, json: JsonCodec)
    returns (got: Result<Option<Json>>, present: Result<bool>)
    requires Lawful(json)
    ensures got == Ok(None)
    ensures present == Ok(false)
  {
    var manager := new StorageManager(NoOptions(), TestEnvironment(), doc, json);
    DefaultAdapterChoice(TestEnvironment(), NoOptions());
    var memory := manager.adapters[MemoryName()].memory;
    var stored := manager.Set(key, value, SetOptions(None, Some(100)), clock);
    assert manager.Target(None) == Ok(Memory(memory));
    ReadStored(memory, key, value, clock.now, Some(100), clock.now + 110);
    got := manager.Get(key, None, clock.now + 110);
    assert memory.Lookup(key) == None;
    present := manager.Has(key, None, clock.now + 110);
  }

  /** A value stored in the memory adapter reads back from it and is missing from localStorage. */
  method DifferentAdapters(key: JsString, value: Json, clock: Clock, doc: CookieDocument?, json: JsonCodec)
    returns (inMemory: Result<Option<Json>>, inLocal: Result<Option<Json>>)
    requires Lawful(json)
    ensures inMemory == Ok(Some(value))
    ensures inLocal == Ok(None)
  {
    var manager := new StorageManager(NoOptions(), TestEnvironment(), doc, json);
    var memory := manager.adapters[MemoryName()].memory;
    var local := manager.adapters[LocalStorageName()].memory;
    assert memory != local by {
      NamesDistinct();
      assert memory.lenient && !local.lenient;
    }
    var stored := manager.Set(key, value, SetOptions(Some(MemoryName()), None), clock);
    assert local.Lookup(key) == None;
    ReadStored(memory, key, value, clock.now, None, clock.now);
    inMemory := manager.Get(key, Some(MemoryName()), clock.now);
    inLocal := manager.Get(key, Some(LocalStorageName()), clock.now);
  }

  /** A removed value reads as missing. */
  method RemoveItems(key: JsString, value: Json, clock: Clock, doc: CookieDocument?, json: JsonCodec)
    returns (removed: Result<()>, got: Result<Option<Json>>)
    ensures removed == Ok(())
    ensures got == Ok(None)
  {
    var manager := new StorageManager(NoOptions(), TestEnvironment(), doc, json);
    DefaultAdapterChoice(TestEnvironment(), NoOptions());
    var memory := manager.adapters[MemoryName()].memory;
    var stored := manager.Set(key, value, SetOptions(None, None), clock);
    assert manager.Target(None) == Ok(Memory(memory));
    removed := manager.Remove(key, None);
    assert manager.Target(None) == Ok(Memory(memory));
    assert removed.Ok? && removed.value == ();
    assert key !in memory.store;
    got := manager.Get(key, None, clock.now);
    assert Peek(Memory(memory), key, clock.now) == None;
  }

  /** `has` is true for a stored key and false for another one. */
  method HasKeys(key: JsString, other: JsString, value: Json, clock: Clock, doc: CookieDocument?, json: JsonCodec)
    returns (found: Result<bool>, missing: Result<bool>)
    requires Lawful(json) && other != key
    ensures found == Ok(true)
    ensures missing == Ok(false)
  {
    var manager := new StorageManager(NoOptions(), TestEnvironment(), doc, json);
    DefaultAdapterChoice(TestEnvironment(), NoOptions());
    var memory := manager.adapters[MemoryName()].memory;
    var stored := manager.Set(key, value, SetOptions(None, None), clock);
    assert memory.Lookup(other) == None;
    ReadStored(memory, key, value, clock.now, None, clock.now);
    found := manager.Has(key, None, clock.now);
    missing := manager.Has(other, None, clock.now);
  }

  /**
   * Under pure Node only the memory adapter is registered, yet a
   * `defaultAdapter` option still replaces the memory default: with
   * localStorage asked for, every call routed by default throws.
   */
  method NodeKeepsRequestedDefault(key: JsString, value: Json, clock: Clock, doc: CookieDocument?, json: JsonCodec)
    returns (stored: Result<()>, got: Result<Option<Json>>)
    ensures stored == Err(AdapterNotFound(LocalStorageName()))
    ensures got == Err(AdapterNotFound(LocalStorageName()))
  {
    var options := ManagerOptions(Some(LocalStorageName()), None, None, None);
    var manager := new StorageManager(options, Environment(true, false, false), doc, json);
    NamesDistinct();
    stored := manager.Set(key, value, SetOptions(None, None), clock);
    got := manager.Get(key, None, clock.now);
  }

  /** Under a namespace, `keys` lists a stored key without its prefix. */
  method NamespacedKeys(ns: JsString, key: JsString, value: Json, clock: Clock, doc: CookieDocument?, json: JsonCodec)
    returns (keys: Result<seq<JsString>>)
    requires ns != []
    ensures keys == Ok([key])
  {
    var options := ManagerOptions(None, None, None, Some(ns));
    var manager := new StorageManager(options, TestEnvironment(), doc, json);
    DefaultAdapterChoice(TestEnvironment(), options);
    var stored := manager.Set(key, value, SetOptions(None, None), clock);
    keys := manager.Keys(None);
    StripNamespaced([key], ns);
    assert seq(1, i requires 0 <= i < 1 => NamespaceKey([key][i], ns)) == [NamespaceKey(key, ns)];
  }
}
