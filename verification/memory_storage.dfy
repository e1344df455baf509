/**
 * The in-memory adapter of src/adapters/memoryStorage.ts: a `Map` from keys
 * to serialized items, updated in place. A `Map` remembers insertion order;
 * the model keeps that order as a sequence of keys beside the key-value map.
 *
 * The same class, with `lenient` switched off, stands in for the Web Storage
 * adapters (localStorage, sessionStorage), which decode strictly.
 */
module MemoryStorage {
  import opened Wrappers
  import opened JsText
  import opened JsonValue
  import opened StorageTypes
  import opened Envelope

  predicate NoDuplicates(keys: seq<JsString>) {
    forall i, j :: 0 <= i < j < |keys| ==> keys[i] != keys[j]
  }

  /** The insertion order after `Map.prototype.delete(key)`: the other keys, in their order. */
  function Without(order: seq<JsString>, key: JsString): (r: seq<JsString>)
    ensures forall k :: k in r <==> k in order && k != key
    ensures NoDuplicates(order) ==> NoDuplicates(r)
    ensures key !in order ==> r == order
    ensures |order| == 1 ==> r == if order[0] == key then [] else order
    decreases |order|
  {
    if order == [] then []
    else if order[0] == key then Without(order[1..], key)
    else
      assert NoDuplicates(order) ==> order[0] !in order[1..] && NoDuplicates(order[1..]) by {
        if NoDuplicates(order) {
          forall i | 0 <= i < |order[1..]| ensures order[1..][i] != order[0] {
            assert order[1..][i] == order[i + 1];
          }
        }
      }
      [order[0]] + Without(order[1..], key)
  }

  /** Deleting from a concatenation deletes from each part and keeps the parts in order. */
  lemma {:induction false} WithoutDistributes(a: seq<JsString>, b: seq<JsString>, key: JsString)
    ensures Without(a + b, key) == Without(a, key) + Without(b, key)
    decreases |a|
  {
    if a == [] {
      assert a + b == b;
    } else {
      assert (a + b)[1..] == a[1..] + b;
      WithoutDistributes(a[1..], b, key);
    }
  }

  /**
   * What `getItem` yields for the text stored under a key (`None`: no entry).
   * Empty text counts as missing. The lenient reader never fails on other
   * text and always yields an envelope; the strict reader yields whatever
   * `deserializeItem` parses and turns its failure into `undefined`.
   */
  function ReadEntry(data: Option<JsString>, encrypt: bool, lenient: bool, now: int, json: JsonCodec): (r: Option<Json>)
    ensures data.None? || data == Some([]) ==> r.None?
    ensures lenient ==> (r.Some? <==> data.Some? && data.value != [])
    ensures lenient && r.Some? ==> IsEnvelope(r.value)
    ensures !lenient ==> (r.Some? <==> data.Some? && data.value != [] && DeserializeItem(data.value, encrypt, json).Ok?)
    ensures !lenient && r.Some? ==> DeserializeItem(data.value, encrypt, json) == Ok(r.value)
  {
    match data
    case None => None
    case Some(text) =>
      if text == [] then None
      else if lenient then ParseStorageItem(text, encrypt, now, json)
      else
        match DeserializeItem(text, encrypt, json)
        case Ok(j) => Some(j)
        case Err(_) => None
  }

  /** An entry written by `setItem` reads back as the item it was given, in either reading mode. */
  lemma ReadAfterWrite(item: Item, encrypt: bool, lenient: bool, now: int, json: JsonCodec)
    requires Lawful(json)
    ensures ReadEntry(Some(SerializeItem(item, encrypt, json)), encrypt, lenient, now, json) == Some(ToJson(item))
  {
    if lenient {
      ParseSerialized(item, encrypt, now, json);
    } else {
      DeserializeSerialize(item, encrypt, json);
    }
  }

  class MemoryStorageAdapter {
    /** The `Map`'s keys, in insertion order. */
    var order: seq<JsString>
    /** The `Map`'s entries: key to serialized item. */
    var store: map<JsString, JsString>
    const encrypt: bool
    /** Reads with `parseStorageItem` (the memory adapter) rather than `deserializeItem`. */
    const lenient: bool
    const json: JsonCodec

    ghost predicate Valid()
      reads this
    {
      NoDuplicates(order) && forall k :: k in order <==> k in store
    }

    /** `this.storage.get(key)`. */
    function Lookup(key: JsString): Option<JsString>
      reads this
    {
      if key in store then Some(store[key]) else None
    }

    constructor (encrypt: bool, lenient: bool, json: JsonCodec)
      ensures Valid()
      ensures order == [] && store == map[]
      ensures this.encrypt == encrypt && this.lenient == lenient && this.json == json
    {
      this.encrypt := encrypt;
      this.lenient := lenient;
      this.json := json;
      order := [];
      store := map[];
    }

    /** `setItem(key, item)`: store the serialized item, replacing any earlier one; a new key goes last. */
    method SetItem(key: JsString, item: Item)
      requires Valid()
      modifies this
      ensures Valid()
      ensures store == old(store)[key := SerializeItem(item, encrypt, json)]
      ensures order == if key in old(store) then old(order) else old(order) + [key]
    {
      var serialized := SerializeItem(item, encrypt, json);
      if key !in store {
        order := order + [key];
      }
      store := store[key := serialized];
    }

    /** `getItem(key)` at instant `now`. */
    method GetItem(key: JsString, now: int) returns (r: Option<Json>)
      ensures r == ReadEntry(Lookup(key), encrypt, lenient, now, json)
    {
      if key !in store || store[key] == [] {
        return None;
      }
      var data := store[key];
      if lenient {
        r := ParseStorageItem(data, encrypt, now, json);
      } else {
        var decoded := DeserializeItem(data, encrypt, json);
        r := if decoded.Ok? then Some(decoded.value) else None;
      }
    }

    /** `removeItem(key)`: delete that one entry. */
    method RemoveItem(key: JsString)
      requires Valid()
      modifies this
      ensures Valid()
      ensures store == old(store) - {key}
      ensures order == Without(old(order), key)
    {
      store := store - {key};
      order := Without(order, key);
    }

    /** `clear()`: delete every entry. */
    method Clear()
      requires Valid()
      modifies this
      ensures Valid()
      ensures store == map[] && order == []
    {
      store := map[];
      order := [];
    }

    /** `keys()`: every stored key exactly once, in insertion order. */
    method Keys() returns (keys: seq<JsString>)
      requires Valid()
      ensures keys == order
      ensures NoDuplicates(keys)
      ensures forall k :: k in keys <==> k in store
    {
      keys := order;
    }
  }
}
