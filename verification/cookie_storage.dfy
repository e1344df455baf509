/**
 * The cookie adapter of src/adapters/cookieStorage.ts. It reads the host's
 * `document.cookie` (a Cookie header, section 4.2.1 of RFC 6265) and assigns
 * Set-Cookie strings to it (section 4.1.1 of RFC 6265; `samesite` from the
 * RFC 6265bis draft). The host's cookie jar is not modelled: the document
 * yields a given Cookie header and records what is written to it.
 */
module CookieStorage {
  import opened Wrappers
  import opened JsText
  import opened JsonValue
  import opened StorageTypes
  import opened Envelope
  import Uri

  /** Milliseconds in a day, `24 * 60 * 60 * 1000`. */
  const DAY: int := 86400000

  datatype SameSite = Strict | Lax | NoRestriction

  function SameSiteText(s: SameSite): JsString {
    match s
    case Strict => Lit("strict")
    case Lax => Lit("lax")
    case NoRestriction => Lit("none")
  }

  /** The constructor's options object; `None` is a property left out. */
  datatype CookieOptions = CookieOptions(
    encrypt: Option<bool>,
    defaultDays: Option<int>,
    path: Option<JsString>,
    domain: Option<JsString>,
    secure: Option<bool>,
    sameSite: Option<SameSite>)

  /** A string option that is truthy: present and non-empty. */
  predicate IsSet(s: Option<JsString>) {
    s.Some? && s.value != []
  }

  function Semicolon(): CodeUnit { Unit(';') }
  function Equals(): CodeUnit { Unit('=') }
  function Sep(): JsString { Lit("; ") }

  // ---------------------------------------------------------------------
  // Lifetime in days

  /** `Math.ceil(ms / DAY)`. */
  function CeilDays(ms: int): (d: int)
    ensures (d - 1) * DAY < ms <= d * DAY
  {
    var q := (-ms) / DAY;
    assert q * DAY <= -ms < q * DAY + DAY;
    -q
  }

  /** The cookie's lifetime: the TTL rounded up to whole days, or `defaultDays` when the TTL is absent or 0. */
  function CookieDays(expires: Option<int>, defaultDays: int): (d: int)
    ensures expires.Some? && expires.value != 0 ==> (d - 1) * DAY < expires.value <= d * DAY
    ensures expires.None? || expires.value == 0 ==> d == defaultDays
  {
    if expires.Some? && expires.value != 0 then CeilDays(expires.value) else defaultDays
  }

  // ---------------------------------------------------------------------
  // Set-Cookie strings

  /** The attributes `setItem` writes after the name-value pair, in order. */
  function Attributes(expiry: JsString, path: JsString, domain: Option<JsString>, secure: bool, sameSite: SameSite): (attrs: seq<JsString>)
    ensures |attrs| >= 3
    ensures attrs[0] == Lit("expires=") + expiry && attrs[1] == Lit("path=") + path
    ensures attrs[|attrs| - 1] == Lit("samesite=") + SameSiteText(sameSite)
  {
    [Lit("expires=") + expiry, Lit("path=") + path]
      + (if IsSet(domain) then [Lit("domain=") + domain.value] else [])
      + (if secure then [Lit("secure")] else [])
      + [Lit("samesite=") + SameSiteText(sameSite)]
  }

  /** A `domain=` attribute is written exactly when a domain is set. */
  lemma AttributesDomain(expiry: JsString, path: JsString, domain: Option<JsString>, secure: bool, sameSite: SameSite)
    ensures var attrs := Attributes(expiry, path, domain, secure, sameSite);
      (exists a :: a in attrs && StartsWith(a, Lit("domain="))) <==> IsSet(domain)
  {
    var attrs := Attributes(expiry, path, domain, secure, sameSite);
    if IsSet(domain) {
      assert attrs[2] == Lit("domain=") + domain.value;
      assert StartsWith(attrs[2], Lit("domain="));
    } else {
      forall a | a in attrs
        ensures !StartsWith(a, Lit("domain="))
      {
        assert a[0] != Unit('d');
      }
    }
  }

  /** The `secure` flag is written exactly when it is on. */
  lemma AttributesSecure(expiry: JsString, path: JsString, domain: Option<JsString>, secure: bool, sameSite: SameSite)
    ensures Lit("secure") in Attributes(expiry, path, domain, secure, sameSite) <==> secure
  {
    var attrs := Attributes(expiry, path, domain, secure, sameSite);
    var s := Lit("secure");
    if secure {
      assert attrs[|attrs| - 2] == s;
    } else {
      assert s[0] == Unit('s') && |s| == 6;
    }
  }

  /** The attribute part of a Set-Cookie string: each attribute preceded by `; `. */
  function AttributeText(attrs: seq<JsString>): JsString
    decreases |attrs|
  {
    if attrs == [] then [] else AttributeText(attrs[..|attrs| - 1]) + Sep() + attrs[|attrs| - 1]
  }

  /** Appending `; a` to a string that ends in the attribute text appends `a` to the attributes. */
  lemma AppendAttribute(prefix: JsString, attrs: seq<JsString>, a: JsString)
    ensures prefix + AttributeText(attrs) + Sep() + a == prefix + AttributeText(attrs + [a])
  {
    assert (attrs + [a])[..|attrs|] == attrs;
  }

  lemma TwoAttributes(prefix: JsString, a: JsString, b: JsString)
    ensures prefix + Sep() + a + Sep() + b == prefix + AttributeText([a, b])
  {
    AppendAttribute(prefix, [], a);
    assert [] + [a] == [a];
    AppendAttribute(prefix, [a], b);
    assert [a] + [b] == [a, b];
  }

  /** `set-cookie-string`: `name=value`, then the attributes. */
  function SetCookieString(name: JsString, value: JsString, attrs: seq<JsString>): (r: JsString)
    ensures StartsWith(r, name + Lit("=") + value)
  {
    name + Lit("=") + value + AttributeText(attrs)
  }

  function Epoch(): JsString { Lit("Thu, 01 Jan 1970 00:00:00 GMT") }

  /** The attributes of a removal line: expired at the epoch, for the path, and the domain when one is given. */
  function RemovalAttributes(path: JsString, domain: Option<JsString>): (attrs: seq<JsString>)
    ensures |attrs| == if domain.Some? then 3 else 2
    ensures attrs[0] == Lit("expires=") + Epoch() && attrs[1] == Lit("path=") + path
  {
    [Lit("expires=") + Epoch(), Lit("path=") + path] + if domain.Some? then [Lit("domain=") + domain.value] else []
  }

  /**
   * The strings `removeItem` assigns for an encoded name: an empty value
   * that expired at the epoch, for the path, and a second one naming the
   * domain when a domain is set.
   */
  function RemovalLines(name: JsString, path: JsString, domain: Option<JsString>): (lines: seq<JsString>)
    ensures |lines| == if IsSet(domain) then 2 else 1
    ensures forall i :: 0 <= i < |lines| ==> StartsWith(lines[i], name + Lit("="))
    ensures lines[0] == name + Lit("=") + Sep() + Lit("expires=") + Epoch() + Sep() + Lit("path=") + path
    ensures IsSet(domain) ==> lines[1] == lines[0] + Sep() + Lit("domain=") + domain.value
  {
    var line := SetCookieString(name, [], RemovalAttributes(path, None));
    RemovalLine(name, path);
    if IsSet(domain) then
      DomainLine(name, path, domain.value);
      [line, SetCookieString(name, [], RemovalAttributes(path, domain))]
    else [line]
  }

  /** The first removal line, spelled out as the template writes it. */
  lemma RemovalLine(name: JsString, path: JsString)
    ensures SetCookieString(name, [], RemovalAttributes(path, None))
      == name + Lit("=") + Sep() + Lit("expires=") + Epoch() + Sep() + Lit("path=") + path
  {
    var expires, pathAttr := Lit("expires=") + Epoch(), Lit("path=") + path;
    calc {
      SetCookieString(name, [], RemovalAttributes(path, None));
      { assert RemovalAttributes(path, None) == [expires, pathAttr]; }
      name + Lit("=") + [] + AttributeText([expires, pathAttr]);
      { TwoAttributes([], expires, pathAttr); }
      name + Lit("=") + ([] + Sep() + expires + Sep() + pathAttr);
      name + Lit("=") + Sep() + Lit("expires=") + Epoch() + Sep() + Lit("path=") + path;
    }
  }

  /** The second removal line is the first followed by the domain attribute. */
  lemma DomainLine(name: JsString, path: JsString, domain: JsString)
    ensures SetCookieString(name, [], RemovalAttributes(path, Some(domain)))
      == SetCookieString(name, [], RemovalAttributes(path, None)) + Sep() + Lit("domain=") + domain
  {
    var attrs := RemovalAttributes(path, None);
    AppendAttribute(name + Lit("=") + [], attrs, Lit("domain=") + domain);
    assert attrs + [Lit("domain=") + domain] == RemovalAttributes(path, Some(domain));
  }

  // ---------------------------------------------------------------------
  // Reading the Cookie header

  /** `cookie.split('=')[0].trim()`: the name `clear` and `keys` read from an entry. */
  function EntryName(entry: JsString): JsString {
    Trim(Split(entry, Equals())[0])
  }

  /** `const [cookieKey, cookieValue] = cookie.trim().split('=')` in `getItem`; the value may be `undefined`. */
  function EntryPair(entry: JsString): (JsString, Option<JsString>) {
    var parts := Split(Trim(entry), Equals());
    (parts[0], if |parts| > 1 then Some(parts[1]) else None)
  }

  /** The entry `getItem` stops at: its name is the encoded key and its value is non-empty. */
  predicate Matches(entry: JsString, encodedKey: JsString) {
    EntryPair(entry).0 == encodedKey && IsSet(EntryPair(entry).1)
  }

  /** The index of the first matching entry, or the number of entries if none matches. */
  function FirstMatch(entries: seq<JsString>, encodedKey: JsString): (i: nat)
    ensures i <= |entries|
    ensures forall j :: 0 <= j < i ==> !Matches(entries[j], encodedKey)
    ensures i < |entries| ==> Matches(entries[i], encodedKey)
    decreases |entries|
  {
    if entries == [] then 0
    else if Matches(entries[0], encodedKey) then 0
    else 1 + FirstMatch(entries[1..], encodedKey)
  }

  /**
   * What `getItem(key)` yields for a Cookie header: the strict decode of the
   * URL-decoded value of the first matching entry; `undefined` when the key
   * cannot be encoded, nothing matches, or decoding throws.
   */
  function CookieLookup(header: JsString, key: JsString, encrypt: bool, json: JsonCodec): (r: Option<Json>)
    ensures r.Some? ==> WellFormed(key)
  {
    match Uri.EncodeURIComponent(key)
    case None => None
    case Some(encodedKey) =>
      var entries := Split(header, Semicolon());
      var i := FirstMatch(entries, encodedKey);
      if i == |entries| then None
      else
        match Uri.DecodeURIComponent(EntryPair(entries[i]).1.value)
        case None => None
        case Some(text) =>
          match DeserializeItem(text, encrypt, json)
          case Ok(j) => Some(j)
          case Err(_) => None
  }

  /** The outcome of `clear`: the strings written, and whether a `removeItem` threw part way. */
  datatype Writes = Writes(lines: seq<JsString>, failed: bool)

  /**
   * What `clear` assigns for the entries of a Cookie header: for each entry,
   * in order, the removal lines of its name percent-encoded AGAIN; it stops
   * at the first name that cannot be encoded.
   */
  function ClearWrites(entries: seq<JsString>, path: JsString, domain: Option<JsString>): (w: Writes)
    decreases |entries|
  {
    if entries == [] then Writes([], false)
    else
      match Uri.EncodeURIComponent(EntryName(entries[0]))
      case None => Writes([], true)
      case Some(name) =>
        var rest := ClearWrites(entries[1..], path, domain);
        Writes(RemovalLines(name, path, domain) + rest.lines, rest.failed)
  }

  /**
   * What `keys` returns for the entries of a Cookie header: the URL-decoded
   * names of the non-blank entries, in order; a name that cannot be decoded
   * makes it throw.
   */
  function CookieNames(entries: seq<JsString>): (r: Result<seq<JsString>>)
    ensures r.Err? ==> r.error == UriMalformed
    ensures r.Ok? ==> |r.value| <= |entries|
    decreases |entries|
  {
    if entries == [] then Ok([])
    else if Trim(entries[0]) == [] then CookieNames(entries[1..])
    else
      match Uri.DecodeURIComponent(EntryName(entries[0]))
      case None => Err(UriMalformed)
      case Some(name) =>
        match CookieNames(entries[1..])
        case Ok(names) => Ok([name] + names)
        case Err(e) => Err(e)
  }

  /** `clear` on entries whose first name encodes: that name's removal lines, then the rest's. */
  lemma ClearHead(entries: seq<JsString>, path: JsString, domain: Option<JsString>)
    requires entries != [] && WellFormed(EntryName(entries[0]))
    ensures var rest := ClearWrites(entries[1..], path, domain);
      ClearWrites(entries, path, domain)
        == Writes(RemovalLines(Uri.EncodeURIComponent(EntryName(entries[0])).value, path, domain) + rest.lines, rest.failed)
  {
  }

  /** Moving one entry's removal lines from what `clear` still owes to what it has written. */
  lemma ClearStep(w: Writes, rest: Writes, lines: seq<JsString>, before: seq<JsString>, after: seq<JsString>, total: seq<JsString>)
    requires w == Writes(lines + rest.lines, rest.failed)
    requires before + w.lines == total && after == before + lines
    ensures after + rest.lines == total && rest.failed == w.failed
  {
    assert after + rest.lines == before + (lines + rest.lines);
  }

  /** `clear` stops at an entry whose name cannot be encoded, writing nothing more. */
  lemma ClearStops(entries: seq<JsString>, i: nat, path: JsString, domain: Option<JsString>)
    requires i < |entries| && !WellFormed(EntryName(entries[i]))
    ensures ClearWrites(entries[i..], path, domain) == Writes([], true)
  {
  }

  function PrependNames(names: seq<JsString>, r: Result<seq<JsString>>): Result<seq<JsString>> {
    match r
    case Ok(rest) => Ok(names + rest)
    case Err(e) => Err(e)
  }

  lemma PrependTwice(a: seq<JsString>, b: seq<JsString>, r: Result<seq<JsString>>)
    ensures PrependNames(a, PrependNames(b, r)) == PrependNames(a + b, r)
  {
    if r.Ok? {
      assert a + (b + r.value) == a + b + r.value;
    }
  }
  /** `keys` on entries: the first entry's contribution, then the rest's. */
  lemma NamesHead(entries: seq<JsString>)
    requires entries != []
    ensures Trim(entries[0]) == [] ==> CookieNames(entries) == CookieNames(entries[1..])
    ensures Trim(entries[0]) != [] ==>
      match Uri.DecodeURIComponent(EntryName(entries[0]))
      case None => CookieNames(entries) == Err(UriMalformed)
      case Some(name) => CookieNames(entries) == PrependNames([name], CookieNames(entries[1..]))
  {
  }
  /** One entry of the `keys` loop: the names gathered so far and the rest's names still make up the whole. */
  lemma NamesStep(entries: seq<JsString>, i: nat, keys: seq<JsString>)
    requires i < |entries| && CookieNames(entries) == PrependNames(keys, CookieNames(entries[i..]))
    ensures Trim(entries[i]) == [] ==> CookieNames(entries) == PrependNames(keys, CookieNames(entries[i + 1..]))
    ensures Trim(entries[i]) != [] ==>
      match Uri.DecodeURIComponent(EntryName(entries[i]))
      case None => CookieNames(entries) == Err(UriMalformed)
      case Some(name) => CookieNames(entries) == PrependNames(keys + [name], CookieNames(entries[i + 1..]))
  {
    assert entries[i..][1..] == entries[i + 1..];
    NamesHead(entries[i..]);
    if Trim(entries[i]) != [] {
      match Uri.DecodeURIComponent(EntryName(entries[i])) {
        case None =>
        case Some(name) => PrependTwice(keys, [name], CookieNames(entries[i + 1..]));
      }
    }
  }



  // ---------------------------------------------------------------------
  // What a written cookie reads back as

  /** A run of units that a Cookie header cannot confuse with its separators or padding. */
  predicate Token(s: JsString) {
    forall i :: 0 <= i < |s| ==> s[i] != Semicolon() && s[i] != Equals() && !IsWhitespace(s[i])
  }

  /** Percent-encoded text is a token. */
  lemma EncodedIsToken(s: JsString)
    requires WellFormed(s)
    ensures Token(Uri.EncodeURIComponent(s).value)
  {
    Uri.EncodedUnits(s);
  }

  /** A `name=value` pair whose name is a token holds no `;` unless its value does. */
  lemma PairHasNoSemicolon(name: JsString, value: JsString)
    requires Token(name) && Semicolon() !in value
    ensures Semicolon() !in name + [Equals()] + value
  {
    var pair := name + [Equals()] + value;
    forall i | 0 <= i < |pair| ensures pair[i] != Semicolon() {
      if i < |name| { assert pair[i] == name[i]; }
      else if i > |name| { assert pair[i] == value[i - |name| - 1]; }
    }
  }

  /** The entries after the first, for what follows a pair in a header: nothing, or `;` and more. */
  function LaterEntries(tail: JsString): seq<JsString> {
    if tail == [] then [] else Split(tail[1..], Semicolon())
  }

  /** A pair at the head of a Cookie header is its first entry. */
  lemma FirstEntry(pair: JsString, tail: JsString)
    requires Semicolon() !in pair
    requires tail == [] || tail[0] == Semicolon()
    ensures Split(pair + tail, Semicolon()) == [pair] + LaterEntries(tail)
  {
    if tail == [] {
      assert pair + tail == pair;
      SplitWithoutSeparator(pair, Semicolon());
    } else {
      assert pair + tail == pair + [Semicolon()] + tail[1..];
      SplitAtFirst(pair, Semicolon(), tail[1..]);
    }
  }

  /** `getItem` reads a `name=value` pair of two non-empty-valued tokens as that name and value. */
  lemma PairOfTokens(name: JsString, value: JsString)
    requires Token(name) && Token(value) && value != []
    ensures EntryPair(name + [Equals()] + value) == (name, Some(value))
  {
    var pair := name + [Equals()] + value;
    assert !IsWhitespace(pair[0]) by {
      if name != [] { assert pair[0] == name[0]; }
    }
    assert pair[|pair| - 1] == value[|value| - 1];
    TrimUnpadded(pair);
    SplitAtFirst(name, Equals(), value);
    SplitWithoutSeparator(value, Equals());
  }

  /** `clear` and `keys` read a pair whose name is a token as a non-blank entry of that name. */
  lemma NameOfPair(name: JsString, value: JsString)
    requires Token(name)
    ensures Trim(name + [Equals()] + value) != []
    ensures EntryName(name + [Equals()] + value) == name
  {
    var pair := name + [Equals()] + value;
    assert !IsWhitespace(pair[0]) by {
      if name != [] { assert pair[0] == name[0]; }
    }
    TrimKeepsLeadingUnit(pair);
    SplitAtFirst(name, Equals(), value);
    TrimUnpadded(name);
  }

  /** The `name=value` pair `setItem` writes for a key and an item. */
  function CookiePair(key: JsString, item: Item, encrypt: bool, json: JsonCodec): (pair: JsString)
    requires Lawful(json) && WellFormed(key)
    ensures Semicolon() !in pair
  {
    SerializedWellFormed(item, encrypt, json);
    var name := Uri.EncodeURIComponent(key).value;
    var value := Uri.EncodeURIComponent(SerializeItem(item, encrypt, json)).value;
    EncodedIsToken(key);
    EncodedIsToken(SerializeItem(item, encrypt, json));
    PairHasNoSemicolon(name, value);
    name + [Equals()] + value
  }

  /** The line `setItem` writes starts with that pair. */
  lemma LineStartsWithPair(adapter: CookieStorageAdapter, key: JsString, item: Item, clock: Clock)
    requires Lawful(adapter.json) && WellFormed(key)
    ensures WellFormed(SerializeItem(item, adapter.encrypt, adapter.json))
    ensures StartsWith(adapter.CookieLine(key, item, clock), CookiePair(key, item, adapter.encrypt, adapter.json))
  {
    SerializedWellFormed(item, adapter.encrypt, adapter.json);
    assert Lit("=") == [Equals()];
  }

  /**
   * A Cookie header that carries, first, the pair `setItem` wrote (as a user
   * agent sends it back, section 4.2.1 of RFC 6265) makes `getItem` return
   * the item that was written, obfuscated or not.
   */
  lemma CookieRoundTrip(key: JsString, item: Item, encrypt: bool, json: JsonCodec, tail: JsString)
    requires Lawful(json) && WellFormed(key)
    requires tail == [] || tail[0] == Semicolon()
    ensures CookieLookup(CookiePair(key, item, encrypt, json) + tail, key, encrypt, json) == Some(ToJson(item))
  {
    var serialized := SerializeItem(item, encrypt, json);
    SerializedWellFormed(item, encrypt, json);
    var name := Uri.EncodeURIComponent(key).value;
    var value := Uri.EncodeURIComponent(serialized).value;
    EncodedIsToken(key);
    EncodedIsToken(serialized);
    Uri.EncodingGrows(serialized);
    var pair := CookiePair(key, item, encrypt, json);
    assert pair == name + [Equals()] + value;
    FirstEntry(pair, tail);
    var entries := Split(pair + tail, Semicolon());
    assert entries[0] == pair;
    PairOfTokens(name, value);
    assert FirstMatch(entries, name) == 0;
    Uri.DecodeEncode(serialized);
    DeserializeSerialize(item, encrypt, json);
  }

  /**
   * A Cookie header that starts with a pair whose name is an encoded key
   * lists that key first among `keys`, before the names of the rest.
   */
  lemma KeysRoundTrip(key: JsString, value: JsString, tail: JsString)
    requires WellFormed(key) && Semicolon() !in value
    requires tail == [] || tail[0] == Semicolon()
    ensures CookieNames(Split(Uri.EncodeURIComponent(key).value + [Equals()] + value + tail, Semicolon()))
      == PrependNames([key], CookieNames(LaterEntries(tail)))
  {
    var name := Uri.EncodeURIComponent(key).value;
    EncodedIsToken(key);
    var pair := name + [Equals()] + value;
    PairHasNoSemicolon(name, value);
    FirstEntry(pair, tail);
    var entries := Split(pair + tail, Semicolon());
    assert entries[0] == pair && entries[1..] == LaterEntries(tail);
    NameOfPair(name, value);
    Uri.DecodeEncode(key);
  }

  /**
   * `clear` passes each name as it appears in the header, still encoded, to
   * `removeItem`, which encodes it again. A name holding `%` (every name
   * `setItem` wrote for a key with a character outside the unreserved set)
   * is thus not the name the removal line expires; a name of unreserved
   * characters only is.
   */
  lemma ClearReencodesName(entries: seq<JsString>, path: JsString, domain: Option<JsString>)
    requires entries != [] && WellFormed(EntryName(entries[0]))
    ensures ClearWrites(entries, path, domain).lines != []
    ensures var name := EntryName(entries[0]); var first := ClearWrites(entries, path, domain).lines[0];
      && (Uri.PERCENT in name ==> !StartsWith(first, name + Lit("=")))
      && ((forall i :: 0 <= i < |name| ==> Uri.Unreserved(name[i])) ==> StartsWith(first, name + Lit("=")))
  {
    var name := EntryName(entries[0]);
    var encoded := Uri.EncodeURIComponent(name).value;
    var first := ClearWrites(entries, path, domain).lines[0];
    assert StartsWith(first, encoded + Lit("="));
    if Uri.PERCENT in name {
      Uri.EncodingGrows(name);
      EncodedIsToken(name);
      assert first[|name|] == encoded[|name|];
      assert (name + Lit("="))[|name|] == Equals();
    }
    if forall i :: 0 <= i < |name| ==> Uri.Unreserved(name[i]) {
      Uri.EncodeUnreserved(name);
    }
  }

  // ---------------------------------------------------------------------
  // The host document and the adapter

  /** The host `document`, as far as cookies go. */
  class CookieDocument {
    /** What reading `document.cookie` yields: the Cookie header. */
    var cookie: JsString
    /** Every string written to `document.cookie`, oldest first. */
    var written: seq<JsString>

    constructor (cookie: JsString)
      ensures this.cookie == cookie && written == []
    {
      this.cookie := cookie;
      written := [];
    }
  }

  class CookieStorageAdapter {
    const encrypt: bool
    const defaultDays: int
    const path: JsString
    const domain: Option<JsString>
    const secure: bool
    const sameSite: SameSite
    /** The host document; `null` where `typeof document === 'undefined'`. */
    const doc: CookieDocument?
    const json: JsonCodec

    function Footprint(): set<object> {
      if doc == null then {} else {doc}
    }

    /** Options left out or falsy take their defaults: no obfuscation, 7 days, path `/`, not secure, `lax`. */
    constructor (options: CookieOptions, doc: CookieDocument?, json: JsonCodec)
      ensures encrypt == options.encrypt.GetOr(false)
      ensures defaultDays == if options.defaultDays.None? || options.defaultDays.value == 0 then 7 else options.defaultDays.value
      ensures path == if IsSet(options.path) then options.path.value else Lit("/")
      ensures domain == options.domain
      ensures secure == options.secure.GetOr(false)
      ensures sameSite == options.sameSite.GetOr(Lax)
      ensures this.doc == doc && this.json == json
    {
      encrypt := options.encrypt.GetOr(false);
      defaultDays := if options.defaultDays.None? || options.defaultDays.value == 0 then 7 else options.defaultDays.value;
      path := if IsSet(options.path) then options.path.value else Lit("/");
      domain := options.domain;
      secure := options.secure.GetOr(false);
      sameSite := options.sameSite.GetOr(Lax);
      this.doc := doc;
      this.json := json;
    }

    /** The Set-Cookie string `setItem(key, item)` assigns at the instant the clock gives. */
    function CookieLine(key: JsString, item: Item, clock: Clock): (line: JsString)
      requires WellFormed(key) && WellFormed(SerializeItem(item, encrypt, json))
    {
      var expiresAt := clock.now + CookieDays(item.expires, defaultDays) * DAY;
      SetCookieString(
        Uri.EncodeURIComponent(key).value,
        Uri.EncodeURIComponent(SerializeItem(item, encrypt, json)).value,
        Attributes(clock.toUTCString(expiresAt), path, domain, secure, sameSite))
    }

    /**
     * The string `setItem` builds piece by piece: the pair, `expires` and
     * `path`, then `domain` when set, `secure` when on, and `samesite` last.
     */
    method BuildCookieString(name: JsString, value: JsString, expiry: JsString) returns (cookieStr: JsString)
      ensures cookieStr == SetCookieString(name, value, Attributes(expiry, path, domain, secure, sameSite))
    {
      cookieStr := name + Lit("=") + value + Sep() + (Lit("expires=") + expiry) + Sep() + (Lit("path=") + path);
      ghost var pair := name + Lit("=") + value;
      ghost var attrs := [Lit("expires=") + expiry, Lit("path=") + path];
      TwoAttributes(pair, attrs[0], attrs[1]);
      if IsSet(domain) {
        AppendAttribute(pair, attrs, Lit("domain=") + domain.value);
        cookieStr := cookieStr + Sep() + (Lit("domain=") + domain.value);
        attrs := attrs + [Lit("domain=") + domain.value];
      }
      if secure {
        AppendAttribute(pair, attrs, Lit("secure"));
        cookieStr := cookieStr + Sep() + Lit("secure");
        attrs := attrs + [Lit("secure")];
      }
      AppendAttribute(pair, attrs, Lit("samesite=") + SameSiteText(sameSite));
      cookieStr := cookieStr + Sep() + (Lit("samesite=") + SameSiteText(sameSite));
      attrs := attrs + [Lit("samesite=") + SameSiteText(sameSite)];
      assert attrs == Attributes(expiry, path, domain, secure, sameSite);
    }

    /**
     * `setItem(key, item)`: throws `Failed to set cookie '<key>'` when the key
     * or the serialized item cannot be percent-encoded; otherwise assigns
     * the Set-Cookie string, when there is a document.
     */
    method SetItem(key: JsString, item: Item, clock: Clock) returns (r: Result<()>)
      modifies Footprint()
      ensures r.Err? <==> !WellFormed(key) || !WellFormed(SerializeItem(item, encrypt, json))
      ensures r.Err? ==> r.error == SetCookieFailed(key)
      ensures doc != null ==> doc.cookie == old(doc.cookie)
      ensures doc != null ==> doc.written == old(doc.written) + (if r.Ok? then [CookieLine(key, item, clock)] else [])
    {
      var serialized := SerializeItem(item, encrypt, json);
      var days := CookieDays(item.expires, defaultDays);
      var expiresAt := clock.now + days * DAY;
      var name := Uri.EncodeURIComponent(key);
      var value := Uri.EncodeURIComponent(serialized);
      if name.None? || value.None? {
        return Err(SetCookieFailed(key));
      }
      var cookieStr := BuildCookieString(name.value, value.value, clock.toUTCString(expiresAt));
      if doc != null {
        doc.written := doc.written + [cookieStr];
      }
      return Ok(());
    }

    /** `getItem(key)`: never throws; every failure reads as `undefined`. */
    method GetItem(key: JsString) returns (r: Option<Json>)
      ensures doc == null ==> r.None?
      ensures doc != null ==> r == CookieLookup(doc.cookie, key, encrypt, json)
    {
      if doc == null {
        return None;
      }
      var cookies := Split(doc.cookie, Semicolon());
      var encodedKey := Uri.EncodeURIComponent(key);
      if encodedKey.None? {
        return None;
      }
      var i := 0;
      while i < |cookies|
        invariant 0 <= i <= |cookies|
        invariant forall j :: 0 <= j < i ==> !Matches(cookies[j], encodedKey.value)
      {
        var pair := EntryPair(cookies[i]);
        if pair.0 == encodedKey.value && IsSet(pair.1) {
          assert FirstMatch(cookies, encodedKey.value) == i;
          var decodedValue := Uri.DecodeURIComponent(pair.1.value);
          if decodedValue.None? {
            return None;
          }
          var decoded := DeserializeItem(decodedValue.value, encrypt, json);
          return if decoded.Ok? then Some(decoded.value) else None;
        }
        i := i + 1;
      }
      assert FirstMatch(cookies, encodedKey.value) == |cookies|;
      return None;
    }

    /**
     * `removeItem(key)`: assigns the removal lines of the encoded key; throws
     * the host's `URIError` when the key cannot be encoded.
     */
    method RemoveItem(key: JsString) returns (r: Result<()>)
      modifies Footprint()
      ensures doc == null ==> r == Ok(())
      ensures doc != null ==> (r.Ok? <==> WellFormed(key)) && (r.Err? ==> r.error == UriMalformed)
      ensures doc != null ==> doc.cookie == old(doc.cookie)
      ensures doc != null ==>
        doc.written == old(doc.written) + (if r.Ok? then RemovalLines(Uri.EncodeURIComponent(key).value, path, domain) else [])
    {
      if doc == null {
        return Ok(());
      }
      var name := Uri.EncodeURIComponent(key);
      if name.None? {
        return Err(UriMalformed);
      }
      var line := name.value + Lit("=") + Sep() + (Lit("expires=") + Epoch()) + Sep() + (Lit("path=") + path);
      ghost var attrs := RemovalAttributes(path, None);
      TwoAttributes(name.value + Lit("=") + [], attrs[0], attrs[1]);
      assert name.value + Lit("=") + [] == name.value + Lit("=");
      assert attrs == [attrs[0], attrs[1]];
      doc.written := doc.written + [line];
      if IsSet(domain) {
        AppendAttribute(name.value + Lit("=") + [], attrs, Lit("domain=") + domain.value);
        assert attrs + [Lit("domain=") + domain.value] == RemovalAttributes(path, domain);
        doc.written := doc.written + [line + Sep() + (Lit("domain=") + domain.value)];
      }
      return Ok(());
    }

    /**
     * `clear()`: `removeItem` on the name of every entry of the Cookie header,
     * passing the name as it appears there, still percent-encoded.
     */
    method Clear() returns (r: Result<()>)
      modifies Footprint()
      ensures doc == null ==> r == Ok(())
      ensures doc != null ==> doc.cookie == old(doc.cookie)
      ensures doc != null ==>
        var w := ClearWrites(Split(old(doc.cookie), Semicolon()), path, domain);
        doc.written == old(doc.written) + w.lines && (r.Err? <==> w.failed) && (r.Err? ==> r.error == UriMalformed)
    {
      if doc == null {
        return Ok(());
      }
      var cookies := Split(doc.cookie, Semicolon());
      var i := 0;
      while i < |cookies|
        invariant 0 <= i <= |cookies|
        invariant doc.cookie == old(doc.cookie)
        invariant doc.written + ClearWrites(cookies[i..], path, domain).lines
          == old(doc.written) + ClearWrites(cookies, path, domain).lines
        invariant ClearWrites(cookies[i..], path, domain).failed == ClearWrites(cookies, path, domain).failed
      {
        var cookieKey := EntryName(cookies[i]);
        ghost var before := doc.written;
        var removed := RemoveItem(cookieKey);
        if removed.Err? {
          ClearStops(cookies, i, path, domain);
          return removed;
        }
        ClearHead(cookies[i..], path, domain);
        assert cookies[i..][1..] == cookies[i + 1..];
        ClearStep(ClearWrites(cookies[i..], path, domain), ClearWrites(cookies[i + 1..], path, domain),
          RemovalLines(Uri.EncodeURIComponent(cookieKey).value, path, domain),
          before, doc.written, old(doc.written) + ClearWrites(cookies, path, domain).lines);
        i := i + 1;
      }
      return Ok(());
    }

    /** `keys()`: the URL-decoded names of the non-blank entries; throws on a name that cannot be decoded. */
    method Keys() returns (r: Result<seq<JsString>>)
      ensures doc == null ==> r == Ok([])
      ensures doc != null ==> r == CookieNames(Split(doc.cookie, Semicolon()))
    {
      if doc == null {
        return Ok([]);
      }
      var cookies := Split(doc.cookie, Semicolon());
      var keys: seq<JsString> := [];
      var i := 0;
      assert cookies[0..] == cookies;
      assert PrependNames([], CookieNames(cookies)) == CookieNames(cookies) by {
        if CookieNames(cookies).Ok? {
          assert [] + CookieNames(cookies).value == CookieNames(cookies).value;
        }
      }
      while i < |cookies|
        invariant 0 <= i <= |cookies|
        invariant CookieNames(cookies) == PrependNames(keys, CookieNames(cookies[i..]))
      {
        NamesStep(cookies, i, keys);
        if Trim(cookies[i]) != [] {
          var cookieKey := EntryName(cookies[i]);
          var name := Uri.DecodeURIComponent(cookieKey);
          if name.None? {
            return Err(UriMalformed);
          }
          keys := keys + [name.value];
        }
        i := i + 1;
      }
      assert CookieNames(cookies[i..]) == Ok([]);
      assert keys + [] == keys;
      return Ok(keys);
    }
  }
}
