/**
 * The host's `btoa` and `atob`: base64 (section 4 of RFC 4648) over strings
 * whose code units are bytes. `btoa` throws on a unit above 0xFF; `atob` is
 * the forgiving decoder of the HTML standard (ASCII whitespace is dropped,
 * padding is optional, bits left over after the last byte are ignored) and
 * throws on anything else. Both throws are `None` here.
 */
module Base64 {
  import opened Wrappers
  import opened JsText

  const PAD: CodeUnit := '=' as int

  /** The 64-character alphabet of section 4 of RFC 4648. */
  function Char(n: int): (c: CodeUnit)
    requires 0 <= n < 64
  {
    if n < 26 then 'A' as int + n
    else if n < 52 then 'a' as int + (n - 26)
    else if n < 62 then '0' as int + (n - 52)
    else if n == 62 then '+' as int
    else '/' as int
  }

  function Value(c: CodeUnit): (r: Option<int>)
    ensures r.Some? ==> 0 <= r.value < 64
  {
    if 'A' as int <= c <= 'Z' as int then Some(c - 'A' as int)
    else if 'a' as int <= c <= 'z' as int then Some(c - 'a' as int + 26)
    else if '0' as int <= c <= '9' as int then Some(c - '0' as int + 52)
    else if c == '+' as int then Some(62)
    else if c == '/' as int then Some(63)
    else None
  }

  predicate InAlphabet(c: CodeUnit) { Value(c).Some? }

  lemma ValueOfChar(n: int)
    requires 0 <= n < 64
    ensures Value(Char(n)) == Some(n)
  {
  }

  /** Every unit is a byte (ISO-8859-1 text), as `btoa` demands. */
  predicate Latin1(s: JsString) {
    forall i :: 0 <= i < |s| ==> s[i] < 0x100
  }

  // ---------------------------------------------------------------------
  // Encoding

  /** The four characters that carry bytes `b0`, `b1`, `b2`, six bits each. */
  function Sextets(b0: int, b1: int, b2: int): (r: JsString)
    requires 0 <= b0 < 256 && 0 <= b1 < 256 && 0 <= b2 < 256
    ensures |r| == 4 && forall i :: 0 <= i < 4 ==> InAlphabet(r[i])
  {
    var v0, v1, v2, v3 := b0 / 4, (b0 % 4) * 16 + b1 / 16, (b1 % 16) * 4 + b2 / 64, b2 % 64;
    ValueOfChar(v0); ValueOfChar(v1); ValueOfChar(v2); ValueOfChar(v3);
    [Char(v0), Char(v1), Char(v2), Char(v3)]
  }

  /**
   * The base64 characters of `s` without padding: four per three bytes, then
   * the first two or three characters of a zero-filled group for a tail.
   */
  function Body(s: JsString): (r: JsString)
    requires Latin1(s)
    ensures forall i :: 0 <= i < |r| ==> InAlphabet(r[i])
    ensures |r| % 4 == (if |s| % 3 == 0 then 0 else |s| % 3 + 1)
    ensures |s| > 0 ==> |r| > 0
    decreases |s|
  {
    if |s| == 0 then []
    else if |s| == 1 then Sextets(s[0], 0, 0)[..2]
    else if |s| == 2 then Sextets(s[0], s[1], 0)[..3]
    else Sextets(s[0], s[1], s[2]) + Body(s[3..])
  }

  function Padding(n: nat): JsString {
    if n % 3 == 1 then [PAD, PAD] else if n % 3 == 2 then [PAD] else []
  }

  /** `btoa(s)`. */
  function Btoa(s: JsString): (r: Option<JsString>)
    ensures r.Some? <==> Latin1(s)
  {
    if Latin1(s) then Some(Body(s) + Padding(|s|)) else None
  }

  // ---------------------------------------------------------------------
  // Decoding

  predicate IsAsciiWhitespace(c: CodeUnit) {
    c == 0x09 || c == 0x0A || c == 0x0C || c == 0x0D || c == 0x20
  }

  function RemoveWhitespace(s: JsString): (r: JsString)
    decreases |s|
  {
    if s == [] then []
    else if IsAsciiWhitespace(s[0]) then RemoveWhitespace(s[1..])
    else [s[0]] + RemoveWhitespace(s[1..])
  }

  /** When the length is a multiple of four, one or two trailing `=` are dropped. */
  function StripPadding(s: JsString): JsString {
    if |s| % 4 != 0 then s
    else if |s| >= 2 && s[|s| - 2] == PAD && s[|s| - 1] == PAD then s[..|s| - 2]
    else if |s| >= 1 && s[|s| - 1] == PAD then s[..|s| - 1]
    else s
  }

  /** The three bytes that four 6-bit values carry. */
  function Octets(v0: int, v1: int, v2: int, v3: int): (r: JsString)
    requires 0 <= v0 < 64 && 0 <= v1 < 64 && 0 <= v2 < 64 && 0 <= v3 < 64
    ensures |r| == 3
  {
    [v0 * 4 + v1 / 16, (v1 % 16) * 16 + v2 / 4, (v2 % 4) * 64 + v3]
  }

  /** Characters to bytes, four to three; a tail of two or three characters gives one or two bytes. */
  function Decode(t: JsString): (r: JsString)
    requires forall i :: 0 <= i < |t| ==> InAlphabet(t[i])
    requires |t| % 4 != 1
    decreases |t|
  {
    if |t| == 0 then []
    else
      assert |t| >= 2 && InAlphabet(t[0]) && InAlphabet(t[1]);
      assert |t| >= 3 ==> InAlphabet(t[2]);
      assert |t| >= 4 ==> InAlphabet(t[3]);
      var v0, v1 := Value(t[0]).value, Value(t[1]).value;
      if |t| == 2 then Octets(v0, v1, 0, 0)[..1]
      else
        var v2 := Value(t[2]).value;
        if |t| == 3 then Octets(v0, v1, v2, 0)[..2]
        else Octets(v0, v1, v2, Value(t[3]).value) + Decode(t[4..])
  }

  /** `atob(s)`: a byte string when it succeeds. */
  function Atob(s: JsString): (r: Option<JsString>)
    ensures r.Some? ==> Latin1(r.value)
  {
    var t := StripPadding(RemoveWhitespace(s));
    if |t| % 4 == 1 then None
    else if exists i :: 0 <= i < |t| && !InAlphabet(t[i]) then None
    else
      DecodedBytes(t);
      Some(Decode(t))
  }

  /** Each of the three values `Octets` builds fits in a byte. */
  lemma OctetsAreBytes(v0: int, v1: int, v2: int, v3: int)
    requires 0 <= v0 < 64 && 0 <= v1 < 64 && 0 <= v2 < 64 && 0 <= v3 < 64
    ensures Latin1(Octets(v0, v1, v2, v3))
  {
    assert v0 * 4 <= 252 && (v1 % 16) * 16 <= 240 && (v2 % 4) * 64 <= 192;
  }

  /** Decoding yields a byte string. */
  lemma {:induction false} DecodedBytes(t: JsString)
    requires forall i :: 0 <= i < |t| ==> InAlphabet(t[i])
    requires |t| % 4 != 1
    ensures Latin1(Decode(t))
    decreases |t|
  {
    if |t| >= 2 {
      assert InAlphabet(t[0]) && InAlphabet(t[1]);
      assert |t| >= 3 ==> InAlphabet(t[2]);
      assert |t| >= 4 ==> InAlphabet(t[3]);
      var v0, v1 := Value(t[0]).value, Value(t[1]).value;
      var v2 := if |t| >= 3 then Value(t[2]).value else 0;
      var v3 := if |t| >= 4 then Value(t[3]).value else 0;
      OctetsAreBytes(v0, v1, v2, v3);
      if |t| >= 4 {
        DecodedBytes(t[4..]);
      }
    }
  }

  /** Whitespace removal keeps exactly the units that are not ASCII whitespace. */
  lemma {:induction false} KeptUnits(s: JsString, c: CodeUnit)
    ensures c in RemoveWhitespace(s) <==> c in s && !IsAsciiWhitespace(c)
    decreases |s|
  {
    if s != [] {
      KeptUnits(s[1..], c);
      assert c in s <==> c == s[0] || c in s[1..];
    }
  }

  /** `atob` throws on a unit that is neither whitespace, padding nor in the alphabet. */
  lemma AtobRejects(s: JsString, i: int)
    requires 0 <= i < |s| && !InAlphabet(s[i]) && !IsAsciiWhitespace(s[i]) && s[i] != PAD
    ensures Atob(s) == None
  {
    var w := RemoveWhitespace(s);
    KeptUnits(s, s[i]);
    var t := StripPadding(w);
    assert w == t + w[|t|..];
    assert forall k :: |t| <= k < |w| ==> w[k] == PAD;
    var k :| 0 <= k < |w| && w[k] == s[i];
    assert k < |t| && t[k] == s[i];
  }

  // ---------------------------------------------------------------------
  // Round trip

  /** The 6-bit values base64 cuts three bytes into carry those bytes back. */
  lemma OctetsOfBytes(b0: int, b1: int, b2: int)
    requires 0 <= b0 < 256 && 0 <= b1 < 256 && 0 <= b2 < 256
    ensures Octets(b0 / 4, (b0 % 4) * 16 + b1 / 16, (b1 % 16) * 4 + b2 / 64, b2 % 64) == [b0, b1, b2]
  {
  }

  /** Each of the four characters of a group decodes to its 6-bit value. */
  lemma SextetValues(b0: int, b1: int, b2: int)
    requires 0 <= b0 < 256 && 0 <= b1 < 256 && 0 <= b2 < 256
    ensures var q := Sextets(b0, b1, b2);
      && Value(q[0]) == Some(b0 / 4)
      && Value(q[1]) == Some((b0 % 4) * 16 + b1 / 16)
      && Value(q[2]) == Some((b1 % 16) * 4 + b2 / 64)
      && Value(q[3]) == Some(b2 % 64)
  {
    ValueOfChar(b0 / 4); ValueOfChar((b0 % 4) * 16 + b1 / 16);
    ValueOfChar((b1 % 16) * 4 + b2 / 64); ValueOfChar(b2 % 64);
  }

  /** Decoding takes a leading group of four characters on its own. */
  lemma DecodeFour(q: JsString, rest: JsString)
    requires |q| == 4 && forall i :: 0 <= i < 4 ==> InAlphabet(q[i])
    requires forall i :: 0 <= i < |rest| ==> InAlphabet(rest[i])
    requires |rest| % 4 != 1
    ensures forall i :: 0 <= i < |q + rest| ==> InAlphabet((q + rest)[i])
    ensures |q + rest| % 4 != 1
    ensures Decode(q + rest) == Decode(q) + Decode(rest)
  {
    var t := q + rest;
    forall i | 0 <= i < |t|
      ensures InAlphabet(t[i])
    {
      if i < 4 {
        assert t[i] == q[i];
      } else {
        assert t[i] == rest[i - 4];
      }
    }
    assert t[0] == q[0] && t[1] == q[1] && t[2] == q[2] && t[3] == q[3];
    assert t[4..] == rest && q[4..] == [];
  }

  /** The four characters of three bytes decode back to them. */
  lemma DecodeThree(b0: int, b1: int, b2: int)
    requires 0 <= b0 < 256 && 0 <= b1 < 256 && 0 <= b2 < 256
    ensures Decode(Sextets(b0, b1, b2)) == [b0, b1, b2]
  {
    var q := Sextets(b0, b1, b2);
    SextetValues(b0, b1, b2);
    OctetsOfBytes(b0, b1, b2);
    assert q[4..] == [];
  }

  /** Four characters of bytes decode to those bytes, before whatever follows. */
  lemma DecodeGroup(b0: int, b1: int, b2: int, rest: JsString)
    requires 0 <= b0 < 256 && 0 <= b1 < 256 && 0 <= b2 < 256
    requires forall i :: 0 <= i < |rest| ==> InAlphabet(rest[i])
    requires |rest| % 4 != 1
    ensures Decode(Sextets(b0, b1, b2) + rest) == [b0, b1, b2] + Decode(rest)
  {
    DecodeFour(Sextets(b0, b1, b2), rest);
    DecodeThree(b0, b1, b2);
  }

  /** One byte's two characters decode back to it. */
  lemma DecodeOne(b0: int)
    requires 0 <= b0 < 256
    ensures Decode(Sextets(b0, 0, 0)[..2]) == [b0]
  {
    SextetValues(b0, 0, 0);
    OctetsOfBytes(b0, 0, 0);
  }

  /** Two bytes' three characters decode back to them. */
  lemma DecodeTwo(b0: int, b1: int)
    requires 0 <= b0 < 256 && 0 <= b1 < 256
    ensures Decode(Sextets(b0, b1, 0)[..3]) == [b0, b1]
  {
    SextetValues(b0, b1, 0);
    OctetsOfBytes(b0, b1, 0);
  }

  /** Every string `btoa` accepts decodes back from its unpadded characters. */
  lemma {:induction false} DecodeBody(s: JsString)
    requires Latin1(s)
    ensures Decode(Body(s)) == s
    decreases |s|
  {
    if |s| == 1 {
      DecodeOne(s[0]);
    } else if |s| == 2 {
      DecodeTwo(s[0], s[1]);
    } else if |s| > 2 {
      DecodeBody(s[3..]);
      DecodeGroup(s[0], s[1], s[2], Body(s[3..]));
      assert s == [s[0], s[1], s[2]] + s[3..];
    }
  }

  lemma {:induction false} NoWhitespaceToRemove(s: JsString)
    requires forall i :: 0 <= i < |s| ==> !IsAsciiWhitespace(s[i])
    ensures RemoveWhitespace(s) == s
    decreases |s|
  {
    if s != [] {
      NoWhitespaceToRemove(s[1..]);
    }
  }

  /** `atob(btoa(s)) === s` for every string `btoa` accepts. */
  lemma AtobBtoa(s: JsString)
    requires Latin1(s)
    ensures Atob(Btoa(s).value) == Some(s)
  {
    var e := Body(s) + Padding(|s|);
    assert forall i :: 0 <= i < |e| ==> InAlphabet(e[i]) || e[i] == PAD;
    NoWhitespaceToRemove(e);
    PaddingStripped(s);
    DecodeBody(s);
  }

  /** The `=` that `btoa` appends are exactly what decoding strips. */
  lemma PaddingStripped(s: JsString)
    requires Latin1(s)
    ensures StripPadding(Body(s) + Padding(|s|)) == Body(s)
  {
    var body := Body(s);
    assert |body| > 0 ==> body[|body| - 1] != PAD by {
      if |body| > 0 {
        assert InAlphabet(body[|body| - 1]) && !InAlphabet(PAD);
      }
    }
    StripAppended(body, |s|);
  }

  lemma StripAppended(body: JsString, n: nat)
    requires |body| % 4 == (if n % 3 == 0 then 0 else n % 3 + 1)
    requires |body| > 0 ==> body[|body| - 1] != PAD
    ensures StripPadding(body + Padding(n)) == body
  {
    if n % 3 == 1 {
      StripTwo(body);
    } else if n % 3 == 2 {
      StripOne(body);
    } else {
      assert body + [] == body;
      StripNone(body);
    }
  }

  lemma StripTwo(body: JsString)
    requires |body| % 4 == 2
    ensures StripPadding(body + [PAD, PAD]) == body
  {
    var e := body + [PAD, PAD];
    assert e[..|e| - 2] == body;
  }

  lemma StripOne(body: JsString)
    requires |body| % 4 == 3 && body[|body| - 1] != PAD
    ensures StripPadding(body + [PAD]) == body
  {
    var e := body + [PAD];
    assert e[|e| - 2] == body[|body| - 1];
    assert e[..|e| - 1] == body;
  }

  lemma StripNone(body: JsString)
    requires |body| % 4 == 0 && (|body| > 0 ==> body[|body| - 1] != PAD)
    ensures StripPadding(body) == body
  {
  }

  /** `btoa` writes only alphabet characters and `=`. */
  lemma BtoaAlphabet(s: JsString)
    requires Latin1(s)
    ensures forall i :: 0 <= i < |Btoa(s).value| ==> InAlphabet(Btoa(s).value[i]) || Btoa(s).value[i] == PAD
  {
  }
}
