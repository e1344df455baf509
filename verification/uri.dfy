/**
 * ECMAScript `encodeURIComponent` and `decodeURIComponent`: percent-encoding
 * (section 2.1 of RFC 3986) of the UTF-8 bytes (RFC 3629) of a UTF-16 string.
 * Every code unit outside the unreserved set below is written as one `%XX`
 * escape per UTF-8 byte, with upper-case hexadecimal digits. A lone surrogate
 * has no UTF-8 form and makes the encoder throw `URIError`; a malformed escape
 * or an invalid UTF-8 sequence makes the decoder throw it. Both throws are
 * `None` here.
 */
module Uri {
  import opened Wrappers
  import opened JsText

  type Byte = b: int | 0 <= b < 0x100

  const PERCENT: CodeUnit := 0x25

  /** The code units `encodeURIComponent` leaves as they are: A-Z a-z 0-9 - _ . ! ~ * ' ( ) */
  predicate Unreserved(c: CodeUnit) {
    ('A' as int <= c <= 'Z' as int) || ('a' as int <= c <= 'z' as int) || ('0' as int <= c <= '9' as int)
    || c == '-' as int || c == '_' as int || c == '.' as int || c == '!' as int
    || c == '~' as int || c == '*' as int || c == '\'' as int || c == '(' as int || c == ')' as int
  }

  // ---------------------------------------------------------------------
  // Hexadecimal digits and %XX escapes

  function HexDigit(d: int): (c: CodeUnit)
    requires 0 <= d < 16
  {
    if d < 10 then '0' as int + d else 'A' as int + d - 10
  }

  function HexValue(c: CodeUnit): (r: Option<int>)
    ensures r.Some? ==> 0 <= r.value < 16
  {
    if '0' as int <= c <= '9' as int then Some(c - '0' as int)
    else if 'A' as int <= c <= 'F' as int then Some(c - 'A' as int + 10)
    else if 'a' as int <= c <= 'f' as int then Some(c - 'a' as int + 10)
    else None
  }

  function Escape(b: Byte): JsString {
    [PERCENT, HexDigit(b / 16), HexDigit(b % 16)]
  }

  function EscapeAll(bs: seq<Byte>): (r: JsString)
    ensures |r| == 3 * |bs|
  {
    if bs == [] then [] else Escape(bs[0]) + EscapeAll(bs[1..])
  }

  /** The byte of the `%XX` escape that `s` starts with, if it starts with one. */
  function LeadingByte(s: JsString): Option<Byte> {
    if |s| >= 3 && s[0] == PERCENT then
      match (HexValue(s[1]), HexValue(s[2]))
      case (Some(h), Some(l)) => Some(16 * h + l)
      case _ => None
    else None
  }

  /** The bytes of the first `n` consecutive `%XX` escapes of `s`. */
  function LeadingBytes(s: JsString, n: nat): (r: Option<seq<Byte>>)
    ensures r.Some? ==> |r.value| == n && 3 * n <= |s|
    decreases n
  {
    if n == 0 then Some([])
    else
      match LeadingByte(s)
      case None => None
      case Some(b) =>
        match LeadingBytes(s[3..], n - 1)
        case None => None
        case Some(rest) => Some([b] + rest)
  }

  // ---------------------------------------------------------------------
  // Code points, UTF-8 and UTF-16

  /** A Unicode scalar value: a code point that is not a surrogate. */
  predicate IsScalar(cp: int) {
    0 <= cp <= 0x10FFFF && !(0xD800 <= cp <= 0xDFFF)
  }

  /** The code point of a surrogate pair. */
  function Combine(hi: CodeUnit, lo: CodeUnit): (cp: int)
    requires IsHighSurrogate(hi) && IsLowSurrogate(lo)
    ensures IsScalar(cp) && cp >= 0x10000
  {
    0x10000 + (hi - 0xD800) * 0x400 + (lo - 0xDC00)
  }

  /** The UTF-16 code units of a scalar value. */
  function Utf16(cp: int): (us: JsString)
    requires IsScalar(cp)
  {
    if cp < 0x10000 then [cp]
    else [0xD800 + (cp - 0x10000) / 0x400, 0xDC00 + (cp - 0x10000) % 0x400]
  }

  /** The shortest UTF-8 encoding of a scalar value. */
  function Utf8(cp: int): (bs: seq<Byte>)
    requires IsScalar(cp)
    ensures 1 <= |bs| <= 4
  {
    if cp < 0x80 then [cp]
    else if cp < 0x800 then [0xC0 + cp / 64, 0x80 + cp % 64]
    else if cp < 0x10000 then [0xE0 + cp / 4096, 0x80 + (cp / 64) % 64, 0x80 + cp % 64]
    else [0xF0 + cp / 262144, 0x80 + (cp / 4096) % 64, 0x80 + (cp / 64) % 64, 0x80 + cp % 64]
  }

  /** The number of leading one bits of a byte: the length of the UTF-8 sequence it starts. */
  function LeadingOnes(b: Byte): nat {
    if b < 0x80 then 0
    else if b < 0xC0 then 1
    else if b < 0xE0 then 2
    else if b < 0xF0 then 3
    else if b < 0xF8 then 4
    else if b < 0xFC then 5
    else if b < 0xFE then 6
    else if b < 0xFF then 7
    else 8
  }

  predicate IsContinuation(b: Byte) { 0x80 <= b < 0xC0 }

  /**
   * The code point that a multi-byte UTF-8 sequence encodes, provided the
   * sequence is the valid, shortest encoding of a scalar value.
   */
  function Utf8Decode(o: seq<Byte>): (r: Option<int>)
    requires 2 <= |o| <= 4 && LeadingOnes(o[0]) == |o|
    ensures r.Some? ==> IsScalar(r.value)
  {
    if exists i :: 1 <= i < |o| && !IsContinuation(o[i]) then None
    else if |o| == 2 then
      var cp := (o[0] as int - 0xC0) * 64 + (o[1] as int - 0x80);
      if 0x80 <= cp then Some(cp) else None
    else if |o| == 3 then
      var cp := (o[0] as int - 0xE0) * 4096 + (o[1] as int - 0x80) * 64 + (o[2] as int - 0x80);
      if 0x800 <= cp && !(0xD800 <= cp <= 0xDFFF) then Some(cp) else None
    else
      var cp := (o[0] as int - 0xF0) * 262144 + (o[1] as int - 0x80) * 4096
                + (o[2] as int - 0x80) * 64 + (o[3] as int - 0x80);
      if 0x10000 <= cp <= 0x10FFFF then Some(cp) else None
  }

  // ---------------------------------------------------------------------
  // The two conversions

  function Prepend(p: JsString, r: Option<JsString>): Option<JsString> {
    match r
    case None => None
    case Some(t) => Some(p + t)
  }

  /**
   * `encodeURIComponent(s)`; `None` where it throws. It fails exactly on the
   * strings that hold a lone surrogate.
   */
  function EncodeURIComponent(s: JsString): (r: Option<JsString>)
    ensures r.Some? <==> WellFormed(s)
    decreases |s|
  {
    if s == [] then Some([])
    else if Unreserved(s[0]) then Prepend([s[0]], EncodeURIComponent(s[1..]))
    else if IsHighSurrogate(s[0]) then
      if |s| >= 2 && IsLowSurrogate(s[1]) then
        Prepend(EscapeAll(Utf8(Combine(s[0], s[1]))), EncodeURIComponent(s[2..]))
      else None
    else if IsLowSurrogate(s[0]) then None
    else Prepend(EscapeAll(Utf8(s[0])), EncodeURIComponent(s[1..]))
  }

  /**
   * `decodeURIComponent(s)`; `None` where it throws. Units other than `%` are
   * copied; each escape sequence must spell one valid UTF-8 sequence.
   */
  function DecodeURIComponent(s: JsString): (r: Option<JsString>)
    ensures PERCENT !in s ==> r == Some(s)
    decreases |s|
  {
    if s == [] then Some([])
    else if s[0] != PERCENT then
      assert s == [s[0]] + s[1..];
      Prepend([s[0]], DecodeURIComponent(s[1..]))
    else
      match LeadingByte(s)
      case None => None
      case Some(b) =>
        var n := LeadingOnes(b);
        if n == 0 then Prepend([b], DecodeURIComponent(s[3..]))
        else if n == 1 || n > 4 then None
        else
          match LeadingBytes(s, n)
          case None => None
          case Some(octets) =>
            match Utf8Decode(octets)
            case None => None
            case Some(cp) => Prepend(Utf16(cp), DecodeURIComponent(s[3 * n..]))
  }

  // ---------------------------------------------------------------------
  // Round trip

  lemma HexRoundTrip(d: int)
    requires 0 <= d < 16
    ensures HexValue(HexDigit(d)) == Some(d)
  {
  }

  lemma {:induction false} LeadingByteOfEscape(b: Byte, rest: JsString)
    ensures LeadingByte(Escape(b) + rest) == Some(b)
  {
    HexRoundTrip(b / 16);
    HexRoundTrip(b % 16);
  }

  lemma {:induction false} LeadingBytesOfEscapes(bs: seq<Byte>, rest: JsString)
    ensures LeadingBytes(EscapeAll(bs) + rest, |bs|) == Some(bs)
    decreases |bs|
  {
    if bs != [] {
      var s := EscapeAll(bs) + rest;
      assert s == Escape(bs[0]) + (EscapeAll(bs[1..]) + rest);
      LeadingByteOfEscape(bs[0], EscapeAll(bs[1..]) + rest);
      assert s[3..] == EscapeAll(bs[1..]) + rest;
      LeadingBytesOfEscapes(bs[1..], rest);
      assert [bs[0]] + bs[1..] == bs;
    }
  }

  lemma Utf8TwoBytes(cp: int)
    requires 0x80 <= cp < 0x800
    ensures IsScalar(cp) && LeadingOnes(Utf8(cp)[0]) == 2 && Utf8Decode(Utf8(cp)) == Some(cp)
  {
    var q, r := cp / 64, cp % 64;
    assert cp == q * 64 + r;
    assert Utf8(cp) == [0xC0 + q, 0x80 + r];
  }

  lemma Utf8ThreeBytes(cp: int)
    requires 0x800 <= cp < 0x10000 && IsScalar(cp)
    ensures LeadingOnes(Utf8(cp)[0]) == 3 && Utf8Decode(Utf8(cp)) == Some(cp)
  {
    var a, b, c := cp / 4096, (cp / 64) % 64, cp % 64;
    assert cp / 64 == a * 64 + b;
    assert cp == (cp / 64) * 64 + c;
    assert cp == a * 4096 + b * 64 + c;
    assert Utf8(cp) == [0xE0 + a, 0x80 + b, 0x80 + c];
  }

  lemma Utf8FourBytes(cp: int)
    requires 0x10000 <= cp <= 0x10FFFF
    ensures IsScalar(cp) && LeadingOnes(Utf8(cp)[0]) == 4 && Utf8Decode(Utf8(cp)) == Some(cp)
  {
    var a, b, c, d := cp / 262144, (cp / 4096) % 64, (cp / 64) % 64, cp % 64;
    assert cp / 4096 == a * 64 + b;
    assert cp / 64 == (cp / 4096) * 64 + c;
    assert cp == (cp / 64) * 64 + d;
    assert cp == a * 262144 + b * 4096 + c * 64 + d;
    assert Utf8(cp) == [0xF0 + a, 0x80 + b, 0x80 + c, 0x80 + d];
  }

  /** UTF-8 sequences of two or more bytes announce their length and decode back. */
  lemma Utf8RoundTrip(cp: int)
    requires IsScalar(cp)
    ensures var bs := Utf8(cp);
      (|bs| == 1 <==> LeadingOnes(bs[0]) == 0)
      && (|bs| == 1 ==> bs[0] == cp)
      && (|bs| >= 2 ==> LeadingOnes(bs[0]) == |bs| && Utf8Decode(bs) == Some(cp))
  {
    if cp < 0x80 {
    } else if cp < 0x800 {
      Utf8TwoBytes(cp);
    } else if cp < 0x10000 {
      Utf8ThreeBytes(cp);
    } else {
      Utf8FourBytes(cp);
    }
  }

  lemma SurrogatePair(hi: CodeUnit, lo: CodeUnit)
    requires IsHighSurrogate(hi) && IsLowSurrogate(lo)
    ensures Utf16(Combine(hi, lo)) == [hi, lo]
  {
    var d := (hi - 0xD800) * 0x400 + (lo - 0xDC00);
    assert Combine(hi, lo) - 0x10000 == d;
    assert d / 0x400 == hi - 0xD800;
    assert d % 0x400 == lo - 0xDC00;
  }

  /** Decoding the escapes of one scalar value yields its UTF-16 units, then decoding goes on. */
  lemma {:induction false} DecodeEscapedScalar(cp: int, rest: JsString)
    requires IsScalar(cp)
    ensures DecodeURIComponent(EscapeAll(Utf8(cp)) + rest) == Prepend(Utf16(cp), DecodeURIComponent(rest))
  {
    var bs := Utf8(cp);
    var s := EscapeAll(bs) + rest;
    Utf8RoundTrip(cp);
    LeadingBytesOfEscapes(bs, rest);
    assert s[0] == PERCENT;
    assert s == Escape(bs[0]) + (EscapeAll(bs[1..]) + rest);
    LeadingByteOfEscape(bs[0], EscapeAll(bs[1..]) + rest);
    assert s[3 * |bs|..] == rest;
    if |bs| == 1 {
      assert s[3..] == rest;
    }
  }

  /** `decodeURIComponent(encodeURIComponent(s)) === s` for every well-formed string. */
  lemma {:induction false} DecodeEncode(s: JsString)
    requires WellFormed(s)
    ensures EncodeURIComponent(s).Some?
    ensures DecodeURIComponent(EncodeURIComponent(s).value) == Some(s)
    decreases |s|
  {
    if s == [] {
    } else if Unreserved(s[0]) {
      DecodeEncode(s[1..]);
      var t := EncodeURIComponent(s[1..]).value;
      assert ([s[0]] + t)[1..] == t;
      assert [s[0]] + s[1..] == s;
    } else if IsHighSurrogate(s[0]) {
      DecodeEncode(s[2..]);
      var t := EncodeURIComponent(s[2..]).value;
      DecodeEscapedScalar(Combine(s[0], s[1]), t);
      SurrogatePair(s[0], s[1]);
      assert [s[0], s[1]] + s[2..] == s;
    } else {
      DecodeEncode(s[1..]);
      var t := EncodeURIComponent(s[1..]).value;
      DecodeEscapedScalar(s[0], t);
      assert [s[0]] + s[1..] == s;
    }
  }

  // ---------------------------------------------------------------------
  // Shape of the encoder's output

  /** What the encoder emits: unreserved units, `%` and upper-case hex digits, all ASCII. */
  predicate EncodedUnit(c: CodeUnit) {
    Unreserved(c) || c == PERCENT
  }

  lemma {:induction false} EscapesAreEncodedUnits(bs: seq<Byte>)
    ensures forall i :: 0 <= i < |EscapeAll(bs)| ==> EncodedUnit(EscapeAll(bs)[i])
    decreases |bs|
  {
    if bs != [] {
      EscapesAreEncodedUnits(bs[1..]);
    }
  }

  /** Encoded text uses only unreserved units and `%`; in particular no `;`, `=`, space or non-ASCII unit. */
  lemma {:induction false} EncodedUnits(s: JsString)
    requires WellFormed(s)
    ensures forall i :: 0 <= i < |EncodeURIComponent(s).value| ==> EncodedUnit(EncodeURIComponent(s).value[i])
    decreases |s|
  {
    if s == [] {
    } else if Unreserved(s[0]) {
      EncodedUnits(s[1..]);
    } else if IsHighSurrogate(s[0]) {
      EncodedUnits(s[2..]);
      EscapesAreEncodedUnits(Utf8(Combine(s[0], s[1])));
    } else {
      EncodedUnits(s[1..]);
      EscapesAreEncodedUnits(Utf8(s[0]));
    }
  }

  /** Encoding never shortens a string, and lengthens every string that holds a `%`. */
  lemma {:induction false} EncodingGrows(s: JsString)
    requires WellFormed(s)
    ensures |EncodeURIComponent(s).value| >= |s|
    ensures PERCENT in s ==> |EncodeURIComponent(s).value| > |s|
    decreases |s|
  {
    if s == [] {
    } else if Unreserved(s[0]) {
      EncodingGrows(s[1..]);
    } else if IsHighSurrogate(s[0]) {
      EncodingGrows(s[2..]);
      assert PERCENT in s ==> PERCENT in s[2..];
    } else {
      EncodingGrows(s[1..]);
    }
  }

  /** A string of unreserved units is its own encoding. */
  lemma {:induction false} EncodeUnreserved(s: JsString)
    requires forall i :: 0 <= i < |s| ==> Unreserved(s[i])
    ensures EncodeURIComponent(s) == Some(s)
    decreases |s|
  {
    if s != [] {
      EncodeUnreserved(s[1..]);
      assert [s[0]] + s[1..] == s;
    }
  }
}
