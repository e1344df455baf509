/**
 * JavaScript strings as the runtime holds them: sequences of UTF-16 code
 * units, so that a lone surrogate is a representable string. The string
 * operations the storage core relies on (`split`, `trim` and
 * `startsWith`) are defined here once.
 */
module JsText {
  import opened Wrappers

  type CodeUnit = c: int | 0 <= c < 0x1_0000
  type JsString = seq<CodeUnit>

  /** The code unit of a Basic Multilingual Plane character (U+FFFD for any other). */
  function Unit(c: char): CodeUnit {
    if c as int < 0x1_0000 then c as int else 0xFFFD
  }

  /** A Dafny string literal as JavaScript code units; used for the source's ASCII constants. */
  function Lit(s: string): (r: JsString)
    ensures |r| == |s|
    ensures forall i :: 0 <= i < |s| ==> r[i] == Unit(s[i])
  {
    seq(|s|, i requires 0 <= i < |s| => Unit(s[i]))
  }

  predicate IsHighSurrogate(c: CodeUnit) { 0xD800 <= c <= 0xDBFF }
  predicate IsLowSurrogate(c: CodeUnit) { 0xDC00 <= c <= 0xDFFF }

  /**
   * Well-formed UTF-16: every high surrogate is followed by a low one and no
   * low surrogate stands alone.
   */
  predicate WellFormed(s: JsString)
    decreases |s|
  {
    if s == [] then true
    else if IsHighSurrogate(s[0]) then |s| >= 2 && IsLowSurrogate(s[1]) && WellFormed(s[2..])
    else !IsLowSurrogate(s[0]) && WellFormed(s[1..])
  }

  /** A string without surrogates is well-formed. */
  lemma {:induction false} NoSurrogatesWellFormed(s: JsString)
    requires forall i :: 0 <= i < |s| ==> !IsHighSurrogate(s[i]) && !IsLowSurrogate(s[i])
    ensures WellFormed(s)
    decreases |s|
  {
    if s != [] {
      NoSurrogatesWellFormed(s[1..]);
    }
  }

  // ---------------------------------------------------------------------
  // String.prototype.split with a one-unit separator, and its inverse.

  /** `s.split(sep)`: the maximal runs of `s` between occurrences of `sep`. */
  function Split(s: JsString, sep: CodeUnit): (parts: seq<JsString>)
    ensures |parts| >= 1
    ensures forall i :: 0 <= i < |parts| ==> sep !in parts[i]
    decreases |s|
  {
    if s == [] then [[]]
    else if s[0] == sep then [[]] + Split(s[1..], sep)
    else
      var rest := Split(s[1..], sep);
      [[s[0]] + rest[0]] + rest[1..]
  }

  /** `parts.join(sep)`. */
  function Join(parts: seq<JsString>, sep: CodeUnit): JsString
    requires |parts| >= 1
    decreases |parts|
  {
    if |parts| == 1 then parts[0] else parts[0] + [sep] + Join(parts[1..], sep)
  }

  /** Splitting loses nothing: joining the parts with the separator gives the string back. */
  lemma {:induction false} JoinSplit(s: JsString, sep: CodeUnit)
    ensures Join(Split(s, sep), sep) == s
    decreases |s|
  {
    if s == [] {
    } else if s[0] == sep {
      JoinSplit(s[1..], sep);
      assert Split(s, sep)[1..] == Split(s[1..], sep);
    } else {
      JoinSplit(s[1..], sep);
      var rest := Split(s[1..], sep);
      if |rest| == 1 {
      } else {
        assert Split(s, sep)[1..] == rest[1..];
        assert Join(rest, sep) == rest[0] + [sep] + Join(rest[1..], sep);
      }
    }
  }

  /** A string without the separator is one part. */
  lemma {:induction false} SplitWithoutSeparator(s: JsString, sep: CodeUnit)
    requires sep !in s
    ensures Split(s, sep) == [s]
    decreases |s|
  {
    if s != [] {
      assert s[1..] + [] == s[1..];
      SplitWithoutSeparator(s[1..], sep);
      assert [s[0]] + s[1..] == s;
    }
  }

  /** The first separator cuts the string into its first part and the rest. */
  lemma {:induction false} SplitAtFirst(a: JsString, sep: CodeUnit, b: JsString)
    requires sep !in a
    ensures Split(a + [sep] + b, sep) == [a] + Split(b, sep)
    decreases |a|
  {
    if a == [] {
      assert a + [sep] + b == [sep] + b;
      assert ([sep] + b)[1..] == b;
    } else {
      var s := a + [sep] + b;
      assert s[0] == a[0];
      assert s[1..] == a[1..] + [sep] + b;
      SplitAtFirst(a[1..], sep, b);
      assert [a[0]] + a[1..] == a;
    }
  }

  // ---------------------------------------------------------------------
  // String.prototype.trim

  /** ECMAScript WhiteSpace and LineTerminator code points, as `trim` removes them. */
  predicate IsWhitespace(c: CodeUnit) {
    c == 0x09 || c == 0x0A || c == 0x0B || c == 0x0C || c == 0x0D || c == 0x20
    || c == 0xA0 || c == 0x1680 || (0x2000 <= c <= 0x200A) || c == 0x2028 || c == 0x2029
    || c == 0x202F || c == 0x205F || c == 0x3000 || c == 0xFEFF
  }

  function TrimStart(s: JsString): (r: JsString)
    ensures r == [] || !IsWhitespace(r[0])
    ensures |r| <= |s|
    decreases |s|
  {
    if s != [] && IsWhitespace(s[0]) then TrimStart(s[1..]) else s
  }

  function TrimEnd(s: JsString): (r: JsString)
    ensures r == [] || !IsWhitespace(r[|r| - 1])
    ensures |r| <= |s| && r == s[..|r|]
    decreases |s|
  {
    if s != [] && IsWhitespace(s[|s| - 1]) then
      var r := TrimEnd(s[..|s| - 1]);
      assert s[..|s| - 1][..|r|] == s[..|r|];
      r
    else s
  }

  /** `TrimStart` keeps a suffix of `s` and drops only whitespace. */
  lemma {:induction false} TrimStartDrops(s: JsString)
    ensures TrimStart(s) == s[|s| - |TrimStart(s)|..]
    ensures forall k :: 0 <= k < |s| - |TrimStart(s)| ==> IsWhitespace(s[k])
    decreases |s|
  {
    if s != [] && IsWhitespace(s[0]) {
      TrimStartDrops(s[1..]);
      assert forall k :: 1 <= k < |s| ==> s[k] == s[1..][k - 1];
    }
  }

  /** `TrimEnd` drops only whitespace. */
  lemma {:induction false} TrimEndDrops(s: JsString)
    ensures forall k :: |TrimEnd(s)| <= k < |s| ==> IsWhitespace(s[k])
    decreases |s|
  {
    if s != [] && IsWhitespace(s[|s| - 1]) {
      TrimEndDrops(s[..|s| - 1]);
    }
  }

  /** `r` is `s[i..j]` and every unit of `s` outside that slice is whitespace. */
  predicate TrimmedSlice(s: JsString, r: JsString, i: int, j: int) {
    && 0 <= i <= j <= |s| && r == s[i..j]
    && (forall k :: 0 <= k < i ==> IsWhitespace(s[k]))
    && (forall k :: j <= k < |s| ==> IsWhitespace(s[k]))
  }

  /** `s.trim()`: `s` without leading and trailing whitespace. */
  function Trim(s: JsString): (r: JsString)
    ensures r == [] || (!IsWhitespace(r[0]) && !IsWhitespace(r[|r| - 1]))
  {
    TrimEnd(TrimStart(s))
  }

  /** What `trim` keeps is a slice of `s`, and everything it drops is whitespace. */
  lemma TrimIsSlice(s: JsString)
    ensures exists i, j :: TrimmedSlice(s, Trim(s), i, j)
  {
    var t := TrimStart(s);
    var r := TrimEnd(t);
    TrimStartDrops(s);
    TrimEndDrops(t);
    var i := |s| - |t|;
    assert forall k :: |r| <= k < |t| ==> t[k] == s[i + k];
    assert r == Trim(s) && TrimmedSlice(s, r, i, i + |r|);
  }

  /** Trimming a string that neither starts nor ends with whitespace changes nothing. */
  lemma TrimUnpadded(s: JsString)
    requires s == [] || (!IsWhitespace(s[0]) && !IsWhitespace(s[|s| - 1]))
    ensures Trim(s) == s
  {
  }

  /** Trimming keeps a string that starts with a non-whitespace unit non-empty. */
  lemma {:induction false} TrimKeepsLeadingUnit(s: JsString)
    requires s != [] && !IsWhitespace(s[0])
    ensures Trim(s) != []
    decreases |s|
  {
    assert TrimStart(s) == s;
    if IsWhitespace(s[|s| - 1]) {
      assert |s| > 1;
      TrimKeepsLeadingUnit(s[..|s| - 1]);
      assert TrimStart(s[..|s| - 1]) == s[..|s| - 1];
    }
  }

  // ---------------------------------------------------------------------
  // String.prototype.startsWith

  predicate StartsWith(s: JsString, prefix: JsString) {
    |prefix| <= |s| && s[..|prefix|] == prefix
  }
}
