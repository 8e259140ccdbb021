/** String primitives the contact form relies on, with ECMAScript semantics:
    the whitespace set shared by String.prototype.trim and the regular-expression
    class \s, trimming, UTF-16 length, Array.prototype.join and
    String.prototype.split on a one-character separator.
    Strings are sequences of Unicode scalar values. */
module Text {

  /** ECMAScript WhiteSpace and LineTerminator code points (sections 12.2 and
      12.3 of ECMA-262): tab, line feed, vertical tab, form feed, carriage
      return, the space separators of Unicode category Zs, the line and
      paragraph separators, and the byte order mark. trim() strips exactly
      these, and \s matches exactly these. */
  predicate IsWhitespace(c: char) {
    || c == '\t' || c == '\n' || c == '\U{B}' || c == '\U{C}' || c == '\r'
    || c == ' ' || c == '\U{A0}' || c == '\U{1680}'
    || ('\U{2000}' <= c <= '\U{200A}')
    || c == '\U{2028}' || c == '\U{2029}' || c == '\U{202F}' || c == '\U{205F}'
    || c == '\U{3000}' || c == '\U{FEFF}'
  }

  predicate NoWhitespace(s: string) {
    forall k :: 0 <= k < |s| ==> !IsWhitespace(s[k])
  }

  /** Every character of s in positions lo up to hi is whitespace. */
  predicate WhitespaceBetween(s: string, lo: int, hi: int) {
    forall k :: 0 <= lo <= k < hi <= |s| ==> IsWhitespace(s[k])
  }

  predicate AllWhitespace(s: string) {
    WhitespaceBetween(s, 0, |s|)
  }

  /** Drops the leading whitespace: what is removed is all whitespace, and what
      is kept is a suffix that starts with a non-whitespace character. */
  function TrimStart(s: string): (r: string)
    ensures |r| <= |s| && r == s[|s| - |r|..]
    ensures WhitespaceBetween(s, 0, |s| - |r|)
    ensures r == [] || !IsWhitespace(r[0])
  {
    if |s| > 0 && IsWhitespace(s[0]) then TrimStart(s[1..]) else s
  }

  /** Drops the trailing whitespace: what is removed is all whitespace, and what
      is kept is a prefix that ends with a non-whitespace character. */
  function TrimEnd(s: string): (r: string)
    ensures |r| <= |s| && r == s[..|r|]
    ensures WhitespaceBetween(s, |r|, |s|)
    ensures r == [] || !IsWhitespace(r[|r| - 1])
  {
    if |s| > 0 && IsWhitespace(s[|s| - 1]) then TrimEnd(s[..|s| - 1]) else s
  }

  /** r is s with its leading and trailing whitespace removed: a slice
      s[lo..lo + |r|] with only whitespace around it and no whitespace at
      either of its own ends. */
  ghost predicate IsTrimOf(r: string, s: string) {
    && (exists lo :: TrimmedAt(r, s, lo))
    && (r == [] || (!IsWhitespace(r[0]) && !IsWhitespace(r[|r| - 1])))
  }

  ghost predicate TrimmedAt(r: string, s: string, lo: int) {
    && 0 <= lo && lo + |r| <= |s|
    && r == s[lo..lo + |r|]
    && WhitespaceBetween(s, 0, lo)
    && WhitespaceBetween(s, lo + |r|, |s|)
  }

  /** String.prototype.trim. */
  function Trim(s: string): (r: string)
    ensures |r| <= |s|
    ensures IsTrimOf(r, s)
  {
    var t := TrimStart(s);
    var r := TrimEnd(t);
    TrimEndOfSuffix(s, t, r);
    r
  }

  lemma TrimEndOfSuffix(s: string, t: string, r: string)
    requires |t| <= |s| && t == s[|s| - |t|..] && WhitespaceBetween(s, 0, |s| - |t|)
    requires |r| <= |t| && r == t[..|r|] && WhitespaceBetween(t, |r|, |t|)
    ensures TrimmedAt(r, s, |s| - |t|)
  {
    var d := |s| - |t|;
    assert r == s[d..d + |r|];
    forall k | d + |r| <= k < |s|
      ensures IsWhitespace(s[k])
    {
      assert s[k] == t[k - d];
    }
  }

  /** IsTrimOf pins its first argument down: Trim is the only string it admits. */
  lemma TrimUnique(r: string, s: string)
    requires IsTrimOf(r, s)
    ensures r == Trim(s)
  {
    var t := Trim(s);
    var lo :| TrimmedAt(r, s, lo);
    var lo' :| TrimmedAt(t, s, lo');
    FirstKeptInside(r, s, lo, t, lo');
    FirstKeptInside(t, s, lo', r, lo);
    LastKeptInside(r, s, lo, t, lo');
    LastKeptInside(t, s, lo', r, lo);
    assert |r| == |t| && (r == [] || lo == lo');
  }

  /** A kept slice that starts with a non-whitespace character starts inside
      every other kept slice. */
  lemma FirstKeptInside(r: string, s: string, lo: int, t: string, lo': int)
    requires TrimmedAt(r, s, lo) && TrimmedAt(t, s, lo')
    requires t == [] || !IsWhitespace(t[0])
    ensures t == [] || lo <= lo' < lo + |r|
  {
    if t != [] {
      assert s[lo'] == t[0];
    }
  }

  /** Likewise for the last character. */
  lemma LastKeptInside(r: string, s: string, lo: int, t: string, lo': int)
    requires TrimmedAt(r, s, lo) && TrimmedAt(t, s, lo')
    requires t == [] || !IsWhitespace(t[|t| - 1])
    ensures t == [] || lo <= lo' + |t| - 1 < lo + |r|
  {
    if t != [] {
      assert s[lo' + |t| - 1] == t[|t| - 1];
    }
  }

  /** Trimming twice changes nothing more. */
  lemma TrimIdempotent(s: string)
    ensures Trim(Trim(s)) == Trim(s)
  {
    var t := Trim(s);
    assert TrimmedAt(t, t, 0) by {
      assert t[0..|t|] == t;
    }
    TrimUnique(t, t);
  }

  /** Trimming leaves nothing exactly when the string is all whitespace. */
  lemma TrimEmptyIff(s: string)
    ensures Trim(s) == [] <==> AllWhitespace(s)
  {
    var t := Trim(s);
    if AllWhitespace(s) {
      assert TrimmedAt([], s, 0);
      TrimUnique([], s);
    } else {
      var lo :| TrimmedAt(t, s, lo);
      var k :| 0 <= k < |s| && !IsWhitespace(s[k]);
      assert lo <= k < lo + |t|;
    }
  }

  /** Number of UTF-16 code units of s, the value of JavaScript's .length:
      code points above U+FFFF take a surrogate pair. */
  function Utf16Length(s: string): (n: nat)
    ensures |s| <= n <= 2 * |s|
  {
    if s == [] then 0 else (if s[0] as int > 0xFFFF then 2 else 1) + Utf16Length(s[1..])
  }

  /** On text inside the Basic Multilingual Plane the UTF-16 length is the
      number of characters. */
  lemma {:induction false} Utf16LengthBmp(s: string)
    requires forall k :: 0 <= k < |s| ==> s[k] as int <= 0xFFFF
    ensures Utf16Length(s) == |s|
  {
    if s != [] {
      Utf16LengthBmp(s[1..]);
    }
  }

  /** Total number of characters in the parts. */
  function TotalLength(parts: seq<string>): nat {
    if parts == [] then 0 else |parts[0]| + TotalLength(parts[1..])
  }

  /** Array.prototype.join with a one-character separator: the parts in order,
      one separator between each two. */
  function Join(parts: seq<string>, sep: char): string {
    if |parts| == 0 then ""
    else if |parts| == 1 then parts[0]
    else parts[0] + [sep] + Join(parts[1..], sep)
  }

  /** A join adds exactly one separator between each two parts and nothing
      else, and joining no parts gives the empty string. */
  lemma {:induction false} JoinLength(parts: seq<string>, sep: char)
    ensures |parts| == 0 ==> Join(parts, sep) == ""
    ensures |parts| > 0 ==> |Join(parts, sep)| == TotalLength(parts) + |parts| - 1
    decreases |parts|
  {
    if |parts| > 1 {
      JoinLength(parts[1..], sep);
    }
  }

  /** String.prototype.split with a one-character separator: the pieces
      between consecutive separators, so there is always at least one. */
  function Split(s: string, sep: char): (parts: seq<string>)
    ensures |parts| >= 1
  {
    if |s| == 0 then [""]
    else
      var rest := Split(s[1..], sep);
      if s[0] == sep then [""] + rest
      else [[s[0]] + rest[0]] + rest[1..]
  }

  /** A string without the separator splits into itself. */
  lemma {:induction false} SplitNoSeparator(s: string, sep: char)
    requires sep !in s
    ensures Split(s, sep) == [s]
  {
    if |s| > 0 {
      assert s == [s[0]] + s[1..];
      SplitNoSeparator(s[1..], sep);
      assert [s[0]] + s[1..] == s;
    }
  }

  /** Splitting distributes over a separator. */
  lemma {:induction false} SplitAround(a: string, sep: char, b: string)
    ensures Split(a + [sep] + b, sep) == Split(a, sep) + Split(b, sep)
  {
    if |a| == 0 {
      assert a + [sep] + b == [sep] + b;
      assert ([sep] + b)[1..] == b;
    } else {
      assert (a + [sep] + b)[1..] == a[1..] + [sep] + b;
      SplitAround(a[1..], sep, b);
    }
  }

  /** The error notice round trip: joining pieces that do not contain the
      separator and splitting the result gives the pieces back. */
  lemma {:induction false} SplitJoin(parts: seq<string>, sep: char)
    requires |parts| > 0
    requires forall k :: 0 <= k < |parts| ==> sep !in parts[k]
    ensures Split(Join(parts, sep), sep) == parts
  {
    if |parts| == 1 {
      SplitNoSeparator(parts[0], sep);
    } else {
      SplitAround(parts[0], sep, Join(parts[1..], sep));
      SplitNoSeparator(parts[0], sep);
      SplitJoin(parts[1..], sep);
    }
  }

  /** The other direction: splitting and joining back restores the string. */
  lemma {:induction false} JoinSplit(s: string, sep: char)
    ensures Join(Split(s, sep), sep) == s
    decreases |s|
  {
    if |s| > 0 {
      var rest := Split(s[1..], sep);
      JoinSplit(s[1..], sep);
      if s[0] == sep {
        assert Split(s, sep) == [""] + rest;
        assert ([""] + rest)[1..] == rest;
        assert s == [sep] + s[1..];
      } else {
        var parts := Split(s, sep);
        assert parts == [[s[0]] + rest[0]] + rest[1..];
        if |rest| == 1 {
          assert s == [s[0]] + rest[0];
        } else {
          assert parts[1..] == rest[1..];
          assert Join(rest, sep) == rest[0] + [sep] + Join(rest[1..], sep);
          assert s == [s[0]] + s[1..];
        }
      }
    }
  }
}
