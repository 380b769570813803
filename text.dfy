/**
 * String helpers shared by the validators, the filter labels, the FAQ
 * fragments and the navigation highlighting: JavaScript's whitespace class
 * (what `String.prototype.trim` strips and what `\s` matches), ASCII
 * character classes, first-letter capitalisation, splitting and joining on
 * one separator, and decimal numerals.
 */
module Text {

  /** JavaScript WhiteSpace and LineTerminator code points. */
  predicate IsWhitespace(c: char) {
    || c == ' ' || c == '\t' || c == '\n' || c == '\r'
    || c == '\U{000B}' || c == '\U{000C}' || c == '\U{00A0}' || c == '\U{1680}'
    || ('\U{2000}' <= c <= '\U{200A}')
    || c == '\U{2028}' || c == '\U{2029}' || c == '\U{202F}' || c == '\U{205F}'
    || c == '\U{3000}' || c == '\U{FEFF}'
  }

  /** The regular-expression class `\d`. */
  predicate IsDigit(c: char) { '0' <= c <= '9' }

  predicate IsAsciiLetter(c: char) { 'a' <= c <= 'z' || 'A' <= c <= 'Z' }

  /** The regular-expression class `[a-zA-Z0-9]`. */
  predicate IsAsciiAlnum(c: char) { IsAsciiLetter(c) || IsDigit(c) }

  function ToUpperAscii(c: char): (u: char)
    ensures 'a' <= c <= 'z' ==> 'A' <= u <= 'Z'
    ensures !('a' <= c <= 'z') ==> u == c
  {
    if 'a' <= c <= 'z' then (c as int - 'a' as int + 'A' as int) as char else c
  }

  function ToLowerAscii(c: char): (l: char)
    ensures 'A' <= c <= 'Z' ==> 'a' <= l <= 'z'
    ensures !('A' <= c <= 'Z') ==> l == c
  {
    if 'A' <= c <= 'Z' then (c as int - 'A' as int + 'a' as int) as char else c
  }

  /** `s.charAt(0).toUpperCase() + s.slice(1)`, upper-casing ASCII letters only. */
  function Capitalise(s: string): (r: string)
    ensures |r| == |s|
    ensures |s| > 0 ==> r[0] == ToUpperAscii(s[0]) && r[1..] == s[1..]
  {
    if s == [] then [] else [ToUpperAscii(s[0])] + s[1..]
  }

  /** `s` with its leading whitespace removed. */
  function TrimStart(s: string): (r: string)
    ensures |r| <= |s|
  {
    if s != [] && IsWhitespace(s[0]) then TrimStart(s[1..]) else s
  }

  /** `s` with its trailing whitespace removed. */
  function TrimEnd(s: string): (r: string)
    ensures |r| <= |s|
  {
    if s != [] && IsWhitespace(s[|s| - 1]) then TrimEnd(s[..|s| - 1]) else s
  }

  /** `String.prototype.trim`. */
  function Trim(s: string): string {
    TrimEnd(TrimStart(s))
  }

  /**
   * TrimStart removes a prefix of whitespace, and exactly that: what is left
   * is empty or starts with a non-whitespace character.
   */
  lemma {:induction false} TrimStartShape(s: string)
    ensures TrimStart(s) == s[|s| - |TrimStart(s)|..]
    ensures forall i :: 0 <= i < |s| - |TrimStart(s)| ==> IsWhitespace(s[i])
    ensures TrimStart(s) == [] || !IsWhitespace(TrimStart(s)[0])
  {
    if s != [] && IsWhitespace(s[0]) {
      var rest := s[1..];
      TrimStartShape(rest);
      assert TrimStart(s) == TrimStart(rest);
      assert rest[|rest| - |TrimStart(s)|..] == s[|s| - |TrimStart(s)|..];
      forall i | 1 <= i < |s| - |TrimStart(s)| ensures IsWhitespace(s[i]) {
        assert s[i] == rest[i - 1];
      }
    }
  }

  /**
   * TrimEnd removes a suffix of whitespace, and exactly that: what is left
   * is empty or ends with a non-whitespace character.
   */
  lemma {:induction false} TrimEndShape(s: string)
    ensures TrimEnd(s) == s[..|TrimEnd(s)|]
    ensures forall i :: |TrimEnd(s)| <= i < |s| ==> IsWhitespace(s[i])
    ensures TrimEnd(s) == [] || !IsWhitespace(TrimEnd(s)[|TrimEnd(s)| - 1])
  {
    if s != [] && IsWhitespace(s[|s| - 1]) {
      var init := s[..|s| - 1];
      TrimEndShape(init);
      assert TrimEnd(s) == TrimEnd(init);
      assert init[..|TrimEnd(s)|] == s[..|TrimEnd(s)|];
      forall i | |TrimEnd(s)| <= i < |s| - 1 ensures IsWhitespace(s[i]) {
        assert s[i] == init[i];
      }
    }
  }

  /** A trimmed value is empty exactly when the raw value is all whitespace. */
  lemma {:induction false} TrimEmptyIff(s: string)
    ensures Trim(s) == [] <==> forall i :: 0 <= i < |s| ==> IsWhitespace(s[i])
  {
    var t := TrimStart(s);
    TrimStartShape(s);
    TrimEndShape(t);
    if Trim(s) == [] {
      // a non-empty `t` starts with a non-whitespace character, which TrimEnd keeps
      assert t == [];
    }
    if forall i :: 0 <= i < |s| ==> IsWhitespace(s[i]) {
      TrimStartAllWhitespace(s);
    }
  }

  lemma {:induction false} TrimStartAllWhitespace(s: string)
    requires forall i :: 0 <= i < |s| ==> IsWhitespace(s[i])
    ensures TrimStart(s) == []
  {
    if s != [] {
      assert IsWhitespace(s[0]);
      TrimStartAllWhitespace(s[1..]);
    }
  }

  lemma {:induction false} TrimStartPadding(s: string) returns (pre: string)
    ensures s == pre + TrimStart(s)
    ensures forall i :: 0 <= i < |pre| ==> IsWhitespace(pre[i])
  {
    var t := TrimStart(s);
    TrimStartShape(s);
    pre := s[..|s| - |t|];
    assert t == s[|pre|..];
    assert s == pre + s[|pre|..];
    forall i | 0 <= i < |pre| ensures IsWhitespace(pre[i]) {
      assert pre[i] == s[i];
    }
  }

  lemma {:induction false} TrimEndPadding(t: string) returns (post: string)
    ensures t == TrimEnd(t) + post
    ensures forall i :: 0 <= i < |post| ==> IsWhitespace(post[i])
  {
    var r := TrimEnd(t);
    TrimEndShape(t);
    post := t[|r|..];
    forall i | 0 <= i < |post| ensures IsWhitespace(post[i]) {
      assert post[i] == t[|r| + i];
    }
  }

  /** The raw value is its trimmed value with whitespace on either side. */
  lemma {:induction false} TrimPadding(s: string) returns (pre: string, post: string)
    ensures s == pre + Trim(s) + post
    ensures forall i :: 0 <= i < |pre| ==> IsWhitespace(pre[i])
    ensures forall i :: 0 <= i < |post| ==> IsWhitespace(post[i])
  {
    var t := TrimStart(s);
    pre := TrimStartPadding(s);
    post := TrimEndPadding(t);
    assert s == pre + t && t == Trim(s) + post;
    assert pre + (Trim(s) + post) == pre + Trim(s) + post;
  }

  /** The trimmed value is a contiguous piece of the raw value. */
  lemma {:induction false} TrimIsInfix(s: string)
    ensures exists i, j :: 0 <= i <= j <= |s| && Trim(s) == s[i..j]
  {
    var t := TrimStart(s);
    var i := |s| - |t|;
    var r := TrimEnd(t);
    TrimStartShape(s);
    TrimEndShape(t);
    assert r == t[..|r|] == s[i..i + |r|];
  }

  /** Position of the first `c` in `s`. */
  function IndexOf(s: string, c: char): (k: nat)
    requires c in s
    ensures k < |s| && s[k] == c && c !in s[..k]
  {
    if s[0] == c then 0 else 1 + IndexOf(s[1..], c)
  }

  /** `s.split(sep)` for a one-character separator. */
  function Split(s: string, sep: char): (parts: seq<string>)
    ensures |parts| >= 1
    ensures forall j :: 0 <= j < |parts| ==> sep !in parts[j]
    decreases |s|
  {
    if sep !in s then [s]
    else
      var k := IndexOf(s, sep);
      [s[..k]] + Split(s[k + 1..], sep)
  }

  /** `parts.join(sep)`. */
  function Join(parts: seq<string>, sep: char): string
    requires |parts| >= 1
  {
    if |parts| == 1 then parts[0] else parts[0] + [sep] + Join(parts[1..], sep)
  }

  /** Joining the pieces of a split gives back the original string. */
  lemma {:induction false} JoinSplit(s: string, sep: char)
    ensures Join(Split(s, sep), sep) == s
    decreases |s|
  {
    if sep in s {
      var k := IndexOf(s, sep);
      var parts := Split(s[k + 1..], sep);
      assert Split(s, sep) == [s[..k]] + parts;
      assert ([s[..k]] + parts)[1..] == parts;
      assert Join(Split(s, sep), sep) == s[..k] + [sep] + Join(parts, sep);
      JoinSplit(s[k + 1..], sep);
      assert s == s[..k] + [sep] + s[k + 1..];
    }
  }

  /** Splitting a join of separator-free pieces gives back the pieces. */
  lemma {:induction false} SplitJoin(parts: seq<string>, sep: char)
    requires |parts| >= 1
    requires forall j :: 0 <= j < |parts| ==> sep !in parts[j]
    ensures Split(Join(parts, sep), sep) == parts
  {
    if |parts| > 1 {
      var s := Join(parts, sep);
      var rest := Join(parts[1..], sep);
      assert s == parts[0] + [sep] + rest;
      assert s[|parts[0]|] == sep;
      assert s[..|parts[0]|] == parts[0];
      assert IndexOf(s, sep) == |parts[0]|;
      assert s[|parts[0]| + 1..] == rest;
      assert Split(s, sep) == [parts[0]] + Split(rest, sep);
      SplitJoin(parts[1..], sep);
      assert parts == [parts[0]] + parts[1..];
    }
  }

  /** The decimal digit character for `d`. */
  function DigitChar(d: nat): (c: char)
    requires d < 10
    ensures IsDigit(c) && DigitValue(c) == d
  {
    ('0' as int + d) as char
  }

  /** `String(n)` for a non-negative integer: its decimal numeral. */
  function NatToString(n: nat): (s: string)
    ensures |s| >= 1
    ensures forall i :: 0 <= i < |s| ==> IsDigit(s[i])
  {
    if n < 10 then [DigitChar(n)] else NatToString(n / 10) + [DigitChar(n % 10)]
  }

  function DigitValue(c: char): (d: nat)
    requires IsDigit(c)
    ensures d < 10
  {
    c as int - '0' as int
  }

  /** The value of a string of decimal digits. */
  function ParseDecimal(s: string): nat
    requires forall i :: 0 <= i < |s| ==> IsDigit(s[i])
  {
    if s == [] then 0
    else ParseDecimal(s[..|s| - 1]) * 10 + DigitValue(s[|s| - 1])
  }

  /** Reading back a numeral gives the number it was written from. */
  lemma {:induction false} ParseNatToString(n: nat)
    ensures ParseDecimal(NatToString(n)) == n
  {
    if n >= 10 {
      var s := NatToString(n);
      assert s[..|s| - 1] == NatToString(n / 10);
      ParseNatToString(n / 10);
    }
  }
}
