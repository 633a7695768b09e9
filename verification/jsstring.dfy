/** The handful of ECMAScript string operations the menu cache relies on:
    `String.prototype.trim`, the `\s` character class, `Array.prototype.join`,
    and ASCII-only upper/lower-case folding. Strings are sequences of code points. */
module JsString {

  /** Code points in ECMAScript's WhiteSpace and LineTerminator productions: the
      characters `\s` matches in a regular expression and `trim()` removes. */
  const WhitespaceChars: set<char> := {
    '\t', '\n', '\U{000B}', '\U{000C}', '\r', ' ', '\U{00A0}', '\U{1680}',
    '\U{2000}', '\U{2001}', '\U{2002}', '\U{2003}', '\U{2004}', '\U{2005}',
    '\U{2006}', '\U{2007}', '\U{2008}', '\U{2009}', '\U{200A}',
    '\U{2028}', '\U{2029}', '\U{202F}', '\U{205F}', '\U{3000}', '\U{FEFF}'
  }

  predicate IsWhitespace(c: char) {
    c in WhitespaceChars
  }

  /** Every character of `s` is whitespace (true of the empty string). */
  predicate IsBlank(s: string) {
    forall i | 0 <= i < |s| :: IsWhitespace(s[i])
  }

  /** `s` with its leading whitespace removed. */
  function TrimStart(s: string): (r: string)
    ensures |r| <= |s| && r == s[|s| - |r|..]
    ensures IsBlank(s[..|s| - |r|])
    ensures r == [] || !IsWhitespace(r[0])
  {
    if |s| > 0 && IsWhitespace(s[0]) then
      var r := TrimStart(s[1..]);
      assert s[..|s| - |r|] == [s[0]] + s[1..][..|s| - 1 - |r|];
      r
    else s
  }

  /** `s` with its trailing whitespace removed. */
  function TrimEnd(s: string): (r: string)
    ensures |r| <= |s| && r == s[..|r|]
    ensures IsBlank(s[|r|..])
    ensures r == [] || !IsWhitespace(r[|r| - 1])
  {
    if |s| > 0 && IsWhitespace(s[|s| - 1]) then
      var r := TrimEnd(s[..|s| - 1]);
      assert s[|r|..] == s[..|s| - 1][|r|..] + [s[|s| - 1]];
      r
    else s
  }

  /** `String.prototype.trim`: the result is empty exactly when `s` is blank, and
      otherwise begins and ends with a non-whitespace character of `s`. */
  function Trim(s: string): (r: string)
    ensures r == [] <==> IsBlank(s)
    ensures r == [] || (!IsWhitespace(r[0]) && !IsWhitespace(r[|r| - 1]))
    ensures exists a, b :: BlankAround(s, a, b, r)
  {
    var t := TrimStart(s);
    var r := TrimEnd(t);
    TrimStartKeepsBlankness(s);
    TrimEndKeepsBlankness(t);
    assert r != [] ==> r[0] == t[0];
    TrimIsSlice(s, t, r);
    r
  }

  /** `r` is the slice `s[a..b]`, and only whitespace lies before and after it. */
  predicate BlankAround(s: string, a: int, b: int, r: string) {
    0 <= a <= b <= |s| && r == s[a..b] && IsBlank(s[..a]) && IsBlank(s[b..])
  }

  /** Trimming the start and then the end cuts out a slice of `s` between two
      blank stretches. */
  lemma TrimIsSlice(s: string, t: string, r: string)
    requires t == TrimStart(s) && r == TrimEnd(t)
    ensures exists a, b :: BlankAround(s, a, b, r)
  {
    var a := |s| - |t|;
    var b := a + |r|;
    assert t == s[a..] && r == t[..|r|];
    assert r == s[a..b];
    assert s[b..] == t[|r|..];
    assert BlankAround(s, a, b, r);
  }

  /** Dropping one leading whitespace character keeps blankness. */
  lemma BlankTail(s: string)
    requires |s| > 0 && IsWhitespace(s[0])
    ensures IsBlank(s) <==> IsBlank(s[1..])
  {
    assert forall i | 1 <= i < |s| :: s[i] == s[1..][i - 1];
  }

  /** Dropping one trailing whitespace character keeps blankness. */
  lemma BlankInit(s: string)
    requires |s| > 0 && IsWhitespace(s[|s| - 1])
    ensures IsBlank(s) <==> IsBlank(s[..|s| - 1])
  {
    assert forall i | 0 <= i < |s| - 1 :: s[i] == s[..|s| - 1][i];
  }

  lemma {:induction false} TrimStartKeepsBlankness(s: string)
    ensures IsBlank(TrimStart(s)) <==> IsBlank(s)
    decreases |s|
  {
    if |s| > 0 && IsWhitespace(s[0]) {
      BlankTail(s);
      TrimStartKeepsBlankness(s[1..]);
    }
  }

  /** What `TrimEnd` leaves is blank only when it is empty, and then `s` was blank. */
  lemma {:induction false} TrimEndKeepsBlankness(s: string)
    ensures TrimEnd(s) == [] <==> IsBlank(s)
    decreases |s|
  {
    if |s| > 0 && IsWhitespace(s[|s| - 1]) {
      BlankInit(s);
      TrimEndKeepsBlankness(s[..|s| - 1]);
    } else if |s| > 0 {
      assert !IsWhitespace(s[|s| - 1]);
    }
  }

  /** SQLite's case folding for `LIKE`: ASCII upper-case letters become lower-case;
      every other character is compared as is. */
  function FoldAscii(c: char): char {
    if 'A' <= c <= 'Z' then (c as int + 32) as char else c
  }

  /** `a` and `b` are equal up to ASCII case. */
  predicate EqualIgnoringAsciiCase(a: string, b: string) {
    |a| == |b| && forall i | 0 <= i < |a| :: FoldAscii(a[i]) == FoldAscii(b[i])
  }

  /** `needle` occurs in `hay` starting at index `k`, comparing up to ASCII case. */
  predicate OccursAt(hay: string, needle: string, k: int) {
    0 <= k <= |hay| - |needle| && EqualIgnoringAsciiCase(hay[k..k + |needle|], needle)
  }

  /** `needle` occurs somewhere in `hay`, comparing up to ASCII case. */
  predicate ContainsIgnoringAsciiCase(hay: string, needle: string) {
    exists k | 0 <= k <= |hay| - |needle| :: OccursAt(hay, needle, k)
  }

  /** `Array.prototype.join`: the parts with `sep` between consecutive ones. */
  function Join(parts: seq<string>, sep: string): string {
    if |parts| == 0 then ""
    else if |parts| == 1 then parts[0]
    else parts[0] + sep + Join(parts[1..], sep)
  }

  lemma JoinPair(a: string, b: string, sep: string)
    ensures Join([a], sep) == a
    ensures Join([a, b], sep) == a + sep + b
  {
    assert [a, b][1..] == [b];
  }
}
