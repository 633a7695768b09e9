/** The onboarding form: the two regular expressions `validateInputs` tests and
    the rule that enables the Next button. A pattern is modelled as the sequence
    of atoms between `^` and `$`; without the multiline flag those anchors pin
    the match to the whole input. */
module Onboarding {
  import opened Seqs
  import opened JsString

  /** The character classes the two patterns use. */
  datatype CharClass =
    | AsciiLetter                // [A-Za-z]
    | NotSpaceOrAt               // [^\s@]
    | Literal(c: char)           // @ or \.

  predicate IsAsciiLetter(c: char) {
    'A' <= c <= 'Z' || 'a' <= c <= 'z'
  }

  predicate InClass(k: CharClass, c: char) {
    match k
    case AsciiLetter => IsAsciiLetter(c)
    case NotSpaceOrAt => !IsWhitespace(c) && c != '@'
    case Literal(l) => c == l
  }

  /** Every character of `s` is in class `k`. */
  predicate AllIn(k: CharClass, s: string) {
    forall i | 0 <= i < |s| :: InClass(k, s[i])
  }

  /** One atom of a pattern: a class matched once, or matched one or more times (`+`). */
  datatype Atom = Once(k: CharClass) | OneOrMore(k: CharClass)

  /** `s` matches the anchored atom sequence `p` as a whole. */
  predicate Matches(p: seq<Atom>, s: string)
    ensures Matches(p, s) ==> |s| >= |p|
    decreases |p| + |s|
  {
    if |p| == 0 then |s| == 0
    else
      |s| > 0 && InClass(p[0].k, s[0]) &&
      match p[0]
      case Once(_) => Matches(p[1..], s[1..])
      case OneOrMore(_) => Matches(p[1..], s[1..]) || Matches(p, s[1..])
  }

  /** `^[A-Za-z]+$` */
  const FirstNamePattern: seq<Atom> := [OneOrMore(AsciiLetter)]

  /** `[^\s@]+\.[^\s@]+$`, the domain part of the email pattern. */
  const DomainPattern: seq<Atom> := [OneOrMore(NotSpaceOrAt), Once(Literal('.')), OneOrMore(NotSpaceOrAt)]

  /** `^[^\s@]+@[^\s@]+\.[^\s@]+$` */
  const EmailPattern: seq<Atom> := [OneOrMore(NotSpaceOrAt), Once(Literal('@'))] + DomainPattern

  /** `s` splits after its first `j` characters into a run of class `k` and a
      remainder matching `rest`. */
  predicate SplitAt(k: CharClass, rest: seq<Atom>, s: string, j: int) {
    1 <= j <= |s| && AllIn(k, s[..j]) && Matches(rest, s[j..])
  }

  /** A leading `+` atom takes some non-empty run of its class. */
  lemma OneOrMoreSplits(k: CharClass, rest: seq<Atom>, s: string)
    ensures Matches([OneOrMore(k)] + rest, s) <==> exists j :: SplitAt(k, rest, s, j)
  {
    if Matches([OneOrMore(k)] + rest, s) {
      var j := RunBeforeRest(k, rest, s);
    }
    if exists j :: SplitAt(k, rest, s, j) {
      var j :| SplitAt(k, rest, s, j);
      RunThenRest(k, rest, s, j);
    }
  }

  /** A match of a leading `+` atom consumes a run of `j` characters. */
  lemma {:induction false} RunBeforeRest(k: CharClass, rest: seq<Atom>, s: string) returns (j: int)
    requires Matches([OneOrMore(k)] + rest, s)
    ensures SplitAt(k, rest, s, j)
    decreases |s|
  {
    var p := [OneOrMore(k)] + rest;
    assert p[0] == OneOrMore(k) && p[1..] == rest;
    var t := s[1..];
    if Matches(rest, t) {
      assert s[..1] == [s[0]];
      j := 1;
    } else {
      var j' := RunBeforeRest(k, rest, t);
      assert s[..j' + 1] == [s[0]] + t[..j'] && s[j' + 1..] == t[j'..];
      j := j' + 1;
    }
  }

  /** A run of `j` characters of the class followed by a match of `rest` matches. */
  lemma {:induction false} RunThenRest(k: CharClass, rest: seq<Atom>, s: string, j: int)
    requires SplitAt(k, rest, s, j)
    ensures Matches([OneOrMore(k)] + rest, s)
    decreases j
  {
    var p := [OneOrMore(k)] + rest;
    assert p[0] == OneOrMore(k) && p[1..] == rest;
    var t := s[1..];
    assert InClass(k, s[0]) by {
      assert s[..j][0] == s[0];
    }
    if j == 1 {
      assert s[j..] == t;
    } else {
      assert t[..j - 1] == s[..j][1..] && t[j - 1..] == s[j..];
      RunThenRest(k, rest, t, j - 1);
    }
  }

  /** A single atom matches one character of its class. */
  lemma OnceUnfold(k: CharClass, rest: seq<Atom>, s: string)
    ensures Matches([Once(k)] + rest, s) <==> |s| > 0 && InClass(k, s[0]) && Matches(rest, s[1..])
  {
    var p := [Once(k)] + rest;
    assert p[0] == Once(k) && p[1..] == rest;
  }

  /** A lone `+` atom matches exactly the non-empty runs of its class. */
  lemma OneOrMoreAlone(k: CharClass, s: string)
    ensures Matches([OneOrMore(k)], s) <==> |s| > 0 && AllIn(k, s)
  {
    assert [OneOrMore(k)] == [OneOrMore(k)] + [];
    OneOrMoreSplits(k, [], s);
    if |s| > 0 && AllIn(k, s) {
      assert s[..|s|] == s;
      assert SplitAt(k, [], s, |s|);
    }
    if exists j :: SplitAt(k, [], s, j) {
      var j :| SplitAt(k, [], s, j);
      assert j == |s|;
      assert s[..j] == s;
    }
  }

  /** `^[A-Za-z]+$` accepts exactly the non-empty strings of ASCII letters. */
  predicate FirstNameShape(s: string) {
    |s| > 0 && forall i | 0 <= i < |s| :: IsAsciiLetter(s[i])
  }

  lemma FirstNamePatternMeans(s: string)
    ensures Matches(FirstNamePattern, s) <==> FirstNameShape(s)
  {
    OneOrMoreAlone(AsciiLetter, s);
  }

  /** The domain has a `.` that is neither its first nor its last character. */
  predicate InnerDot(d: string) {
    exists j | 0 < j < |d| - 1 :: d[j] == '.'
  }

  /** The domain pattern's `\.[^\s@]+$` matches from index `j` of `d` on. */
  lemma DotThenRest(d: string, j: nat)
    requires 1 <= j <= |d|
    ensures Matches([Once(Literal('.')), OneOrMore(NotSpaceOrAt)], d[j..]) <==>
      j < |d| - 1 && d[j] == '.' && AllIn(NotSpaceOrAt, d[j + 1..])
  {
    assert [Once(Literal('.')), OneOrMore(NotSpaceOrAt)] == [Once(Literal('.'))] + [OneOrMore(NotSpaceOrAt)];
    OnceUnfold(Literal('.'), [OneOrMore(NotSpaceOrAt)], d[j..]);
    if j < |d| {
      assert d[j..][1..] == d[j + 1..];
      OneOrMoreAlone(NotSpaceOrAt, d[j + 1..]);
    }
  }

  /** A run of the class, one more member, and another run make a run. */
  lemma AllInAround(k: CharClass, d: string, j: nat)
    requires j < |d| && AllIn(k, d[..j]) && InClass(k, d[j]) && AllIn(k, d[j + 1..])
    ensures AllIn(k, d)
  {
    assert forall i | 0 <= i < j :: d[i] == d[..j][i];
    assert forall i | j < i < |d| :: d[i] == d[j + 1..][i - j - 1];
  }

  /** What the domain part of the email pattern accepts: no whitespace, no `@`,
      and an inner dot. */
  lemma DomainPatternMeans(d: string)
    ensures Matches(DomainPattern, d) <==> AllIn(NotSpaceOrAt, d) && InnerDot(d)
  {
    var tail := [Once(Literal('.')), OneOrMore(NotSpaceOrAt)];
    assert DomainPattern == [OneOrMore(NotSpaceOrAt)] + tail;
    OneOrMoreSplits(NotSpaceOrAt, tail, d);
    if Matches(DomainPattern, d) {
      var j :| SplitAt(NotSpaceOrAt, tail, d, j);
      DotThenRest(d, j);
      AllInAround(NotSpaceOrAt, d, j);
    }
    if AllIn(NotSpaceOrAt, d) && InnerDot(d) {
      var j :| 0 < j < |d| - 1 && d[j] == '.';
      assert AllIn(NotSpaceOrAt, d[..j]);
      assert AllIn(NotSpaceOrAt, d[j + 1..]);
      DotThenRest(d, j);
      assert SplitAt(NotSpaceOrAt, tail, d, j);
    }
  }

  /** An email is accepted when it has exactly one `@`, no whitespace, a
      non-empty part before the `@`, and an inner dot after it. */
  predicate EmailShape(s: string) {
    && Count(s, '@') == 1
    && (forall i | 0 <= i < |s| :: !IsWhitespace(s[i]))
    && exists a | 0 < a < |s| :: s[a] == '@' && InnerDot(s[a + 1..])
  }

  /** The email pattern matches `s` with its `@` at index `a`. */
  predicate EmailSplitAt(s: string, a: int) {
    0 < a < |s| && s[a] == '@' && AllIn(NotSpaceOrAt, s[..a]) && Matches(DomainPattern, s[a + 1..])
  }

  /** The email pattern's `@[^\s@]+\.[^\s@]+$` matches from index `a` of `s` on. */
  lemma AtThenDomain(s: string, a: nat)
    requires 1 <= a <= |s|
    ensures Matches([Once(Literal('@'))] + DomainPattern, s[a..]) <==>
      a < |s| && s[a] == '@' && Matches(DomainPattern, s[a + 1..])
  {
    OnceUnfold(Literal('@'), DomainPattern, s[a..]);
    if a < |s| {
      assert s[a..][1..] == s[a + 1..];
    }
  }

  /** The email pattern splits at its `@`. */
  lemma EmailPatternSplits(s: string)
    ensures Matches(EmailPattern, s) <==> exists a :: EmailSplitAt(s, a)
  {
    var tail := [Once(Literal('@'))] + DomainPattern;
    assert EmailPattern == [OneOrMore(NotSpaceOrAt)] + tail;
    OneOrMoreSplits(NotSpaceOrAt, tail, s);
    if Matches(EmailPattern, s) {
      var a :| SplitAt(NotSpaceOrAt, tail, s, a);
      AtThenDomain(s, a);
      assert EmailSplitAt(s, a);
    }
    if exists a :: EmailSplitAt(s, a) {
      var a :| EmailSplitAt(s, a);
      AtThenDomain(s, a);
      assert SplitAt(NotSpaceOrAt, tail, s, a);
    }
  }

  /** A match split at `a` has the email shape. */
  lemma SplitHasShape(s: string, a: int)
    requires EmailSplitAt(s, a)
    ensures EmailShape(s)
  {
    var local, domain := s[..a], s[a + 1..];
    DomainPatternMeans(domain);
    assert s == local + ['@'] + domain;
    LoneAt(local, domain);
    forall i | 0 <= i < |s|
      ensures !IsWhitespace(s[i])
    {
      if i < a {
        assert s[i] == local[i];
      } else if i > a {
        assert s[i] == domain[i - a - 1];
      }
    }
  }

  /** Joining two `@`-free parts with an `@` gives exactly one `@`. */
  lemma LoneAt(local: string, domain: string)
    requires AllIn(NotSpaceOrAt, local) && AllIn(NotSpaceOrAt, domain)
    ensures Count(local + ['@'] + domain, '@') == 1
  {
    assert '@' !in local && '@' !in domain;
    CountAppend(local + ['@'], domain, '@');
    CountAppend(local, ['@'], '@');
    assert Count(['@'], '@') == 1;
  }

  /** The email shape, with its `@` at `a`, is a match split at `a`. */
  lemma ShapeSplits(s: string, a: int)
    requires EmailShape(s) && 0 < a < |s| && s[a] == '@' && InnerDot(s[a + 1..])
    ensures EmailSplitAt(s, a)
  {
    CountOnce(s, '@', a);
    assert AllIn(NotSpaceOrAt, s[..a]);
    assert AllIn(NotSpaceOrAt, s[a + 1..]);
    DomainPatternMeans(s[a + 1..]);
  }

  /** `^[^\s@]+@[^\s@]+\.[^\s@]+$` accepts exactly the strings of `EmailShape`. */
  lemma EmailPatternMeans(s: string)
    ensures Matches(EmailPattern, s) <==> EmailShape(s)
  {
    EmailPatternSplits(s);
    if Matches(EmailPattern, s) {
      var a :| EmailSplitAt(s, a);
      SplitHasShape(s, a);
    }
    if EmailShape(s) {
      var a :| 0 < a < |s| && s[a] == '@' && InnerDot(s[a + 1..]);
      ShapeSplits(s, a);
    }
  }

  /** `validateInputs`: the form is valid when both fields pass their pattern. */
  function ValidateInputs(firstName: string, email: string): (valid: bool)
    ensures valid <==> FirstNameShape(firstName) && EmailShape(email)
  {
    FirstNamePatternMeans(firstName);
    EmailPatternMeans(email);
    Matches(FirstNamePattern, firstName) && Matches(EmailPattern, email)
  }

  /** The Next button's `disabled={!isValid}`. */
  function NextDisabled(firstName: string, email: string): (disabled: bool)
    ensures disabled <==> !FirstNameShape(firstName) || !EmailShape(email)
  {
    !ValidateInputs(firstName, email)
  }
}
