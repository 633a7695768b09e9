/** SQLite's `LIKE` operator as `name LIKE ?` uses it: no `ESCAPE` clause, `%`
    matches any run of characters, `_` matches one character, and letters are
    compared ignoring case for ASCII only. */
module SqlLike {
  import opened JsString

  /** `s LIKE p`. Without a `%`, every pattern character consumes exactly one
      character of `s`. */
  predicate Like(p: string, s: string)
    ensures Like(p, s) && '%' !in p ==> |s| == |p|
    decreases |p| + |s|
  {
    if |p| == 0 then |s| == 0
    else if p[0] == '%' then Like(p[1..], s) || (|s| > 0 && Like(p, s[1..]))
    else if p[0] == '_' then |s| > 0 && Like(p[1..], s[1..])
    else |s| > 0 && FoldAscii(p[0]) == FoldAscii(s[0]) && Like(p[1..], s[1..])
  }

  /** `q` contains neither of LIKE's wildcards, so every character of it is literal. */
  predicate WildcardFree(q: string) {
    '%' !in q && '_' !in q
  }

  /** The pattern `%q%` that the menu search binds for the query text `q`. */
  function SearchPattern(q: string): string {
    "%" + q + "%"
  }

  /** A lone `%` matches every string. */
  lemma {:induction false} PercentMatchesAll(s: string)
    ensures Like("%", s)
  {
    if |s| > 0 {
      PercentMatchesAll(s[1..]);
    }
  }

  /** Some suffix of `s`, `s` itself included, matches `r`. */
  predicate SomeSuffixMatches(r: string, s: string) {
    exists k | 0 <= k <= |s| :: Like(r, s[k..])
  }

  /** The suffixes of a non-empty `s` are `s` itself and the suffixes of `s[1..]`. */
  lemma SomeSuffixMatchesUnfold(r: string, s: string)
    requires |s| > 0
    ensures SomeSuffixMatches(r, s) <==> Like(r, s) || SomeSuffixMatches(r, s[1..])
  {
    assert s[0..] == s;
    assert forall k | 1 <= k <= |s| :: s[1..][k - 1..] == s[k..];
    if SomeSuffixMatches(r, s[1..]) {
      var k :| 0 <= k <= |s| - 1 && Like(r, s[1..][k..]);
      assert Like(r, s[k + 1..]);
    }
  }

  /** A leading `%` lets the rest of the pattern match any suffix. */
  lemma {:induction false} LeadingPercent(r: string, s: string)
    ensures Like("%" + r, s) <==> SomeSuffixMatches(r, s)
  {
    var p := "%" + r;
    assert p[0] == '%' && p[1..] == r;
    if |s| == 0 {
      assert s[0..] == s;
    } else {
      LeadingPercent(r, s[1..]);
      SomeSuffixMatchesUnfold(r, s);
    }
  }

  /** A wildcard-free `q` followed by `%` matches exactly the strings that start
      with `q`, up to ASCII case. */
  lemma {:induction false} LiteralThenPercent(q: string, t: string)
    requires WildcardFree(q)
    ensures Like(q + "%", t) <==> |q| <= |t| && EqualIgnoringAsciiCase(t[..|q|], q)
  {
    if |q| == 0 {
      assert q + "%" == "%";
      PercentMatchesAll(t);
    } else {
      var p := q + "%";
      assert p[0] == q[0] && p[1..] == q[1..] + "%";
      assert WildcardFree(q[1..]) by {
        assert forall c | c in q[1..] :: c in q;
      }
      if |t| > 0 {
        LiteralThenPercent(q[1..], t[1..]);
        if |q| <= |t| {
          var a, b := t[..|q|], t[1..][..|q| - 1];
          assert forall i | 1 <= i < |q| :: a[i] == b[i - 1] && q[i] == q[1..][i - 1];
          assert EqualIgnoringAsciiCase(a, q) <==>
            FoldAscii(a[0]) == FoldAscii(q[0]) && EqualIgnoringAsciiCase(b, q[1..]);
        }
      }
    }
  }

  /** For a wildcard-free query the pattern `%q%` is a case-insensitive (ASCII)
      substring test; leading and trailing spaces of `q` take part in it. */
  lemma SearchPatternIsSubstring(q: string, name: string)
    requires WildcardFree(q)
    ensures Like(SearchPattern(q), name) <==> ContainsIgnoringAsciiCase(name, q)
  {
    assert SearchPattern(q) == "%" + (q + "%");
    LeadingPercent(q + "%", name);
    forall k | 0 <= k <= |name|
      ensures Like(q + "%", name[k..]) <==> OccursAt(name, q, k)
    {
      LiteralThenPercent(q, name[k..]);
      if k + |q| <= |name| {
        assert name[k..][..|q|] == name[k..k + |q|];
      }
    }
  }

  /** An unescaped `_` typed into the search box matches every non-empty name. */
  lemma UnderscoreMatchesAnyNonEmptyName(name: string)
    ensures Like(SearchPattern("_"), name) <==> |name| > 0
  {
    var p := "_%";
    assert SearchPattern("_") == "%" + p;
    assert p[0] == '_' && p[1..] == "%";
    LeadingPercent(p, name);
    if |name| > 0 {
      PercentMatchesAll(name[1..]);
      assert name[0..] == name;
      assert Like(p, name[0..]);
    } else {
      assert name[0..] == [];
    }
  }
}
