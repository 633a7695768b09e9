/** The fixed pieces of text the menu query is assembled from, and how many `?`
    placeholders each holds. */
module SqlText {
  import opened Seqs
  import opened JsString

  /** Fragments of the statement text. */
  const SelectAll := "SELECT * FROM menu"
  const WhereKeyword := " WHERE "
  const AndKeyword := " AND "
  const InOpen := "category IN ("
  const InClose := ")"
  const Placeholder := "?"
  const NameLikeKeyword := "name LIKE "
  const NameLikeSql := NameLikeKeyword + Placeholder

  /** `filteredCategories.map(() => '?').join(', ')`. */
  function Placeholders(n: nat): string {
    Join(Repeat(Placeholder, n), ", ")
  }

  /** The placeholder list has exactly one `?` per selected category. */
  lemma {:induction false} PlaceholderCount(n: nat)
    ensures Count(Placeholders(n), '?') == n
  {
    if n == 1 {
      assert Repeat(Placeholder, 1) == [Placeholder];
    } else if n > 1 {
      PlaceholderCount(n - 1);
      var parts := Repeat(Placeholder, n);
      assert parts[1..] == Repeat(Placeholder, n - 1);
      assert Placeholders(n) == Placeholder + ", " + Placeholders(n - 1);
      CountAppend(Placeholder + ", ", Placeholders(n - 1), '?');
      CountAppend(Placeholder, ", ", '?');
    }
  }

  /** Count of `?` in a concatenation of three pieces. */
  lemma CountAppend3(a: string, b: string, c: string)
    ensures Count(a + b + c, '?') == Count(a, '?') + Count(b, '?') + Count(c, '?')
  {
    CountAppend(a, b, '?');
    CountAppend(a + b, c, '?');
  }

  /** The keywords hold no placeholder. */
  lemma KeywordCounts()
    ensures Count(SelectAll, '?') == 0 && Count(WhereKeyword, '?') == 0 && Count(AndKeyword, '?') == 0
  {
    SelectAllCount();
    WhereCount();
    AndCount();
  }

  lemma SelectAllCount()
    ensures Count(SelectAll, '?') == 0
  {
    assert '?' !in SelectAll;
  }

  lemma WhereCount()
    ensures Count(WhereKeyword, '?') == 0
  {
    assert '?' !in WhereKeyword;
  }

  lemma AndCount()
    ensures Count(AndKeyword, '?') == 0
  {
    assert '?' !in AndKeyword;
  }

  lemma NameLikeKeywordCount()
    ensures Count(NameLikeKeyword, '?') == 0
  {
    assert '?' !in NameLikeKeyword;
  }

  lemma PlaceholderOnce()
    ensures Count(Placeholder, '?') == 1
  {
    assert Placeholder[1..] == [];
  }

  /** The name condition holds one placeholder. */
  lemma NameLikeCount()
    ensures Count(NameLikeSql, '?') == 1
  {
    NameLikeKeywordCount();
    PlaceholderOnce();
    CountAppend(NameLikeKeyword, Placeholder, '?');
  }

  /** The IN list for `n` categories holds `n` placeholders. */
  lemma InListCount(n: nat)
    ensures Count(InOpen + Placeholders(n) + InClose, '?') == n
  {
    assert '?' !in InOpen;
    assert '?' !in InClose;
    PlaceholderCount(n);
    CountAppend3(InOpen, Placeholders(n), InClose);
  }
}
