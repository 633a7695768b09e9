/** `fetchFilteredMenuFromDatabase`: the `SELECT` it builds from the selected
    categories and the search text, the SQL text that statement renders to, and
    the rows SQLite returns for it. A statement is kept as its list of `WHERE`
    conditions plus the `?` parameters bound to them in order; its meaning is
    given on that structure, and `Sql` renders it to the exact text the app sends. */
module MenuQuery {
  import opened Seqs
  import opened JsString
  import opened SqlLike
  import opened MenuStore
  import opened SqlText

  /** One `WHERE` condition: `category IN (?, ..., ?)` with `arity` placeholders,
      or `name LIKE ?`. */
  datatype Condition = CategoryIn(arity: nat) | NameLike

  /** `SELECT * FROM menu` filtered by the conjunction of `conditions`, with
      `params` bound to their placeholders left to right. */
  datatype Query = Query(conditions: seq<Condition>, params: seq<string>)

  /** Number of `?` placeholders a condition carries. */
  function Width(c: Condition): nat {
    match c
    case CategoryIn(n) => n
    case NameLike => 1
  }

  /** Number of `?` placeholders in a list of conditions. */
  function Arity(cs: seq<Condition>): nat {
    if |cs| == 0 then 0 else Width(cs[0]) + Arity(cs[1..])
  }

  lemma {:induction false} ArityAppend(a: seq<Condition>, b: seq<Condition>)
    ensures Arity(a + b) == Arity(a) + Arity(b)
  {
    if |a| == 0 {
      assert a + b == b;
    } else {
      assert (a + b)[0] == a[0];
      assert (a + b)[1..] == a[1..] + b;
      ArityAppend(a[1..], b);
    }
  }

  /** The query `fetchFilteredMenuFromDatabase(filteredCategories, searchQuery)`
      builds. The category condition is present exactly when a category is
      selected, the name condition exactly when the search text is not blank,
      the category condition comes first, and there is one parameter per
      placeholder: the categories in order, then the pattern `%q%` built from
      the untrimmed text. */
  function BuildFilterQuery(filteredCategories: seq<string>, searchQuery: string): (q: Query)
    ensures Arity(q.conditions) == |q.params|
  {
    var byCategory := |filteredCategories| > 0;
    var byName := Trim(searchQuery) != [];
    var categoryConditions := if byCategory then [CategoryIn(|filteredCategories|)] else [];
    var nameConditions := if byName then [NameLike] else [];
    var params :=
      (if byCategory then filteredCategories else [])
      + (if byName then [SearchPattern(searchQuery)] else []);
    ArityAppend(categoryConditions, nameConditions);
    assert Arity([NameLike]) == 1 by { assert [NameLike][1..] == []; }
    assert Arity([CategoryIn(|filteredCategories|)]) == |filteredCategories| by {
      assert [CategoryIn(|filteredCategories|)][1..] == [];
    }
    Query(categoryConditions + nameConditions, params)
  }

  /** The SQL text of one condition. */
  function ConditionSql(c: Condition): string {
    match c
    case CategoryIn(n) => InOpen + Placeholders(n) + InClose
    case NameLike => NameLikeSql
  }

  /** The statement text: `SELECT * FROM menu`, then ` WHERE ` and the conditions
      joined with ` AND ` when there are any. */
  function Sql(q: Query): (r: string)
    ensures r == SelectAll <==> |q.conditions| == 0
    ensures |q.conditions| > 0 ==> SelectAll + WhereKeyword <= r
  {
    if |q.conditions| == 0 then SelectAll
    else SelectAll + WhereKeyword + Join(seq(|q.conditions|, i requires 0 <= i < |q.conditions| => ConditionSql(q.conditions[i])), AndKeyword)
  }

  /** The four shapes the built query takes. */
  lemma BuiltQueryShape(filteredCategories: seq<string>, searchQuery: string)
    ensures var q := BuildFilterQuery(filteredCategories, searchQuery);
      var n := |filteredCategories|;
      var pattern := SearchPattern(searchQuery);
      && (n == 0 && IsBlank(searchQuery) ==> q == Query([], []))
      && (n > 0 && IsBlank(searchQuery) ==> q == Query([CategoryIn(n)], filteredCategories))
      && (n == 0 && !IsBlank(searchQuery) ==> q == Query([NameLike], [pattern]))
      && (n > 0 && !IsBlank(searchQuery) ==> q == Query([CategoryIn(n), NameLike], filteredCategories + [pattern]))
  {
    assert [] + [NameLike] == [NameLike];
    assert [CategoryIn(|filteredCategories|)] + [] == [CategoryIn(|filteredCategories|)];
    assert filteredCategories + [] == filteredCategories;
  }

  /** The text of a statement with one or two conditions. */
  lemma SqlOfConditions(q: Query)
    ensures |q.conditions| == 1 ==>
      Sql(q) == SelectAll + WhereKeyword + ConditionSql(q.conditions[0])
    ensures |q.conditions| == 2 ==>
      Sql(q) == SelectAll + WhereKeyword + (ConditionSql(q.conditions[0]) + AndKeyword + ConditionSql(q.conditions[1]))
  {
    var texts := seq(|q.conditions|, i requires 0 <= i < |q.conditions| => ConditionSql(q.conditions[i]));
    if |q.conditions| == 1 {
      assert texts == [ConditionSql(q.conditions[0])];
      JoinPair(texts[0], "", AndKeyword);
    }
    if |q.conditions| == 2 {
      assert texts == [ConditionSql(q.conditions[0]), ConditionSql(q.conditions[1])];
      JoinPair(texts[0], texts[1], AndKeyword);
    }
  }

  /** The exact SQL text and parameter list for each combination of filters: with
      neither filter the statement is `SELECT * FROM menu` with no parameters. */
  lemma FilterQueryText(filteredCategories: seq<string>, searchQuery: string)
    ensures var q := BuildFilterQuery(filteredCategories, searchQuery);
      var n := |filteredCategories|;
      && (n == 0 && IsBlank(searchQuery) ==>
            Sql(q) == SelectAll && q.params == [])
      && (n > 0 && IsBlank(searchQuery) ==>
            Sql(q) == SelectAll + WhereKeyword + (InOpen + Placeholders(n) + InClose)
            && q.params == filteredCategories)
      && (n == 0 && !IsBlank(searchQuery) ==>
            Sql(q) == SelectAll + WhereKeyword + NameLikeSql
            && q.params == ["%" + searchQuery + "%"])
      && (n > 0 && !IsBlank(searchQuery) ==>
            Sql(q) == SelectAll + WhereKeyword + ((InOpen + Placeholders(n) + InClose) + AndKeyword + NameLikeSql)
            && q.params == filteredCategories + ["%" + searchQuery + "%"])
  {
    var q := BuildFilterQuery(filteredCategories, searchQuery);
    BuiltQueryShape(filteredCategories, searchQuery);
    SqlOfConditions(q);
  }

  /** The rendered statement holds exactly as many `?` as there are parameters,
      so binding never runs short or over. */
  lemma FilterQueryPlaceholders(filteredCategories: seq<string>, searchQuery: string)
    ensures var q := BuildFilterQuery(filteredCategories, searchQuery);
      Count(Sql(q), '?') == |q.params|
  {
    var n := |filteredCategories|;
    FilterQueryText(filteredCategories, searchQuery);
    KeywordCounts();
    NameLikeCount();
    InListCount(n);
    var inList := InOpen + Placeholders(n) + InClose;
    if n > 0 && IsBlank(searchQuery) {
      CountAppend3(SelectAll, WhereKeyword, inList);
    } else if n == 0 && !IsBlank(searchQuery) {
      CountAppend3(SelectAll, WhereKeyword, NameLikeSql);
    } else if n > 0 {
      CountAppend3(inList, AndKeyword, NameLikeSql);
      CountAppend3(SelectAll, WhereKeyword, inList + AndKeyword + NameLikeSql);
    }
  }

  /** A condition with its parameters bound. */
  datatype Bound = InList(values: seq<string>) | NameMatches(pattern: string)

  /** Binds `params` to the placeholders of `cs`, left to right. */
  function Bind(cs: seq<Condition>, params: seq<string>): (bs: seq<Bound>)
    requires Arity(cs) == |params|
    ensures |bs| == |cs|
  {
    if |cs| == 0 then []
    else match cs[0]
      case CategoryIn(n) => [InList(params[..n])] + Bind(cs[1..], params[n..])
      case NameLike => [NameMatches(params[0])] + Bind(cs[1..], params[1..])
  }

  /** SQLite's verdict on one row: `category IN (...)` is false for a NULL category
      and otherwise compares exactly; `name LIKE ?` is `Like`. */
  predicate Satisfies(row: Row, b: Bound) {
    match b
    case InList(vs) => row.category.Some? && row.category.value in vs
    case NameMatches(p) => Like(p, row.name)
  }

  predicate SatisfiesAll(row: Row, bs: seq<Bound>) {
    forall i | 0 <= i < |bs| :: Satisfies(row, bs[i])
  }

  /** The rows, in rowid order, that satisfy every condition. */
  function Execute(q: Query, rows: seq<Row>): (r: seq<Row>)
    requires Arity(q.conditions) == |q.params|
    ensures |r| <= |rows|
    ensures forall row | row in r :: row in rows && SatisfiesAll(row, Bind(q.conditions, q.params))
  {
    var bs := Bind(q.conditions, q.params);
    FilterMembers(rows, row => SatisfiesAll(row, bs));
    Filter(rows, row => SatisfiesAll(row, bs))
  }

  /** `fetchFilteredMenuFromDatabase`. A missing table, or a category filter on a
      table that lacks the column, makes SQLite reject the statement; the error is
      caught and `[]` returned. */
  function FetchFilteredMenuFromDatabase(s: Store, filteredCategories: seq<string>, searchQuery: string): (r: seq<Row>)
    ensures s.menu.None? ==> r == []
    ensures s.menu.Some? && !s.menu.value.hasCategory && |filteredCategories| > 0 ==> r == []
    ensures s.menu.Some? ==> |r| <= |s.menu.value.rows| && forall row | row in r :: row in s.menu.value.rows
  {
    match s.menu
    case None => []
    case Some(t) =>
      if !t.hasCategory && |filteredCategories| > 0 then []
      else Execute(BuildFilterQuery(filteredCategories, searchQuery), t.rows)
  }

  /** The filter a user means: the row's category is one of the selected ones
      (when any is selected), and its name matches `%q%` (when `q` is not blank). */
  predicate Wanted(row: Row, filteredCategories: seq<string>, searchQuery: string) {
    && (|filteredCategories| > 0 ==> row.category.Some? && row.category.value in filteredCategories)
    && (!IsBlank(searchQuery) ==> Like(SearchPattern(searchQuery), row.name))
  }

  /** The bound conditions of the built query hold of a row exactly when it is wanted. */
  lemma BoundFilterMeansWanted(filteredCategories: seq<string>, searchQuery: string, row: Row)
    ensures var q := BuildFilterQuery(filteredCategories, searchQuery);
      SatisfiesAll(row, Bind(q.conditions, q.params)) <==> Wanted(row, filteredCategories, searchQuery)
  {
    var n := |filteredCategories|;
    var pattern := SearchPattern(searchQuery);
    BuiltQueryShape(filteredCategories, searchQuery);
    if n > 0 && !IsBlank(searchQuery) {
      BindBoth(filteredCategories, pattern);
      SatisfiesPair(row, InList(filteredCategories), NameMatches(pattern));
    } else if n > 0 {
      BindCategories(filteredCategories);
      SatisfiesOne(row, InList(filteredCategories));
    } else if !IsBlank(searchQuery) {
      BindName(pattern);
      SatisfiesOne(row, NameMatches(pattern));
    }
  }

  lemma BindCategories(categories: seq<string>)
    ensures Bind([CategoryIn(|categories|)], categories) == [InList(categories)]
  {
    var cs := [CategoryIn(|categories|)];
    assert Arity(cs) == |categories| by {
      assert cs[1..] == [];
    }
    assert categories[..|categories|] == categories;
    assert cs[1..] == [] && categories[|categories|..] == [];
  }

  lemma BindName(pattern: string)
    ensures Bind([NameLike], [pattern]) == [NameMatches(pattern)]
  {
    assert [NameLike][1..] == [];
  }

  lemma BindBoth(categories: seq<string>, pattern: string)
    ensures Arity([CategoryIn(|categories|), NameLike]) == |categories + [pattern]|
    ensures Bind([CategoryIn(|categories|), NameLike], categories + [pattern])
      == [InList(categories), NameMatches(pattern)]
  {
    var cs := [CategoryIn(|categories|), NameLike];
    var ps := categories + [pattern];
    assert cs[1..] == [NameLike];
    BindName(pattern);
    assert Arity([NameLike]) == 1;
    assert ps[..|categories|] == categories;
    assert ps[|categories|..] == [pattern];
  }

  lemma SatisfiesOne(row: Row, b: Bound)
    ensures SatisfiesAll(row, [b]) <==> Satisfies(row, b)
  {
    assert [b][0] == b;
  }

  lemma SatisfiesPair(row: Row, b: Bound, c: Bound)
    ensures SatisfiesAll(row, [b, c]) <==> Satisfies(row, b) && Satisfies(row, c)
  {
    assert [b, c][0] == b && [b, c][1] == c;
  }

  /** The query returns, in rowid order, exactly the stored rows that are wanted;
      with no selected category and a blank search text it returns every row. */
  lemma FilteredMenuIsWantedRows(s: Store, filteredCategories: seq<string>, searchQuery: string)
    requires s.menu.Some?
    requires s.menu.value.hasCategory || |filteredCategories| == 0
    ensures FetchFilteredMenuFromDatabase(s, filteredCategories, searchQuery)
      == Filter(s.menu.value.rows, row => Wanted(row, filteredCategories, searchQuery))
    ensures |filteredCategories| == 0 && IsBlank(searchQuery) ==>
      FetchFilteredMenuFromDatabase(s, filteredCategories, searchQuery) == s.menu.value.rows
  {
    var rows := s.menu.value.rows;
    var q := BuildFilterQuery(filteredCategories, searchQuery);
    var bs := Bind(q.conditions, q.params);
    forall i | 0 <= i < |rows|
      ensures SatisfiesAll(rows[i], bs) == Wanted(rows[i], filteredCategories, searchQuery)
    {
      BoundFilterMeansWanted(filteredCategories, searchQuery, rows[i]);
    }
    FilterCongruent(rows, row => SatisfiesAll(row, bs), row => Wanted(row, filteredCategories, searchQuery));
    if |filteredCategories| == 0 && IsBlank(searchQuery) {
      FilterKeepsAll(rows, row => Wanted(row, filteredCategories, searchQuery));
    }
  }

  /** For a search text without `%` or `_`, a row is kept exactly when its category
      is selected (if any is) and, if the text is not blank, the text occurs in its
      name ignoring ASCII case — spaces around the text included. */
  lemma WantedIsCategoryAndSubstring(row: Row, filteredCategories: seq<string>, searchQuery: string)
    requires WildcardFree(searchQuery)
    ensures Wanted(row, filteredCategories, searchQuery) <==>
      && (|filteredCategories| > 0 ==> row.category.Some? && row.category.value in filteredCategories)
      && (!IsBlank(searchQuery) ==> ContainsIgnoringAsciiCase(row.name, searchQuery))
  {
    SearchPatternIsSubstring(searchQuery, row.name);
  }
}
