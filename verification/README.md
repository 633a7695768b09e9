# Little Lemon menu cache, modelled in Dafny

The Little Lemon app shows a restaurant menu. At start-up it fetches the menu as
JSON from a remote endpoint and stores it in an on-device SQLite table `menu`.
The home screen then reads that table back, filtered by the categories the user
has selected and by a search text. This project models that menu cache as
immutable data and pure functions, and proves what each operation guarantees.

It also models two small pieces of logic next to the cache:

- the category strip's toggle over its seven fixed labels;
- the onboarding form's validators for the first name and the email.

The model has these modules:

- `MenuStore` (`menu_store.dfy`). It covers the `menu` table: its rows, whether it
  has the `category` column, and its AUTOINCREMENT high-water mark. It also covers
  the statements `components/database.js` runs against the table: create, add the
  column, replace the contents, clear, drop, and `SELECT DISTINCT category`.
- `MenuQuery` (`menu_query.dfy`). It covers the `SELECT` that
  `fetchFilteredMenuFromDatabase` builds, the SQL text it renders to, its
  parameter list, and the rows SQLite returns for it.
- `SqlText` (`sql_text.dfy`). It holds the fixed fragments of that SQL text and
  how many `?` each contains.
- `SqlLike` (`like.dfy`). It defines SQLite's `LIKE` with `%` and `_` wildcards,
  no `ESCAPE` clause, and ASCII-only case folding.
- `JsString` (`jsstring.dfy`). It defines `String.prototype.trim`, the `\s` class,
  `Array.prototype.join` and ASCII case folding.
- `RemoteMenu` (`remote_menu.dfy`). It covers the shape check and the record
  normalisation in `fetchMenuFromServer`, starting from the parsed payload.
- `MenuSync` (`sync.dfy`). It covers the control flow of `initializeDatabase`.
- `Categories` (`categories.dfy`). It covers `toggleCategory` and the fixed label
  list.
- `Onboarding` (`onboarding.dfy`). It covers the two anchored regular expressions
  and the rule that enables the Next button.
- `Seqs` (`seqs.dfy`). It holds `Option`, `Result`, `Filter`, `Count` and
  `Distinct`, with their lemmas.

Design decisions:

- SQLite errors are caught and logged throughout. A statement SQLite rejects
  therefore leaves the store as it was, and the caller receives `[]` where the
  source returns it.
- A failing row insert is modelled by a parameter, `accepts`, a fixed function
  of the item. The items it rejects are skipped. They consume no id, because SQLite undoes the failing
  statement.
- A row written before the `category` column was added reads NULL in that
  column. `Row.category` is therefore an `Option`.
- A price is `Number(r)` or `NaN`. Parsing floating-point text is a parameter,
  `parseFloat`.

Some behaviour of the code is easy to misread; the model keeps it as written:

- A record without a parsable price gets NaN, not 0. `parseFloat(...) ?? 0`
  never falls back to 0 (see `RemoteMenu.PriceFallbackNeverApplies`).
- The search is `name LIKE '%q%'`, not a plain substring test. A `%` or `_` in
  the query acts as a wildcard, and `_` alone matches every non-empty name. Case
  is ignored for ASCII letters only. The substring reading holds only for queries
  without wildcards (`MenuQuery.WantedIsCategoryAndSubstring`).
- The pattern is built from the untrimmed query, so leading and trailing spaces
  take part in the match. Only the decision to filter by name uses `trim()`.
- `fetchCategoriesFromDatabase` returns NULL as a category when the table holds
  pre-column rows.

## Model

| member | source | states |
|---|---|---|
| MenuStore.CreateTable | components/database.js:18-35 | A missing table is created with the `category` column and no rows; an existing table is returned unchanged; table validity is kept |
| MenuStore.AddCategoryColumnIfNeeded | components/database.js:37-50 | The column is added only when absent and the rows and id counter are kept; with no table nothing changes |
| MenuStore.EnsureSchema | components/database.js:182-183 | After the two schema steps the table exists with its `category` column; cached rows and the id counter survive; a created table is empty |
| MenuStore.EnsureSchemaIdempotent | components/database.js:21-45 | Running `createTable`, `addCategoryColumnIfNeeded` or both a second time changes nothing |
| MenuStore.AppendItem | components/database.js:62-68 | One successful insert appends the item as the last row under the next id and keeps the table valid |
| MenuStore.InsertEach | components/database.js:60-72 | The insert loop keeps the earlier rows as a prefix, adds at most one row per item, and moves the id counter by exactly the number of rows added; `MenuStore.InsertEachAppendsAccepted` characterises the added rows |
| MenuStore.InsertEachAppendsAccepted | components/database.js:60-72 | The insert loop appends exactly the accepted items in input order under consecutive ids; a failing item does not stop the rest and consumes no id |
| MenuStore.InsertIntoCleared | components/database.js:55-72 | After the DELETE and the loop, the table holds exactly the accepted items under ids after the old high-water mark, and is valid |
| MenuStore.InsertMenuData | components/database.js:52-79 | The replace: no table leaves the store unchanged; a table without the column ends up empty; otherwise the rows are exactly the accepted items in order; the id counter never decreases; validity is kept |
| MenuStore.ReplaceNeverReusesIds | components/database.js:23 | After a replace every new id is larger than every earlier id, so no earlier row remains |
| MenuStore.ClearDatabase | components/database.js:152-160 | The table is emptied but keeps its schema and id counter; with no table nothing changes |
| MenuStore.DropTable | components/database.js:162-170 | Afterwards there is no `menu` table |
| MenuStore.FetchCategoriesFromDatabase | components/database.js:81-91 | Each category value present in the rows, NULL included, appears exactly once and nothing else does; a missing table or column yields `[]` |
| MenuStore.CategoriesAfterReplace | components/database.js:52-91 | After a replace, the categories listed are exactly those of the items whose insert succeeded |
| MenuStore.ReplaceSubsumesClear | components/database.js:152-160 | Clearing before a replace changes nothing, and a cleared table lists no category |
| MenuStore.DropRestartsIds | components/database.js:162-170 | After a drop and the schema steps the table is empty with a fresh counter, so the first insert gets id 1 |
| MenuStore.ClearKeepsIds | components/database.js:152-160 | Clearing keeps the id counter, so the first insert after clearing a non-empty table gets an id above 1 |
| JsString.Trim | components/database.js:106 | `searchQuery.trim()` is a slice of the query with only whitespace before and after it; it is empty exactly when the query is all whitespace, and otherwise starts and ends with non-whitespace |
| SqlText.PlaceholderCount | components/database.js:101 | The joined placeholder list for n categories holds exactly n `?` |
| SqlText.InListCount | components/database.js:101-102 | `category IN (...)` holds one `?` per selected category |
| SqlText.NameLikeCount | components/database.js:107 | `name LIKE ?` holds one `?` |
| MenuQuery.BuildFilterQuery | components/database.js:96-109 | The built statement has exactly one parameter per placeholder of its conditions |
| MenuQuery.Sql | components/database.js:96-113 | The text is `SELECT * FROM menu` exactly when there is no condition, and otherwise starts with `SELECT * FROM menu WHERE `; `MenuQuery.FilterQueryText` gives the full text of each case |
| MenuQuery.BuiltQueryShape | components/database.js:100-109 | The category condition is present iff a category is selected and the name condition iff the trimmed query is non-empty; category comes first; the parameters are the categories in order, then `%q%` of the untrimmed query |
| MenuQuery.FilterQueryText | components/database.js:96-113 | The exact SQL text and parameter list for each of the four filter combinations; with neither filter it is `SELECT * FROM menu` with no parameters |
| MenuQuery.FilterQueryPlaceholders | components/database.js:100-115 | The SQL text holds exactly as many `?` as there are parameters |
| MenuQuery.Execute | components/database.js:115 | The returned rows come from the table and satisfy every bound condition |
| MenuQuery.FetchFilteredMenuFromDatabase | components/database.js:93-122 | A missing table, or a category filter on a table without the column, yields `[]`; otherwise the result is drawn from the stored rows |
| MenuQuery.BoundFilterMeansWanted | components/database.js:100-112 | A row passes the bound conditions iff its category is among the selected ones (when any) and its name matches `%q%` (when the query is not blank) |
| MenuQuery.FilteredMenuIsWantedRows | components/database.js:96-117 | The query returns, in rowid order, exactly the wanted rows; with no category and a blank query it returns every row |
| MenuQuery.WantedIsCategoryAndSubstring | components/database.js:106-108 | For a wildcard-free query, a row is wanted iff its category is selected and the untrimmed query occurs in its name, ignoring ASCII case |
| SqlLike.Like | components/database.js:107 | A pattern without `%` matches only strings of its own length; `SqlLike.SearchPatternIsSubstring` and `SqlLike.UnderscoreMatchesAnyNonEmptyName` characterise the patterns the search binds |
| SqlLike.SearchPatternIsSubstring | components/database.js:107-108 | `name LIKE '%q%'` for a wildcard-free q holds iff q occurs in the name, ignoring ASCII case |
| SqlLike.UnderscoreMatchesAnyNonEmptyName | components/database.js:108 | A search for `_` matches every non-empty name, since the query is not escaped |
| RemoteMenu.TextOr | components/database.js:137-141 | `item?.field ?? ''` is the field's value when element and field are present, `''` otherwise |
| RemoteMenu.NormalizeItem | components/database.js:136-142 | Present name, description, image and category are kept; a missing or null one, or a null element, gives `''` |
| RemoteMenu.PriceFallbackNeverApplies | components/database.js:139 | The price is exactly what `parseFloat` gives; a missing price becomes NaN, never 0 |
| RemoteMenu.FetchMenuFromServer | components/database.js:124-150 | A failed request fails; a payload whose `menu` is missing or not an array is rejected; otherwise every element is normalised, keeping length and order |
| MenuSync.InitializeDatabase | components/database.js:172-209 | Afterwards the schema is in place; the replace happens iff the payload holds a non-empty menu array; otherwise the cached rows and id counter are unchanged; a sync stores exactly the accepted items after the old high-water mark; validity is kept |
| MenuSync.ResyncStoresAccepted | components/database.js:190-198 | Starting again with the same payload stores exactly the items whose inserts succeed this time, in payload order, under ids after the first run's high-water mark; the first run used exactly one id per stored item |
| MenuSync.ResyncStoresSameMenu | components/database.js:190-198 | When the same inserts succeed both times, starting again with the same payload stores the same menu in the same order, under larger ids |
| Categories.LabelsDistinct | components/categories.js:5-13 | The strip shows seven distinct labels |
| Categories.Toggle | components/categories.js:20-26 | The toggled category's membership flips, every other category's membership is unchanged, an unselected category is appended at the end, and a duplicate-free selection stays duplicate-free |
| Categories.ToggleSelectedRemoves | components/categories.js:21-22 | Toggling a selected category cuts exactly that entry out and keeps the others in their order |
| Categories.ToggleTwice | components/categories.js:20-26 | Toggling twice restores the set of selected categories, and restores the exact list when the category was not selected |
| Categories.Press | components/categories.js:5-42 | A press flips the pressed label's membership and, the labels being distinct, leaves every other label's membership as it was; a selection of labels stays one, without duplicates |
| Categories.SelectionAfter | components/categories.js:16-42 | From the empty selection, any run of presses leaves a duplicate-free subset of the seven labels, so at most seven are selected |
| Onboarding.Matches | screens/Onboarding.js:11-12 | An anchored match consumes at least one character per atom; `Onboarding.FirstNamePatternMeans` and `Onboarding.EmailPatternMeans` characterise the two patterns |
| Onboarding.FirstNamePatternMeans | screens/Onboarding.js:11 | `^[A-Za-z]+$` accepts exactly the non-empty strings of ASCII letters |
| Onboarding.DomainPatternMeans | screens/Onboarding.js:12 | The part after `@` matches iff it has no whitespace, no `@`, and a `.` that is neither its first nor its last character |
| Onboarding.EmailPatternMeans | screens/Onboarding.js:12 | The email pattern accepts exactly the strings with one `@`, no whitespace, a non-empty part before the `@`, and an inner dot after it |
| Onboarding.ValidateInputs | screens/Onboarding.js:10-14 | The form is valid iff the first name and the email both have their shape |
| Onboarding.NextDisabled | screens/Onboarding.js:51 | Next is disabled exactly when the first name or the email lacks its shape |

## Left out

- The network request, `response.json()` and the endpoint URL. The parsed
  payload, or the failure to obtain one, is an input.
- Parsing floating-point text. `parseFloat` is a parameter applied to present
  price text. SQLite storing a NaN price as NULL is not modelled. A price is a
  real number or NaN, so the ±Infinity that `parseFloat` returns for
  `"Infinity"` or `"1e999"` is not modelled either.
- JSON field values that are not strings, such as numbers, objects or arrays in
  a text field. They are not modelled.
- Transient insert failures. `accepts` makes an insert's success a fixed
  function of the item, so equal items, and the same item on two start-ups,
  succeed or fail together; an `executeAsync` that fails because the database
  is busy, an I/O error or a full disk is not covered.
  `MenuSync.ResyncStoresAccepted` gives the second run its own `accepts`.
- `insertMenuData` is not atomic. The `DELETE` and each `INSERT` are separate
  statements, each committed on its own, and screens/Home.js:28 does not await
  `initializeDatabase`. A query running meanwhile can see the table missing,
  emptied or partly filled; the model treats the replace as one step.
- `openDatabase`, the shared `db` handle, prepared-statement finalisation, and
  failure to open the store.
- All `console` logging, and the read-only `SELECT`s that `initializeDatabase`
  runs only in order to log them.
- MenuQuery.FetchFilteredMenuFromDatabase: SQLite's default limits on the
  filter query are not modelled. A `LIKE` pattern longer than 50,000 bytes
  (SQLITE_LIMIT_LIKE_PATTERN_LENGTH), so a search text over 49,998 UTF-8 bytes,
  fails with "LIKE or GLOB pattern too complex". More than 32,766 categories
  (SQLITE_MAX_VARIABLE_NUMBER) make the prepare fail. In both cases the caught
  error gives `[]`, while the model returns the wanted rows, so
  `MenuQuery.FilteredMenuIsWantedRows` holds only within these limits. No
  caller reaches the category limit, because the strip has seven labels.
- AUTOINCREMENT exhaustion at the largest 64-bit id, where SQLite fails with
  SQLITE_FULL. Ids are unbounded.
- The order of `SELECT DISTINCT` results, which SQLite does not promise.
  `MenuStore.FetchCategoriesFromDatabase` states only which values appear, each
  once.
- The order of the filtered `SELECT`, which SQLite does not promise without
  `ORDER BY`. `MenuQuery.Execute` and `MenuQuery.FilteredMenuIsWantedRows` assume
  the full scan in rowid order, which is what SQLite does here because `menu`
  has no secondary index.
- Case folding beyond ASCII. SQLite's default `LIKE` folds only ASCII letters, so
  the model does the same.
- JavaScript strings as UTF-16 code units. Strings here are sequences of code
  points. A surrogate code unit is never an ASCII letter, whitespace or `@`, so
  a code point outside the Basic Multilingual Plane and its two code units fall
  in or out of `[A-Za-z]` and `[^\s@]` together, and the two patterns accept the
  same inputs either way. Every character `trim()` removes lies in the Basic
  Multilingual Plane, so trimming is unaffected too.
- The home screen's 500 ms debounce and the race between its two query triggers.
  This is timing and concurrency.
- The stale `validateInputs` closure in the onboarding form, which validates the
  previous state. The validators are modelled as functions of their inputs.
- The rendering of the strip, header and checkbox; the profile screen's key-value
  storage, image picker and masked phone input.
- The unused import of a function that does not exist, at
  components/categories.js:3.
