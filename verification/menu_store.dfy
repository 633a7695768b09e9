/** The on-device `menu` table and the statements `components/database.js` runs
    against it, one pure function per statement or exported operation. A
    statement SQLite would reject (no such table, no such column) leaves the
    store as it was, because every operation catches and logs the error. */
module MenuStore {
  import opened Seqs

  /** What `parseFloat` produced for a price: a finite number or NaN. */
  datatype Price = Number(value: real) | NaN

  /** A normalised menu record, the argument shape of `insertMenuData`. */
  datatype MenuItem = MenuItem(name: string, description: string, price: Price, image: string, category: string)

  /** A row of `menu`. `category` is NULL (`None`) for rows written before the
      column was added by `ALTER TABLE`. */
  datatype Row = Row(id: nat, name: string, description: string, price: Price, image: string, category: Option<string>)

  /** The `menu` table: whether it has the `category` column, its rows in rowid
      order, and the AUTOINCREMENT high-water mark SQLite keeps for it in
      `sqlite_sequence` (the largest id ever handed out). */
  datatype Table = Table(hasCategory: bool, rows: seq<Row>, lastId: nat)

  /** The database as far as the menu cache is concerned; `None` when `menu` does not exist. */
  datatype Store = Store(menu: Option<Table>)

  /** Row ids strictly increase along the rowid order. */
  predicate IdsIncreasing(rows: seq<Row>) {
    forall i, j | 0 <= i < j < |rows| :: rows[i].id < rows[j].id
  }

  /** What SQLite maintains for an AUTOINCREMENT table: ids are positive, ordered,
      never above the high-water mark, and a table without the `category` column
      has no category values. */
  predicate ValidTable(t: Table) {
    && IdsIncreasing(t.rows)
    && (forall i | 0 <= i < |t.rows| :: 1 <= t.rows[i].id <= t.lastId)
    && (!t.hasCategory ==> forall i | 0 <= i < |t.rows| :: t.rows[i].category.None?)
  }

  predicate ValidStore(s: Store) {
    s.menu.Some? ==> ValidTable(s.menu.value)
  }

  /** The row `INSERT INTO menu (name, description, price, image, category)` writes for `item` under `id`. */
  function RowOf(id: nat, item: MenuItem): Row {
    Row(id, item.name, item.description, item.price, item.image, Some(item.category))
  }

  /** `rows` are exactly `items`, in order, under the consecutive ids that follow `base`. */
  predicate StoredFrom(rows: seq<Row>, items: seq<MenuItem>, base: nat) {
    |rows| == |items| && forall i | 0 <= i < |items| :: rows[i] == RowOf(base + 1 + i, items[i])
  }

  /** `CREATE TABLE IF NOT EXISTS menu (...)`: a missing table is created with every
      column, `category` included, and a fresh AUTOINCREMENT counter (dropping a
      table also drops its `sqlite_sequence` entry); an existing table is left alone. */
  function CreateTable(s: Store): (r: Store)
    ensures r.menu.Some?
    ensures s.menu.Some? ==> r == s
    ensures s.menu.None? ==> r.menu.value.hasCategory && r.menu.value.rows == []
    ensures ValidStore(s) ==> ValidStore(r)
  {
    if s.menu.Some? then s else Store(Some(Table(true, [], 0)))
  }

  /** `addCategoryColumnIfNeeded`: `PRAGMA table_info(menu)` lists the columns; the
      column is added only when absent, and existing rows then read NULL in it.
      On a missing table the pragma returns no rows, the `ALTER TABLE` fails and
      the error is caught, so nothing changes. */
  function AddCategoryColumnIfNeeded(s: Store): (r: Store)
    ensures s.menu.None? ==> r == s
    ensures s.menu.Some? ==> r.menu.Some? && r.menu.value.hasCategory
    ensures s.menu.Some? ==> r.menu.value.rows == s.menu.value.rows && r.menu.value.lastId == s.menu.value.lastId
    ensures ValidStore(s) ==> ValidStore(r)
  {
    match s.menu
    case None => s
    case Some(t) => if t.hasCategory then s else Store(Some(t.(hasCategory := true)))
  }

  /** The schema steps `initializeDatabase` runs first: afterwards the table exists
      with its `category` column, and rows already cached are kept. */
  function EnsureSchema(s: Store): (r: Store)
    ensures r.menu.Some? && r.menu.value.hasCategory
    ensures s.menu.Some? ==> r.menu.value.rows == s.menu.value.rows && r.menu.value.lastId == s.menu.value.lastId
    ensures s.menu.None? ==> r.menu.value.rows == []
    ensures ValidStore(s) ==> ValidStore(r)
  {
    AddCategoryColumnIfNeeded(CreateTable(s))
  }

  /** Running the schema steps again changes nothing. */
  lemma EnsureSchemaIdempotent(s: Store)
    ensures CreateTable(CreateTable(s)) == CreateTable(s)
    ensures AddCategoryColumnIfNeeded(AddCategoryColumnIfNeeded(s)) == AddCategoryColumnIfNeeded(s)
    ensures EnsureSchema(EnsureSchema(s)) == EnsureSchema(s)
  {
  }

  /** One successful `executeAsync` of the prepared INSERT: AUTOINCREMENT hands out
      the id after the high-water mark. */
  function AppendItem(t: Table, item: MenuItem): (r: Table)
    requires t.hasCategory
    ensures r.hasCategory && r.lastId == t.lastId + 1
    ensures r.rows == t.rows + [RowOf(t.lastId + 1, item)]
    ensures ValidTable(t) ==> ValidTable(r)
  {
    Table(true, t.rows + [RowOf(t.lastId + 1, item)], t.lastId + 1)
  }

  /** The rows a run of successful inserts writes for `items` after the high-water mark `base`. */
  function RowsAfter(items: seq<MenuItem>, base: nat): (rows: seq<Row>)
    ensures StoredFrom(rows, items, base)
    decreases |items|
  {
    if |items| == 0 then [] else [RowOf(base + 1, items[0])] + RowsAfter(items[1..], base + 1)
  }

  lemma RowsAfterCons(x: MenuItem, rest: seq<MenuItem>, base: nat)
    ensures RowsAfter([x] + rest, base) == [RowOf(base + 1, x)] + RowsAfter(rest, base + 1)
  {
    assert ([x] + rest)[1..] == rest;
  }

  /** The loop of `insertMenuData`: each item is inserted in order; an item whose
      insert fails (`accepts` is false for it) is logged and skipped, and since the
      failing statement is undone it consumes no id. */
  function InsertEach(t: Table, items: seq<MenuItem>, accepts: MenuItem -> bool): (r: Table)
    requires t.hasCategory
    ensures r.hasCategory
    ensures |t.rows| <= |r.rows| <= |t.rows| + |items| && r.rows[..|t.rows|] == t.rows
    ensures r.lastId - t.lastId == |r.rows| - |t.rows|
    decreases |items|
  {
    if |items| == 0 then t
    else if accepts(items[0]) then
      var u := AppendItem(t, items[0]);
      var r := InsertEach(u, items[1..], accepts);
      assert r.rows[..|t.rows|] == r.rows[..|u.rows|][..|t.rows|];
      r
    else InsertEach(t, items[1..], accepts)
  }

  /** The loop appends exactly the items whose insert succeeded, in input order,
      under consecutive ids after the high-water mark, and a failing item does not
      stop the items after it. */
  lemma {:induction false} InsertEachAppendsAccepted(t: Table, items: seq<MenuItem>, accepts: MenuItem -> bool)
    requires t.hasCategory
    ensures InsertEach(t, items, accepts).rows == t.rows + RowsAfter(Filter(items, accepts), t.lastId)
    ensures InsertEach(t, items, accepts).lastId == t.lastId + |Filter(items, accepts)|
    decreases |items|
  {
    if |items| > 0 {
      var kept := Filter(items[1..], accepts);
      if accepts(items[0]) {
        InsertEachAppendsAccepted(AppendItem(t, items[0]), items[1..], accepts);
        assert Filter(items, accepts) == [items[0]] + kept;
        RowsAfterCons(items[0], kept, t.lastId);
      } else {
        InsertEachAppendsAccepted(t, items[1..], accepts);
        assert Filter(items, accepts) == kept;
      }
    }
  }

  /** Inserting into the emptied table leaves exactly the accepted items, under
      the ids after the old high-water mark, and a valid table. */
  lemma InsertIntoCleared(t: Table, items: seq<MenuItem>, accepts: MenuItem -> bool)
    requires t.hasCategory
    ensures var r := InsertEach(t.(rows := []), items, accepts);
      && StoredFrom(r.rows, Filter(items, accepts), t.lastId)
      && r.lastId == t.lastId + |Filter(items, accepts)|
      && ValidTable(r)
  {
    var kept := Filter(items, accepts);
    var r := InsertEach(t.(rows := []), items, accepts);
    InsertEachAppendsAccepted(t.(rows := []), items, accepts);
    assert r.rows == RowsAfter(kept, t.lastId);
    RowsAfterValid(kept, t.lastId);
    assert r == Table(true, RowsAfter(kept, t.lastId), t.lastId + |kept|);
  }

  /** A table holding just a run of fresh inserts is valid. */
  lemma RowsAfterValid(items: seq<MenuItem>, base: nat)
    ensures ValidTable(Table(true, RowsAfter(items, base), base + |items|))
  {
    var rows := RowsAfter(items, base);
    assert forall i | 0 <= i < |rows| :: rows[i].id == base + 1 + i;
  }

  /** `insertMenuData`: `DELETE FROM menu`, then insert the items one by one.
      On a missing table the DELETE fails and nothing changes; on a table without
      the `category` column the DELETE succeeds but preparing the INSERT fails,
      leaving the table empty. Otherwise the table holds exactly the items whose
      insert succeeded, in input order, under fresh consecutive ids. */
  function InsertMenuData(s: Store, items: seq<MenuItem>, accepts: MenuItem -> bool): (r: Store)
    ensures s.menu.None? ==> r == s
    ensures s.menu.Some? ==> r.menu.Some? && r.menu.value.hasCategory == s.menu.value.hasCategory
    ensures s.menu.Some? && !s.menu.value.hasCategory ==> r.menu.value.rows == []
    ensures s.menu.Some? && s.menu.value.hasCategory ==>
      StoredFrom(r.menu.value.rows, Filter(items, accepts), s.menu.value.lastId)
    ensures s.menu.Some? ==> r.menu.value.lastId >= s.menu.value.lastId
    ensures ValidStore(s) ==> ValidStore(r)
  {
    match s.menu
    case None => s
    case Some(t) =>
      if !t.hasCategory then Store(Some(t.(rows := [])))
      else
        InsertIntoCleared(t, items, accepts);
        Store(Some(InsertEach(t.(rows := []), items, accepts)))
  }

  /** After a replace no earlier row remains: every new id is larger than every id
      the table held before, even though `DELETE FROM menu` emptied it (AUTOINCREMENT
      never reuses an id). */
  lemma ReplaceNeverReusesIds(s: Store, items: seq<MenuItem>, accepts: MenuItem -> bool)
    requires ValidStore(s) && s.menu.Some?
    ensures var r := InsertMenuData(s, items, accepts).menu.value;
      forall i, j | 0 <= i < |s.menu.value.rows| && 0 <= j < |r.rows| ::
        s.menu.value.rows[i].id < r.rows[j].id && s.menu.value.rows[i] != r.rows[j]
  {
  }

  /** `clearDatabase`: `DELETE FROM menu` empties the table but keeps its schema and
      its AUTOINCREMENT counter; without a table it fails and nothing changes. */
  function ClearDatabase(s: Store): (r: Store)
    ensures s.menu.None? ==> r == s
    ensures s.menu.Some? ==> r.menu == Some(s.menu.value.(rows := []))
    ensures ValidStore(s) ==> ValidStore(r)
  {
    match s.menu
    case None => s
    case Some(t) => Store(Some(t.(rows := [])))
  }

  /** `dropTable`: `DROP TABLE IF EXISTS menu`. */
  function DropTable(s: Store): (r: Store)
    ensures r.menu.None? && ValidStore(r)
  {
    Store(None)
  }

  /** The `category` column, read row by row. */
  function CategoryColumn(rows: seq<Row>): (c: seq<Option<string>>)
    ensures |c| == |rows| && forall i | 0 <= i < |rows| :: c[i] == rows[i].category
  {
    seq(|rows|, i requires 0 <= i < |rows| => rows[i].category)
  }

  /** `fetchCategoriesFromDatabase`: `SELECT DISTINCT category FROM menu`. Each
      category value of the table, NULL included, appears exactly once; a missing
      table or column makes the query fail, and the error yields `[]`. */
  function FetchCategoriesFromDatabase(s: Store): (r: seq<Option<string>>)
    ensures NoDup(r)
    ensures s.menu.None? || !s.menu.value.hasCategory ==> r == []
    ensures s.menu.Some? && s.menu.value.hasCategory ==>
      forall c :: c in r <==> exists i | 0 <= i < |s.menu.value.rows| :: s.menu.value.rows[i].category == c
  {
    match s.menu
    case None => []
    case Some(t) =>
      if !t.hasCategory then []
      else
        var column := CategoryColumn(t.rows);
        assert forall c :: c in column <==> exists i | 0 <= i < |t.rows| :: t.rows[i].category == c by {
          assert forall i | 0 <= i < |t.rows| :: column[i] == t.rows[i].category;
        }
        Distinct(column)
  }

  /** Some row of `rows` holds category `c`. */
  predicate Holds(rows: seq<Row>, c: Option<string>) {
    exists i | 0 <= i < |rows| :: rows[i].category == c
  }

  /** Some item of `items` has category `c`. */
  predicate ItemHas(items: seq<MenuItem>, c: Option<string>) {
    exists item | item in items :: c == Some(item.category)
  }

  /** After a replace into a table with the column, the categories listed are
      exactly those of the items whose insert succeeded; nothing older survives. */
  lemma CategoriesAfterReplace(s: Store, items: seq<MenuItem>, accepts: MenuItem -> bool)
    requires s.menu.Some? && s.menu.value.hasCategory
    ensures forall c :: c in FetchCategoriesFromDatabase(InsertMenuData(s, items, accepts)) <==>
      ItemHas(Filter(items, accepts), c)
  {
    var kept := Filter(items, accepts);
    var rows := InsertMenuData(s, items, accepts).menu.value.rows;
    forall c
      ensures Holds(rows, c) <==> ItemHas(kept, c)
    {
      if Holds(rows, c) {
        var i :| 0 <= i < |rows| && rows[i].category == c;
        assert kept[i] in kept;
      }
      if ItemHas(kept, c) {
        var item :| item in kept && c == Some(item.category);
        var i :| 0 <= i < |kept| && kept[i] == item;
        assert rows[i].category == c;
      }
    }
  }

  /** `clearDatabase` before `insertMenuData` makes no difference: the replace
      empties the table itself. */
  lemma ReplaceSubsumesClear(s: Store, items: seq<MenuItem>, accepts: MenuItem -> bool)
    ensures InsertMenuData(ClearDatabase(s), items, accepts) == InsertMenuData(s, items, accepts)
    ensures FetchCategoriesFromDatabase(ClearDatabase(s)) == []
  {
  }

  /** Dropping the table and ensuring the schema again starts over: an empty table
      whose first insert gets id 1. */
  lemma DropRestartsIds(s: Store, item: MenuItem, accepts: MenuItem -> bool)
    requires accepts(item)
    ensures EnsureSchema(DropTable(s)) == Store(Some(Table(true, [], 0)))
    ensures InsertMenuData(EnsureSchema(DropTable(s)), [item], accepts).menu.value.rows == [RowOf(1, item)]
  {
    assert Filter([item], accepts) == [item];
  }

  /** `clearDatabase`, unlike dropping the table, keeps the id counter: the first
      insert after clearing a table that held rows gets an id above 1. */
  lemma ClearKeepsIds(s: Store, item: MenuItem, accepts: MenuItem -> bool)
    requires ValidStore(s) && s.menu.Some? && s.menu.value.hasCategory && s.menu.value.rows != []
    requires accepts(item)
    ensures InsertMenuData(ClearDatabase(s), [item], accepts).menu.value.rows == [RowOf(s.menu.value.lastId + 1, item)]
    ensures s.menu.value.lastId + 1 > 1
  {
    assert Filter([item], accepts) == [item];
    assert s.menu.value.rows[0].id <= s.menu.value.lastId;
  }
}
