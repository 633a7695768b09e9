/** `initializeDatabase`: ensure the schema, fetch the remote menu, and replace
    the cached rows only when the fetch produced a non-empty menu. Every failure
    is caught and logged, so the cache left behind is whatever the schema steps
    produced from the previous one. */
module MenuSync {
  import opened Seqs
  import opened MenuStore
  import opened RemoteMenu

  /** How the start-up sync ended. */
  datatype SyncOutcome = Synced | EmptyMenu | SyncFailed(error: FetchError)

  /** The store after start-up, with how the sync ended. */
  datatype InitResult = InitResult(store: Store, outcome: SyncOutcome)

  /** The AUTOINCREMENT high-water mark of the cache before start-up: zero when
      the table does not exist yet. */
  function HighWater(s: Store): nat {
    if s.menu.Some? then s.menu.value.lastId else 0
  }

  /** The start-up sync. `response` is what the request produced, `parseFloat`
      reads the price text, and `accepts` says which inserts SQLite accepts. */
  function InitializeDatabase(s: Store, response: Response, parseFloat: string -> Price, accepts: MenuItem -> bool): (r: InitResult)
    ensures r.store.menu.Some? && r.store.menu.value.hasCategory
    ensures r.outcome == SyncFailed(NetworkError) <==> response.Unreachable?
    ensures r.outcome == SyncFailed(InvalidMenuFormat) <==> response.Payload? && !response.menu.MenuArray?
    ensures r.outcome.Synced? <==> response.Payload? && response.menu.MenuArray? && |response.menu.elements| > 0
    ensures !r.outcome.Synced? && s.menu.Some? ==>
      r.store.menu.value.rows == s.menu.value.rows && r.store.menu.value.lastId == s.menu.value.lastId
    ensures !r.outcome.Synced? && s.menu.None? ==> r.store.menu.value.rows == []
    ensures r.outcome.Synced? ==>
      StoredFrom(r.store.menu.value.rows, Filter(FetchMenuFromServer(response, parseFloat).value, accepts), HighWater(s))
    ensures ValidStore(s) ==> ValidStore(r.store)
  {
    var schema := EnsureSchema(s);
    match FetchMenuFromServer(response, parseFloat)
    case Failure(e) => InitResult(schema, SyncFailed(e))
    case Success(items) =>
      if |items| == 0 then InitResult(schema, EmptyMenu)
      else InitResult(InsertMenuData(schema, items, accepts), Synced)
  }

  /** A second start-up with the same server payload replaces the cache with the
      items whose inserts succeed this time (`accepts2`), in payload order, under
      ids after the first run's high-water mark; the first run used exactly one
      id per item it stored. */
  lemma ResyncStoresAccepted(s: Store, response: Response, parseFloat: string -> Price,
                             accepts: MenuItem -> bool, accepts2: MenuItem -> bool)
    requires InitializeDatabase(s, response, parseFloat, accepts).outcome.Synced?
    ensures var first := InitializeDatabase(s, response, parseFloat, accepts);
      var second := InitializeDatabase(first.store, response, parseFloat, accepts2);
      var items := FetchMenuFromServer(response, parseFloat).value;
      && second.outcome.Synced?
      && StoredFrom(second.store.menu.value.rows, Filter(items, accepts2), HighWater(first.store))
      && HighWater(first.store) == HighWater(s) + |Filter(items, accepts)|
  {
    InsertIntoCleared(EnsureSchema(s).menu.value, FetchMenuFromServer(response, parseFloat).value, accepts);
  }

  /** Starting again with the same server payload stores the same menu again, in
      the same order; only the ids move on past the previous high-water mark.
      This needs the same inserts to succeed both times: insert failures are
      modelled as a fixed function of the item. */
  lemma ResyncStoresSameMenu(s: Store, response: Response, parseFloat: string -> Price, accepts: MenuItem -> bool)
    requires InitializeDatabase(s, response, parseFloat, accepts).outcome.Synced?
    ensures var first := InitializeDatabase(s, response, parseFloat, accepts);
      var second := InitializeDatabase(first.store, response, parseFloat, accepts);
      && second.outcome.Synced?
      && |second.store.menu.value.rows| == |first.store.menu.value.rows|
      && forall i | 0 <= i < |first.store.menu.value.rows| ::
           second.store.menu.value.rows[i] == first.store.menu.value.rows[i].(id := second.store.menu.value.rows[i].id)
           && second.store.menu.value.rows[i].id > first.store.menu.value.rows[i].id
  {
    var first := InitializeDatabase(s, response, parseFloat, accepts);
    var kept := Filter(FetchMenuFromServer(response, parseFloat).value, accepts);
    assert HighWater(first.store) >= HighWater(s) + |kept| by {
      InsertIntoCleared(EnsureSchema(s).menu.value, FetchMenuFromServer(response, parseFloat).value, accepts);
    }
  }
}
