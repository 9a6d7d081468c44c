/** Whole runs: any sequence of calls on any number of tables that share one handle behaves like the
    same sequence on independent abstract tables. */
module Runs {
  import opened ByteStrings
  import opened Pebble
  import opened Schema
  import opened Serializer
  import opened TypedTable
  import opened Database
  import opened RowScan
  import opened Store
  import opened Where
  import opened Query

  datatype Action =
    | DoCreate(rec: Record, stamp: int)
    | DoUpdate(rec: Record, stamp: int)
    | DoDelete(id: Val)
    | DoGet(id: Val)
    | DoQuery(conds: seq<Cond>, limit: int, after: Option<Val>)
    | DoPurge

  datatype Response =
    | Done(w: Database.Result<()>)
    | Fetched(row: Option<Record>)
    | Listing(records: seq<Record>)
    | Purged(count: nat)

  function CursorOf(t: Table, after: Option<Val>): Option<Bytes>
    requires t.WellFormed() && (after.Some? ==> ValOk(t.fields[t.primary].typ, after.value))
  {
    if after.Some? then Some(EncodePk(t.fields[t.primary].typ, after.value)) else None
  }

  predicate ActionOk(t: Table, a: Action)
    requires t.WellFormed()
  {
    match a
    case DoCreate(rec, _) => t.RecordOk(rec)
    case DoUpdate(rec, _) => t.RecordOk(rec)
    case DoDelete(id) => ValOk(t.fields[t.primary].typ, id)
    case DoGet(id) => ValOk(t.fields[t.primary].typ, id)
    case DoQuery(conds, limit, after) =>
      && (after.Some? ==> ValOk(t.fields[t.primary].typ, after.value))
      && CondsOk(t, conds)
    case DoPurge => t.HasTTL()
  }

  /** One call on an abstract table: a map from primary keys to rows, and nothing else. A query whose
      plan is faithful lists the rows asked for; the others list what their plan finds. */
  ghost function Act(t: Table, rows: Rows, a: Action, now: Moment): (r: (Rows, Response))
    requires t.WellFormed() && AllOk(t, rows) && ActionOk(t, a)
    ensures AllOk(t, r.0)
  {
    match a
    case DoCreate(rec, stamp) =>
      UpsertOk(t, rows, rec, stamp, now);
      var (rows', w) := Upsert(t, rows, rec, stamp, now);
      (rows', Done(w))
    case DoUpdate(rec, stamp) =>
      UpsertOk(t, rows, rec, stamp, now);
      var (rows', w) := Upsert(t, rows, rec, stamp, now);
      (rows', Done(w))
    case DoDelete(id) => (rows - {EncodePk(t.fields[t.primary].typ, id)}, Done(Database.Ok(())))
    case DoGet(id) =>
      var pk := EncodePk(t.fields[t.primary].typ, id);
      var rows' := Touch(t, rows, pk, now);
      (rows', Fetched(if pk in rows && !Expired(t, rows[pk], now) then Some(rows[pk].rec) else None))
    case DoQuery(conds, limit, after) =>
      var req := Request(conds, limit, CursorOf(t, after));
      (AfterQuery(t, rows, req, now),
       Listing(if PlanFaithful(t, req) then Promised(t, rows, req, now) else Returned(t, rows, req, now)))
    case DoPurge =>
      var dead := Purgeable(t, rows, now);
      (rows - dead, Purged(|dead|))
  }

  method RunQuery(store: TableStore, conds: seq<Cond>, limit: int, after: Option<Val>, now: Moment, ghost rows: Rows)
    returns (records: seq<Record>)
    requires store.db.Valid() && !store.db.closed && Stored(store.z, store.t, store.db.store, rows)
    requires ActionOk(store.t, DoQuery(conds, limit, after))
    modifies store.db.Repr
    ensures store.db.Valid() && fresh(store.db.Repr - old(store.db.Repr)) && KeepsOthers(store.db, store.t)
    ensures Act(store.t, rows, DoQuery(conds, limit, after), now).1 == Listing(records)
    ensures Stored(store.z, store.t, store.db.store, Act(store.t, rows, DoQuery(conds, limit, after), now).0)
  {
    hide Stored, DB.Valid, Promised, Returned, AfterQuery, Table.WellFormed;
    var q := BuildQuery(store, conds, limit, after);
    records := q.Exec(now, rows, q.Asked());
  }

  method BuildQuery(store: TableStore, conds: seq<Cond>, limit: int, after: Option<Val>) returns (q: QueryBuilder)
    requires store.t.WellFormed() && CondsOk(store.t, conds)
    requires after.Some? ==> ValOk(store.t.fields[store.t.primary].typ, after.value)
    ensures fresh(q) && q.Built() && q.db == store.db && q.t == store.t && q.z == store.z
    ensures q.Asked() == Request(conds, limit, CursorOf(store.t, after))
  {
    q := new QueryBuilder(store.db, store.t, store.z);
    for i := 0 to |conds|
      invariant q.Built() && q.Asked() == Request(conds[..i], 0, None)
    {
      assert conds[..i + 1] == conds[..i] + [conds[i]];
      q.AddWhere(conds[i].field, conds[i].op, conds[i].arg);
    }
    assert conds[..|conds|] == conds;
    q.Limit(limit);
    if after.Some? { q.After(after.value); }
  }

  method Perform(store: TableStore, a: Action, now: Moment, ghost rows: Rows) returns (response: Response)
    requires store.db.Valid() && !store.db.closed && Stored(store.z, store.t, store.db.store, rows)
    requires ActionOk(store.t, a)
    modifies store.db.Repr
    ensures store.db.Valid() && fresh(store.db.Repr - old(store.db.Repr)) && KeepsOthers(store.db, store.t)
    ensures Stored(store.z, store.t, store.db.store, Act(store.t, rows, a, now).0)
    ensures response == Act(store.t, rows, a, now).1
  {
    hide Stored, DB.Valid, Upsert, AfterQuery, Promised, Returned, Purgeable;
    match a
    case DoCreate(rec, stamp) => var w := store.Create(rec, stamp, now, rows); response := Done(w);
    case DoUpdate(rec, stamp) => var w := store.Update(rec, stamp, now, rows); response := Done(w);
    case DoDelete(id) => var w := store.Delete(id, now, rows); response := Done(w);
    case DoGet(id) => var r := store.Get(id, now, rows); response := Fetched(r.value);
    case DoQuery(conds, limit, after) =>
      var records := RunQuery(store, conds, limit, after, now, rows);
      response := Listing(records);
    case DoPurge => var count := store.PurgeExpired(now, rows); response := Purged(count);
  }

  // ---------------------------------------------------------------- many tables, one handle

  datatype Call = Call(table: nat, action: Action, now: Moment)

  /** The tables of one database: hashes differ, as the generator makes sure. */
  predicate SharedHandle(stores: seq<TableStore>, db: DB) {
    && (forall n :: 0 <= n < |stores| ==> stores[n].db == db)
    && (forall m, n :: 0 <= m < n < |stores| ==> stores[m].t.hash != stores[n].t.hash)
  }

  /** The bytes in the engine are those of all these tables. */
  ghost predicate AllStored(stores: seq<TableStore>, kv: KV, contents: seq<Rows>) {
    |contents| == |stores| && forall n :: 0 <= n < |stores| ==> Stored(stores[n].z, stores[n].t, kv, contents[n])
  }

  ghost predicate CallsOk(stores: seq<TableStore>, calls: seq<Call>) {
    forall j :: 0 <= j < |calls| ==>
      && calls[j].table < |stores|
      && stores[calls[j].table].t.WellFormed() && ActionOk(stores[calls[j].table].t, calls[j].action)
  }

  ghost predicate ContentsOk(stores: seq<TableStore>, contents: seq<Rows>) {
    |contents| == |stores| && forall n :: 0 <= n < |stores| ==> stores[n].t.WellFormed() && AllOk(stores[n].t, contents[n])
  }

  /** The same calls on independent abstract tables. */
  ghost function AbstractRun(stores: seq<TableStore>, contents: seq<Rows>, calls: seq<Call>): (r: (seq<Rows>, seq<Response>))
    requires ContentsOk(stores, contents) && CallsOk(stores, calls)
    ensures ContentsOk(stores, r.0) && |r.1| == |calls|
    decreases |calls|
  {
    if |calls| == 0 then (contents, [])
    else
      var c := calls[|calls| - 1];
      var (before, responses) := AbstractRun(stores, contents, calls[..|calls| - 1]);
      var (rows, response) := Act(stores[c.table].t, before[c.table], c.action, c.now);
      (before[c.table := rows], responses + [response])
  }

  /** A new database holds every table, empty: where runs begin. */
  lemma NewDatabase(stores: seq<TableStore>)
    requires forall n :: 0 <= n < |stores| ==> stores[n].t.WellFormed() && stores[n].z.Lawful()
    ensures AllStored(stores, map[], seq(|stores|, _ => map[]))
    ensures ContentsOk(stores, seq(|stores|, _ => map[]))
  {
    hide Table.WellFormed, Zstd.Lawful;
  }

  /** A step on one table leaves the bytes of all others alone. */
  lemma OneTableChanges(stores: seq<TableStore>, db: DB, before: KV, after: KV, contents: seq<Rows>, n: nat, rows: Rows)
    requires SharedHandle(stores, db) && AllStored(stores, before, contents) && n < |stores|
    requires SameForeign(stores[n].t, before, after) && Stored(stores[n].z, stores[n].t, after, rows)
    ensures AllStored(stores, after, contents[n := rows])
  {
    hide Represents, SameForeign, Table.WellFormed;
    forall m | 0 <= m < |stores| && m != n ensures Stored(stores[m].z, stores[m].t, after, contents[m]) {
      assert Stored(stores[m].z, stores[m].t, before, contents[m]);
      OtherTablesUnaffected(stores[m].z, stores[n].t, stores[m].t, before, after, contents[m]);
    }
  }

  // ---------------------------------------------------------------- what a run remembers

  /** The tables just before call j. */
  ghost function Before(stores: seq<TableStore>, contents: seq<Rows>, calls: seq<Call>, j: nat): (r: seq<Rows>)
    requires ContentsOk(stores, contents) && CallsOk(stores, calls) && j <= |calls|
    ensures ContentsOk(stores, r)
  {
    AbstractRun(stores, contents, calls[..j]).0
  }

  /** Response j is what call j answers on the tables it finds, and what it leaves is what the next call
      finds. */
  lemma {:induction false} ResponseAt(stores: seq<TableStore>, contents: seq<Rows>, calls: seq<Call>, j: nat)
    requires ContentsOk(stores, contents) && CallsOk(stores, calls) && j < |calls|
    ensures var c := calls[j];
      var found := Before(stores, contents, calls, j);
      var (rows, response) := Act(stores[c.table].t, found[c.table], c.action, c.now);
      && AbstractRun(stores, contents, calls).1[j] == response
      && Before(stores, contents, calls, j + 1) == found[c.table := rows]
    decreases |calls|
  {
    hide Act, ContentsOk, ActionOk;
    var n := |calls| - 1;
    var front := calls[..n];
    assert forall m :: 0 <= m < n ==> front[m] == calls[m];
    assert calls[..j + 1][..j] == calls[..j];
    if j < n {
      ResponseAt(stores, contents, front, j);
      assert front[..j] == calls[..j] && front[..j + 1] == calls[..j + 1];
    } else {
      assert calls[..j + 1] == calls;
    }
  }

  /** The call writes or deletes no row with this key. */
  predicate LeavesAlone(t: Table, a: Action, pk: Bytes)
    requires t.WellFormed() && ActionOk(t, a)
  {
    match a
    case DoCreate(rec, _) => PkOf(t, rec) != pk
    case DoUpdate(rec, _) => PkOf(t, rec) != pk
    case DoDelete(id) => EncodePk(t.fields[t.primary].typ, id) != pk
    case _ => true
  }

  /** A row that has not expired survives every call that leaves it alone, queries and purges
      included. */
  lemma CallKeepsRow(t: Table, rows: Rows, a: Action, now: Moment, pk: Bytes)
    requires t.WellFormed() && AllOk(t, rows) && ActionOk(t, a)
    requires pk in rows && LeavesAlone(t, a, pk) && !Expired(t, rows[pk], now)
    ensures pk in Act(t, rows, a, now).0 && Act(t, rows, a, now).0[pk] == rows[pk]
  {
    hide Table.WellFormed, Table.RecordOk, Expired, Conflict, Promised, Returned, Selected;
    match a
    case DoQuery(conds, limit, after) =>
      var req := Request(conds, limit, CursorOf(t, after));
      var pks := Visited(t, rows, req);
      var n := Visits(Selected(t, conds, rows, now, FirstCond(t, conds)), pks, limit, 0);
      RetiredAmong(t, rows, pks, n, now);
    case _ =>
  }

  /** The calls from i on leave row pk of table k alone, and it outlives them. */
  ghost predicate Undisturbed(stores: seq<TableStore>, calls: seq<Call>, k: nat, pk: Bytes, row: Row, i: nat, j: nat)
    requires CallsOk(stores, calls) && k < |stores| && j <= |calls|
  {
    forall m :: i <= m < j && calls[m].table == k ==>
      LeavesAlone(stores[k].t, calls[m].action, pk) && !Expired(stores[k].t, row, calls[m].now)
  }

  lemma {:induction false} RunKeepsRow(stores: seq<TableStore>, contents: seq<Rows>, calls: seq<Call>, k: nat, pk: Bytes, i: nat, j: nat)
    requires ContentsOk(stores, contents) && CallsOk(stores, calls) && k < |stores| && i <= j <= |calls|
    requires pk in Before(stores, contents, calls, i)[k]
    requires Undisturbed(stores, calls, k, pk, Before(stores, contents, calls, i)[k][pk], i, j)
    ensures pk in Before(stores, contents, calls, j)[k]
    ensures Before(stores, contents, calls, j)[k][pk] == Before(stores, contents, calls, i)[k][pk]
    decreases j - i
  {
    hide Act, AbstractRun, ActionOk, LeavesAlone, Before;
    if i < j {
      RunKeepsRow(stores, contents, calls, k, pk, i, j - 1);
      ResponseAt(stores, contents, calls, j - 1);
      var c := calls[j - 1];
      if c.table == k {
        CallKeepsRow(stores[k].t, Before(stores, contents, calls, j - 1)[k], c.action, c.now, pk);
      }
    }
  }

  /** What a run wrote it reads back: after a Create or Update that succeeded, and any calls on this and
      other tables that leave the row alone, a Get before the expiry returns the record. */
  lemma ReadYourWrite(stores: seq<TableStore>, contents: seq<Rows>, calls: seq<Call>, i: nat, j: nat, rec: Record, stamp: int)
    requires ContentsOk(stores, contents) && CallsOk(stores, calls) && i < j < |calls|
    requires calls[i].action in [DoCreate(rec, stamp), DoUpdate(rec, stamp)]
    requires AbstractRun(stores, contents, calls).1[i] == Done(Database.Ok(()))
    requires var k := calls[i].table;
      && calls[j].table == k && calls[j].action == DoGet(rec[stores[k].t.primary])
      && Undisturbed(stores, calls, k, PkOf(stores[k].t, rec), Row(rec, Expiry(stores[k].t, stamp)), i + 1, j + 1)
    ensures AbstractRun(stores, contents, calls).1[j] == Fetched(Some(rec))
  {
    hide AbstractRun, Before, Expired, Conflict, Expiry;
    var k := calls[i].table;
    ResponseAt(stores, contents, calls, i);
    RunKeepsRow(stores, contents, calls, k, PkOf(stores[k].t, rec), i + 1, j);
    ResponseAt(stores, contents, calls, j);
  }

  /** Refinement: after any sequence of calls the engine holds exactly the tables of the abstract run,
      and every call has answered what the abstract run answers. */
  method Replay(db: DB, stores: seq<TableStore>, calls: seq<Call>, ghost contents: seq<Rows>)
    returns (responses: seq<Response>, ghost final: seq<Rows>)
    requires db.Valid() && !db.closed && SharedHandle(stores, db)
    requires AllStored(stores, db.store, contents) && ContentsOk(stores, contents) && CallsOk(stores, calls)
    modifies db.Repr
    ensures db.Valid() && !db.closed
    ensures (final, responses) == AbstractRun(stores, contents, calls) && AllStored(stores, db.store, final)
  {
    hide Stored, DB.Valid, Act, ActionOk, SameForeign, Table.WellFormed, AllOk, ContentsOk;
    responses, final := [], contents;
    for i := 0 to |calls|
      invariant db.Valid() && !db.closed && fresh(db.Repr - old(db.Repr))
      invariant AllStored(stores, db.store, final)
      invariant (final, responses) == AbstractRun(stores, contents, calls[..i])
    {
      var c := calls[i];
      assert calls[..i + 1][..i] == calls[..i];
      ghost var before := db.store;
      ghost var rows := Act(stores[c.table].t, final[c.table], c.action, c.now).0;
      var response := Perform(stores[c.table], c.action, c.now, final[c.table]);
      OneTableChanges(stores, db, before, db.store, final, c.table, rows);
      responses, final := responses + [response], final[c.table := rows];
    }
    assert calls[..|calls|] == calls;
  }
}
