/** How long rows live, in plain numbers: over whole runs, from the call that writes a row to a Get of it
    (internal/codegen/store.go, docs/ttl.md). */
module Lifetimes {
  import opened ByteStrings
  import opened Pebble
  import opened Schema
  import opened Serializer
  import opened TypedTable
  import Database
  import opened RowScan
  import opened Store
  import opened Where
  import opened Query
  import opened Runs

  /** The expiry a write stamps into its row: the clock plus the table's lifetime, as Go adds 64-bit
      integers; none in a table without a lifetime. */
  lemma WrittenExpiry(t: Table, stamp: int)
    ensures var e := Expiry(t, stamp);
      && (t.ttl == 0 ==> e == 0)
      && (t.ttl != 0 ==> -0x8000_0000_0000_0000 <= e < 0x8000_0000_0000_0000)
      && (t.ttl != 0 ==> (stamp + t.ttl - e) % 0x1_0000_0000_0000_0000 == 0)
      && (t.ttl != 0 && -0x8000_0000_0000_0000 <= stamp + t.ttl < 0x8000_0000_0000_0000 ==> e == stamp + t.ttl)
  {
  }

  /** A Get on the abstract table: the record of a present row whose expiry is not positive or not yet
      passed, and otherwise none; a passed row is gone afterwards, every other row stays. */
  lemma GetInNumbers(t: Table, rows: Rows, id: Val, now: Moment)
    requires t.WellFormed() && AllOk(t, rows) && ValOk(t.fields[t.primary].typ, id)
    ensures var pk := EncodePk(t.fields[t.primary].typ, id);
      Act(t, rows, DoGet(id), now).1
        == Fetched(if pk in rows && (t.ttl == 0 || rows[pk].expiresAt <= 0 || now.time <= rows[pk].expiresAt)
                   then Some(rows[pk].rec) else None)
    ensures var pk := EncodePk(t.fields[t.primary].typ, id);
      Act(t, rows, DoGet(id), now).0
        == if pk in rows && t.ttl != 0 && 0 < rows[pk].expiresAt < now.time && (IndexedFields(t) != [] || now.takes(pk))
           then rows - {pk} else rows
  {
    hide Table.WellFormed, AllOk;
  }

  /** A purge on the abstract table: exactly the rows with a passed, positive expiry go and are counted,
      in tables without index fields those whose deletion the queue takes. */
  lemma PurgeInNumbers(t: Table, rows: Rows, now: Moment)
    requires t.WellFormed() && AllOk(t, rows) && t.ttl != 0
    ensures var dead := set pk | pk in rows && 0 < rows[pk].expiresAt < now.time && (IndexedFields(t) != [] || now.takes(pk));
      Act(t, rows, DoPurge, now) == (rows - dead, Purged(|dead|))
  {
    hide Table.WellFormed, AllOk, Purgeable;
    PurgeableInNumbers(t, rows, now);
  }

  /** Another row holds the value of a unique field. */
  ghost predicate Held(t: Table, rows: Rows, rec: Record, pk: Bytes)
    requires t.WellFormed() && AllOk(t, rows) && t.RecordOk(rec)
  {
    exists p, i :: (
      && p in rows && p != pk && 0 <= i < |t.fields| && i != t.primary
      && t.fields[i].index == INDEX_UNIQUE && rows[p].rec[i] == rec[i])
  }

  lemma RefusedIff(t: Table, rows: Rows, rec: Record, now: Moment)
    requires t.WellFormed() && AllOk(t, rows) && t.RecordOk(rec)
    ensures var pk := PkOf(t, rec); Conflict(t, BeforeWrite(t, rows, pk, now), rec, pk) <==> Held(t, rows, rec, pk)
  {
    hide Table.WellFormed, RowOk, Expired;
    var pk := PkOf(t, rec);
    var rows1 := BeforeWrite(t, rows, pk, now);
    if Held(t, rows, rec, pk) {
      var p, i :| p in rows && p != pk && 0 <= i < |t.fields| && i != t.primary
                  && t.fields[i].index == INDEX_UNIQUE && rows[p].rec[i] == rec[i];
      assert p in rows1 && t.Unique(i) && rows1[p].rec[i] == rec[i];
    }
    if Conflict(t, rows1, rec, pk) {
      var p, i :| p in rows1 && p != pk && t.Unique(i) && rows1[p].rec[i] == rec[i];
      assert p in rows && rows[p].rec[i] == rec[i];
    }
  }

  /** A write on the abstract table: refused exactly when another row, expired or not, holds the value of
      one of its unique fields. Whatever the answer, no other row changes; if it succeeds the row is the
      record with its expiry, and if not the key's own row stays, unless it is dead. */
  lemma WriteInNumbers(t: Table, rows: Rows, rec: Record, stamp: int, now: Moment, create: bool)
    requires t.WellFormed() && AllOk(t, rows) && t.RecordOk(rec)
    ensures var pk := PkOf(t, rec);
      var (rows', response) := Act(t, rows, if create then DoCreate(rec, stamp) else DoUpdate(rec, stamp), now);
      && response == Done(if Held(t, rows, rec, pk) then Database.Fail(Database.ErrDuplicateKey) else Database.Ok(()))
      && (forall p :: p != pk ==> (p in rows' <==> p in rows) && (p in rows ==> rows'[p] == rows[p]))
      && (!Held(t, rows, rec, pk) ==> pk in rows' && rows'[pk].rec == rec)
      && (Held(t, rows, rec, pk) && pk in rows && !(t.ttl != 0 && 0 < rows[pk].expiresAt < now.time) ==> rows' == rows)
  {
    hide Table.WellFormed, Expiry, RowOk, Conflict, Held;
    RefusedIff(t, rows, rec, now);
  }

  // ---------------------------------------------------------------- from write to Get

  /** A call that leaves a row alone leaves it as it is or retires it. */
  lemma CallKeepsOrDrops(t: Table, rows: Rows, a: Action, now: Moment, pk: Bytes)
    requires t.WellFormed() && AllOk(t, rows) && ActionOk(t, a) && LeavesAlone(t, a, pk)
    ensures pk in Act(t, rows, a, now).0 ==> pk in rows && Act(t, rows, a, now).0[pk] == rows[pk]
  {
    hide Table.WellFormed, Table.RecordOk, Expired, Conflict, Promised, Returned, Retired, Visits, Visited;
  }

  lemma StepKeepsOrDrops(stores: seq<TableStore>, contents: seq<Rows>, calls: seq<Call>, k: nat, pk: Bytes, j: nat)
    requires ContentsOk(stores, contents) && CallsOk(stores, calls) && k < |stores| && j < |calls|
    requires calls[j].table == k ==> LeavesAlone(stores[k].t, calls[j].action, pk)
    ensures var rows, rows' := Before(stores, contents, calls, j)[k], Before(stores, contents, calls, j + 1)[k];
      pk in rows' ==> pk in rows && rows'[pk] == rows[pk]
  {
    hide Act, AbstractRun, ActionOk, LeavesAlone, Before;
    ResponseAt(stores, contents, calls, j);
    var c := calls[j];
    if c.table == k {
      CallKeepsOrDrops(stores[k].t, Before(stores, contents, calls, j)[k], c.action, c.now, pk);
    }
  }

  lemma {:induction false} RunKeepsOrDrops(stores: seq<TableStore>, contents: seq<Rows>, calls: seq<Call>, k: nat, pk: Bytes, i: nat, j: nat)
    requires ContentsOk(stores, contents) && CallsOk(stores, calls) && k < |stores| && i <= j <= |calls|
    requires forall m :: i <= m < j && calls[m].table == k ==> LeavesAlone(stores[k].t, calls[m].action, pk)
    ensures var rows, rows' := Before(stores, contents, calls, i)[k], Before(stores, contents, calls, j)[k];
      pk in rows' ==> pk in rows && rows'[pk] == rows[pk]
    decreases j - i
  {
    hide Act, AbstractRun, ActionOk, LeavesAlone, Before;
    if i < j {
      RunKeepsOrDrops(stores, contents, calls, k, pk, i, j - 1);
      StepKeepsOrDrops(stores, contents, calls, k, pk, j - 1);
    }
  }

  /** The row a successful write leaves behind. */
  lemma WrittenRow(stores: seq<TableStore>, contents: seq<Rows>, calls: seq<Call>, i: nat, rec: Record, stamp: int)
    requires ContentsOk(stores, contents) && CallsOk(stores, calls) && i < |calls|
    requires calls[i].action in [DoCreate(rec, stamp), DoUpdate(rec, stamp)]
    requires AbstractRun(stores, contents, calls).1[i] == Done(Database.Ok(()))
    ensures var k := calls[i].table;
      var rows := Before(stores, contents, calls, i + 1)[k];
      PkOf(stores[k].t, rec) in rows && rows[PkOf(stores[k].t, rec)] == Row(rec, Expiry(stores[k].t, stamp))
  {
    hide AbstractRun, Before, Expired, Conflict, Expiry;
    ResponseAt(stores, contents, calls, i);
  }

  /** The write, calls on this and other tables that write or delete no row with its key, and then a Get:
      without a lifetime the record is there at any time; with one it is there as long as no call on the
      table comes later than write clock plus lifetime, and is not there any more once the Get does. */
  lemma WrittenRowLives(stores: seq<TableStore>, contents: seq<Rows>, calls: seq<Call>, i: nat, j: nat, rec: Record, stamp: int)
    requires ContentsOk(stores, contents) && CallsOk(stores, calls) && i < j < |calls|
    requires calls[i].action in [DoCreate(rec, stamp), DoUpdate(rec, stamp)]
    requires AbstractRun(stores, contents, calls).1[i] == Done(Database.Ok(()))
    requires var k := calls[i].table;
      && calls[j].table == k && calls[j].action == DoGet(rec[stores[k].t.primary])
      && forall m :: i < m < j && calls[m].table == k ==> LeavesAlone(stores[k].t, calls[m].action, PkOf(stores[k].t, rec))
    ensures stores[calls[i].table].t.ttl == 0 ==> AbstractRun(stores, contents, calls).1[j] == Fetched(Some(rec))
    ensures var k, end := calls[i].table, stamp + stores[calls[i].table].t.ttl;
      stores[k].t.ttl != 0 && 0 < end < 0x8000_0000_0000_0000 ==>
        && ((forall m :: i < m <= j && calls[m].table == k ==> calls[m].now.time <= end) ==>
              AbstractRun(stores, contents, calls).1[j] == Fetched(Some(rec)))
        && (calls[j].now.time > end ==> AbstractRun(stores, contents, calls).1[j] == Fetched(None))
  {
    hide AbstractRun, Before, Act, Expiry, Undisturbed, LeavesAlone, PkOf, ContentsOk;
    var k := calls[i].table;
    var t := stores[k].t;
    var pk := PkOf(t, rec);
    WrittenRow(stores, contents, calls, i, rec, stamp);
    WrittenExpiry(t, stamp);
    RunKeepsOrDrops(stores, contents, calls, k, pk, i + 1, j);
    ResponseAt(stores, contents, calls, j);
    GetOf(stores, contents, calls, j, rec);
    if t.ttl == 0 || (0 < stamp + t.ttl < 0x8000_0000_0000_0000
                      && forall m :: i < m <= j && calls[m].table == k ==> calls[m].now.time <= stamp + t.ttl) {
      StaysUndisturbed(stores, contents, calls, k, rec, stamp, i + 1, j);
      RunKeepsRow(stores, contents, calls, k, pk, i + 1, j);
    }
  }

  lemma GetOf(stores: seq<TableStore>, contents: seq<Rows>, calls: seq<Call>, j: nat, rec: Record)
    requires ContentsOk(stores, contents) && CallsOk(stores, calls) && j < |calls|
    requires stores[calls[j].table].t.RecordOk(rec) && calls[j].action == DoGet(rec[stores[calls[j].table].t.primary])
    ensures var k := calls[j].table;
      var rows := Before(stores, contents, calls, j)[k];
      var pk := PkOf(stores[k].t, rec);
      AbstractRun(stores, contents, calls).1[j]
        == Fetched(if pk in rows && (stores[k].t.ttl == 0 || rows[pk].expiresAt <= 0 || calls[j].now.time <= rows[pk].expiresAt)
                   then Some(rows[pk].rec) else None)
  {
    hide AbstractRun, Before, Act;
    ResponseAt(stores, contents, calls, j);
    GetInNumbers(stores[calls[j].table].t, Before(stores, contents, calls, j)[calls[j].table], calls[j].action.id, calls[j].now);
  }

  lemma StaysUndisturbed(stores: seq<TableStore>, contents: seq<Rows>, calls: seq<Call>, k: nat, rec: Record, stamp: int, i: nat, j: nat)
    requires CallsOk(stores, calls) && k < |stores| && i <= j <= |calls| && stores[k].t.WellFormed() && stores[k].t.RecordOk(rec)
    requires forall m :: i <= m < j && calls[m].table == k ==> LeavesAlone(stores[k].t, calls[m].action, PkOf(stores[k].t, rec))
    requires var t := stores[k].t;
      || t.ttl == 0
      || (0 < stamp + t.ttl < 0x8000_0000_0000_0000
          && forall m :: i <= m < j && calls[m].table == k ==> calls[m].now.time <= stamp + t.ttl)
    ensures Undisturbed(stores, calls, k, PkOf(stores[k].t, rec), Row(rec, Expiry(stores[k].t, stamp)), i, j)
  {
    hide LeavesAlone, Expiry, PkOf;
    WrittenExpiry(stores[k].t, stamp);
  }
}
