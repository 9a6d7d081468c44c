/** The generated typed store (internal/codegen/store.go, internal/testmodels/User_sqlitex.go) over
    the DB handle. Each method takes the abstract contents of the table as a ghost argument and says
    what they are afterwards. */
module Store {
  import opened ByteStrings
  import opened Encoding
  import opened Pebble
  import opened Schema
  import opened Serializer
  import opened TypedTable
  import opened TableScan
  import opened Database
  import opened RowScan

  /** Go's int64 addition. */
  function Wrap64(x: int): (r: int)
    ensures Int64.InRange(r)
    ensures Int64.InRange(x) ==> r == x
    ensures (x - r) % TWO64 == 0
  {
    Int64.FromBits(x % TWO64)
  }

  /** The expiry stamped into a row written at time `stamp`. */
  function Expiry(t: Table, stamp: int): int {
    if t.HasTTL() then Wrap64(stamp + t.ttl) else 0
  }

  /** Create and Update on the abstract table: where there are index fields the own row is read first,
      which retires it when it has expired; then either another row holds one of the unique values and nothing else happens,
      or the row is written. */
  ghost function Upsert(t: Table, rows: Rows, rec: Record, stamp: int, now: Moment): (Rows, Database.Result<()>)
    requires t.WellFormed() && AllOk(t, rows) && t.RecordOk(rec)
  {
    var pk := PkOf(t, rec);
    var rows1 := BeforeWrite(t, rows, pk, now);
    if Conflict(t, rows1, rec, pk) then (rows1, Fail(ErrDuplicateKey))
    else (rows1[pk := Row(rec, Expiry(t, stamp))], Database.Ok(()))
  }

  lemma NewRowOk(t: Table, rec: Record, stamp: int)
    requires t.WellFormed() && t.RecordOk(rec)
    ensures RowOk(t, PkOf(t, rec), Row(rec, Expiry(t, stamp)))
  {
  }

  lemma UpsertOk(t: Table, rows: Rows, rec: Record, stamp: int, now: Moment)
    requires t.WellFormed() && AllOk(t, rows) && t.RecordOk(rec)
    ensures AllOk(t, Upsert(t, rows, rec, stamp, now).0)
  {
  }

  /** A row of another key that holds one of the unique values blocks the write even when it has
      expired; once it has been read it no longer does. */
  lemma ExpiredRowBlocks(t: Table, rows: Rows, rec: Record, stamp: int, now: Moment, p: Bytes, i: int)
    requires t.WellFormed() && AllOk(t, rows) && t.RecordOk(rec)
    requires p in rows && p != PkOf(t, rec) && t.Unique(i) && rows[p].rec[i] == rec[i] && Expired(t, rows[p], now)
    requires forall q, j :: q in rows && q != p && q != PkOf(t, rec) && t.Unique(j) ==> rows[q].rec[j] != rec[j]
    ensures Upsert(t, rows, rec, stamp, now).1 == Fail(ErrDuplicateKey)
    ensures AllOk(t, Touch(t, rows, p, now)) && Upsert(t, Touch(t, rows, p, now), rec, stamp, now).1 == Database.Ok(())
  {
    hide Table.WellFormed, RowOk;
    var pk := PkOf(t, rec);
    var rows1 := Touch(t, rows, pk, now);
    assert p in rows1;
  }

  /** Reading back an exactly represented row. */
  lemma StoredRow(z: Zstd, t: Table, kv: KV, rows: Rows, pk: Bytes)
    requires t.WellFormed() && z.Lawful() && Represents(z, t, kv, rows)
    ensures match Lookup(kv, DataKey(t.hash, pk))
      case None => pk !in rows
      case Some(value) => pk in rows && value == Image(z, t, rows[pk]) && Decode(z, t, value) == Parsed(rows[pk])
  {
    hide Image, Decode, IndexExact;
    var k := DataKey(t.hash, pk);
    assert DataPrefix(t.hash) <= k && k[9..] == pk;
    if pk in rows { RowRoundTrip(z, t, rows[pk]); }
  }

  lemma AddsSplit(t: Table, rec: Record, pk: Bytes, head: seq<Op>)
    requires t.WellFormed() && t.RecordOk(rec)
    ensures head + AddOps(t, UniqueFields(t), |UniqueFields(t)|, rec, pk)
                 + AddOps(t, NormalFields(t), |NormalFields(t)|, rec, pk)
         == head + AddAll(t, rec, pk)
  {
  }

  method AppendAdds(t: Table, ops: seq<Op>, fs: seq<nat>, rec: Record, pk: Bytes) returns (out: seq<Op>)
    requires t.WellFormed() && t.RecordOk(rec) && forall i :: i in fs ==> t.Indexed(i)
    ensures out == ops + AddOps(t, fs, |fs|, rec, pk)
    ensures forall op :: op in out ==> op in ops || TablePrefix(t.hash) <= op.key
  {
    hide EntryKey;
    out := ops;
    for i := 0 to |fs|
      invariant out == ops + AddOps(t, fs, i, rec, pk)
      invariant forall op :: op in out ==> op in ops || TablePrefix(t.hash) <= op.key
    {
      out := out + [Put(EntryKey(t, fs[i], rec, pk), pk)];
    }
  }

  class TableStore {
    const db: DB
    const t: Table
    const z: Zstd

    constructor (db: DB, t: Table, z: Zstd)
      ensures this.db == db && this.t == t && this.z == z
    {
      this.db, this.t, this.z := db, t, z;
    }

    /** Get: the row, unless it is absent or has expired; an expired row is retired on the spot, unless
        the queue refuses. */
    method Get(id: Val, now: Moment, ghost rows: Rows) returns (r: Database.Result<Option<Record>>)
      requires db.Valid() && Stored(z, t, db.store, rows) && ValOk(t.fields[t.primary].typ, id)
      modifies db.Repr
      ensures db.Valid() && fresh(db.Repr - old(db.Repr)) && KeepsOthers(db, t)
      ensures db.closed ==> r == Fail(ErrDBClosed) && Stored(z, t, db.store, rows) && db.store == old(db.store)
      ensures var pk := EncodePk(t.fields[t.primary].typ, id);
        var rows1 := Touch(t, rows, pk, now);
        !db.closed ==>
          && Stored(z, t, db.store, rows1)
          && (rows1 == rows ==> db.store == old(db.store))
          && r == Database.Ok(if pk in rows && !Expired(t, rows[pk], now) then Some(rows[pk].rec) else None)
      ensures var pk := EncodePk(t.fields[t.primary].typ, id);
        !db.closed ==>
          r == Database.Ok(if pk in rows && (t.ttl == 0 || rows[pk].expiresAt <= 0 || now.time <= rows[pk].expiresAt)
                           then Some(rows[pk].rec) else None)
      ensures var pk := EncodePk(t.fields[t.primary].typ, id);
        !db.closed ==> Stored(z, t, db.store,
          if pk in rows && t.ttl != 0 && 0 < rows[pk].expiresAt < now.time && (IndexedFields(t) != [] || now.takes(pk))
          then rows - {pk} else rows)
    {
      hide Represents, Image, Decode;
      var pkBytes := EncodePk(t.fields[t.primary].typ, id);
      var key := DataKey(t.hash, pkBytes);
      StoredRow(z, t, db.store, rows, pkBytes);
      var value := db.Get(key, now.time);
      if value.Fail? { return Fail(value.error); }
      if value.value.None? { return Database.Ok(None); }
      var parsed := Deserialize(z, t, value.value.value);
      var Row(m, expiresAt) := parsed.value;
      if t.HasTTL() && expiresAt > 0 && now.time > expiresAt {
        var _ := DeleteWithIndexes(db, z, t, key, m, now, rows);
        return Database.Ok(None);
      }
      return Database.Ok(Some(m));
    }

    /** The conflict check of one unique field: does another row hold the value? */
    method HeldByOther(i: nat, rec: Record, pk: Bytes, now: Moment, ghost rows: Rows) returns (r: Database.Result<bool>)
      requires db.Valid() && Stored(z, t, db.store, rows) && t.RecordOk(rec) && t.Unique(i)
      modifies db.Repr
      ensures db.Valid() && fresh(db.Repr - old(db.Repr))
      ensures Stored(z, t, db.store, rows)
      ensures db.store == old(db.store) && db.closed == old(db.closed)
      ensures db.closed ==> r == Fail(ErrDBClosed)
      ensures !db.closed ==> r.Ok? && (r.value <==> exists p :: p in rows && p != pk && rows[p].rec[i] == rec[i])
    {
      hide Represents, EntryKey;
      var ukey := EntryKey(t, i, rec, pk);
      UniqueLookup(z, t, db.store, rows, i, rec, pk);
      var existing := db.Get(ukey, now.time);
      if existing.Fail? { return Fail(existing.error); }
      ghost var held := Lookup(db.store, ukey);
      forall p | p in rows && p != pk && rows[p].rec[i] == rec[i] ensures held == Some(p) {
        UniquenessHolds(z, t, db.store, rows, i, p, held.value);
      }
      return Database.Ok(existing.value.Some? && existing.value.value != pk);
    }

    method CheckUnique(rec: Record, pk: Bytes, now: Moment, ghost rows: Rows) returns (r: Database.Result<()>)
      requires db.Valid() && Stored(z, t, db.store, rows) && t.RecordOk(rec)
      modifies db.Repr
      ensures db.Valid() && fresh(db.Repr - old(db.Repr))
      ensures Stored(z, t, db.store, rows)
      ensures db.store == old(db.store) && db.closed == old(db.closed)
      ensures db.closed && UniqueFields(t) != [] ==> r == Fail(ErrDBClosed)
      ensures db.closed && UniqueFields(t) == [] ==> r == Database.Ok(())
      ensures !db.closed ==> r == if Conflict(t, rows, rec, pk) then Fail(ErrDuplicateKey) else Database.Ok(())
    {
      hide DB.Valid, DB.Framed, DB.Coherent, Stored, Represents, UniqueFields, Table.WellFormed, ValOk;
      var us := UniqueFields(t);
      assert forall m :: 0 <= m < |us| ==> t.Unique(us[m]) by {
        assert forall m :: 0 <= m < |us| ==> us[m] in us;
      }
      for j := 0 to |us|
        invariant db.Valid() && Stored(z, t, db.store, rows) && fresh(db.Repr - old(db.Repr))
        invariant db.store == old(db.store) && db.closed == old(db.closed)
        invariant db.closed ==> j == 0
        invariant forall m, p :: 0 <= m < j && p in rows && p != pk ==> rows[p].rec[us[m]] != rec[us[m]]
      {
        var held := HeldByOther(us[j], rec, pk, now, rows);
        if held.Fail? { return Fail(held.error); }
        if held.value {
          return Fail(ErrDuplicateKey);
        }
      }
      assert forall i :: t.Unique(i) ==> i in us;
      assert forall i :: i in us ==> exists m :: 0 <= m < |us| && us[m] == i;
      return Database.Ok(());
    }

    /** The batch begun by every write: one operation on the data row, then the deletes of whatever
        the row under this key owns now. The old row is only read when there are index fields. */
    method WithOldDrops(first: Op, id: Val, now: Moment, ghost rows: Rows) returns (ops: seq<Op>)
      requires db.Valid() && Stored(z, t, db.store, rows) && ValOk(t.fields[t.primary].typ, id)
      requires DataPrefix(t.hash) <= first.key
      modifies db.Repr
      ensures db.Valid() && fresh(db.Repr - old(db.Repr)) && KeepsOthers(db, t)
      ensures forall op :: op in ops ==> DataPrefix(t.hash) <= op.key || TablePrefix(t.hash) <= op.key
      ensures db.closed ==> Stored(z, t, db.store, rows) && db.store == old(db.store)
      ensures var pk := EncodePk(t.fields[t.primary].typ, id);
        var rows1 := BeforeWrite(t, rows, pk, now);
        !db.closed ==>
          && Stored(z, t, db.store, rows1) && (rows1 == rows ==> db.store == old(db.store))
          && ops == [first] + OldDrops(t, rows1, pk)
    {
      hide Represents, DropAll, DB.Valid, DB.Framed, DB.Coherent, Stored, Table.WellFormed;
      if IndexedFields(t) != [] {
        ops := ReadOldDrops(first, id, now, rows);
      } else {
        ops := [first];
        SameForeignChain(t, db.store, db.store, db.store);
        NoIndexNoDrops(t, rows, EncodePk(t.fields[t.primary].typ, id));
      }
    }

    method ReadOldDrops(first: Op, id: Val, now: Moment, ghost rows: Rows) returns (ops: seq<Op>)
      requires db.Valid() && Stored(z, t, db.store, rows) && ValOk(t.fields[t.primary].typ, id)
      requires DataPrefix(t.hash) <= first.key && IndexedFields(t) != []
      modifies db.Repr
      ensures db.Valid() && fresh(db.Repr - old(db.Repr)) && KeepsOthers(db, t)
      ensures forall op :: op in ops ==> DataPrefix(t.hash) <= op.key || TablePrefix(t.hash) <= op.key
      ensures db.closed ==> Stored(z, t, db.store, rows) && db.store == old(db.store)
      ensures var pk := EncodePk(t.fields[t.primary].typ, id);
        var rows1 := Touch(t, rows, pk, now);
        !db.closed ==>
          && Stored(z, t, db.store, rows1) && (rows1 == rows ==> db.store == old(db.store))
          && ops == [first] + OldDrops(t, rows1, pk)
    {
      hide Represents, DropAll, DropOps, DB.Valid, DB.Framed, DB.Coherent, Expired, Table.WellFormed;
      var pkBytes := EncodePk(t.fields[t.primary].typ, id);
      ops := [first];
      var old_ := Get(id, now, rows);
      if old_.Ok? && old_.value.Some? {
        ops := AppendAllDrops(t, ops, old_.value.value, pkBytes);
      }
    }

    /** The common first half of Create and Update: data row first, then the old row's deletes. */
    method Prepare(rec: Record, stamp: int, now: Moment, ghost rows: Rows) returns (ops: seq<Op>)
      requires db.Valid() && Stored(z, t, db.store, rows) && t.RecordOk(rec)
      modifies db.Repr
      ensures db.Valid() && fresh(db.Repr - old(db.Repr)) && KeepsOthers(db, t)
      ensures forall op :: op in ops ==> DataPrefix(t.hash) <= op.key || TablePrefix(t.hash) <= op.key
      ensures db.closed ==> Stored(z, t, db.store, rows) && db.store == old(db.store)
      ensures var pk := PkOf(t, rec);
        var rows1 := BeforeWrite(t, rows, pk, now);
        !db.closed ==>
          && Stored(z, t, db.store, rows1) && (rows1 == rows ==> db.store == old(db.store))
          && ops == [Put(DataKey(t.hash, pk), Image(z, t, Row(rec, Expiry(t, stamp))))] + OldDrops(t, rows1, pk)
    {
      hide Represents, Image, OldDrops, DB.Valid, DB.Coherent, SameForeign;
      var dataKey := DataKey(t.hash, PkOf(t, rec));
      var value := Serialize(z, t, rec, Expiry(t, stamp));
      ops := WithOldDrops(Put(dataKey, value[..]), rec[t.primary], now, rows);
    }

    /** The commit of a prepared write. */
    method Commit(ops: seq<Op>, rec: Record, stamp: int, inOrder: bool, ghost rows: Rows) returns (r: Database.Result<()>)
      requires db.Valid() && Stored(z, t, db.store, rows) && t.RecordOk(rec)
      requires forall op :: op in ops ==> DataPrefix(t.hash) <= op.key || TablePrefix(t.hash) <= op.key
      requires var pk := PkOf(t, rec);
        !db.closed ==>
          && !Conflict(t, rows, rec, pk)
          && ops == [Put(DataKey(t.hash, pk), Image(z, t, Row(rec, Expiry(t, stamp))))] + OldDrops(t, rows, pk)
                    + if inOrder then AddInOrder(t, rec, pk) else AddAll(t, rec, pk)
      modifies db.Repr
      ensures db.Valid() && fresh(db.Repr - old(db.Repr)) && KeepsOthers(db, t)
      ensures db.closed ==> r == Fail(ErrDBClosed) && Stored(z, t, db.store, rows) && db.store == old(db.store)
      ensures !db.closed ==> r == Database.Ok(()) && Stored(z, t, db.store, rows[PkOf(t, rec) := Row(rec, Expiry(t, stamp))])
    {
      hide DB.Valid, DB.Coherent, Represents, Image, DropAll, AddAll, AddInOrder, Conflict;
      KeysPresent(t, ops);
      if !db.closed {
        var pk := PkOf(t, rec);
        var row := Row(rec, Expiry(t, stamp));
        NewRowOk(t, rec, stamp);
        WriteBatchReplaces(z, t, rows, pk, row, inOrder);
        ReplaceRefines(z, t, db.store, rows, pk, row, ops);
      }
      r := db.WriteBatch(ops);
    }

    /** Create: overwrites a row with the same key; refuses a unique value held by another row. */
    method Create(rec: Record, stamp: int, now: Moment, ghost rows: Rows) returns (r: Database.Result<()>)
      requires db.Valid() && Stored(z, t, db.store, rows) && t.RecordOk(rec)
      modifies db.Repr
      ensures db.Valid() && fresh(db.Repr - old(db.Repr)) && KeepsOthers(db, t)
      ensures db.closed ==> r == Fail(ErrDBClosed) && Stored(z, t, db.store, rows) && db.store == old(db.store)
      ensures !db.closed ==> (var (rows', outcome) := Upsert(t, rows, rec, stamp, now); Stored(z, t, db.store, rows') && r == outcome)
      ensures r.Fail? && BeforeWrite(t, rows, PkOf(t, rec), now) == rows ==> db.store == old(db.store)
    {
      hide Table.WellFormed, DB.Valid, DB.Coherent, Represents, Image, DropAll, AddAll, AddOps, Conflict;
      var ops := Prepare(rec, stamp, now, rows);
      ghost var rows1 := if db.closed then rows else BeforeWrite(t, rows, PkOf(t, rec), now);
      var pkBytes := PkOf(t, rec);
      var check := CheckUnique(rec, pkBytes, now, rows1);
      if check.Fail? { return check; }
      AddsSplit(t, rec, pkBytes, ops);
      ops := AppendAdds(t, ops, UniqueFields(t), rec, pkBytes);
      ops := AppendAdds(t, ops, NormalFields(t), rec, pkBytes);
      r := Commit(ops, rec, stamp, false, rows1);
    }

    /** Update: the same, with the entries put in declaration order. A missing row is inserted. */
    method Update(rec: Record, stamp: int, now: Moment, ghost rows: Rows) returns (r: Database.Result<()>)
      requires db.Valid() && Stored(z, t, db.store, rows) && t.RecordOk(rec)
      modifies db.Repr
      ensures db.Valid() && fresh(db.Repr - old(db.Repr)) && KeepsOthers(db, t)
      ensures db.closed ==> r == Fail(ErrDBClosed) && Stored(z, t, db.store, rows) && db.store == old(db.store)
      ensures !db.closed ==> (var (rows', outcome) := Upsert(t, rows, rec, stamp, now); Stored(z, t, db.store, rows') && r == outcome)
      ensures r.Fail? && BeforeWrite(t, rows, PkOf(t, rec), now) == rows ==> db.store == old(db.store)
    {
      hide Table.WellFormed, DB.Valid, DB.Coherent, Represents, Image, DropAll, AddOps, Conflict;
      var ops := Prepare(rec, stamp, now, rows);
      ghost var rows1 := if db.closed then rows else BeforeWrite(t, rows, PkOf(t, rec), now);
      var pkBytes := PkOf(t, rec);
      var check := CheckUnique(rec, pkBytes, now, rows1);
      if check.Fail? { return check; }
      ops := AppendAdds(t, ops, IndexedFields(t), rec, pkBytes);
      r := Commit(ops, rec, stamp, true, rows1);
    }

    /** Delete: the row and everything it owns, whether or not it was there. */
    method Delete(id: Val, now: Moment, ghost rows: Rows) returns (r: Database.Result<()>)
      requires db.Valid() && Stored(z, t, db.store, rows) && ValOk(t.fields[t.primary].typ, id)
      modifies db.Repr
      ensures db.Valid() && fresh(db.Repr - old(db.Repr)) && KeepsOthers(db, t)
      ensures db.closed ==> r == Fail(ErrDBClosed) && Stored(z, t, db.store, rows) && db.store == old(db.store)
      ensures !db.closed ==> r == Database.Ok(()) && Stored(z, t, db.store, rows - {EncodePk(t.fields[t.primary].typ, id)})
    {
      hide Table.WellFormed, DB.Valid, DB.Coherent, Represents, Image, OldDrops, Erases;
      var pkBytes := EncodePk(t.fields[t.primary].typ, id);
      var first := Op.Delete(DataKey(t.hash, pkBytes));
      var ops := WithOldDrops(first, id, now, rows);
      KeysPresent(t, ops);
      if !db.closed {
        ghost var rows1 := BeforeWrite(t, rows, pkBytes, now);
        DeleteBatchErases(t, rows1, pkBytes);
        EraseRefines(z, t, db.store, rows1, pkBytes, ops);
        assert rows1 - {pkBytes} == rows - {pkBytes};
      }
      r := db.WriteBatch(ops);
    }

    /** PurgeExpired: deletes under a snapshot scan. Exactly the expired rows go, each with its index
        entries, and the count is theirs; without index fields, those whose deletion the queue takes. */
    method PurgeExpired(now: Moment, ghost rows: Rows) returns (count: nat)
      requires db.Valid() && Stored(z, t, db.store, rows) && t.HasTTL()
      modifies db.Repr
      ensures db.Valid() && fresh(db.Repr - old(db.Repr)) && KeepsOthers(db, t)
      ensures db.closed ==> count == 0 && Stored(z, t, db.store, rows) && db.store == old(db.store)
      ensures var dead := Purgeable(t, rows, now);
        !db.closed ==> Stored(z, t, db.store, rows - dead) && count == |dead|
      ensures var dead := set pk | pk in rows && 0 < rows[pk].expiresAt < now.time && (IndexedFields(t) != [] || now.takes(pk));
        !db.closed ==> Stored(z, t, db.store, rows - dead) && count == |dead|
    {
      PurgeableInNumbers(t, rows, now);
      hide Represents, Image, SortedSeq, DataKey, Expired, Retires, SameForeign, Stored, DB.Valid, DB.Coherent, Purgeable, Mapped,
        ScanFrom, Behind;
      ghost var route := FullRoute(z, t, db.store, rows, None);
      WholeTablePrefix(t.hash);
      SameForeignChain(t, db.store, db.store, db.store);
      var iter, more := StartScan(db, z, t, FullScan, DataKey(t.hash, []), None, now, route);
      count := 0;
      if iter == null { return; }
      count := PurgeLoop(db, z, t, iter, now, more, route);
      WholeTable(rows);
      AllRetired(t, rows, route.pks, now);
    }
  }

  /** What PurgeExpired deletes, in plain numbers. */
  lemma PurgeableInNumbers(t: Table, rows: Rows, now: Moment)
    requires t.HasTTL()
    ensures Purgeable(t, rows, now)
         == set pk | pk in rows && 0 < rows[pk].expiresAt < now.time && (IndexedFields(t) != [] || now.takes(pk))
  {
    hide Expired, Retires;
    forall pk | pk in rows { DeadInNumbers(t, pk, rows[pk], now); }
  }

  lemma WholeTable(rows: Rows)
    ensures forall pk :: pk in SortedSeq(Behind(rows.Keys, None)) <==> pk in rows
  {
  }

  method PurgeLoop(db: DB, z: Zstd, t: Table, iter: PrefixIterator, now: Moment, first: bool, ghost route: Route) returns (count: nat)
    requires Scanning(db, z, t, FullScan, iter, now, route, 0, first)
    modifies db.Repr, iter, iter.iter
    ensures fresh(db.Repr - old(db.Repr))
    ensures Scanning(db, z, t, FullScan, iter, now, route, |route.pks|, false)
    ensures count == |Retired(t, route.rows, route.pks, |route.pks|, now)|
  {
    hide Scanning, SameForeign, Stored, DB.Valid, DB.Framed, DB.Coherent, Expired, Retires, Retired, Table.WellFormed, AllOk,
      Represents, PrefixIterator.Inv, Cursor.Inv, Mapped;
    NothingRetired(t, route.rows, route.pks, now);
    count := 0;
    var more := first;
    ghost var i := 0;
    while more
      invariant Scanning(db, z, t, FullScan, iter, now, route, i, more)
      invariant fresh(db.Repr - old(db.Repr))
      invariant count == |Retired(t, route.rows, route.pks, i, now)|
      decreases |route.pks| - i
    {
      RetiredStep(t, route.rows, route.pks, i, now);
      DeadInNumbers(t, route.pks[i], route.rows[route.pks[i]], now);
      var _, deleted, next := ScanStep(db, z, t, FullScan, iter, now, route, i);
      if deleted { count := count + 1; }
      more := next;
      i := i + 1;
    }
  }
}
