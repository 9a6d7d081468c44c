/** Reading rows off a prefix scan: what both query plans and PurgeExpired do with each row they
    meet, retiring the expired ones under the snapshot they are scanning
    (internal/codegen/query.go, internal/codegen/store.go). */
module RowScan {
  import opened ByteStrings
  import opened Encoding
  import opened Pebble
  import opened Schema
  import opened Serializer
  import opened TypedTable
  import opened TableScan
  import opened Database

  /** The engine's contents for table t are exactly `rows`. */
  ghost predicate Stored(z: Zstd, t: Table, kv: KV, rows: Rows)
    ensures Stored(z, t, kv, rows) ==> t.WellFormed() && AllOk(t, rows) && Represents(z, t, kv, rows)
  {
    && t.WellFormed() && z.Lawful()
    && Represents(z, t, kv, rows)
  }

  /** Keys outside table t keep their values, and the handle stays open or closed. */
  twostate predicate KeepsOthers(db: DB, t: Table)
    reads db
  {
    SameForeign(t, old(db.store), db.store) && db.closed == old(db.closed)
  }

  /** delete<Message>WithIndexes: one batch for the data row and all its entries. A table without index
      fields has only the data row to delete and sends that through the write queue. */
  method DeleteWithIndexes(db: DB, z: Zstd, t: Table, dataKey: Bytes, rec: Record, now: Moment, ghost rows: Rows)
    returns (r: Database.Result<()>)
    requires db.Valid() && Stored(z, t, db.store, rows) && !db.closed
    requires DataPrefix(t.hash) <= dataKey && dataKey[9..] in rows && rows[dataKey[9..]].rec == rec
    modifies db.Repr
    ensures db.Valid() && fresh(db.Repr - old(db.Repr)) && KeepsOthers(db, t)
    ensures r == if IndexedFields(t) != [] || now.takes(dataKey[9..]) then Database.Ok(()) else Fail(ErrWriteThrottled)
    ensures Stored(z, t, db.store, if r.Ok? then rows - {dataKey[9..]} else rows)
    ensures r.Fail? ==> db.store == old(db.store)
  {
    hide Table.WellFormed, DB.Valid, DB.Framed, DB.Coherent, Represents, Image, EntryKeys, DropAll, Decode;
    ghost var pk := dataKey[9..];
    DataPrefixIff(t.hash, dataKey);
    DataKeyRoundTrip(t.hash, pk);
    var decoded := DecodeKey(dataKey);
    var (_, pkBytes) := decoded.value;
    DeleteBatchErases(t, rows, pk);
    if IndexedFields(t) != [] {
      var ops := AppendAllDrops(t, [Delete(dataKey)], rec, pkBytes);
      KeysPresent(t, ops);
      EraseRefines(z, t, db.store, rows, pk, ops);
      r := db.WriteBatch(ops);
    } else {
      NoIndexNoDrops(t, rows, pk);
      LoneDelete(db.store, dataKey);
      EraseRefines(z, t, db.store, rows, pk, [Delete(dataKey)]);
      SameForeignChain(t, db.store, db.store, db.store);
      r := db.Submit(Delete(dataKey), now.takes(pkBytes));
    }
  }

  /** Without index fields there are no entries to drop. */
  lemma NoIndexNoDrops(t: Table, rows: Rows, pk: Bytes)
    requires t.WellFormed() && IndexedFields(t) == [] && (pk in rows ==> t.RecordOk(rows[pk].rec))
    ensures OldDrops(t, rows, pk) == []
  {
    NoneSelected(t, t.Indexed, t.Unique, |t.fields|);
    NoneSelected(t, t.Indexed, t.Normal, |t.fields|);
  }

  lemma LoneDelete(kv: KV, k: Bytes)
    ensures Apply(kv, [Delete(k)]) == ApplyOp(kv, Delete(k))
  {
    assert [Op.Delete(k)][1..] == [];
  }

  lemma DropsSplit(t: Table, rec: Record, pk: Bytes, head: seq<Op>)
    requires t.WellFormed() && t.RecordOk(rec)
    ensures head + DropOps(t, UniqueFields(t), |UniqueFields(t)|, rec, pk)
                 + DropOps(t, NormalFields(t), |NormalFields(t)|, rec, pk)
         == head + DropAll(t, rec, pk)
  {
  }

  /** Physical keys are never empty. */
  lemma KeysPresent(t: Table, ops: seq<Op>)
    requires forall op :: op in ops ==> DataPrefix(t.hash) <= op.key || TablePrefix(t.hash) <= op.key
    ensures NonEmptyKeys(ops)
  {
  }

  /** Deletes for everything a record owns in the indexes, unique entries first. */
  method AppendAllDrops(t: Table, ops: seq<Op>, rec: Record, pk: Bytes) returns (out: seq<Op>)
    requires t.WellFormed() && t.RecordOk(rec)
    ensures out == ops + DropAll(t, rec, pk)
    ensures forall op :: op in out ==> op in ops || TablePrefix(t.hash) <= op.key
  {
    DropsSplit(t, rec, pk, ops);
    hide DropAll, DropOps, UniqueFields, NormalFields, Table.WellFormed, Table.RecordOk;
    out := AppendDrops(t, ops, UniqueFields(t), rec, pk);
    out := AppendDrops(t, out, NormalFields(t), rec, pk);
  }

  method AppendDrops(t: Table, ops: seq<Op>, fs: seq<nat>, rec: Record, pk: Bytes) returns (out: seq<Op>)
    requires t.WellFormed() && t.RecordOk(rec) && forall i :: i in fs ==> t.Indexed(i)
    ensures out == ops + DropOps(t, fs, |fs|, rec, pk)
    ensures forall op :: op in out ==> op in ops || TablePrefix(t.hash) <= op.key
  {
    hide EntryKey;
    out := ops;
    for i := 0 to |fs|
      invariant out == ops + DropOps(t, fs, i, rec, pk)
      invariant forall op :: op in out ==> op in ops || TablePrefix(t.hash) <= op.key
    {
      out := out + [Delete(EntryKey(t, fs[i], rec, pk))];
    }
  }

  /** One scanned row: an expired one is retired with its entries, a live one is returned. */
  method LiveRow(db: DB, z: Zstd, t: Table, key: Bytes, value: Bytes, now: Moment,
                 ghost rows: Rows, ghost gone: set<Bytes>, ghost pk: Bytes)
    returns (r: Option<Record>, deleted: bool)
    requires db.Valid() && Stored(z, t, db.store, rows - gone) && !db.closed
    requires AllOk(t, rows) && pk in rows && pk !in gone
    requires key == DataKey(t.hash, pk) && value == Image(z, t, rows[pk])
    modifies db.Repr
    ensures db.Valid() && fresh(db.Repr - old(db.Repr)) && KeepsOthers(db, t)
    ensures Stored(z, t, db.store, rows - if Retires(t, pk, rows[pk], now) then gone + {pk} else gone)
    ensures r == if Expired(t, rows[pk], now) then None else Some(rows[pk].rec)
    ensures deleted <==> Retires(t, pk, rows[pk], now)
    ensures rows - gone == rows && r.Some? ==> db.store == old(db.store)
  {
    hide Table.WellFormed, DB.Valid, DB.Coherent, Represents, Image, Decode;
    RowRoundTrip(z, t, rows[pk]);
    var parsed := Deserialize(z, t, value);
    var Row(m, expiresAt) := parsed.value;
    deleted := false;
    if t.HasTTL() && expiresAt > 0 && now.time > expiresAt {
      var err := DeleteWithIndexes(db, z, t, key, m, now, rows - gone);
      assert rows - gone - {pk} == rows - (gone + {pk});
      deleted := err.Ok?;
      return None, deleted;
    }
    return Some(m), false;
  }

  // ---------------------------------------------------------------- walking a key list

  /** An iterator in the middle of its key list: key number i is current, or the list is done. */
  ghost predicate Walking(iter: PrefixIterator, keys: seq<Bytes>, i: nat, more: bool)
    reads iter, iter.iter
    ensures Walking(iter, keys, i, more) ==> i <= |keys| && (more <==> i < |keys|)
  {
    && iter.Inv()
    && i <= |keys| && (more <==> i < |keys|)
    && (more ==> iter.iter.OnKey() && iter.Key() == keys[i] && iter.Remaining() == keys[i + 1..])
  }

  method Begin(iter: PrefixIterator, ghost keys: seq<Bytes>) returns (more: bool)
    requires iter.Inv() && iter.Remaining() == keys
    modifies iter, iter.iter
    ensures Walking(iter, keys, 0, more)
  {
    more := iter.Next();
  }

  method Step(iter: PrefixIterator, ghost keys: seq<Bytes>, ghost i: nat) returns (more: bool)
    requires Walking(iter, keys, i, true)
    modifies iter, iter.iter
    ensures Walking(iter, keys, i + 1, more)
  {
    more := iter.Next();
  }

  /** The rows retired among the first n keys of a listing. */
  ghost function Retired(t: Table, rows: Rows, pks: seq<Bytes>, n: nat, now: Moment): set<Bytes>
    requires n <= |pks| && forall pk :: pk in pks ==> pk in rows
  {
    if n == 0 then {}
    else Retired(t, rows, pks, n - 1, now) + if Retires(t, pks[n - 1], rows[pks[n - 1]], now) then {pks[n - 1]} else {}
  }

  /** The expired rows that can be deleted at the moment: all of them when the table has index fields. */
  ghost function Purgeable(t: Table, rows: Rows, now: Moment): set<Bytes> {
    set pk | pk in rows && Retires(t, pk, rows[pk], now)
  }

  lemma {:induction false} RetiredAmong(t: Table, rows: Rows, pks: seq<Bytes>, n: nat, now: Moment)
    requires n <= |pks| && forall pk :: pk in pks ==> pk in rows
    ensures forall pk :: pk in Retired(t, rows, pks, n, now) <==> pk in pks[..n] && Retires(t, pk, rows[pk], now)
  {
    if n > 0 {
      RetiredAmong(t, rows, pks, n - 1, now);
      assert pks[..n] == pks[..n - 1] + [pks[n - 1]];
    }
  }

  /** One more row: the count of the retired goes up exactly when it retires. */
  lemma RetiredStep(t: Table, rows: Rows, pks: seq<Bytes>, i: nat, now: Moment)
    requires Sorted(pks) && i < |pks| && forall pk :: pk in pks ==> pk in rows
    ensures |Retired(t, rows, pks, i + 1, now)|
         == |Retired(t, rows, pks, i, now)| + if Retires(t, pks[i], rows[pks[i]], now) then 1 else 0
  {
    hide Retires;
    NotRetiredYet(t, rows, pks, i, now);
  }

  lemma NotRetiredYet(t: Table, rows: Rows, pks: seq<Bytes>, i: nat, now: Moment)
    requires Sorted(pks) && i < |pks| && forall pk :: pk in pks ==> pk in rows
    ensures pks[i] !in Retired(t, rows, pks, i, now)
  {
    RetiredAmong(t, rows, pks, i, now);
    forall j | 0 <= j < i ensures pks[j] != pks[i] { LtIrreflexive(pks[i]); }
  }

  /** After the whole listing, exactly the expired rows are gone. */
  lemma AllRetired(t: Table, rows: Rows, pks: seq<Bytes>, now: Moment)
    requires forall pk :: pk in pks <==> pk in rows
    ensures Retired(t, rows, pks, |pks|, now) == Purgeable(t, rows, now)
  {
    RetiredAmong(t, rows, pks, |pks|, now);
    assert pks[..|pks|] == pks;
  }

  // ---------------------------------------------------------------- scanning rows

  /** Where a scan finds its rows: in the iterator's values (execFullScan, PurgeExpired), or behind
      the primary keys that are the iterator's values (execIndexed). */
  datatype Plan = FullScan | IndexScan

  /** The physical keys a scan will meet, and the primary keys of the rows they lead to. */
  datatype Route = Route(rows: Rows, keys: seq<Bytes>, pks: seq<Bytes>)

  ghost predicate LeadsTo(z: Zstd, t: Table, plan: Plan, kv: KV, rows: Rows, key: Bytes, pk: Bytes)
    requires t.WellFormed() && AllOk(t, rows)
  {
    && pk in rows
    && match plan
       case FullScan => key == DataKey(t.hash, pk) && Lookup(kv, key) == Some(Image(z, t, rows[pk]))
       case IndexScan => Lookup(kv, key) == Some(pk)
  }

  ghost predicate Mapped(z: Zstd, t: Table, plan: Plan, kv: KV, route: Route)
    requires t.WellFormed()
    ensures Mapped(z, t, plan, kv, route) ==>
      && AllOk(t, route.rows) && |route.keys| == |route.pks| && Sorted(route.pks)
      && forall pk :: pk in route.pks ==> pk in route.rows
  {
    && AllOk(t, route.rows)
    && |route.keys| == |route.pks| && Sorted(route.pks)
    && forall j :: 0 <= j < |route.pks| ==> LeadsTo(z, t, plan, kv, route.rows, route.keys[j], route.pks[j])
  }

  /** A scan of table t standing at row number i of its route. It reads the snapshot; the table
      meanwhile lacks the expired rows already passed. */
  ghost predicate Scanning(db: DB, z: Zstd, t: Table, plan: Plan, iter: PrefixIterator, now: Moment,
                           route: Route, i: nat, more: bool)
    reads db, db.Repr, iter, iter.iter
    ensures Scanning(db, z, t, plan, iter, now, route, i, more) ==>
      && db.Valid() && !db.closed
      && t.WellFormed() && Mapped(z, t, plan, iter.iter.snapshot, route)
      && i <= |route.pks| && (more <==> i < |route.pks|)
      && Stored(z, t, db.store, route.rows - Retired(t, route.rows, route.pks, i, now))
      && SameForeign(t, iter.iter.snapshot, db.store)
  {
    && db.Valid() && !db.closed && iter !in db.Repr && iter.iter !in db.Repr
    && t.WellFormed() && Mapped(z, t, plan, iter.iter.snapshot, route)
    && Walking(iter, route.keys, i, more)
    && Stored(z, t, db.store, route.rows - Retired(t, route.rows, route.pks, i, now))
    && SameForeign(t, iter.iter.snapshot, db.store)
  }

  /** Open an iterator on a prefix and place it behind a cursor if there is one. Nothing is opened on
      a closed handle. */
  method OpenScan(db: DB, prefix: Bytes, cursor: Option<Bytes>) returns (iter: PrefixIterator?)
    requires db.Valid() && prefix != []
    ensures iter == null <==> db.closed
    ensures iter != null ==> fresh(iter) && fresh(iter.iter) && iter !in db.Repr && iter.iter !in db.Repr
    ensures iter != null ==>
      iter.Inv() && iter.iter.snapshot == db.store && iter.Remaining() == ScanFrom(db.store, prefix, cursor)
  {
    hide DB.Valid, PrefixIterator.Inv, PrefixIterator.Remaining;
    iter := db.Iterate(prefix);
    if iter != null && cursor.Some? { iter.SeekAfter(cursor.value); }
  }

  lemma NothingRetired(t: Table, rows: Rows, pks: seq<Bytes>, now: Moment)
    requires forall pk :: pk in pks ==> pk in rows
    ensures Retired(t, rows, pks, 0, now) == {} && rows - Retired(t, rows, pks, 0, now) == rows
  {
  }

  /** Open a scan and advance to its first key. */
  method StartScan(db: DB, z: Zstd, t: Table, plan: Plan, prefix: Bytes, cursor: Option<Bytes>, now: Moment, ghost route: Route)
    returns (iter: PrefixIterator?, more: bool)
    requires db.Valid() && Stored(z, t, db.store, route.rows) && prefix != []
    requires Mapped(z, t, plan, db.store, route) && ScanFrom(db.store, prefix, cursor) == route.keys
    ensures iter == null <==> db.closed
    ensures iter != null ==> fresh(iter) && fresh(iter.iter) && iter.iter.snapshot == db.store
    ensures iter != null ==> Scanning(db, z, t, plan, iter, now, route, 0, more)
  {
    hide Mapped, Stored, DB.Valid, PrefixIterator.Inv, PrefixIterator.Remaining, Walking, ScanFrom, SameForeign, Retired,
      Table.WellFormed, AllOk, Represents;
    iter := OpenScan(db, prefix, cursor);
    more := false;
    if iter == null { return; }
    more := Begin(iter, route.keys);
    SameForeignChain(t, db.store, db.store, db.store);
    NothingRetired(t, route.rows, route.pks, now);
  }

  /** The stored value a scan obtains for the key under its cursor. */
  method Fetch(db: DB, z: Zstd, t: Table, plan: Plan, iter: PrefixIterator, now: Moment, ghost route: Route, ghost i: nat)
    returns (key: Bytes, value: Bytes)
    requires Scanning(db, z, t, plan, iter, now, route, i, true)
    modifies db.Repr
    ensures Scanning(db, z, t, plan, iter, now, route, i, true) && fresh(db.Repr - old(db.Repr))
    ensures key == DataKey(t.hash, route.pks[i]) && value == Image(z, t, route.rows[route.pks[i]])
    ensures db.store == old(db.store)
  {
    hide Image, DataKey, Expired, Retires, Stored, DB.Valid, DB.Coherent, Table.WellFormed, SameForeign, PrefixIterator.Inv,
      PrefixIterator.Remaining;
    key, value := iter.Key(), iter.Value();
    ghost var pk := route.pks[i];
    assert LeadsTo(z, t, plan, iter.iter.snapshot, route.rows, route.keys[i], pk);
    if plan.IndexScan? {
      key := DataKey(t.hash, value);
      NotRetiredYet(t, route.rows, route.pks, i, now);
      PresentRow(z, t, db.store, route.rows - Retired(t, route.rows, route.pks, i, now), pk);
      var stored := db.Get(key, now.time);
      value := stored.value.value;
    }
  }

  lemma PresentRow(z: Zstd, t: Table, kv: KV, rows: Rows, pk: Bytes)
    requires Stored(z, t, kv, rows) && pk in rows
    ensures DataKey(t.hash, pk) != [] && Lookup(kv, DataKey(t.hash, pk)) == Some(Image(z, t, rows[pk]))
  {
    hide IndexExact, Image;
  }

  /** Handle the row under the cursor, then advance. */
  method ScanStep(db: DB, z: Zstd, t: Table, plan: Plan, iter: PrefixIterator, now: Moment, ghost route: Route, ghost i: nat)
    returns (r: Option<Record>, deleted: bool, more: bool)
    requires Scanning(db, z, t, plan, iter, now, route, i, true)
    modifies db.Repr, iter, iter.iter
    ensures Scanning(db, z, t, plan, iter, now, route, i + 1, more)
    ensures fresh(db.Repr - old(db.Repr))
    ensures var row := route.rows[route.pks[i]];
      var dead := t.ttl != 0 && 0 < row.expiresAt < now.time;
      && r == (if dead then None else Some(row.rec))
      && (deleted <==> dead && (IndexedFields(t) != [] || now.takes(route.pks[i])))
  {
    hide Represents, Image, Mapped, DataKey, Expired, Retires, Stored, DB.Valid, DB.Framed, DB.Coherent, Table.WellFormed,
      SameForeign, AllOk, IndexedFields, PrefixIterator.Inv, PrefixIterator.Remaining, Cursor.Inv;
    DeadInNumbers(t, route.pks[i], route.rows[route.pks[i]], now);
    var key, value := Fetch(db, z, t, plan, iter, now, route, i);
    ghost var pk, gone := route.pks[i], Retired(t, route.rows, route.pks, i, now);
    ghost var before := db.store;
    NotRetiredYet(t, route.rows, route.pks, i, now);
    r, deleted := LiveRow(db, z, t, key, value, now, route.rows, gone, pk);
    SameForeignChain(t, iter.iter.snapshot, before, db.store);
    assert Retired(t, route.rows, route.pks, i + 1, now) == if Retires(t, pk, route.rows[pk], now) then gone + {pk} else gone;
    more := Step(iter, route.keys, i);
  }

  // ---------------------------------------------------------------- routes

  lemma WholeTablePrefix(h: nat)
    ensures DataKey(h, []) == DataPrefix(h) != []
  {
  }

  /** A full scan leads to every row behind the cursor. */
  lemma FullRoute(z: Zstd, t: Table, kv: KV, rows: Rows, cursor: Option<Bytes>) returns (route: Route)
    requires Stored(z, t, kv, rows)
    ensures route.rows == rows && route.pks == SortedSeq(Behind(rows.Keys, cursor))
    ensures Mapped(z, t, FullScan, kv, route)
    ensures ScanFrom(kv, DataPrefix(t.hash), UnderPrefix(DataPrefix(t.hash), cursor)) == route.keys
  {
    hide Represents, Image, ScanFrom, UnderPrefix, Prepend;
    var pks := SortedSeq(Behind(rows.Keys, cursor));
    route := Route(rows, Prepend(DataPrefix(t.hash), pks), pks);
    DataScan(z, t, kv, rows, cursor);
    forall j | 0 <= j < |pks| ensures LeadsTo(z, t, FullScan, kv, rows, route.keys[j], pks[j]) {
      assert pks[j] in pks;
      PresentRow(z, t, kv, rows, pks[j]);
    }
  }

  /** The rows an index scan reaches: those with the value, behind the cursor; in a unique index
      none as soon as there is a cursor. */
  ghost function Reached(t: Table, rows: Rows, f: int, v: Val, cursor: Option<Bytes>): set<Bytes>
    requires t.WellFormed() && AllOk(t, rows) && t.Indexed(f)
  {
    if t.Unique(f) && cursor.Some? then {} else Behind(Holders(t, rows, f, v), cursor)
  }

  lemma IndexRoute(z: Zstd, t: Table, kv: KV, rows: Rows, f: int, v: Val, cursor: Option<Bytes>) returns (route: Route)
    requires Stored(z, t, kv, rows) && t.Indexed(f) && Encodable(t.fields[f].typ, v)
    ensures route.rows == rows && route.pks == SortedSeq(Reached(t, rows, f, v, cursor))
    ensures Mapped(z, t, IndexScan, kv, route)
    ensures ScanFrom(kv, FieldPrefix(t, f, v), UnderPrefix(FieldPrefix(t, f, v), cursor)) == route.keys
  {
    hide Represents, ScanFrom, UnderPrefix, Prepend, FieldPrefix;
    var prefix := FieldPrefix(t, f, v);
    var pks := SortedSeq(Reached(t, rows, f, v, cursor));
    forall j | 0 <= j < |pks| ensures Lookup(kv, prefix + if t.Unique(f) then [] else pks[j]) == Some(pks[j]) {
      assert pks[j] in pks;
      HolderScanned(z, t, kv, rows, f, v, pks[j]);
    }
    if t.Normal(f) {
      NormalIndexScan(z, t, kv, rows, f, v, cursor);
      route := Route(rows, Prepend(prefix, pks), pks);
    } else {
      UniqueIndexScan(z, t, kv, rows, f, v, cursor);
      OneHolder(z, t, kv, rows, f, v, cursor);
      route := Route(rows, if pks == [] then [] else [prefix], pks);
      assert prefix + [] == prefix;
    }
    forall j | 0 <= j < |pks| ensures LeadsTo(z, t, IndexScan, kv, rows, route.keys[j], pks[j]) {
      assert pks[j] in pks;
    }
  }

  /** At most one row holds a unique value. */
  lemma OneHolder(z: Zstd, t: Table, kv: KV, rows: Rows, f: int, v: Val, cursor: Option<Bytes>)
    requires Stored(z, t, kv, rows) && t.Unique(f)
    ensures var pks := SortedSeq(Reached(t, rows, f, v, cursor));
      |pks| <= 1 && (pks == [] <==> cursor.Some? || Holders(t, rows, f, v) == {})
  {
    hide Represents;
    var s := Reached(t, rows, f, v, cursor);
    var pks := SortedSeq(s);
    if |pks| > 1 {
      assert pks[0] in s && pks[1] in s;
      LtIrreflexive(pks[0]);
      UniquenessHolds(z, t, kv, rows, f, pks[0], pks[1]);
      assert false;
    }
    if pk :| pk in Holders(t, rows, f, v) && cursor.None? { assert pk in pks; }
    if pks != [] { assert pks[0] in s; }
  }
}
