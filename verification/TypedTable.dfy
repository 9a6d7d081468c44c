/** What the flat key space holds for one table, and what the batches of the generated store do to
    it. A table is abstractly a map from primary keys (as encoded in keys) to rows. */
module TypedTable {
  import opened ByteStrings
  import opened Encoding
  import opened Pebble
  import opened Schema
  import opened Serializer

  type Rows = map<Bytes, Row>

  ghost predicate RowOk(t: Table, pk: Bytes, row: Row)
    requires t.WellFormed()
    ensures RowOk(t, pk, row) ==> t.RecordOk(row.rec) && Int64.InRange(row.expiresAt)
  {
    && t.RecordOk(row.rec)
    && Int64.InRange(row.expiresAt)
    && PkOf(t, row.rec) == pk
    && (!t.HasTTL() ==> row.expiresAt == 0)
  }

  ghost predicate AllOk(t: Table, rows: Rows)
    requires t.WellFormed()
  {
    forall pk :: pk in rows ==> RowOk(t, pk, rows[pk])
  }

  /** The physical key of the index entry of field i: with the primary key behind the value for a
      normal index, without it for a unique one. */
  function EntryKey(t: Table, i: int, rec: Record, pk: Bytes): (k: Bytes)
    requires t.WellFormed() && t.RecordOk(rec) && t.Indexed(i)
    ensures TablePrefix(t.hash) <= k
  {
    var v := EncodeIndexValue(t.fields[i].typ, rec[i]);
    if t.Unique(i) then UniqueIndexKey(t.hash, t.fields[i].number, v)
    else IndexKey(t.hash, t.fields[i].number, v, pk)
  }

  lemma RangesDisjoint(h1: nat, h2: nat, k: Bytes)
    ensures !(DataPrefix(h1) <= k && TablePrefix(h2) <= k)
  {
    assert DataPrefix(h1)[0] != TablePrefix(h2)[0];
  }

  ghost function EntryKeys(t: Table, rec: Record, pk: Bytes): set<Bytes>
    requires t.WellFormed() && t.RecordOk(rec)
    ensures forall k :: k in EntryKeys(t, rec, pk) ==> TablePrefix(t.hash) <= k && !(DataPrefix(t.hash) <= k)
  {
    assert forall i {:trigger EntryKey(t, i, rec, pk)} :: 0 <= i < |t.fields| && t.Indexed(i) ==>
        !(DataPrefix(t.hash) <= EntryKey(t, i, rec, pk)) by {
      forall i | 0 <= i < |t.fields| && t.Indexed(i) ensures !(DataPrefix(t.hash) <= EntryKey(t, i, rec, pk)) {
        RangesDisjoint(t.hash, t.hash, EntryKey(t, i, rec, pk));
      }
    }
    set i | 0 <= i < |t.fields| && t.Indexed(i) :: EntryKey(t, i, rec, pk)
  }

  /** The data range holds exactly the images of the rows. */
  ghost predicate DataExact(z: Zstd, t: Table, kv: KV, rows: Rows)
    requires t.WellFormed() && AllOk(t, rows)
  {
    && (forall pk :: pk in rows ==> Lookup(kv, DataKey(t.hash, pk)) == Some(Image(z, t, rows[pk])))
    && (forall k :: k in kv && DataPrefix(t.hash) <= k ==> k[9..] in rows)
  }

  /** The index range holds exactly the rows' own entries, each with the primary key it belongs to. */
  ghost predicate IndexExact(t: Table, kv: KV, rows: Rows)
    requires t.WellFormed() && AllOk(t, rows)
  {
    && (forall pk, k :: pk in rows && k in EntryKeys(t, rows[pk].rec, pk) ==> Lookup(kv, k) == Some(pk))
    && (forall k :: k in kv && TablePrefix(t.hash) <= k ==>
          kv[k] in rows && k in EntryKeys(t, rows[kv[k]].rec, kv[k]))
  }

  ghost predicate Represents(z: Zstd, t: Table, kv: KV, rows: Rows)
    requires t.WellFormed()
    ensures Represents(z, t, kv, rows) ==> AllOk(t, rows)
  {
    AllOk(t, rows) && DataExact(z, t, kv, rows) && IndexExact(t, kv, rows)
  }

  /** Keys outside both ranges of a table: other tables, and raw keys. */
  predicate Foreign(t: Table, k: Bytes) {
    !(DataPrefix(t.hash) <= k) && !(TablePrefix(t.hash) <= k)
  }

  ghost predicate SameForeign(t: Table, before: KV, after: KV) {
    forall k :: Foreign(t, k) ==> Lookup(after, k) == Lookup(before, k)
  }

  lemma SameForeignChain(t: Table, a: KV, b: KV, c: KV)
    ensures SameForeign(t, a, a)
    ensures SameForeign(t, a, b) && SameForeign(t, b, c) ==> SameForeign(t, a, c)
  {
  }

  /** Changes confined to one table leave every other table exactly as it was. */
  lemma OtherTablesUnaffected(z: Zstd, t: Table, other: Table, before: KV, after: KV, rows: Rows)
    requires t.WellFormed() && other.WellFormed() && t.hash != other.hash
    requires SameForeign(t, before, after)
    requires Represents(z, other, before, rows)
    ensures Represents(z, other, after, rows)
  {
    hide EntryKeys, Image, DataKey;
    forall k | DataPrefix(other.hash) <= k || TablePrefix(other.hash) <= k
      ensures Lookup(after, k) == Lookup(before, k)
    {
      RangesDisjoint(t.hash, other.hash, k);
      RangesDisjoint(other.hash, t.hash, k);
      if DataPrefix(t.hash) <= k && DataPrefix(other.hash) <= k { DataPrefixInjective(t.hash, other.hash, k); }
      if TablePrefix(t.hash) <= k && TablePrefix(other.hash) <= k { TablePrefixInjective(t.hash, other.hash, k); }
    }
    forall k | k in after && (DataPrefix(other.hash) <= k || TablePrefix(other.hash) <= k)
      ensures k in before && before[k] == after[k]
    {
      assert Lookup(after, k) == Lookup(before, k);
    }
  }

  /** The byte image is canonical: the rows of a table determine every byte stored in its ranges. */
  lemma ImageIsCanonical(z: Zstd, t: Table, a: KV, b: KV, rows: Rows)
    requires t.WellFormed() && Represents(z, t, a, rows) && Represents(z, t, b, rows)
    requires SameForeign(t, a, b)
    ensures a == b
  {
    hide EntryKeys, Image;
    forall k ensures Lookup(a, k) == Lookup(b, k) {
      if !Foreign(t, k) {
        InRangeOf(z, t, a, b, rows, k);
        InRangeOf(z, t, b, a, rows, k);
      }
    }
    assert forall k :: k in a <==> Lookup(a, k).Some?;
    assert forall k :: k in b <==> Lookup(b, k).Some?;
  }

  lemma InRangeOf(z: Zstd, t: Table, a: KV, b: KV, rows: Rows, k: Bytes)
    requires t.WellFormed() && Represents(z, t, a, rows) && Represents(z, t, b, rows)
    requires !Foreign(t, k)
    ensures k in a ==> Lookup(b, k) == Lookup(a, k)
  {
    hide EntryKeys, Image;
    if k in a && DataPrefix(t.hash) <= k {
      DataPrefixIff(t.hash, k);
      assert Lookup(b, DataKey(t.hash, k[9..])) == Some(Image(z, t, rows[k[9..]])) == Lookup(a, DataKey(t.hash, k[9..]));
    } else if k in a {
      assert k in EntryKeys(t, rows[a[k]].rec, a[k]);
    }
  }

  // ---------------------------------------------------------------- identity of index entries

  /** Equal entry keys belong to the same field and the same value; in a normal index also to the
      same row. */
  lemma EntryKeyIdentity(t: Table, i: int, rec: Record, pk: Bytes, i2: int, rec2: Record, pk2: Bytes)
    requires t.WellFormed() && t.RecordOk(rec) && t.RecordOk(rec2) && t.Indexed(i) && t.Indexed(i2)
    requires EntryKey(t, i, rec, pk) == EntryKey(t, i2, rec2, pk2)
    ensures i == i2 && rec[i] == rec2[i]
    ensures t.Normal(i) ==> pk == pk2
  {
    hide IndexKey, IndexPrefix, UniqueIndexKey, EncodeIndexValue;
    EntryKeyParts(t, i, rec, pk);
    EntryKeyParts(t, i2, rec2, pk2);
    EncodeIndexValueInjective(t.fields[i].typ, rec[i], rec2[i]);
  }

  lemma EntryKeyParts(t: Table, i: int, rec: Record, pk: Bytes)
    requires t.WellFormed() && t.RecordOk(rec) && t.Indexed(i)
    ensures DecodeIndex(EntryKey(t, i, rec, pk))
         == Ok(IndexParts(t.hash, FieldByte(t.fields[i].number), EncodeIndexValue(t.fields[i].typ, rec[i]),
                          if t.Unique(i) then [] else pk))
  {
    hide DecodeIndex, EncodeIndexValue;
    var v := EncodeIndexValue(t.fields[i].typ, rec[i]);
    var suffix := if t.Unique(i) then [] else pk;
    IndexKeyRoundTrip(t.hash, t.fields[i].number, v, suffix);
    assert t.Unique(i) ==> IndexKey(t.hash, t.fields[i].number, v, []) == UniqueIndexKey(t.hash, t.fields[i].number, v);
  }

  /** The existing holder of a unique value, as the conflict check reads it. */
  lemma UniqueLookup(z: Zstd, t: Table, kv: KV, rows: Rows, i: int, rec: Record, pk: Bytes)
    requires t.WellFormed() && Represents(z, t, kv, rows) && t.RecordOk(rec) && t.Unique(i)
    ensures var held := Lookup(kv, EntryKey(t, i, rec, pk));
      && (held.Some? ==> held.value in rows && rows[held.value].rec[i] == rec[i])
      && (held.None? ==> forall p :: p in rows ==> rows[p].rec[i] != rec[i])
  {
    hide IndexKey, UniqueIndexKey, EncodeIndexValue, DataKey, Image;
    var k := EntryKey(t, i, rec, pk);
    if k in kv {
      var p := kv[k];
      var j :| 0 <= j < |t.fields| && t.Indexed(j) && k == EntryKey(t, j, rows[p].rec, p);
      EntryKeyIdentity(t, i, rec, pk, j, rows[p].rec, p);
    } else {
      forall p | p in rows ensures rows[p].rec[i] != rec[i] {
        assert EntryKey(t, i, rows[p].rec, p) in EntryKeys(t, rows[p].rec, p);
        assert Lookup(kv, EntryKey(t, i, rows[p].rec, p)) == Some(p);
      }
    }
  }

  /** A unique entry key does not mention the row it belongs to. */
  lemma UniqueKeyByValue(t: Table, i: int, rec: Record, pk: Bytes, rec2: Record, pk2: Bytes)
    requires t.WellFormed() && t.RecordOk(rec) && t.RecordOk(rec2) && t.Unique(i) && rec[i] == rec2[i]
    ensures EntryKey(t, i, rec, pk) == EntryKey(t, i, rec2, pk2)
  {
  }

  /** The uniqueness constraint is a consequence of the representation. */
  lemma UniquenessHolds(z: Zstd, t: Table, kv: KV, rows: Rows, i: int, p: Bytes, q: Bytes)
    requires t.WellFormed() && Represents(z, t, kv, rows)
    requires t.Unique(i) && p in rows && q in rows && rows[p].rec[i] == rows[q].rec[i]
    ensures p == q
  {
    hide EntryKey, DataKey, Image;
    UniqueKeyByValue(t, i, rows[p].rec, p, rows[q].rec, q);
    assert EntryKey(t, i, rows[p].rec, p) in EntryKeys(t, rows[p].rec, p);
    assert EntryKey(t, i, rows[q].rec, q) in EntryKeys(t, rows[q].rec, q);
    assert Some(p) == Lookup(kv, EntryKey(t, i, rows[p].rec, p)) == Some(q);
  }

  // ---------------------------------------------------------------- the abstract operations

  /** What a call meets: the clock, and the write queue's verdict on a deletion of each row, which
      only tables without index fields ask for. */
  datatype Moment = Moment(time: int, takes: Bytes -> bool)

  predicate Expired(t: Table, row: Row, now: Moment) {
    t.HasTTL() && row.expiresAt > 0 && now.time > row.expiresAt
  }

  /** An expired row goes as soon as it is read, in one batch with its index entries; in a table
      without index fields the deletion goes through the write queue, which may refuse it. */
  predicate Retires(t: Table, pk: Bytes, row: Row, now: Moment)
    ensures Retires(t, pk, row, now) ==> Expired(t, row, now)
  {
    Expired(t, row, now) && (IndexedFields(t) != [] || now.takes(pk))
  }

  /** In plain numbers: a row is dead once the clock has passed a positive expiry, not when it reaches it,
      and never in a table without a lifetime. */
  lemma DeadInNumbers(t: Table, pk: Bytes, row: Row, now: Moment)
    ensures Expired(t, row, now) <==> t.ttl != 0 && 0 < row.expiresAt < now.time
    ensures Retires(t, pk, row, now) <==>
      t.ttl != 0 && 0 < row.expiresAt < now.time && (IndexedFields(t) != [] || now.takes(pk))
  {
  }

  /** What reading a key leaves. */
  function Touch(t: Table, rows: Rows, pk: Bytes, now: Moment): Rows {
    if pk in rows && Retires(t, pk, rows[pk], now) then rows - {pk} else rows
  }

  /** What a write of a key finds: in a table with index fields it reads the old row first. */
  function BeforeWrite(t: Table, rows: Rows, pk: Bytes, now: Moment): Rows {
    if IndexedFields(t) == [] then rows else Touch(t, rows, pk, now)
  }

  ghost predicate Conflict(t: Table, rows: Rows, rec: Record, pk: Bytes)
    requires t.WellFormed() && t.RecordOk(rec) && AllOk(t, rows)
  {
    exists p, i :: p in rows && p != pk && t.Unique(i) && rows[p].rec[i] == rec[i]
  }

  // ---------------------------------------------------------------- batches of the generated store

  /** Deletes, in field order, of the first n listed entries of a record. */
  function DropOps(t: Table, fs: seq<nat>, n: nat, rec: Record, pk: Bytes): seq<Op>
    requires t.WellFormed() && t.RecordOk(rec) && n <= |fs| && forall i :: i in fs ==> t.Indexed(i)
  {
    if n == 0 then []
    else DropOps(t, fs, n - 1, rec, pk) + [Delete(EntryKey(t, fs[n - 1], rec, pk))]
  }

  /** Puts, in field order, of the first n listed entries of a record. */
  function AddOps(t: Table, fs: seq<nat>, n: nat, rec: Record, pk: Bytes): seq<Op>
    requires t.WellFormed() && t.RecordOk(rec) && n <= |fs| && forall i :: i in fs ==> t.Indexed(i)
  {
    if n == 0 then []
    else AddOps(t, fs, n - 1, rec, pk) + [Put(EntryKey(t, fs[n - 1], rec, pk), pk)]
  }

  /** One of the first n listed fields has this entry key. */
  predicate Lists(t: Table, fs: seq<nat>, n: nat, rec: Record, pk: Bytes, k: Bytes)
    requires t.WellFormed() && t.RecordOk(rec) && n <= |fs| && forall i :: i in fs ==> t.Indexed(i)
  {
    exists j :: 0 <= j < n && EntryKey(t, fs[j], rec, pk) == k
  }

  lemma ListsStep(t: Table, fs: seq<nat>, n: nat, rec: Record, pk: Bytes, k: Bytes)
    requires t.WellFormed() && t.RecordOk(rec) && 0 < n <= |fs| && forall i :: i in fs ==> t.Indexed(i)
    ensures !Lists(t, fs, 0, rec, pk, k)
    ensures Lists(t, fs, n, rec, pk, k) <==> Lists(t, fs, n - 1, rec, pk, k) || EntryKey(t, fs[n - 1], rec, pk) == k
  {
    hide EntryKey, Table.WellFormed, Table.RecordOk;
  }

  lemma {:induction false} DropEffect(t: Table, fs: seq<nat>, n: nat, rec: Record, pk: Bytes, k: Bytes)
    requires t.WellFormed() && t.RecordOk(rec) && n <= |fs| && forall i :: i in fs ==> t.Indexed(i)
    ensures EffectOf(DropOps(t, fs, n, rec, pk), k)
         == if Lists(t, fs, n, rec, pk, k) then Removed else Untouched
  {
    if n > 0 {
      hide EntryKey, Lists, EffectOf, Table.WellFormed, Table.RecordOk;
      DropEffect(t, fs, n - 1, rec, pk, k);
      ListsStep(t, fs, n, rec, pk, k);
      var op := Op.Delete(EntryKey(t, fs[n - 1], rec, pk));
      EffectAppend(DropOps(t, fs, n - 1, rec, pk), [op], k);
      SingleEffect(op, k);
    }
  }

  lemma {:induction false} AddEffect(t: Table, fs: seq<nat>, n: nat, rec: Record, pk: Bytes, k: Bytes)
    requires t.WellFormed() && t.RecordOk(rec) && n <= |fs| && forall i :: i in fs ==> t.Indexed(i)
    ensures EffectOf(AddOps(t, fs, n, rec, pk), k)
         == if Lists(t, fs, n, rec, pk, k) then Written(pk) else Untouched
  {
    if n > 0 {
      hide EntryKey, Lists, EffectOf, Table.WellFormed, Table.RecordOk;
      AddEffect(t, fs, n - 1, rec, pk, k);
      ListsStep(t, fs, n, rec, pk, k);
      var op := Put(EntryKey(t, fs[n - 1], rec, pk), pk);
      EffectAppend(AddOps(t, fs, n - 1, rec, pk), [op], k);
      SingleEffect(op, k);
    }
  }

  /** The deletes for one record, unique entries first. */
  function DropAll(t: Table, rec: Record, pk: Bytes): seq<Op>
    requires t.WellFormed() && t.RecordOk(rec)
  {
    DropOps(t, UniqueFields(t), |UniqueFields(t)|, rec, pk) + DropOps(t, NormalFields(t), |NormalFields(t)|, rec, pk)
  }

  /** The puts of Create: unique entries first. */
  function AddAll(t: Table, rec: Record, pk: Bytes): seq<Op>
    requires t.WellFormed() && t.RecordOk(rec)
  {
    AddOps(t, UniqueFields(t), |UniqueFields(t)|, rec, pk) + AddOps(t, NormalFields(t), |NormalFields(t)|, rec, pk)
  }

  /** The puts of Update: entries in declaration order. */
  function AddInOrder(t: Table, rec: Record, pk: Bytes): seq<Op>
    requires t.WellFormed() && t.RecordOk(rec)
  {
    AddOps(t, IndexedFields(t), |IndexedFields(t)|, rec, pk)
  }

  lemma ListsWhole(t: Table, fs: seq<nat>, rec: Record, pk: Bytes, k: Bytes)
    requires t.WellFormed() && t.RecordOk(rec) && forall i :: i in fs ==> t.Indexed(i)
    ensures Lists(t, fs, |fs|, rec, pk, k) <==> exists i :: i in fs && EntryKey(t, i, rec, pk) == k
  {
    hide EntryKey, Table.WellFormed, Table.RecordOk;
    if i :| i in fs && EntryKey(t, i, rec, pk) == k {
      var j :| 0 <= j < |fs| && fs[j] == i;
      assert EntryKey(t, fs[j], rec, pk) == k;
    }
  }

  /** The entries of a record are those of its unique and of its normal fields, or of all its index
      fields in order. */
  lemma EntriesListed(t: Table, rec: Record, pk: Bytes, k: Bytes)
    requires t.WellFormed() && t.RecordOk(rec)
    ensures var us, ns, all := UniqueFields(t), NormalFields(t), IndexedFields(t);
      && (k in EntryKeys(t, rec, pk) <==> Lists(t, us, |us|, rec, pk, k) || Lists(t, ns, |ns|, rec, pk, k))
      && (k in EntryKeys(t, rec, pk) <==> Lists(t, all, |all|, rec, pk, k))
  {
    hide EntryKey, Lists, UniqueFields, NormalFields, IndexedFields, Table.WellFormed, Table.RecordOk;
    ListsWhole(t, UniqueFields(t), rec, pk, k);
    ListsWhole(t, NormalFields(t), rec, pk, k);
    ListsWhole(t, IndexedFields(t), rec, pk, k);
  }

  lemma DropAllEffect(t: Table, rec: Record, pk: Bytes, k: Bytes)
    requires t.WellFormed() && t.RecordOk(rec)
    ensures EffectOf(DropAll(t, rec, pk), k) == if k in EntryKeys(t, rec, pk) then Removed else Untouched
  {
    hide EntryKeys, Lists, DropOps, EffectOf, UniqueFields, NormalFields, IndexedFields, Table.WellFormed, Table.RecordOk;
    var us, ns := UniqueFields(t), NormalFields(t);
    EntriesListed(t, rec, pk, k);
    DropEffect(t, us, |us|, rec, pk, k);
    DropEffect(t, ns, |ns|, rec, pk, k);
    EffectAppend(DropOps(t, us, |us|, rec, pk), DropOps(t, ns, |ns|, rec, pk), k);
  }

  lemma AddAllEffect(t: Table, rec: Record, pk: Bytes, k: Bytes)
    requires t.WellFormed() && t.RecordOk(rec)
    ensures EffectOf(AddAll(t, rec, pk), k) == if k in EntryKeys(t, rec, pk) then Written(pk) else Untouched
  {
    hide EntryKeys, Lists, AddOps, EffectOf, UniqueFields, NormalFields, IndexedFields, Table.WellFormed, Table.RecordOk;
    var us, ns := UniqueFields(t), NormalFields(t);
    EntriesListed(t, rec, pk, k);
    AddEffect(t, us, |us|, rec, pk, k);
    AddEffect(t, ns, |ns|, rec, pk, k);
    EffectAppend(AddOps(t, us, |us|, rec, pk), AddOps(t, ns, |ns|, rec, pk), k);
  }

  lemma AddInOrderEffect(t: Table, rec: Record, pk: Bytes, k: Bytes)
    requires t.WellFormed() && t.RecordOk(rec)
    ensures EffectOf(AddInOrder(t, rec, pk), k) == if k in EntryKeys(t, rec, pk) then Written(pk) else Untouched
  {
    hide EntryKeys, Lists, AddOps, EffectOf, UniqueFields, NormalFields, IndexedFields, Table.WellFormed, Table.RecordOk;
    EntriesListed(t, rec, pk, k);
    AddEffect(t, IndexedFields(t), |IndexedFields(t)|, rec, pk, k);
  }

  // ---------------------------------------------------------------- what a batch does to the table

  /** A batch replaces the row of pk: old entries go, the data row and the new entries are written,
      new entries winning over old ones at the same key. */
  ghost predicate Replaces(z: Zstd, t: Table, rows: Rows, pk: Bytes, row: Row, ops: seq<Op>)
    requires t.WellFormed() && RowOk(t, pk, row) && (pk in rows ==> RowOk(t, pk, rows[pk]))
  {
    forall k :: EffectOf(ops, k) ==
      if k in EntryKeys(t, row.rec, pk) then Written(pk)
      else if pk in rows && k in EntryKeys(t, rows[pk].rec, pk) then Removed
      else if k == DataKey(t.hash, pk) then Written(Image(z, t, row))
      else Untouched
  }

  /** A batch removes the row of pk together with the entries it owns. */
  ghost predicate Erases(t: Table, rows: Rows, pk: Bytes, ops: seq<Op>)
    requires t.WellFormed() && (pk in rows ==> RowOk(t, pk, rows[pk]))
  {
    forall k :: EffectOf(ops, k) ==
      if pk in rows && k in EntryKeys(t, rows[pk].rec, pk) then Removed
      else if k == DataKey(t.hash, pk) then Removed
      else Untouched
  }

  function OldDrops(t: Table, rows: Rows, pk: Bytes): seq<Op>
    requires t.WellFormed() && (pk in rows ==> t.RecordOk(rows[pk].rec))
  {
    if pk in rows then DropAll(t, rows[pk].rec, pk) else []
  }

  /** Delete-old-then-put-new in one batch has the intended effect for either order of the puts. */
  lemma WriteBatchReplaces(z: Zstd, t: Table, rows: Rows, pk: Bytes, row: Row, inOrder: bool)
    requires t.WellFormed() && RowOk(t, pk, row) && (pk in rows ==> RowOk(t, pk, rows[pk]))
    ensures Replaces(z, t, rows, pk, row,
      [Put(DataKey(t.hash, pk), Image(z, t, row))] + OldDrops(t, rows, pk)
      + if inOrder then AddInOrder(t, row.rec, pk) else AddAll(t, row.rec, pk))
  {
    hide DropAll, AddAll, AddInOrder, EntryKeys, Image;
    var head := [Put(DataKey(t.hash, pk), Image(z, t, row))];
    var drops := OldDrops(t, rows, pk);
    var adds := if inOrder then AddInOrder(t, row.rec, pk) else AddAll(t, row.rec, pk);
    forall k ensures EffectOf(head + drops + adds, k) ==
      if k in EntryKeys(t, row.rec, pk) then Written(pk)
      else if pk in rows && k in EntryKeys(t, rows[pk].rec, pk) then Removed
      else if k == DataKey(t.hash, pk) then Written(Image(z, t, row))
      else Untouched
    {
      AddAllEffect(t, row.rec, pk, k);
      AddInOrderEffect(t, row.rec, pk, k);
      if pk in rows { DropAllEffect(t, rows[pk].rec, pk, k); }
      EffectAppend(head + drops, adds, k);
      EffectAppend(head, drops, k);
      SingleEffect(head[0], k);
    }
  }

  lemma SingleEffect(op: Op, k: Bytes)
    ensures EffectOf([op], k) == if op.key != k then Untouched else if op.Put? then Written(op.value) else Removed
  {
    assert [op][..0] == [];
  }

  lemma DeleteBatchErases(t: Table, rows: Rows, pk: Bytes)
    requires t.WellFormed() && (pk in rows ==> RowOk(t, pk, rows[pk]))
    ensures Erases(t, rows, pk, [Delete(DataKey(t.hash, pk))] + OldDrops(t, rows, pk))
  {
    hide DropAll, EntryKeys;
    var head := [Delete(DataKey(t.hash, pk))];
    forall k ensures EffectOf(head + OldDrops(t, rows, pk), k) ==
      if pk in rows && k in EntryKeys(t, rows[pk].rec, pk) then Removed
      else if k == DataKey(t.hash, pk) then Removed
      else Untouched
    {
      if pk in rows { DropAllEffect(t, rows[pk].rec, pk, k); }
      EffectAppend(head, OldDrops(t, rows, pk), k);
      SingleEffect(head[0], k);
    }
  }

  /** An entry of a row to be written that another row already owns would be a conflict. */
  lemma SharedEntryConflicts(t: Table, rows: Rows, rec: Record, pk: Bytes, p: Bytes, k: Bytes)
    requires t.WellFormed() && t.RecordOk(rec) && AllOk(t, rows)
    requires p in rows && p != pk
    requires k in EntryKeys(t, rec, pk) && k in EntryKeys(t, rows[p].rec, p)
    ensures Conflict(t, rows, rec, pk)
  {
    var i :| 0 <= i < |t.fields| && t.Indexed(i) && k == EntryKey(t, i, rec, pk);
    var j :| 0 <= j < |t.fields| && t.Indexed(j) && k == EntryKey(t, j, rows[p].rec, p);
    EntryKeyIdentity(t, i, rec, pk, j, rows[p].rec, p);
    assert t.Unique(i) && rows[p].rec[i] == rec[i];
  }

  lemma EffectsDecide(kv: KV, ops: seq<Op>)
    ensures forall k :: Lookup(Apply(kv, ops), k) == Outcome(Lookup(kv, k), EffectOf(ops, k))
  {
    forall k ensures Lookup(Apply(kv, ops), k) == Outcome(Lookup(kv, k), EffectOf(ops, k)) { ApplyLookup(kv, ops, k); }
  }

  /** Outside the index range a replacement changes one key. */
  lemma ReplacedData(z: Zstd, t: Table, kv: KV, rows: Rows, pk: Bytes, row: Row, ops: seq<Op>, k: Bytes)
    requires t.WellFormed() && AllOk(t, rows) && RowOk(t, pk, row) && Replaces(z, t, rows, pk, row, ops)
    requires !(TablePrefix(t.hash) <= k)
    ensures Lookup(Apply(kv, ops), k) == if k == DataKey(t.hash, pk) then Some(Image(z, t, row)) else Lookup(kv, k)
  {
    hide EntryKeys, Image, DataKey, RowOk, Apply, EffectOf;
    ApplyLookup(kv, ops, k);
  }

  lemma DataKeysApart(h: nat, p: Bytes, q: Bytes)
    ensures !(TablePrefix(h) <= DataKey(h, p)) && (DataKey(h, p) == DataKey(h, q) <==> p == q)
  {
    RangesDisjoint(h, h, DataKey(h, p));
    assert DataKey(h, p)[9..] == p && DataKey(h, q)[9..] == q;
  }

  lemma ReplaceData(z: Zstd, t: Table, kv: KV, rows: Rows, pk: Bytes, row: Row, ops: seq<Op>)
    requires t.WellFormed() && AllOk(t, rows) && DataExact(z, t, kv, rows) && RowOk(t, pk, row)
    requires Replaces(z, t, rows, pk, row, ops)
    ensures AllOk(t, rows[pk := row]) && DataExact(z, t, Apply(kv, ops), rows[pk := row])
    ensures SameForeign(t, kv, Apply(kv, ops))
  {
    hide EntryKeys, Image, DataKey, RowOk, Apply, EffectOf, Replaces, Table.WellFormed;
    var kv' := Apply(kv, ops);
    forall p | p in rows[pk := row]
      ensures Lookup(kv', DataKey(t.hash, p)) == Some(Image(z, t, rows[pk := row][p]))
    {
      DataKeysApart(t.hash, p, pk);
      ReplacedData(z, t, kv, rows, pk, row, ops, DataKey(t.hash, p));
    }
    forall k | k in kv' && DataPrefix(t.hash) <= k ensures k[9..] in rows[pk := row] {
      RangesDisjoint(t.hash, t.hash, k);
      ReplacedData(z, t, kv, rows, pk, row, ops, k);
    }
    forall k | Foreign(t, k) ensures Lookup(kv', k) == Lookup(kv, k) {
      ReplacedData(z, t, kv, rows, pk, row, ops, k);
      assert DataPrefix(t.hash) <= DataKey(t.hash, pk);
    }
  }

  lemma ReplaceIndex(z: Zstd, t: Table, kv: KV, rows: Rows, pk: Bytes, row: Row, ops: seq<Op>)
    requires t.WellFormed() && AllOk(t, rows) && IndexExact(t, kv, rows) && RowOk(t, pk, row)
    requires !Conflict(t, rows, row.rec, pk)
    requires Replaces(z, t, rows, pk, row, ops)
    requires AllOk(t, rows[pk := row])
    ensures IndexExact(t, Apply(kv, ops), rows[pk := row])
  {
    hide EntryKeys, Image, DataKey, RowOk, Apply, EffectOf, Conflict;
    var kv' := Apply(kv, ops);
    var rows' := rows[pk := row];
    EffectsDecide(kv, ops);
    forall p, k | p in rows' && k in EntryKeys(t, rows'[p].rec, p) ensures Lookup(kv', k) == Some(p) {
      assert DataPrefix(t.hash) <= DataKey(t.hash, pk);
      if p != pk && k in EntryKeys(t, row.rec, pk) {
        SharedEntryConflicts(t, rows, row.rec, pk, p, k);
      }
    }
    forall k | k in kv' && TablePrefix(t.hash) <= k
      ensures kv'[k] in rows' && k in EntryKeys(t, rows'[kv'[k]].rec, kv'[k])
    {
      assert Lookup(kv', k).Some? && DataPrefix(t.hash) <= DataKey(t.hash, pk);
      RangesDisjoint(t.hash, t.hash, k);
    }
  }

  /** Writing a row without a conflict keeps every index exact. */
  lemma ReplaceRefines(z: Zstd, t: Table, kv: KV, rows: Rows, pk: Bytes, row: Row, ops: seq<Op>)
    requires t.WellFormed() && Represents(z, t, kv, rows) && RowOk(t, pk, row)
    requires !Conflict(t, rows, row.rec, pk)
    requires Replaces(z, t, rows, pk, row, ops)
    ensures Represents(z, t, Apply(kv, ops), rows[pk := row])
    ensures SameForeign(t, kv, Apply(kv, ops))
  {
    hide Replaces, SameForeign, RowOk, DataExact, IndexExact;
    ReplaceData(z, t, kv, rows, pk, row, ops);
    ReplaceIndex(z, t, kv, rows, pk, row, ops);
  }

  lemma EraseData(z: Zstd, t: Table, kv: KV, rows: Rows, pk: Bytes, ops: seq<Op>)
    requires t.WellFormed() && AllOk(t, rows) && DataExact(z, t, kv, rows)
    requires Erases(t, rows, pk, ops)
    ensures AllOk(t, rows - {pk}) && DataExact(z, t, Apply(kv, ops), rows - {pk})
    ensures SameForeign(t, kv, Apply(kv, ops))
  {
    hide EntryKeys, Image, DataKey, RowOk, Apply, EffectOf;
    var kv' := Apply(kv, ops);
    EffectsDecide(kv, ops);
    forall p | p in rows - {pk} ensures Lookup(kv', DataKey(t.hash, p)) == Some(Image(z, t, rows[p])) {
      assert DataPrefix(t.hash) <= DataKey(t.hash, p) && DataKey(t.hash, p)[9..] == p;
      assert DataKey(t.hash, pk)[9..] == pk;
    }
    forall k | k in kv' && DataPrefix(t.hash) <= k ensures k[9..] in rows - {pk} {
      assert Lookup(kv', k).Some?;
      DataPrefixIff(t.hash, k);
    }
  }

  lemma EraseIndex(t: Table, kv: KV, rows: Rows, pk: Bytes, ops: seq<Op>)
    requires t.WellFormed() && AllOk(t, rows) && IndexExact(t, kv, rows)
    requires Erases(t, rows, pk, ops)
    requires AllOk(t, rows - {pk})
    ensures IndexExact(t, Apply(kv, ops), rows - {pk})
  {
    hide EntryKeys, DataKey, RowOk, Apply, EffectOf;
    var kv' := Apply(kv, ops);
    EffectsDecide(kv, ops);
    forall p, k | p in rows - {pk} && k in EntryKeys(t, rows[p].rec, p) ensures Lookup(kv', k) == Some(p) {
      assert DataPrefix(t.hash) <= DataKey(t.hash, pk);
      assert Lookup(kv, k) == Some(p);
    }
    forall k | k in kv' && TablePrefix(t.hash) <= k
      ensures kv'[k] in rows - {pk} && k in EntryKeys(t, rows[kv'[k]].rec, kv'[k])
    {
      assert Lookup(kv', k).Some?;
    }
  }

  /** Erasing a row keeps every index exact and touches nothing else. */
  lemma EraseRefines(z: Zstd, t: Table, kv: KV, rows: Rows, pk: Bytes, ops: seq<Op>)
    requires t.WellFormed() && Represents(z, t, kv, rows)
    requires Erases(t, rows, pk, ops)
    ensures Represents(z, t, Apply(kv, ops), rows - {pk})
    ensures SameForeign(t, kv, Apply(kv, ops))
  {
    hide Erases, SameForeign, RowOk, DataExact, IndexExact;
    EraseData(z, t, kv, rows, pk, ops);
    EraseIndex(t, kv, rows, pk, ops);
  }
}
