/** What prefix scans deliver over the byte image of a table. */
module TableScan {
  import opened ByteStrings
  import opened Encoding
  import opened Pebble
  import opened Schema
  import opened Serializer
  import opened TypedTable

  /** Primary keys behind a cursor; all of them when there is none. */
  function Behind(pks: set<Bytes>, cursor: Option<Bytes>): set<Bytes> {
    set pk | pk in pks && (cursor.Some? ==> Lt(cursor.value, pk))
  }

  function ScanFrom(kv: KV, prefix: Bytes, cursor: Option<Bytes>): seq<Bytes> {
    if cursor.Some? then ScanKeysAfter(kv, prefix, cursor.value) else ScanKeys(kv, prefix)
  }

  function UnderPrefix(prefix: Bytes, cursor: Option<Bytes>): Option<Bytes> {
    if cursor.Some? then Some(prefix + cursor.value) else None
  }

  /** A scan whose keys are prefix + pk lists them in primary key order. */
  lemma ScanIsOrdered(kv: KV, prefix: Bytes, pks: set<Bytes>, cursor: Option<Bytes>)
    requires forall k :: k in kv && prefix <= k <==> exists pk :: pk in pks && k == prefix + pk
    ensures ScanFrom(kv, prefix, UnderPrefix(prefix, cursor)) == Prepend(prefix, SortedSeq(Behind(pks, cursor)))
  {
    var s := Behind(pks, cursor);
    var target := set pk | pk in s :: prefix + pk;
    PrependSorted(prefix, s);
    if cursor.Some? {
      var c := cursor.value;
      forall k ensures k in kv && prefix <= k && Lt(prefix + c, k) <==> k in target {
        if k in kv && prefix <= k {
          var pk :| pk in pks && k == prefix + pk;
          LtCancel(prefix, c, pk);
        }
        if k in target {
          var pk :| pk in s && k == prefix + pk;
          LtCancel(prefix, c, pk);
        }
      }
      assert (set k | k in kv && prefix <= k && Lt(prefix + c, k)) == target;
    } else {
      assert (set k | k in kv && prefix <= k) == target;
    }
  }

  /** A full scan visits the rows in primary key order. */
  lemma DataScan(z: Zstd, t: Table, kv: KV, rows: Rows, cursor: Option<Bytes>)
    requires t.WellFormed() && Represents(z, t, kv, rows)
    ensures ScanFrom(kv, DataPrefix(t.hash), UnderPrefix(DataPrefix(t.hash), cursor))
         == Prepend(DataPrefix(t.hash), SortedSeq(Behind(rows.Keys, cursor)))
  {
    hide Image, EntryKeys;
    var prefix := DataPrefix(t.hash);
    forall k ensures k in kv && prefix <= k <==> exists pk :: pk in rows.Keys && k == prefix + pk {
      if k in kv && prefix <= k {
        DataPrefixIff(t.hash, k);
        assert k[9..] in rows.Keys && k == prefix + k[9..];
      }
      if pk :| pk in rows.Keys && k == prefix + pk {
        assert k == DataKey(t.hash, pk);
        assert Lookup(kv, DataKey(t.hash, pk)).Some?;
      }
    }
    ScanIsOrdered(kv, prefix, rows.Keys, cursor);
  }

  /** The rows that carry value v in field i. */
  ghost function Holders(t: Table, rows: Rows, i: int, v: Val): set<Bytes>
    requires t.WellFormed() && AllOk(t, rows) && 0 <= i < |t.fields|
  {
    set pk | pk in rows && rows[pk].rec[i] == v
  }

  function FieldPrefix(t: Table, i: int, v: Val): Bytes
    requires t.WellFormed() && t.Indexed(i) && Encodable(t.fields[i].typ, v)
  {
    IndexPrefix(t.hash, t.fields[i].number, EncodeIndexValue(t.fields[i].typ, v))
  }

  /** An entry key starts with the prefix of field i and value v exactly when it is the entry of
      that field in a row with that value. */
  lemma EntryUnderPrefix(t: Table, i: int, v: Val, j: int, rec: Record, pk: Bytes)
    requires t.WellFormed() && t.RecordOk(rec) && t.Indexed(i) && t.Indexed(j) && Encodable(t.fields[i].typ, v)
    ensures FieldPrefix(t, i, v) <= EntryKey(t, j, rec, pk) <==> i == j && rec[j] == v
    ensures i == j && rec[j] == v ==>
      EntryKey(t, j, rec, pk) == FieldPrefix(t, i, v) + if t.Unique(i) then [] else pk
  {
    hide IndexPrefix, EncodeIndexValue;
    var vi := EncodeIndexValue(t.fields[i].typ, v);
    var vj := EncodeIndexValue(t.fields[j].typ, rec[j]);
    var suffix := if t.Unique(j) then [] else pk;
    assert EntryKey(t, j, rec, pk) == IndexKey(t.hash, t.fields[j].number, vj, suffix);
    IndexPrefixIff(t.hash, t.fields[i].number, vi, t.hash, t.fields[j].number, vj, suffix);
    if i == j { EncodeIndexValueInjective(t.fields[i].typ, v, rec[j]); }
  }

  /** Which stored keys an index scan of field i and value v meets: the entries of the rows that
      carry v, each holding its row's primary key. */
  lemma ScannedEntry(z: Zstd, t: Table, kv: KV, rows: Rows, i: int, v: Val, k: Bytes)
    requires t.WellFormed() && Represents(z, t, kv, rows) && t.Indexed(i) && Encodable(t.fields[i].typ, v)
    requires k in kv && FieldPrefix(t, i, v) <= k
    ensures kv[k] in Holders(t, rows, i, v)
    ensures k == FieldPrefix(t, i, v) + if t.Unique(i) then [] else kv[k]
  {
    hide EntryKey, DataExact, IndexPrefix;
    assert TablePrefix(t.hash) <= FieldPrefix(t, i, v) <= k;
    var pk := kv[k];
    var j :| 0 <= j < |t.fields| && t.Indexed(j) && k == EntryKey(t, j, rows[pk].rec, pk);
    EntryUnderPrefix(t, i, v, j, rows[pk].rec, pk);
  }

  lemma HolderScanned(z: Zstd, t: Table, kv: KV, rows: Rows, i: int, v: Val, pk: Bytes)
    requires t.WellFormed() && Represents(z, t, kv, rows) && t.Indexed(i) && Encodable(t.fields[i].typ, v)
    requires pk in Holders(t, rows, i, v)
    ensures Lookup(kv, FieldPrefix(t, i, v) + if t.Unique(i) then [] else pk) == Some(pk)
  {
    hide EntryKey, DataExact, IndexPrefix;
    EntryUnderPrefix(t, i, v, i, rows[pk].rec, pk);
    assert EntryKey(t, i, rows[pk].rec, pk) in EntryKeys(t, rows[pk].rec, pk);
  }

  /** A normal index scan visits exactly the rows with that value, in primary key order. */
  lemma NormalIndexScan(z: Zstd, t: Table, kv: KV, rows: Rows, i: int, v: Val, cursor: Option<Bytes>)
    requires t.WellFormed() && Represents(z, t, kv, rows) && t.Normal(i) && Encodable(t.fields[i].typ, v)
    ensures ScanFrom(kv, FieldPrefix(t, i, v), UnderPrefix(FieldPrefix(t, i, v), cursor))
         == Prepend(FieldPrefix(t, i, v), SortedSeq(Behind(Holders(t, rows, i, v), cursor)))
  {
    hide FieldPrefix, Represents, Holders, ScanFrom, UnderPrefix, Behind;
    var prefix := FieldPrefix(t, i, v);
    forall k ensures k in kv && prefix <= k <==> exists pk :: pk in Holders(t, rows, i, v) && k == prefix + pk {
      if k in kv && prefix <= k { ScannedEntry(z, t, kv, rows, i, v, k); }
      if pk :| pk in Holders(t, rows, i, v) && k == prefix + pk { HolderScanned(z, t, kv, rows, i, v, pk); }
    }
    ScanIsOrdered(kv, prefix, Holders(t, rows, i, v), cursor);
  }

  /** A unique index scan meets at most one entry, whose key is the prefix itself; it lies before
      every cursor. */
  lemma UniqueIndexScan(z: Zstd, t: Table, kv: KV, rows: Rows, i: int, v: Val, cursor: Option<Bytes>)
    requires t.WellFormed() && Represents(z, t, kv, rows) && t.Unique(i) && Encodable(t.fields[i].typ, v)
    ensures ScanFrom(kv, FieldPrefix(t, i, v), UnderPrefix(FieldPrefix(t, i, v), cursor))
         == if cursor.Some? || Holders(t, rows, i, v) == {} then [] else [FieldPrefix(t, i, v)]
  {
    hide FieldPrefix, Represents, Holders;
    var prefix := FieldPrefix(t, i, v);
    var hs := Holders(t, rows, i, v);
    forall k ensures k in kv && prefix <= k <==> hs != {} && k == prefix {
      if k in kv && prefix <= k {
        ScannedEntry(z, t, kv, rows, i, v, k);
        assert k == prefix;
      }
      if hs != {} && k == prefix {
        var pk :| pk in hs;
        HolderScanned(z, t, kv, rows, i, v, pk);
        assert k == prefix + [];
      }
    }
    if cursor.Some? {
      var c := prefix + cursor.value;
      PrefixNotAbove(prefix, c);
      forall k ensures !(k in kv && prefix <= k && Lt(c, k)) {
        if k == prefix {
          assert c == prefix + cursor.value;
        }
      }
      assert (set k | k in kv && prefix <= k && Lt(c, k)) == {};
    } else if hs == {} {
      assert (set k | k in kv && prefix <= k) == {};
    } else {
      assert (set k | k in kv && prefix <= k) == {prefix};
      SortedUnique([prefix], SortedSeq({prefix}));
    }
  }
}
