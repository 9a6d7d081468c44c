/** What queries return, in plain arithmetic and byte strings: for the operators the Where methods take,
    which records come back and in which order (internal/codegen/query.go:224-279). */
module QueryMeaning {
  import opened ByteStrings
  import opened Encoding
  import opened Pebble
  import opened Schema
  import opened Serializer
  import opened TypedTable
  import opened TableScan
  import opened Database
  import opened RowScan
  import opened Store
  import opened Where
  import opened Query
  import opened Runs
  import Layout

  /** The records of a result: those of the listed keys, as many as the limit allows; the keys are in
      ascending order and are exactly the live ones behind the cursor whose record is to be kept. */
  ghost predicate Delivers(t: Table, rows: Rows, cursor: Option<Bytes>, now: Moment, limit: int,
                           records: seq<Record>, keys: seq<Bytes>, keep: Record -> bool)
  {
    && (forall i, j :: 0 <= i < j < |keys| ==> Lt(keys[i], keys[j]))
    && (forall pk :: pk in keys <==>
          && pk in rows && !(t.ttl != 0 && 0 < rows[pk].expiresAt < now.time)
          && (cursor.Some? ==> Lt(cursor.value, pk)) && keep(rows[pk].rec))
    && |records| == (if 0 < limit < |keys| then limit else |keys|)
    && forall i :: 0 <= i < |records| ==> keys[i] in rows && records[i] == rows[keys[i]].rec
  }

  /** What Exec promises, once it is known which records the conditions keep. */
  lemma PromisedDelivers(t: Table, rows: Rows, req: Request, now: Moment, keep: Record -> bool)
    requires t.WellFormed() && AllOk(t, rows) && CondsOk(t, req.conds)
    requires forall rec :: t.RecordOk(rec) ==> (Matches(t, req.conds, rec, 0) <==> keep(rec))
    ensures Delivers(t, rows, req.cursor, now, req.limit, Promised(t, rows, req, now), Answer(t, rows, req, now), keep)
  {
    hide Table.WellFormed, Matches, Answer, RowOk, Table.RecordOk;
    var keys := Answer(t, rows, req, now);
    AnswerSorts(t, rows, req, now);
    forall pk ensures pk in keys <==>
      && pk in rows && !(t.ttl != 0 && 0 < rows[pk].expiresAt < now.time)
      && (req.cursor.Some? ==> Lt(req.cursor.value, pk)) && keep(rows[pk].rec)
    {
      AnswerRows(t, rows, req, now, pk);
      if pk in rows { DeadInNumbers(t, pk, rows[pk], now); }
    }
    assert forall i :: 0 <= i < |keys| ==> keys[i] in keys;
  }

  lemma AnswerSorts(t: Table, rows: Rows, req: Request, now: Moment)
    requires t.WellFormed() && AllOk(t, rows) && CondsOk(t, req.conds)
    ensures forall i, j :: 0 <= i < j < |Answer(t, rows, req, now)| ==>
      Lt(Answer(t, rows, req, now)[i], Answer(t, rows, req, now)[j])
  {
  }

  // ---------------------------------------------------------------- the operators

  /** One condition, for every operator there is. */
  lemma OneCondition(t: Table, f: nat, op: string, v: Val, rec: Record)
    requires CondOk(t, Cond(f, op, v)) && t.RecordOk(rec) && ' ' !in op
    ensures op == "=" ==> (Matches(t, [Cond(f, op, v)], rec, 0) <==> rec[f] == v)
    ensures op == "!=" ==> (Matches(t, [Cond(f, op, v)], rec, 0) <==> rec[f] != v)
    ensures t.fields[f].typ.TInt? ==>
      && (op == ">" ==> (Matches(t, [Cond(f, op, v)], rec, 0) <==> rec[f].i > v.i))
      && (op == "<" ==> (Matches(t, [Cond(f, op, v)], rec, 0) <==> rec[f].i < v.i))
      && (op == ">=" ==> (Matches(t, [Cond(f, op, v)], rec, 0) <==> rec[f].i >= v.i))
      && (op == "<=" ==> (Matches(t, [Cond(f, op, v)], rec, 0) <==> rec[f].i <= v.i))
    ensures t.fields[f].typ.TString? && op == "LIKE" ==>
      (Matches(t, [Cond(f, op, v)], rec, 0) <==> exists x, y :: rec[f].s == x + v.s + y)
    ensures t.fields[f].typ.TInt? && op !in ["=", "!=", ">", "<", ">=", "<="] ==> !Matches(t, [Cond(f, op, v)], rec, 0)
    ensures t.fields[f].typ.TString? && op !in ["=", "!=", "LIKE"] ==> !Matches(t, [Cond(f, op, v)], rec, 0)
    ensures !t.fields[f].typ.TInt? && !t.fields[f].typ.TString? && op !in ["=", "!="] ==> !Matches(t, [Cond(f, op, v)], rec, 0)
  {
    var conds := [Cond(f, op, v)];
    assert First(conds, f, op) == 0;
    assert Matches(t, conds, rec, 0) <==> Holds(t, conds, 0, rec);
    if t.fields[f].typ.TString? && op == "LIKE" { ContainsMeans(rec[f].s, v.s); }
  }

  /** strings.Contains: something before, the pattern, something behind. */
  lemma ContainsMeans(hay: Bytes, needle: Bytes)
    ensures Contains(hay, needle) <==> exists x, y :: hay == x + needle + y
  {
    if Contains(hay, needle) {
      var i :| 0 <= i <= |hay| && needle <= hay[i..];
      assert hay == hay[..i] + needle + hay[i + |needle|..];
    }
    if x, y :| hay == x + needle + y {
      assert hay[|x|..] == needle + y;
    }
  }

  /** Two conditions with different operators mean both of them. */
  lemma TwoConditions(t: Table, c: Cond, d: Cond, rec: Record)
    requires CondOk(t, c) && CondOk(t, d) && t.RecordOk(rec)
    requires ' ' !in c.op && ' ' !in d.op && (c.field != d.field || c.op != d.op)
    ensures Matches(t, [c, d], rec, 0) <==> Matches(t, [c], rec, 0) && Matches(t, [d], rec, 0)
  {
    hide Passes;
    DistinctIsConjunction(t, [c, d], rec);
    DistinctIsConjunction(t, [c], rec);
    DistinctIsConjunction(t, [d], rec);
    assert OnItsFace(t, [c, d], 0, rec) == OnItsFace(t, [c], 0, rec);
    assert OnItsFace(t, [c, d], 1, rec) == OnItsFace(t, [d], 0, rec);
  }

  // ---------------------------------------------------------------- what a query leaves behind

  /** A query changes no row and removes only dead ones behind its cursor, in tables without index fields
      only those whose deletion the queue takes; one without a limit that scans the table removes all of
      these. */
  lemma QueryInNumbers(t: Table, rows: Rows, conds: seq<Cond>, limit: int, after: Option<Val>, now: Moment)
    requires t.WellFormed() && AllOk(t, rows) && ActionOk(t, DoQuery(conds, limit, after))
    ensures var rows' := Act(t, rows, DoQuery(conds, limit, after), now).0;
      && (forall pk :: pk in rows' ==> pk in rows && rows'[pk] == rows[pk])
      && (forall pk :: pk in rows && pk !in rows' ==> Removable(t, rows, CursorOf(t, after), now, pk))
      && (limit <= 0 && (conds == [] || conds[0].op != "=" || !t.Indexed(conds[0].field)) ==>
            forall pk :: pk in rows && Removable(t, rows, CursorOf(t, after), now, pk) ==> pk !in rows')
  {
    hide Table.WellFormed, RowOk, Removable, CursorOf, Selected;
    var req := Request(conds, limit, CursorOf(t, after));
    var p := Selected(t, req.conds, rows, now, FirstCond(t, req.conds));
    var pks := Visited(t, rows, req);
    var n := Visits(p, pks, req.limit, 0);
    RetiredAmong(t, rows, pks, n, now);
    VisitedAhead(t, rows, req);
    if limit <= 0 { VisitsAll(p, pks, limit, 0); }
    forall pk | pk in pks[..n] ensures Retires(t, pk, rows[pk], now) <==> Removable(t, rows, CursorOf(t, after), now, pk) {
      assert pk in pks;
      RemovableIff(t, rows, CursorOf(t, after), now, pk);
    }
    forall pk | pk in rows && Removable(t, rows, CursorOf(t, after), now, pk) ensures Ahead(req.cursor, pk) {
      RemovableIff(t, rows, CursorOf(t, after), now, pk);
    }
  }

  ghost predicate Removable(t: Table, rows: Rows, cursor: Option<Bytes>, now: Moment, pk: Bytes)
    requires pk in rows
  {
    && t.ttl != 0 && 0 < rows[pk].expiresAt < now.time && (IndexedFields(t) != [] || now.takes(pk))
    && (cursor.Some? ==> Lt(cursor.value, pk))
  }

  lemma RemovableIff(t: Table, rows: Rows, cursor: Option<Bytes>, now: Moment, pk: Bytes)
    requires pk in rows
    ensures Removable(t, rows, cursor, now, pk) <==> Retires(t, pk, rows[pk], now) && Ahead(cursor, pk)
  {
    DeadInNumbers(t, pk, rows[pk], now);
  }

  lemma VisitedAhead(t: Table, rows: Rows, req: Request)
    requires t.WellFormed() && AllOk(t, rows) && CondsOk(t, req.conds)
    ensures forall pk :: pk in Visited(t, rows, req) ==> Ahead(req.cursor, pk)
    ensures !UsesIndex(t, req.conds) ==> forall pk :: pk in Visited(t, rows, req) <==> pk in rows && Ahead(req.cursor, pk)
  {
  }

  lemma {:induction false} VisitsAll(p: Bytes -> bool, pks: seq<Bytes>, limit: int, i: nat)
    requires i <= |pks| && limit <= 0
    ensures Visits(p, pks, limit, i) == |pks|
    decreases |pks| - i
  {
    if i < |pks| { VisitsAll(p, pks, limit, i + 1); }
  }

  /** What an index query for a []byte looks up: decimal numbers between brackets, a blank between any
      two; other arguments are looked up as they are. */
  lemma ProbeBytes(s: Bytes, b: byte)
    ensures |s| < TWO32 ==> Probe(TBytes, BytesV(s)) == BytesV([91] + Listed(s) + [93])
    ensures Listed([]) == []
    ensures Listed(s + [b]) == if s == [] then Decimal(b as nat) else Listed(s) + [32] + Decimal(b as nat)
    ensures Layout.IsDecimal(Decimal(b as nat), b as int)
    ensures forall t, v :: ValOk(t, v) && !t.TBytes? ==> Probe(t, v) == v
  {
    Layout.DecimalDigits(b as nat);
    ListedSnoc(s, b);
  }

  lemma {:induction false} ListedSnoc(s: Bytes, b: byte)
    ensures Listed(s + [b]) == if s == [] then Decimal(b as nat) else Listed(s) + [32] + Decimal(b as nat)
  {
    hide Decimal;
    if |s| > 0 {
      ListedSnoc(s[1..], b);
      assert (s + [b])[1..] == s[1..] + [b];
    }
  }

  // ---------------------------------------------------------------- queries, as called

  ghost function FromBelow(f: nat, lo: int, hi: int): Record -> bool {
    (rec: Record) => f < |rec| && rec[f].IntV? && lo <= rec[f].i < hi
  }

  ghost function AboveUpTo(f: nat, lo: int, hi: int): Record -> bool {
    (rec: Record) => f < |rec| && rec[f].IntV? && lo < rec[f].i <= hi
  }

  ghost function Containing(f: nat, p: Bytes): Record -> bool {
    (rec: Record) => f < |rec| && rec[f].BytesV? && exists x, y :: rec[f].s == x + p + y
  }

  ghost function Equal(f: nat, v: Val, same: bool): Record -> bool {
    (rec: Record) => f < |rec| && (rec[f] == v <==> same)
  }

  /** Conditions >= lo and < hi on an integer field: exactly the live records behind the cursor with
      lo <= x < hi, in key order, up to the limit. */
  method SelectFromBelow(store: TableStore, f: nat, lo: int, hi: int, limit: int, after: Option<Val>, now: Moment, ghost rows: Rows)
    returns (records: seq<Record>, ghost keys: seq<Bytes>)
    requires store.db.Valid() && !store.db.closed && Stored(store.z, store.t, store.db.store, rows)
    requires after.Some? ==> ValOk(store.t.fields[store.t.primary].typ, after.value)
    requires f < |store.t.fields| && f != store.t.primary && store.t.fields[f].typ.TInt?
    requires store.t.fields[f].typ.kind.InRange(lo) && store.t.fields[f].typ.kind.InRange(hi)
    modifies store.db.Repr
    ensures Delivers(store.t, rows, CursorOf(store.t, after), now, limit, records, keys, FromBelow(f, lo, hi))
  {
    hide Table.WellFormed, DB.Valid, Stored, Answer, Promised, Returned, AfterQuery, Delivers, CursorOf, AllOk;
    var conds := [Cond(f, ">=", IntV(lo)), Cond(f, "<", IntV(hi))];
    ghost var req := Request(conds, limit, CursorOf(store.t, after));
    forall rec | store.t.RecordOk(rec) ensures Matches(store.t, conds, rec, 0) <==> FromBelow(f, lo, hi)(rec) {
      TwoConditions(store.t, conds[0], conds[1], rec);
      OneCondition(store.t, f, ">=", IntV(lo), rec);
      OneCondition(store.t, f, "<", IntV(hi), rec);
    }
    PromisedDelivers(store.t, rows, req, now, FromBelow(f, lo, hi));
    keys := Answer(store.t, rows, req, now);
    records := RunQuery(store, conds, limit, after, now, rows);
  }

  /** Conditions > lo and <= hi: those with lo < x <= hi. */
  method SelectAboveUpTo(store: TableStore, f: nat, lo: int, hi: int, limit: int, after: Option<Val>, now: Moment, ghost rows: Rows)
    returns (records: seq<Record>, ghost keys: seq<Bytes>)
    requires store.db.Valid() && !store.db.closed && Stored(store.z, store.t, store.db.store, rows)
    requires after.Some? ==> ValOk(store.t.fields[store.t.primary].typ, after.value)
    requires f < |store.t.fields| && f != store.t.primary && store.t.fields[f].typ.TInt?
    requires store.t.fields[f].typ.kind.InRange(lo) && store.t.fields[f].typ.kind.InRange(hi)
    modifies store.db.Repr
    ensures Delivers(store.t, rows, CursorOf(store.t, after), now, limit, records, keys, AboveUpTo(f, lo, hi))
  {
    hide Table.WellFormed, DB.Valid, Stored, Answer, Promised, Returned, AfterQuery, Delivers, CursorOf, AllOk;
    var conds := [Cond(f, ">", IntV(lo)), Cond(f, "<=", IntV(hi))];
    ghost var req := Request(conds, limit, CursorOf(store.t, after));
    forall rec | store.t.RecordOk(rec) ensures Matches(store.t, conds, rec, 0) <==> AboveUpTo(f, lo, hi)(rec) {
      TwoConditions(store.t, conds[0], conds[1], rec);
      OneCondition(store.t, f, ">", IntV(lo), rec);
      OneCondition(store.t, f, "<=", IntV(hi), rec);
    }
    PromisedDelivers(store.t, rows, req, now, AboveUpTo(f, lo, hi));
    keys := Answer(store.t, rows, req, now);
    records := RunQuery(store, conds, limit, after, now, rows);
  }

  /** LIKE p on a string field: those whose value is something, p, and something. */
  method SelectContaining(store: TableStore, f: nat, v: Val, limit: int, after: Option<Val>, now: Moment, ghost rows: Rows)
    returns (records: seq<Record>, ghost keys: seq<Bytes>)
    requires store.db.Valid() && !store.db.closed && Stored(store.z, store.t, store.db.store, rows)
    requires after.Some? ==> ValOk(store.t.fields[store.t.primary].typ, after.value)
    requires f < |store.t.fields| && f != store.t.primary && ValOk(store.t.fields[f].typ, v)
    requires store.t.fields[f].typ.TString?
    modifies store.db.Repr
    ensures Delivers(store.t, rows, CursorOf(store.t, after), now, limit, records, keys, Containing(f, v.s))
  {
    hide Table.WellFormed, DB.Valid, Stored, Answer, Promised, Returned, AfterQuery, Delivers, CursorOf, AllOk;
    var conds := [Cond(f, "LIKE", v)];
    ghost var req := Request(conds, limit, CursorOf(store.t, after));
    forall rec | store.t.RecordOk(rec) ensures Matches(store.t, conds, rec, 0) <==> Containing(f, v.s)(rec) {
      OneCondition(store.t, f, "LIKE", v, rec);
    }
    PromisedDelivers(store.t, rows, req, now, Containing(f, v.s));
    keys := Answer(store.t, rows, req, now);
    records := RunQuery(store, conds, limit, after, now, rows);
  }

  /** Equality with a value, or inequality, on any field. An equality that goes through an index must
      not be one of the two kinds the index gets wrong. */
  method SelectEqual(store: TableStore, f: nat, v: Val, same: bool, limit: int, after: Option<Val>, now: Moment, ghost rows: Rows)
    returns (records: seq<Record>, ghost keys: seq<Bytes>)
    requires store.db.Valid() && !store.db.closed && Stored(store.z, store.t, store.db.store, rows)
    requires after.Some? ==> ValOk(store.t.fields[store.t.primary].typ, after.value)
    requires f < |store.t.fields| && f != store.t.primary && ValOk(store.t.fields[f].typ, v)
    requires same && PlanField(store.t) == Some(f) ==>
      !store.t.fields[f].typ.TBytes? && !(store.t.Unique(f) && after.Some?)
    modifies store.db.Repr
    ensures Delivers(store.t, rows, CursorOf(store.t, after), now, limit, records, keys, Equal(f, v, same))
  {
    hide Table.WellFormed, DB.Valid, Stored, Answer, Promised, Returned, AfterQuery, Delivers, AllOk;
    var conds := [Cond(f, if same then "=" else "!=", v)];
    ghost var req := Request(conds, limit, CursorOf(store.t, after));
    forall rec | store.t.RecordOk(rec) ensures Matches(store.t, conds, rec, 0) <==> Equal(f, v, same)(rec) {
      OneCondition(store.t, f, if same then "=" else "!=", v, rec);
    }
    PromisedDelivers(store.t, rows, req, now, Equal(f, v, same));
    keys := Answer(store.t, rows, req, now);
    records := RunQuery(store, conds, limit, after, now, rows);
  }
}
