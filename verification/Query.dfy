/** The generated query builder and its two plans (internal/codegen/query.go). */
module Query {
  import opened ByteStrings
  import opened Encoding
  import opened Pebble
  import opened Schema
  import opened Serializer
  import opened TypedTable
  import opened TableScan
  import opened Database
  import opened RowScan
  import opened Where

  /** What a query was asked: its conditions in order, its limit (none when not positive) and the
      primary key it is to continue behind. */
  datatype Request = Request(conds: seq<Cond>, limit: int, cursor: Option<Bytes>)

  // ---------------------------------------------------------------- what a query means

  /** The keys a row must have to be returned; `from` is the first condition that is looked at. */
  ghost function Selected(t: Table, conds: seq<Cond>, rows: Rows, now: Moment, from: nat): Bytes -> bool
    requires t.WellFormed() && AllOk(t, rows) && CondsOk(t, conds)
  {
    pk => pk in rows && !Expired(t, rows[pk], now) && Matches(t, conds, rows[pk].rec, from)
  }

  /** All rows a query asks for, in primary key order, limit aside. */
  ghost function Answer(t: Table, rows: Rows, req: Request, now: Moment): (pks: seq<Bytes>)
    requires t.WellFormed() && AllOk(t, rows) && CondsOk(t, req.conds)
    ensures forall pk :: pk in pks ==> pk in rows
  {
    SortedSeq(set pk | pk in Behind(rows.Keys, req.cursor) && Selected(t, req.conds, rows, now, 0)(pk))
  }

  function Take(limit: int, pks: seq<Bytes>): seq<Bytes> {
    if 0 < limit < |pks| then pks[..limit] else pks
  }

  function RecordsOf(rows: Rows, pks: seq<Bytes>): (r: seq<Record>)
    requires forall pk :: pk in pks ==> pk in rows
    ensures |r| == |pks| && forall i :: 0 <= i < |pks| ==> r[i] == rows[pks[i]].rec
  {
    seq(|pks|, i requires 0 <= i < |pks| => rows[pks[i]].rec)
  }

  // ---------------------------------------------------------------- how a query is carried out

  /** The generator plans for one indexed field: the first in declaration order. */
  function PlanField(t: Table): (f: Option<nat>)
    ensures f.Some? ==> t.Indexed(f.value)
  {
    var idx := IndexedFields(t);
    if idx == [] then None else
      assert idx[0] in idx;
      Some(idx[0])
  }

  /** GenerateQuery's choice: the first indexed field that is not the primary key. */
  method ChooseIndexedField(t: Table) returns (f: Option<nat>)
    ensures f == PlanField(t)
    ensures f.Some? ==> f.value < |t.fields| && f.value != t.primary && t.fields[f.value].index != INDEX_NONE
    ensures forall j :: 0 <= j < (if f.Some? then f.value else |t.fields|) ==>
      j == t.primary || t.fields[j].index == INDEX_NONE
  {
    f := None;
    for i := 0 to |t.fields|
      invariant f.Some? ==> t.Indexed(f.value) && f.value < i
      invariant forall j :: 0 <= j < (if f.Some? then f.value else i) ==> !t.Indexed(j)
    {
      if i == t.primary { continue; }
      if t.fields[i].index != INDEX_NONE && f.None? { f := Some(i); }
    }
    forall j | 0 <= j < (if f.Some? then f.value else |t.fields|)
      ensures j == t.primary || t.fields[j].index == INDEX_NONE
    {
      assert !t.Indexed(j);
    }
    FirstSelected(t, t.Indexed, |t.fields|);
  }

  /** A selection keeps declaration order, so its head is the first field selected. */
  lemma {:induction false} FirstSelected(t: Table, p: int -> bool, n: nat)
    requires n <= |t.fields|
    ensures var sel := SelectFields(t, p, n);
      if sel == [] then forall j :: 0 <= j < n ==> !p(j)
      else p(sel[0]) && 0 <= sel[0] < n && forall j :: 0 <= j < sel[0] ==> !p(j)
  {
    if n > 0 { FirstSelected(t, p, n - 1); }
  }

  /** Exec takes the index when the first condition is equality on the planned field. */
  predicate UsesIndex(t: Table, conds: seq<Cond>) {
    |conds| > 0 && conds[0].op == "=" && PlanField(t) == Some(conds[0].field)
  }

  lemma {:induction false} ShortDecimal(n: nat)
    requires n < 1000
    ensures |Decimal(n)| <= 3
  {
    if n >= 10 { assert |Decimal(n / 10)| <= 2 by { if n >= 100 { assert |Decimal(n / 100)| == 1; } } }
  }

  function Listed(s: Bytes): (r: Bytes)
    ensures |s| <= |r| <= 4 * |s|
  {
    if |s| == 0 then []
    else
      ShortDecimal(s[0] as nat);
      if |s| == 1 then Decimal(s[0] as nat) else Decimal(s[0] as nat) + [32] + Listed(s[1..])
  }

  /** The value execIndexed looks for. A []byte argument goes through fmt's %v: the bytes 1, 2 are
      looked up as the text "[1 2]". */
  function Probe(typ: Type, v: Val): (p: Val)
    requires ValOk(typ, v)
    ensures Encodable(typ, p)
  {
    if typ.TBytes? then BytesV([91] + Listed(v.s) + [93]) else v
  }

  /** The rows the chosen plan visits, in its order. */
  ghost function Visited(t: Table, rows: Rows, req: Request): (pks: seq<Bytes>)
    requires t.WellFormed() && AllOk(t, rows) && CondsOk(t, req.conds)
    ensures forall pk :: pk in pks ==> pk in rows
  {
    if UsesIndex(t, req.conds) then
      var f := req.conds[0].field;
      SortedSeq(Reached(t, rows, f, Probe(t.fields[f].typ, req.conds[0].arg), req.cursor))
    else SortedSeq(Behind(rows.Keys, req.cursor))
  }

  /** The index plan does not look at the condition the index stands for. */
  function FirstCond(t: Table, conds: seq<Cond>): nat {
    if UsesIndex(t, conds) then 1 else 0
  }

  /** The rows the plan returns, limit aside. */
  ghost function Found(t: Table, rows: Rows, req: Request, now: Moment): (pks: seq<Bytes>)
    requires t.WellFormed() && AllOk(t, rows) && CondsOk(t, req.conds)
    ensures forall pk :: pk in pks ==> pk in rows
  {
    Filter(Selected(t, req.conds, rows, now, FirstCond(t, req.conds)), Visited(t, rows, req))
  }

  /** What Exec returns. */
  ghost function Returned(t: Table, rows: Rows, req: Request, now: Moment): seq<Record>
    requires t.WellFormed() && AllOk(t, rows) && CondsOk(t, req.conds)
  {
    RecordsOf(rows, Take(req.limit, Found(t, rows, req, now)))
  }

  /** What Exec is for: the first `limit` rows asked for. */
  ghost function Promised(t: Table, rows: Rows, req: Request, now: Moment): seq<Record>
    requires t.WellFormed() && AllOk(t, rows) && CondsOk(t, req.conds)
  {
    RecordsOf(rows, Take(req.limit, Answer(t, rows, req, now)))
  }

  /** The index plan is right for every request but two kinds: a cursor on a unique index, and a
      []byte argument. */
  predicate PlanFaithful(t: Table, req: Request)
    requires CondsOk(t, req.conds)
  {
    UsesIndex(t, req.conds) ==>
      var f := req.conds[0].field;
      !t.fields[f].typ.TBytes? && !(t.Unique(f) && req.cursor.Some?)
  }

  /** Both plans return the same rows in the same order, and these are the ones asked for. */
  lemma PlanEquivalence(t: Table, rows: Rows, req: Request, now: Moment)
    requires t.WellFormed() && AllOk(t, rows) && CondsOk(t, req.conds) && PlanFaithful(t, req)
    ensures Found(t, rows, req, now) == Answer(t, rows, req, now)
    ensures Returned(t, rows, req, now) == Promised(t, rows, req, now)
  {
    hide Table.WellFormed, AllOk, Selected, Reached;
    var p := Selected(t, req.conds, rows, now, FirstCond(t, req.conds));
    if UsesIndex(t, req.conds) {
      var f, v := req.conds[0].field, req.conds[0].arg;
      FilterSortedSeq(p, Reached(t, rows, f, v, req.cursor));
      IndexedRows(t, rows, req, now);
    } else {
      FilterSortedSeq(p, Behind(rows.Keys, req.cursor));
    }
  }

  lemma IndexedRows(t: Table, rows: Rows, req: Request, now: Moment)
    requires t.WellFormed() && AllOk(t, rows) && CondsOk(t, req.conds) && PlanFaithful(t, req) && UsesIndex(t, req.conds)
    ensures var p := Selected(t, req.conds, rows, now, 1);
      var reached := Reached(t, rows, req.conds[0].field, req.conds[0].arg, req.cursor);
      (set pk | pk in reached && p(pk)) == (set pk | pk in Behind(rows.Keys, req.cursor) && Selected(t, req.conds, rows, now, 0)(pk))
  {
    hide Table.WellFormed, Expired, Passes, Matches;
    forall pk | pk in rows
      ensures Matches(t, req.conds, rows[pk].rec, 0)
         <==> rows[pk].rec[req.conds[0].field] == req.conds[0].arg && Matches(t, req.conds, rows[pk].rec, 1)
    {
      assert RowOk(t, pk, rows[pk]);
      FirstConditionHolds(t, req.conds, rows[pk].rec);
    }
  }

  /** Splitting off the condition the index answers. */
  lemma FirstConditionHolds(t: Table, conds: seq<Cond>, rec: Record)
    requires CondsOk(t, conds) && t.RecordOk(rec) && |conds| > 0 && conds[0].op == "="
    ensures Matches(t, conds, rec, 0) <==> rec[conds[0].field] == conds[0].arg && Matches(t, conds, rec, 1)
  {
    assert First(conds, conds[0].field, "=") == 0;
    assert Holds(t, conds, 0, rec) <==> rec[conds[0].field] == conds[0].arg;
    assert forall j :: 0 <= j < |conds| && Holds(t, conds, j, rec) ==> Holds(t, conds, j, rec);
  }

  /** Which rows an index query finds: live, ahead of the cursor, matching the remaining conditions,
      and reached through the index under the value looked up. */
  predicate Reaches(t: Table, req: Request, rec: Record)
    requires CondsOk(t, req.conds) && t.RecordOk(rec) && UsesIndex(t, req.conds)
  {
    var f := req.conds[0].field;
    rec[f] == Probe(t.fields[f].typ, req.conds[0].arg) && !(t.Unique(f) && req.cursor.Some?)
  }

  predicate Ahead(cursor: Option<Bytes>, pk: Bytes) {
    cursor.Some? ==> Lt(cursor.value, pk)
  }

  lemma FoundRows(t: Table, rows: Rows, req: Request, now: Moment, pk: Bytes)
    requires t.WellFormed() && AllOk(t, rows) && CondsOk(t, req.conds) && UsesIndex(t, req.conds)
    ensures pk in Found(t, rows, req, now) <==>
      && pk in rows && !Expired(t, rows[pk], now) && Ahead(req.cursor, pk)
      && Matches(t, req.conds, rows[pk].rec, 1) && Reaches(t, req, rows[pk].rec)
  {
    hide Table.WellFormed, Expired, Matches;
    if pk in rows { assert RowOk(t, pk, rows[pk]); }
  }

  lemma AnswerRows(t: Table, rows: Rows, req: Request, now: Moment, pk: Bytes)
    requires t.WellFormed() && AllOk(t, rows) && CondsOk(t, req.conds)
    ensures pk in Answer(t, rows, req, now) <==>
      && pk in rows && !Expired(t, rows[pk], now) && Ahead(req.cursor, pk)
      && Matches(t, req.conds, rows[pk].rec, 0)
    ensures pk in rows ==> RowOk(t, pk, rows[pk])
  {
    hide Table.WellFormed, Expired, Matches;
  }

  // ---------------------------------------------------------------- stopping at the limit

  /** How many rows a scan visits before its limit is reached. */
  ghost function Visits(p: Bytes -> bool, pks: seq<Bytes>, limit: int, i: nat): (n: nat)
    requires i <= |pks|
    ensures i <= n <= |pks|
    decreases |pks| - i
  {
    if i == |pks| || (limit > 0 && |Filter(p, pks[..i])| >= limit) then i else Visits(p, pks, limit, i + 1)
  }

  /** Stopping there delivers the leading part of the whole result. */
  lemma StoppedEarly(p: Bytes -> bool, pks: seq<Bytes>, limit: int, i: nat)
    requires i <= |pks| && (limit > 0 ==> |Filter(p, pks[..i])| <= limit)
    requires i == |pks| || (limit > 0 && |Filter(p, pks[..i])| == limit)
    ensures Filter(p, pks[..i]) == Take(limit, Filter(p, pks))
    ensures Visits(p, pks, limit, i) == i
  {
    FilterAppend(p, pks[..i], pks[i..]);
    assert pks[..i] + pks[i..] == pks;
  }

  /** Visiting one more row. */
  lemma OneMore(p: Bytes -> bool, pks: seq<Bytes>, limit: int, i: nat)
    requires i < |pks|
    ensures Filter(p, pks[..i + 1]) == Filter(p, pks[..i]) + if p(pks[i]) then [pks[i]] else []
    ensures !(limit > 0 && |Filter(p, pks[..i])| >= limit) ==> Visits(p, pks, limit, i) == Visits(p, pks, limit, i + 1)
  {
    FilterAppend(p, pks[..i], [pks[i]]);
    assert pks[..i + 1] == pks[..i] + [pks[i]];
  }

  lemma NothingYet(p: Bytes -> bool, pks: seq<Bytes>)
    ensures Filter(p, pks[..0]) == []
  {
  }

  /** The field a condition text names; the primary key has no Where method. */
  function FieldNamed(t: Table, name: string, n: nat): (f: Option<nat>)
    requires n <= |t.fields|
    ensures f.Some? ==> f.value < n && f.value != t.primary && t.fields[f.value].goName == name
    ensures f.None? ==> forall i :: 0 <= i < n && i != t.primary ==> t.fields[i].goName != name
  {
    if n == 0 then None
    else if n - 1 != t.primary && t.fields[n - 1].goName == name then Some(n - 1)
    else FieldNamed(t, name, n - 1)
  }

  lemma NamedField(t: Table, f: nat)
    requires t.WellFormed() && f < |t.fields| && f != t.primary
    ensures ' ' !in t.fields[f].goName
    ensures FieldNamed(t, t.fields[f].goName, |t.fields|) == Some(f)
  {
  }

  class QueryBuilder {
    const db: DB
    const t: Table
    const z: Zstd
    var where: seq<string>
    var args: seq<Val>
    var limit: int
    var lastPK: Bytes
    var afterSet: bool
    ghost var conds: seq<Cond>

    /** The stored texts and arguments are those of the conditions asked for. */
    ghost predicate Built()
      reads this
      ensures Built() ==> t.WellFormed() && CondsOk(t, conds)
    {
      && t.WellFormed() && CondsOk(t, conds)
      && |where| == |args| == |conds|
      && forall j :: 0 <= j < |conds| ==>
           where[j] == CondText(t.fields[conds[j].field].goName, conds[j].op) && args[j] == conds[j].arg
    }

    ghost function Asked(): Request
      reads this
    {
      Request(conds, limit, if afterSet then Some(lastPK) else None)
    }

    constructor (db: DB, t: Table, z: Zstd)
      requires t.WellFormed()
      ensures Built() && this.db == db && this.t == t && this.z == z
      ensures Asked() == Request([], 0, None)
    {
      this.db, this.t, this.z := db, t, z;
      where, args, limit, lastPK, afterSet := [], [], 0, [], false;
      conds := [];
    }

    method AddWhere(field: nat, op: string, value: Val)
      requires Built() && CondOk(t, Cond(field, op, value))
      modifies this
      ensures Built() && Asked() == old(Asked()).(conds := old(conds) + [Cond(field, op, value)])
    {
      where := where + [CondText(t.fields[field].goName, op)];
      args := args + [value];
      conds := conds + [Cond(field, op, value)];
    }

    method Limit(n: int)
      requires Built()
      modifies this
      ensures Built() && Asked() == old(Asked()).(limit := n)
    {
      limit := n;
    }

    method After(id: Val)
      requires Built() && ValOk(t.fields[t.primary].typ, id)
      modifies this
      ensures Built() && Asked() == old(Asked()).(cursor := Some(EncodePk(t.fields[t.primary].typ, id)))
    {
      lastPK := EncodePk(t.fields[t.primary].typ, id);
      afterSet := true;
    }

    /** What splitting one stored condition yields. */
    lemma Resplit(j: nat)
      requires Built() && j < |conds|
      ensures var parts := Split(where[j]);
        && |parts| == 2
        && (' ' in conds[j].op ==> FieldNamed(t, parts[0], |t.fields|) == None)
        && (' ' !in conds[j].op ==>
              && parts == [t.fields[conds[j].field].goName, conds[j].op]
              && FieldNamed(t, parts[0], |t.fields|) == Some(conds[j].field))
    {
      hide Split, CondText;
      var c := conds[j];
      NamedField(t, c.field);
      SplitCondText(t.fields[c.field].goName, c.op);
      NoFieldWithBlank(t, Split(where[j])[0]);
    }

    /** compare<Field>. */
    method Compare(field: nat, actual: Val, op: string) returns (b: bool)
      requires Built() && field < |t.fields| && field != t.primary && ValOk(t.fields[field].typ, actual) && ' ' !in op
      ensures var k := First(conds, field, op);
        b <==> k < |conds| && Passes(t.fields[field].typ, op, actual, conds[k].arg)
    {
      hide Split, Passes, Table.WellFormed;
      var targetIdx := -1;
      NamedField(t, field);
      var i := 0;
      while i < |where| && targetIdx < 0
        invariant 0 <= i <= |where|
        invariant targetIdx < 0 ==> i <= First(conds, field, op)
        invariant targetIdx >= 0 ==> targetIdx == First(conds, field, op) < |conds|
      {
        var parts := SplitWhere(where[i]);
        Resplit(i);
        if |parts| == 2 && parts[0] == t.fields[field].goName && parts[1] == op {
          targetIdx := i;
        }
        i := i + 1;
      }
      if targetIdx < 0 || targetIdx >= |args| { return false; }
      return Passes(t.fields[field].typ, op, actual, args[targetIdx]);
    }

    /** matchWhere (from 0) and matchWhereTail (from 1). */
    method MatchWhere(item: Record, from: nat) returns (b: bool)
      requires Built() && t.RecordOk(item)
      ensures b <==> Matches(t, conds, item, from)
    {
      hide Split, Passes, Table.WellFormed, First;
      for i := 0 to |where|
        invariant forall j :: from <= j < i ==> Holds(t, conds, j, item)
      {
        if i < from { continue; }
        var parts := SplitWhere(where[i]);
        Resplit(i);
        if |parts| != 2 { continue; }
        var f := FieldNamed(t, parts[0], |t.fields|);
        if f.Some? {
          var ok := Compare(f.value, item[f.value], parts[1]);
          FirstIsFirst(conds, i);
          if !ok {
            assert !Holds(t, conds, i, item);
            return false;
          }
        }
      }
      return true;
    }

    /** One row of a scan: kept if it is live and matches. */
    method VisitRow(plan: Plan, iter: PrefixIterator, from: nat, now: Moment, ghost route: Route, ghost i: nat)
      returns (kept: Option<Record>, more: bool)
      requires Built() && this !in db.Repr && Scanning(db, z, t, plan, iter, now, route, i, true)
      modifies db.Repr, iter, iter.iter
      ensures Scanning(db, z, t, plan, iter, now, route, i + 1, more)
      ensures fresh(db.Repr - old(db.Repr))
      ensures var pk := route.pks[i];
        kept == if Selected(t, conds, route.rows, now, from)(pk) then Some(route.rows[pk].rec) else None
    {
      hide Scanning, SameForeign, Stored, DB.Valid, DB.Framed, DB.Coherent, Expired, Table.WellFormed, Represents, PrefixIterator.Inv,
        Cursor.Inv, Retired, Mapped, Built, Matches, CondsOk;
      DeadInNumbers(t, route.pks[i], route.rows[route.pks[i]], now);
      var r, _, next := ScanStep(db, z, t, plan, iter, now, route, i);
      more := next;
      if r.None? { return None, more; }
      assert RowOk(t, route.pks[i], route.rows[route.pks[i]]);
      var keep := MatchWhere(r.value, from);
      kept := if keep then r else None;
    }

    /** The loop of both plans: read the row under the cursor, retire it if it has expired, keep it
        if it matches, stop at the limit. */
    method Collect(plan: Plan, prefix: Bytes, cursor: Option<Bytes>, from: nat, now: Moment, ghost route: Route)
      returns (results: seq<Record>)
      requires Built() && db.Valid() && this !in db.Repr && prefix != []
      requires Stored(z, t, db.store, route.rows) && Mapped(z, t, plan, db.store, route)
      requires ScanFrom(db.store, prefix, cursor) == route.keys
      modifies db.Repr
      ensures db.Valid() && fresh(db.Repr - old(db.Repr)) && KeepsOthers(db, t)
      ensures db.closed ==> results == [] && db.store == old(db.store)
      ensures var p := Selected(t, conds, route.rows, now, from);
        !db.closed ==>
          && Stored(z, t, db.store, route.rows - Retired(t, route.rows, route.pks, Visits(p, route.pks, limit, 0), now))
          && results == RecordsOf(route.rows, Take(limit, Filter(p, route.pks)))
    {
      hide Scanning, SameForeign, Stored, DB.Valid, DB.Framed, DB.Coherent, Selected, Table.WellFormed, Represents, PrefixIterator.Inv,
        Cursor.Inv, Retired, AllOk, Mapped, ScanFrom, Built, CondsOk, Filter, Visits, Take;
      results := [];
      SameForeignChain(t, db.store, db.store, db.store);
      var iter, more := StartScan(db, z, t, plan, prefix, cursor, now, route);
      if iter == null { return; }
      ghost var p := Selected(t, conds, route.rows, now, from);
      ghost var i: nat := 0;
      NothingYet(p, route.pks);
      while more && !(limit > 0 && |results| >= limit)
        invariant Scanning(db, z, t, plan, iter, now, route, i, more)
        invariant fresh(db.Repr - old(db.Repr))
        invariant results == RecordsOf(route.rows, Filter(p, route.pks[..i]))
        invariant limit > 0 ==> |results| <= limit
        invariant Visits(p, route.pks, limit, 0) == Visits(p, route.pks, limit, i)
        decreases |route.pks| - i
      {
        OneMore(p, route.pks, limit, i);
        var kept, next := VisitRow(plan, iter, from, now, route, i);
        if kept.Some? {
          results := results + [kept.value];
        }
        more := next;
        i := i + 1;
      }
      StoppedEarly(p, route.pks, limit, i);
    }

    /** execFullScan: what was asked for, whatever the conditions. */
    method ExecFullScan(now: Moment, ghost rows: Rows, ghost req: Request) returns (results: seq<Record>)
      requires Built() && db.Valid() && this !in db.Repr && Stored(z, t, db.store, rows)
      requires req == Asked() && CondsOk(t, req.conds)
      modifies db.Repr
      ensures db.Valid() && fresh(db.Repr - old(db.Repr)) && KeepsOthers(db, t)
      ensures db.closed ==> results == [] && db.store == old(db.store)
      ensures !db.closed ==> results == Promised(t, rows, req, now)
      ensures !db.closed && !UsesIndex(t, req.conds) ==> Stored(z, t, db.store, AfterQuery(t, rows, req, now))
    {
      hide Stored, DB.Valid, Represents, Mapped, ScanFrom, Behind, Filter, UsesIndex, Selected;
      ghost var route := FullRoute(z, t, db.store, rows, req.cursor);
      WholeTablePrefix(t.hash);
      FilterSortedSeq(Selected(t, conds, rows, now, 0), Behind(rows.Keys, req.cursor));
      var cursor := if afterSet then Some(DataKey(t.hash, lastPK)) else None;
      results := Collect(FullScan, DataKey(t.hash, []), cursor, 0, now, route);
    }

    method ExecIndexed(now: Moment, ghost rows: Rows, ghost req: Request) returns (results: seq<Record>)
      requires Built() && db.Valid() && this !in db.Repr && Stored(z, t, db.store, rows)
      requires req == Asked() && CondsOk(t, req.conds) && UsesIndex(t, req.conds)
      modifies db.Repr
      ensures db.Valid() && fresh(db.Repr - old(db.Repr)) && KeepsOthers(db, t)
      ensures db.closed ==> results == [] && db.store == old(db.store)
      ensures !db.closed ==> results == Returned(t, rows, req, now)
      ensures !db.closed ==> Stored(z, t, db.store, AfterQuery(t, rows, req, now))
    {
      hide Stored, DB.Valid, Represents, Mapped, ScanFrom, Filter, EncodeIndexValue, Reached, Selected;
      var f := PlanField(t).value;
      var number := t.fields[f].number;
      ghost var probe := Probe(t.fields[f].typ, conds[0].arg);
      ghost var route := IndexRoute(z, t, db.store, rows, f, probe, req.cursor);
      var fieldValue := EncodeIndexValue(t.fields[f].typ, Probe(t.fields[f].typ, args[0]));
      var prefix := IndexPrefix(t.hash, number, fieldValue);
      var cursor := if afterSet then Some(IndexKey(t.hash, number, fieldValue, lastPK)) else None;
      results := Collect(IndexScan, prefix, cursor, 1, now, route);
    }

    /** Exec: for every request whose plan is faithful, the first `limit` rows asked for, in primary
        key order; expired rows visited on the way are retired. */
    method Exec(now: Moment, ghost rows: Rows, ghost req: Request) returns (results: seq<Record>)
      requires Built() && db.Valid() && this !in db.Repr && Stored(z, t, db.store, rows)
      requires req == Asked() && CondsOk(t, req.conds)
      modifies db.Repr
      ensures db.Valid() && fresh(db.Repr - old(db.Repr)) && KeepsOthers(db, t)
      ensures db.closed ==> results == [] && db.store == old(db.store)
      ensures !db.closed ==> results == Returned(t, rows, req, now)
      ensures !db.closed && PlanFaithful(t, req) ==> results == Promised(t, rows, req, now)
      ensures !db.closed ==> Stored(z, t, db.store, AfterQuery(t, rows, req, now))
    {
      hide Stored, DB.Valid, Represents, Returned, Promised, AfterQuery, Table.WellFormed, Split;
      if PlanFaithful(t, req) { PlanEquivalence(t, rows, req, now); }
      if |where| > 0 {
        var parts := SplitWhere(where[0]);
        Resplit(0);
        NamesAPlan(t, conds[0]);
        var f := PlanField(t);
        if f.Some? && |parts| == 2 && parts[0] == t.fields[f.value].goName && parts[1] == "=" {
          results := ExecIndexed(now, rows, req);
          return;
        }
      }
      results := ExecFullScan(now, rows, req);
    }
  }

  /** A query leaves the table without the expired rows it visited. */
  ghost function AfterQuery(t: Table, rows: Rows, req: Request, now: Moment): (rows': Rows)
    requires t.WellFormed() && AllOk(t, rows) && CondsOk(t, req.conds)
    ensures AllOk(t, rows')
  {
    var p := Selected(t, req.conds, rows, now, FirstCond(t, req.conds));
    var pks := Visited(t, rows, req);
    rows - Retired(t, rows, pks, Visits(p, pks, req.limit, 0), now)
  }

  lemma NamesAPlan(t: Table, c: Cond)
    requires t.WellFormed() && CondOk(t, c)
    ensures var f := PlanField(t);
      f.Some? ==> (t.fields[c.field].goName == t.fields[f.value].goName <==> c.field == f.value)
    ensures ' ' !in "="
  {
  }

  lemma NoFieldWithBlank(t: Table, name: string)
    requires t.WellFormed()
    ensures ' ' in name ==> FieldNamed(t, name, |t.fields|) == None
  {
  }
}
