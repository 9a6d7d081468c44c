/** Where the index plan does not return what was asked for (internal/codegen/query.go): the exact
    condition on the request, and requests that meet it. */
module PlanFaults {
  import opened ByteStrings
  import opened Encoding
  import opened Pebble
  import opened Schema
  import opened Serializer
  import opened TypedTable
  import opened Where
  import opened Query

  /** The plan is wrong for some content of the table. */
  ghost predicate Wrong(t: Table, req: Request, now: Moment)
    requires t.WellFormed() && CondsOk(t, req.conds)
  {
    exists rows :: AllOk(t, rows) && Found(t, rows, req, now) != Answer(t, rows, req, now)
  }

  /** A record the plan gets wrong: it satisfies every condition but the first, it lies ahead of the
      cursor, and it is either wanted and not reached or reached and not wanted. */
  predicate Misjudged(t: Table, req: Request, rec: Record)
    requires t.WellFormed() && CondsOk(t, req.conds) && UsesIndex(t, req.conds) && t.RecordOk(rec)
  {
    && Matches(t, req.conds, rec, 1) && Ahead(req.cursor, PkOf(t, rec))
    && (rec[req.conds[0].field] == req.conds[0].arg) != Reaches(t, req, rec)
  }

  /** On a table of one live row the plan is wrong exactly when it misjudges that row. */
  lemma OneRow(t: Table, req: Request, now: Moment, rec: Record)
    requires t.WellFormed() && CondsOk(t, req.conds) && UsesIndex(t, req.conds) && t.RecordOk(rec)
    ensures var pk := PkOf(t, rec);
      var rows := map[pk := Row(rec, 0)];
      && AllOk(t, rows)
      && (Misjudged(t, req, rec) ==> Found(t, rows, req, now) != Answer(t, rows, req, now))
      && (pk in Found(t, rows, req, now) <==>
            Matches(t, req.conds, rec, 1) && Ahead(req.cursor, pk) && Reaches(t, req, rec))
      && (pk in Answer(t, rows, req, now) <==> Matches(t, req.conds, rec, 0) && Ahead(req.cursor, pk))
  {
    hide Table.WellFormed, Matches, Table.RecordOk, Reaches, Found, Answer;
    var pk := PkOf(t, rec);
    var rows := map[pk := Row(rec, 0)];
    assert RowOk(t, pk, rows[pk]);
    FoundRows(t, rows, req, now, pk);
    AnswerRows(t, rows, req, now, pk);
    FirstConditionHolds(t, req.conds, rec);
  }

  /** The exact condition: an index query is wrong for some table exactly when it misjudges some
      record. */
  lemma WrongIff(t: Table, req: Request, now: Moment)
    requires t.WellFormed() && CondsOk(t, req.conds) && UsesIndex(t, req.conds)
    ensures Wrong(t, req, now) <==> exists rec :: t.RecordOk(rec) && Misjudged(t, req, rec)
  {
    hide Table.WellFormed, Matches, Table.RecordOk, Reaches;
    if Wrong(t, req, now) {
      var rows: Rows :| AllOk(t, rows) && Found(t, rows, req, now) != Answer(t, rows, req, now);
      var pk := Differ(t, rows, req, now);
      FoundRows(t, rows, req, now, pk);
      AnswerRows(t, rows, req, now, pk);
      FirstConditionHolds(t, req.conds, rows[pk].rec);
      assert Misjudged(t, req, rows[pk].rec);
    }
    if rec :| t.RecordOk(rec) && Misjudged(t, req, rec) {
      OneRow(t, req, now, rec);
    }
  }

  /** Found and Answer are both sorted, so they differ only by a key that is in one of them. */
  lemma Differ(t: Table, rows: Rows, req: Request, now: Moment) returns (pk: Bytes)
    requires t.WellFormed() && AllOk(t, rows) && CondsOk(t, req.conds)
    requires Found(t, rows, req, now) != Answer(t, rows, req, now)
    ensures (pk in Found(t, rows, req, now)) != (pk in Answer(t, rows, req, now))
    ensures pk in rows && RowOk(t, pk, rows[pk])
  {
    hide Table.WellFormed, Selected, Answer, RowOk;
    var found, answer := Found(t, rows, req, now), Answer(t, rows, req, now);
    FilterSorted(Selected(t, req.conds, rows, now, FirstCond(t, req.conds)), Visited(t, rows, req));
    AnswerIsSorted(t, rows, req, now);
    if forall k :: k in found <==> k in answer {
      assert Elements(found) == Elements(answer);
      SortedUnique(found, answer);
      assert false;
    }
    pk :| (pk in found) != (pk in answer);
  }

  lemma AnswerIsSorted(t: Table, rows: Rows, req: Request, now: Moment)
    requires t.WellFormed() && AllOk(t, rows) && CondsOk(t, req.conds)
    ensures Sorted(Answer(t, rows, req, now))
  {
  }

  // ---------------------------------------------------------------- a cursor on a unique index

  /** Exactly when a cursor on a unique index loses rows: when the table could hold a matching row
      behind the cursor at all. */
  lemma UniqueCursorWrongIff(t: Table, req: Request, now: Moment)
    requires t.WellFormed() && CondsOk(t, req.conds)
    requires UsesIndex(t, req.conds) && t.Unique(req.conds[0].field) && req.cursor.Some?
    ensures Wrong(t, req, now)
       <==> exists rec :: t.RecordOk(rec) && Matches(t, req.conds, rec, 0) && Lt(req.cursor.value, PkOf(t, rec))
  {
    hide Table.WellFormed, Matches, Table.RecordOk, Wrong;
    WrongIff(t, req, now);
    forall rec | t.RecordOk(rec)
      ensures Misjudged(t, req, rec) <==> Matches(t, req.conds, rec, 0) && Lt(req.cursor.value, PkOf(t, rec))
    {
      FirstConditionHolds(t, req.conds, rec);
    }
  }

  /** Before the call: with an integer key and the equality alone, the query is wrong exactly when the
      cursor's id is below the largest id there is. */
  lemma UniqueCursorWrongForIds(t: Table, f: nat, v: Val, limit: int, id: int, now: Moment)
    requires t.WellFormed() && t.fields[t.primary].typ.TInt? && t.fields[t.primary].typ.kind.InRange(id)
    requires PlanField(t) == Some(f) && t.Unique(f) && ValOk(t.fields[f].typ, v)
    ensures var kind := t.fields[t.primary].typ.kind;
      Wrong(t, Request([Cond(f, "=", v)], limit, Some(EncodeOrdered(kind, id))), now) <==> kind.InRange(id + 1)
  {
    hide Table.WellFormed, Wrong, EncodeOrdered, Passes;
    var kind := t.fields[t.primary].typ.kind;
    var req := Request([Cond(f, "=", v)], limit, Some(EncodeOrdered(kind, id)));
    UniqueCursorWrongIff(t, req, now);
    if kind.InRange(id + 1) {
      var rec := RecordWith(t, f, v)[t.primary := IntV(id + 1)];
      OrderedOrder(kind, id, id + 1);
      OneCondition(t, f, v, rec);
    }
    if rec: Record :| t.RecordOk(rec) && Matches(t, req.conds, rec, 0) && Lt(req.cursor.value, PkOf(t, rec)) {
      OrderedOrder(kind, id, rec[t.primary].i);
    }
  }

  lemma OneCondition(t: Table, f: nat, v: Val, rec: Record)
    requires f < |t.fields| && f != t.primary && ValOk(t.fields[f].typ, v) && t.RecordOk(rec)
    ensures Matches(t, [Cond(f, "=", v)], rec, 0) <==> rec[f] == v
    ensures Matches(t, [Cond(f, "=", v)], rec, 1)
  {
    FirstConditionHolds(t, [Cond(f, "=", v)], rec);
  }

  /** The first indexed field is the planned one. */
  lemma PlannedField(t: Table, f: nat)
    requires t.Indexed(f) && forall i :: 0 <= i < f ==> !t.Indexed(i)
    ensures PlanField(t) == Some(f)
  {
    FirstSelected(t, t.Indexed, |t.fields|);
    assert f in IndexedFields(t);
  }

  /** For instance: one user with id 1 and the empty e-mail address, asked for by that address behind
      id 0. */
  lemma UniqueCursorExample(now: Moment)
    ensures USER.WellFormed()
    ensures var rec := RecordWith(USER, 0, IntV(1));
      var pk := EncodeOrdered(Int64, 1);
      var rows := map[pk := Row(rec, 0)];
      var req := Request([Cond(2, "=", BytesV([]))], 0, Some(EncodeOrdered(Int64, 0)));
      && AllOk(USER, rows) && CondsOk(USER, req.conds)
      && Found(USER, rows, req, now) == [] && pk in Answer(USER, rows, req, now)
  {
    UserPlan();
    hide Table.WellFormed, Table.Indexed, PlanField, Found, Answer, EncodeOrdered, Reaches;
    UserTypes();
    var rec := RecordWith(USER, 0, IntV(1));
    var pk := EncodeOrdered(Int64, 1);
    var rows := map[pk := Row(rec, 0)];
    var req := Request([Cond(2, "=", BytesV([]))], 0, Some(EncodeOrdered(Int64, 0)));
    OneRow(USER, req, now, rec);
    OrderedOrder(Int64, 0, 1);
    OneCondition(USER, 2, BytesV([]), rec);
    UniqueCursorFindsNothing(USER, rows, req, now);
  }

  lemma UserPlan()
    ensures USER.WellFormed() && PlanField(USER) == Some(2) && USER.Unique(2)
  {
    hide Table.WellFormed, Table.Indexed;
    UserWellFormed();
    UserIndexes();
    PlannedField(USER, 2);
  }

  lemma UserTypes()
    ensures USER.primary == 0 && |USER.fields| == 6
    ensures USER.fields[0].typ == TInt(Int64) && USER.fields[2].typ == TString
  {
  }

  /** A cursor on a unique index query: nothing is found, whatever the table holds. */
  lemma UniqueCursorFindsNothing(t: Table, rows: Rows, req: Request, now: Moment)
    requires t.WellFormed() && AllOk(t, rows) && CondsOk(t, req.conds)
    requires UsesIndex(t, req.conds) && t.Unique(req.conds[0].field) && req.cursor.Some?
    ensures Found(t, rows, req, now) == []
  {
    hide Table.WellFormed, Matches;
    assert Visited(t, rows, req) == [];
  }

  // ---------------------------------------------------------------- a []byte argument

  lemma ProbeDiffers(v: Val)
    requires ValOk(TBytes, v)
    ensures Probe(TBytes, v) != v
  {
    assert |Probe(TBytes, v).s| > |v.s|;
  }

  /** Exactly when an indexed []byte query is wrong: when, ahead of the cursor and satisfying the other
      conditions, the table could hold a row with the value asked for, which is lost, or one with the
      text looked up instead, which is returned although it does not satisfy the first condition. */
  lemma BytesArgumentWrongIff(t: Table, req: Request, now: Moment)
    requires t.WellFormed() && CondsOk(t, req.conds)
    requires UsesIndex(t, req.conds) && t.fields[req.conds[0].field].typ.TBytes?
    ensures Wrong(t, req, now) <==>
      exists rec :: t.RecordOk(rec) && Ahead(req.cursor, PkOf(t, rec)) && Matches(t, req.conds, rec, 1)
        && (rec[req.conds[0].field] == req.conds[0].arg || Reaches(t, req, rec))
  {
    hide Table.WellFormed, Matches, Wrong;
    WrongIff(t, req, now);
    ProbeDiffers(req.conds[0].arg);
    forall rec | t.RecordOk(rec)
      ensures Misjudged(t, req, rec) <==>
        && Ahead(req.cursor, PkOf(t, rec)) && Matches(t, req.conds, rec, 1)
        && (rec[req.conds[0].field] == req.conds[0].arg || Reaches(t, req, rec))
    {
    }
  }

  /** For any content of the table: no row that satisfies the first condition is ever found, so what
      is found and what was asked for have nothing in common. */
  lemma BytesArgumentMisses(t: Table, rows: Rows, req: Request, now: Moment)
    requires t.WellFormed() && AllOk(t, rows) && CondsOk(t, req.conds)
    requires UsesIndex(t, req.conds) && t.fields[req.conds[0].field].typ.TBytes?
    ensures forall pk :: pk in Found(t, rows, req, now) ==> rows[pk].rec[req.conds[0].field] != req.conds[0].arg
    ensures forall pk :: pk in Found(t, rows, req, now) ==> pk !in Answer(t, rows, req, now)
  {
    hide Table.WellFormed, Found, Answer, Matches;
    ProbeDiffers(req.conds[0].arg);
    forall pk | pk in Found(t, rows, req, now)
      ensures rows[pk].rec[req.conds[0].field] != req.conds[0].arg && pk !in Answer(t, rows, req, now)
    {
      FoundRows(t, rows, req, now, pk);
      AnswerRows(t, rows, req, now, pk);
      FirstConditionHolds(t, req.conds, rows[pk].rec);
    }
  }

  /** A table with an indexed []byte field. */
  const BLOB: Table := Table(7,
    [Field("Id", TInt(Int64), 1, INDEX_NONE, false), Field("Tag", TBytes, 2, INDEX_NORMAL, false)], 0, 0)

  lemma BlobWellFormed()
    ensures BLOB.WellFormed() && PlanField(BLOB) == Some(1)
  {
    PlannedField(BLOB, 1);
  }

  /** For instance: asked for Tag = the byte 1, the query does not find the row whose tag is that byte,
      and does find the row whose tag is the text "[1]". */
  lemma BytesArgumentExample(now: Moment)
    ensures BLOB.WellFormed()
    ensures var pk := EncodeOrdered(Int64, 1);
      var req := Request([Cond(1, "=", BytesV([1]))], 0, None);
      var wanted := map[pk := Row([IntV(1), BytesV([1])], 0)];
      var other := map[pk := Row([IntV(1), BytesV([91, 49, 93])], 0)];
      && AllOk(BLOB, wanted) && AllOk(BLOB, other) && CondsOk(BLOB, req.conds)
      && pk !in Found(BLOB, wanted, req, now) && pk in Answer(BLOB, wanted, req, now)
      && pk in Found(BLOB, other, req, now) && pk !in Answer(BLOB, other, req, now)
  {
    hide Table.WellFormed, Found, Answer, EncodeOrdered, PlanField;
    BlobWellFormed();
    var req := Request([Cond(1, "=", BytesV([1]))], 0, None);
    assert Probe(TBytes, BytesV([1])) == BytesV([91, 49, 93]);
    var wanted, other := [IntV(1), BytesV([1])], [IntV(1), BytesV([91, 49, 93])];
    OneRow(BLOB, req, now, wanted);
    OneRow(BLOB, req, now, other);
    OneCondition(BLOB, 1, BytesV([1]), wanted);
    OneCondition(BLOB, 1, BytesV([1]), other);
  }
}
