/** Pagination as a client does it: queries in the middle of a run of other calls, each continuing
    behind the last record of the page before (docs/api.md:226-228). */
module PagedRuns {
  import opened ByteStrings
  import opened Pebble
  import opened Schema
  import opened Serializer
  import opened TypedTable
  import opened TableScan
  import opened Where
  import opened Query
  import opened Store
  import opened Runs
  import Pagination

  /** The argument of After for the next page: the id of the last record, or the old one after an empty
      page. */
  function Continue(t: Table, r: Response, after: Option<Val>): Option<Val> {
    if r.Listing? && r.records != [] && t.primary < |r.records[|r.records| - 1]|
    then Some(r.records[|r.records| - 1][t.primary]) else after
  }

  /** One client's pages among the calls of a run: query number i is call at[i]. */
  datatype Client = Client(table: nat, conds: seq<Cond>, limit: nat, start: Option<Val>, at: seq<nat>)

  function Argument(t: Table, c: Client, responses: seq<Response>, i: nat): Option<Val>
    requires i <= |c.at| && forall m :: 0 <= m < |c.at| ==> c.at[m] < |responses|
  {
    if i == 0 then c.start else Continue(t, responses[c.at[i - 1]], Argument(t, c, responses, i - 1))
  }

  /** Every query of the client asks for its conditions and limit behind the page before. */
  ghost predicate Paging(stores: seq<TableStore>, contents: seq<Rows>, calls: seq<Call>, c: Client)
    requires ContentsOk(stores, contents) && CallsOk(stores, calls)
    ensures Paging(stores, contents, calls, c) ==>
      && c.table < |stores| && c.limit > 0 && stores[c.table].t.WellFormed() && CondsOk(stores[c.table].t, c.conds)
      && (c.start.Some? ==> ValOk(stores[c.table].t.fields[stores[c.table].t.primary].typ, c.start.value))
      && (forall m :: 0 <= m < |c.at| ==> c.at[m] < |calls|)
  {
    && c.table < |stores| && c.limit > 0
    && (forall m :: 0 <= m < |c.at| ==> c.at[m] < |calls|)
    && (forall i :: 0 <= i < |c.at| ==>
          && calls[c.at[i]].table == c.table
          && calls[c.at[i]].action
             == DoQuery(c.conds, c.limit, Argument(stores[c.table].t, c, AbstractRun(stores, contents, calls).1, i)))
    && (c.start.Some? ==> ValOk(stores[c.table].t.fields[stores[c.table].t.primary].typ, c.start.value))
    && CondsOk(stores[c.table].t, c.conds)
    && CursorsFaithful(stores[c.table].t, c.conds)
  }

  /** The plan is right with any cursor. */
  predicate CursorsFaithful(t: Table, conds: seq<Cond>)
    requires CondsOk(t, conds)
  {
    UsesIndex(t, conds) ==> !t.fields[conds[0].field].typ.TBytes? && !t.Unique(conds[0].field)
  }

  /** The table as query i finds it. */
  ghost function TableAt(stores: seq<TableStore>, contents: seq<Rows>, calls: seq<Call>, c: Client, i: nat): (rows: Rows)
    requires ContentsOk(stores, contents) && CallsOk(stores, calls) && Paging(stores, contents, calls, c) && i < |c.at|
    ensures stores[c.table].t.WellFormed() && AllOk(stores[c.table].t, rows)
  {
    Before(stores, contents, calls, c.at[i])[c.table]
  }

  /** The keys that are live and match when query i is made. */
  ghost function HitsAt(stores: seq<TableStore>, contents: seq<Rows>, calls: seq<Call>, c: Client, i: nat): set<Bytes>
    requires ContentsOk(stores, contents) && CallsOk(stores, calls) && Paging(stores, contents, calls, c) && i < |c.at|
  {
    Pagination.Hits(stores[c.table].t, TableAt(stores, contents, calls, c, i), c.conds, calls[c.at[i]].now)
  }

  ghost function AllHits(stores: seq<TableStore>, contents: seq<Rows>, calls: seq<Call>, c: Client): (tables: seq<set<Bytes>>)
    requires ContentsOk(stores, contents) && CallsOk(stores, calls) && Paging(stores, contents, calls, c)
    ensures |tables| == |c.at| && forall i :: 0 <= i < |c.at| ==> tables[i] == HitsAt(stores, contents, calls, c, i)
  {
    seq(|c.at|, i requires 0 <= i < |c.at| => HitsAt(stores, contents, calls, c, i))
  }

  /** Page i of the key sets met by the client. */
  ghost function PageKeys(stores: seq<TableStore>, contents: seq<Rows>, calls: seq<Call>, c: Client, i: nat): seq<Bytes>
    requires ContentsOk(stores, contents) && CallsOk(stores, calls) && Paging(stores, contents, calls, c) && i < |c.at|
  {
    Pagination.PageAt(AllHits(stores, contents, calls, c), c.limit, CursorOf(stores[c.table].t, c.start), i)
  }

  /** The records of a page carry the page's keys. */
  predicate Carries(t: Table, rows: Rows, page: seq<Bytes>, response: Response)
    requires t.WellFormed() && AllOk(t, rows)
  {
    && response.Listing? && |response.records| == |page|
    && forall j :: 0 <= j < |page| ==>
         page[j] in rows && response.records[j] == rows[page[j]].rec && t.RecordOk(response.records[j])
         && PkOf(t, response.records[j]) == page[j]
  }

  /** The query itself: its records are those of one page. */
  lemma QueryCarries(t: Table, rows: Rows, conds: seq<Cond>, limit: nat, after: Option<Val>, now: Moment)
    requires t.WellFormed() && AllOk(t, rows) && ActionOk(t, DoQuery(conds, limit, after)) && CursorsFaithful(t, conds)
    ensures Carries(t, rows, Pagination.Page(Pagination.Hits(t, rows, conds, now), limit, CursorOf(t, after)),
      Act(t, rows, DoQuery(conds, limit, after), now).1)
  {
    hide Table.WellFormed, Selected, AfterQuery, EncodePk, PkOf;
    var req := Request(conds, limit, CursorOf(t, after));
    Pagination.QueryIsPage(t, rows, req, now);
    var page := Pagination.Page(Pagination.Hits(t, rows, conds, now), limit, CursorOf(t, after));
    forall j | 0 <= j < |page| ensures page[j] in rows && RowOk(t, page[j], rows[page[j]]) {
      assert page[j] in page;
      Pagination.PageSorted(Pagination.Hits(t, rows, conds, now), limit, CursorOf(t, after));
    }
  }

  /** The cursor handed on by the client is the cursor behind the page it was shown. */
  lemma CursorHandedOn(t: Table, rows: Rows, page: seq<Bytes>, response: Response, after: Option<Val>)
    requires t.WellFormed() && AllOk(t, rows) && Carries(t, rows, page, response)
    requires after.Some? ==> ValOk(t.fields[t.primary].typ, after.value)
    ensures var next := Continue(t, response, after);
      && (next.Some? ==> ValOk(t.fields[t.primary].typ, next.value))
      && CursorOf(t, next) == Pagination.Next(page, CursorOf(t, after))
  {
  }

  /** Call at[i] is the client's query, and answers on the table it finds. */
  lemma ClientCall(stores: seq<TableStore>, contents: seq<Rows>, calls: seq<Call>, c: Client, i: nat)
    requires ContentsOk(stores, contents) && CallsOk(stores, calls) && Paging(stores, contents, calls, c) && i < |c.at|
    ensures var t := stores[c.table].t;
      var responses := AbstractRun(stores, contents, calls).1;
      var query := DoQuery(c.conds, c.limit, Argument(t, c, responses, i));
      && ActionOk(t, query) && CursorsFaithful(t, c.conds)
      && responses[c.at[i]] == Act(t, TableAt(stores, contents, calls, c, i), query, calls[c.at[i]].now).1
  {
    hide AbstractRun, Act, Before, ContentsOk, CursorsFaithful, Argument;
    ResponseAt(stores, contents, calls, c.at[i]);
  }

  /** Every page of the client is the corresponding page over the key sets it met. */
  lemma {:induction false} PageOfCall(stores: seq<TableStore>, contents: seq<Rows>, calls: seq<Call>, c: Client, i: nat)
    requires ContentsOk(stores, contents) && CallsOk(stores, calls) && Paging(stores, contents, calls, c) && i < |c.at|
    ensures var t := stores[c.table].t;
      var after := Argument(t, c, AbstractRun(stores, contents, calls).1, i);
      && (after.Some? ==> ValOk(t.fields[t.primary].typ, after.value))
      && CursorOf(t, after) == Pagination.CursorAt(AllHits(stores, contents, calls, c), c.limit, CursorOf(t, c.start), i)
    ensures Carries(stores[c.table].t, TableAt(stores, contents, calls, c, i), PageKeys(stores, contents, calls, c, i),
      AbstractRun(stores, contents, calls).1[c.at[i]])
  {
    hide AbstractRun, Act, TableAt, Carries, Pagination.Page, Pagination.Hits, Pagination.Next, Continue, CursorsFaithful, Paging,
      ContentsOk, CallsOk, CursorOf, Table.WellFormed, AllOk, ActionOk, CondsOk;
    var t := stores[c.table].t;
    var responses := AbstractRun(stores, contents, calls).1;
    ClientCall(stores, contents, calls, c, i);
    QueryArgument(t, c.conds, c.limit, Argument(t, c, responses, i));
    if i > 0 {
      PageOfCall(stores, contents, calls, c, i - 1);
      CursorHandedOn(t, TableAt(stores, contents, calls, c, i - 1), PageKeys(stores, contents, calls, c, i - 1),
        responses[c.at[i - 1]], Argument(t, c, responses, i - 1));
    }
    QueryCarries(t, TableAt(stores, contents, calls, c, i), c.conds, c.limit, Argument(t, c, responses, i), calls[c.at[i]].now);
  }

  lemma QueryArgument(t: Table, conds: seq<Cond>, limit: int, after: Option<Val>)
    requires t.WellFormed() && ActionOk(t, DoQuery(conds, limit, after))
    ensures after.Some? ==> ValOk(t.fields[t.primary].typ, after.value)
  {
  }

  /** Record k of a response is the row with this key. */
  predicate Shows(t: Table, r: Response, k: nat, pk: Bytes)
    requires t.WellFormed()
  {
    r.Listing? && k < |r.records| && t.RecordOk(r.records[k]) && PkOf(t, r.records[k]) == pk
  }

  /** Pages and the responses that carry them: a key that is on one page once is in one record. */
  lemma OnceAmong(t: Table, tables: seq<set<Bytes>>, n: nat, start: Option<Bytes>, found: seq<Rows>, shown: seq<Response>, pk: Bytes)
    returns (i: nat, j: nat)
    requires t.WellFormed() && n > 0 && |tables| == |found| == |shown| > 0
    requires forall m :: 0 <= m < |found| ==> AllOk(t, found[m])
    requires forall m :: 0 <= m < |shown| ==> Carries(t, found[m], Pagination.PageAt(tables, n, start, m), shown[m])
    requires shown[|shown| - 1].Listing? && |shown[|shown| - 1].records| < n
    requires Ahead(start, pk) && forall m :: 0 <= m < |tables| ==> pk in tables[m]
    ensures i < |shown| && Shows(t, shown[i], j, pk)
    ensures pk in found[i] && shown[i].records[j] == found[i][pk].rec
    ensures forall m, k :: 0 <= m < |shown| && 0 <= k && Shows(t, shown[m], k, pk) ==> m == i && k == j
  {
    hide Pagination.PageAt, PkOf, Table.RecordOk, Table.WellFormed, AllOk;
    i := Pagination.DeliveredExactlyOnce(tables, n, start, pk);
    var page := Pagination.PageAt(tables, n, start, i);
    j :| 0 <= j < |page| && page[j] == pk;
    forall m, k | 0 <= m < |shown| && 0 <= k && Shows(t, shown[m], k, pk) ensures m == i && k == j {
      assert Pagination.PageAt(tables, n, start, m)[k] == pk;
      assert pk in Pagination.PageAt(tables, n, start, m);
    }
  }

  /** What the client was shown, page by page. */
  ghost function Shown(stores: seq<TableStore>, contents: seq<Rows>, calls: seq<Call>, c: Client): (pages: seq<Response>)
    requires ContentsOk(stores, contents) && CallsOk(stores, calls) && Paging(stores, contents, calls, c)
    ensures |pages| == |c.at| && forall i :: 0 <= i < |c.at| ==> pages[i] == AbstractRun(stores, contents, calls).1[c.at[i]]
  {
    var responses := AbstractRun(stores, contents, calls).1;
    seq(|c.at|, i requires 0 <= i < |c.at| => responses[c.at[i]])
  }

  /** The tables its queries found. */
  ghost function Tables(stores: seq<TableStore>, contents: seq<Rows>, calls: seq<Call>, c: Client): (found: seq<Rows>)
    requires ContentsOk(stores, contents) && CallsOk(stores, calls) && Paging(stores, contents, calls, c)
    ensures |found| == |c.at|
    ensures forall i :: 0 <= i < |c.at| ==> found[i] == TableAt(stores, contents, calls, c, i) && AllOk(stores[c.table].t, found[i])
  {
    seq(|c.at|, i requires 0 <= i < |c.at| => TableAt(stores, contents, calls, c, i))
  }

  lemma PagesCarried(stores: seq<TableStore>, contents: seq<Rows>, calls: seq<Call>, c: Client)
    requires ContentsOk(stores, contents) && CallsOk(stores, calls) && Paging(stores, contents, calls, c)
    ensures forall m :: 0 <= m < |c.at| ==>
      Carries(stores[c.table].t, Tables(stores, contents, calls, c)[m], PageKeys(stores, contents, calls, c, m),
        Shown(stores, contents, calls, c)[m])
  {
    hide AbstractRun, TableAt, Tables, Shown, Paging, CallsOk, ContentsOk, Table.WellFormed, AllOk, Carries, CondsOk, PageKeys;
    forall m | 0 <= m < |c.at|
      ensures Carries(stores[c.table].t, Tables(stores, contents, calls, c)[m], PageKeys(stores, contents, calls, c, m),
        Shown(stores, contents, calls, c)[m])
    {
      PageOfCall(stores, contents, calls, c, m);
    }
  }

  /** A client pages through a table while calls of any kind go on around it, until a page comes back
      short: a row that is live and matches at each of its queries is among the records exactly once,
      with the content it had when that page was fetched. */
  lemma DeliveredOnceInRun(stores: seq<TableStore>, contents: seq<Rows>, calls: seq<Call>, c: Client, pk: Bytes)
    returns (i: nat, j: nat)
    requires ContentsOk(stores, contents) && CallsOk(stores, calls) && Paging(stores, contents, calls, c) && |c.at| > 0
    requires var last := Shown(stores, contents, calls, c)[|c.at| - 1]; last.Listing? && |last.records| < c.limit
    requires Ahead(CursorOf(stores[c.table].t, c.start), pk)
    requires forall m :: 0 <= m < |c.at| ==> pk in HitsAt(stores, contents, calls, c, m)
    ensures var t, shown := stores[c.table].t, Shown(stores, contents, calls, c);
      && i < |shown| && Shows(t, shown[i], j, pk)
      && (forall m, k :: 0 <= m < |shown| && 0 <= k && Shows(t, shown[m], k, pk) ==> m == i && k == j)
      && pk in Tables(stores, contents, calls, c)[i]
      && shown[i].records[j] == Tables(stores, contents, calls, c)[i][pk].rec
  {
    hide AbstractRun, TableAt, Tables, Shown, HitsAt, Paging, CallsOk, ContentsOk, PkOf, Table.RecordOk, Table.WellFormed, CursorOf,
      AllOk, Carries, CondsOk, Shows;
    PagesCarried(stores, contents, calls, c);
    i, j := OnceAmong(stores[c.table].t, AllHits(stores, contents, calls, c), c.limit, CursorOf(stores[c.table].t, c.start),
      Tables(stores, contents, calls, c), Shown(stores, contents, calls, c), pk);
  }
}
