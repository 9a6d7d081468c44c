/** Keyset pagination: queries with a limit, each continuing behind the last primary key of the page
    before it (docs/api.md:226-228). A page depends on the table only through the set of primary keys
    that are live and match when it is fetched. */
module Pagination {
  import opened ByteStrings
  import opened Encoding
  import opened Pebble
  import opened Schema
  import opened TypedTable
  import opened TableScan
  import opened Where
  import opened Query

  type Cursor = Option<Bytes>

  /** The live matching keys of a table. */
  ghost function Hits(t: Table, rows: Rows, conds: seq<Cond>, now: Moment): set<Bytes>
    requires t.WellFormed() && AllOk(t, rows) && CondsOk(t, conds)
  {
    set pk | pk in rows && Selected(t, conds, rows, now, 0)(pk)
  }

  /** One page over a set of keys. */
  function Page(keys: set<Bytes>, n: int, cursor: Cursor): seq<Bytes> {
    Take(n, SortedSeq(Behind(keys, cursor)))
  }

  /** A query with a limit is a page over the keys that match. */
  lemma QueryIsPage(t: Table, rows: Rows, req: Request, now: Moment)
    requires t.WellFormed() && AllOk(t, rows) && CondsOk(t, req.conds)
    ensures Take(req.limit, Answer(t, rows, req, now)) == Page(Hits(t, rows, req.conds, now), req.limit, req.cursor)
  {
    hide Table.WellFormed, AllOk, Selected;
    assert (set pk | pk in Behind(rows.Keys, req.cursor) && Selected(t, req.conds, rows, now, 0)(pk))
        == Behind(Hits(t, rows, req.conds, now), req.cursor);
  }

  /** The cursor a client passes on: the last key of the page, or the old cursor after an empty one. */
  function Next(page: seq<Bytes>, cursor: Cursor): Cursor {
    if page == [] then cursor else Some(page[|page| - 1])
  }

  lemma PageSorted(keys: set<Bytes>, n: int, cursor: Cursor)
    ensures Sorted(Page(keys, n, cursor))
    ensures forall pk :: pk in Page(keys, n, cursor) ==> pk in keys && (cursor.Some? ==> Lt(cursor.value, pk))
    ensures n > 0 ==> |Page(keys, n, cursor)| <= n
  {
    var all := SortedSeq(Behind(keys, cursor));
    assert forall pk :: pk in Page(keys, n, cursor) ==> pk in all;
  }

  /** A page and what lies behind its last key are together what lay behind the old cursor. */
  lemma PageSplits(keys: set<Bytes>, n: int, cursor: Cursor)
    requires n > 0
    ensures var page := Page(keys, n, cursor);
      SortedSeq(Behind(keys, cursor)) == page + SortedSeq(Behind(keys, Next(page, cursor)))
    ensures |Page(keys, n, cursor)| < n ==> Page(keys, n, cursor) == SortedSeq(Behind(keys, cursor))
  {
    var all := SortedSeq(Behind(keys, cursor));
    var page := Page(keys, n, cursor);
    assert page == all[..|page|] && (page == [] ==> all == []);
    hide Page;
    if page != [] {
      BehindLast(keys, cursor, |page|);
      assert all == page + all[|page|..];
    }
  }

  /** What follows the first m keys is what lies behind the last of them. */
  lemma BehindLast(keys: set<Bytes>, cursor: Cursor, m: nat)
    requires 0 < m <= |SortedSeq(Behind(keys, cursor))|
    ensures var all := SortedSeq(Behind(keys, cursor)); all[m..] == SortedSeq(Behind(keys, Some(all[m - 1])))
  {
    var all := SortedSeq(Behind(keys, cursor));
    var rest, last := all[m..], all[m - 1];
    assert last in all;
    forall pk ensures pk in Elements(rest) <==> pk in Behind(keys, Some(last)) {
      SplitAt(all, m, pk);
      if pk in keys && Lt(last, pk) && cursor.Some? { LtTransitive(cursor.value, last, pk); }
      assert pk in rest ==> pk in all;
    }
    SortedUnique(rest, SortedSeq(Behind(keys, Some(last))));
  }

  /** In a sorted list the elements behind position m - 1 are those above its key. */
  lemma SplitAt(all: seq<Bytes>, m: nat, pk: Bytes)
    requires Sorted(all) && 0 < m <= |all|
    ensures pk in all[m..] <==> pk in all && Lt(all[m - 1], pk)
  {
    if pk in all {
      var j :| 0 <= j < |all| && all[j] == pk;
      if j < m - 1 {
        LtAsymmetric(all[j], all[m - 1]);
      } else if j == m - 1 {
        LtIrreflexive(pk);
      } else {
        assert all[m..][j - m] == pk;
      }
      if pk in all[m..] {
        var i :| m <= i < |all| && all[i] == pk;
      }
    }
  }

  // ---------------------------------------------------------------- an unchanged table

  /** Everything the pages deliver when fetched until none is left. */
  function Pages(keys: set<Bytes>, n: nat, cursor: Cursor): seq<seq<Bytes>>
    requires n > 0
    decreases |SortedSeq(Behind(keys, cursor))|
  {
    var page := Page(keys, n, cursor);
    PageSplits(keys, n, cursor);
    if page == [] then [] else [page] + Pages(keys, n, Next(page, cursor))
  }

  function Concat(pages: seq<seq<Bytes>>): seq<Bytes> {
    if |pages| == 0 then [] else pages[0] + Concat(pages[1..])
  }

  /** Over an unchanged table the pages are the whole result, cut into pieces. */
  lemma {:induction false} PagesAreWhole(keys: set<Bytes>, n: nat, cursor: Cursor)
    requires n > 0
    ensures Concat(Pages(keys, n, cursor)) == SortedSeq(Behind(keys, cursor))
    decreases |SortedSeq(Behind(keys, cursor))|
  {
    var page := Page(keys, n, cursor);
    PageSplits(keys, n, cursor);
    if page != [] {
      PagesAreWhole(keys, n, Next(page, cursor));
    }
  }

  // ---------------------------------------------------------------- a table that changes

  /** Cursor before page i, when page j was fetched while the matching keys were tables[j]. */
  function CursorAt(tables: seq<set<Bytes>>, n: int, start: Cursor, i: nat): Cursor
    requires i <= |tables|
  {
    if i == 0 then start
    else
      var c := CursorAt(tables, n, start, i - 1);
      Next(Page(tables[i - 1], n, c), c)
  }

  function PageAt(tables: seq<set<Bytes>>, n: int, start: Cursor, i: nat): seq<Bytes>
    requires i < |tables|
  {
    Page(tables[i], n, CursorAt(tables, n, start, i))
  }

  predicate AtOrBelow(pk: Bytes, cursor: Cursor) {
    cursor.Some? && (pk == cursor.value || Lt(pk, cursor.value))
  }

  lemma NextIsNoLower(keys: set<Bytes>, n: int, cursor: Cursor, pk: Bytes)
    requires AtOrBelow(pk, cursor)
    ensures AtOrBelow(pk, Next(Page(keys, n, cursor), cursor))
  {
    hide Page;
    var page := Page(keys, n, cursor);
    PageSorted(keys, n, cursor);
    if page != [] {
      assert page[|page| - 1] in page;
      if pk != cursor.value { LtTransitive(pk, cursor.value, page[|page| - 1]); }
    }
  }

  /** The cursor never moves back. */
  lemma {:induction false} CursorAdvances(tables: seq<set<Bytes>>, n: int, start: Cursor, i: nat, j: nat, pk: Bytes)
    requires i <= j <= |tables| && AtOrBelow(pk, CursorAt(tables, n, start, i))
    ensures AtOrBelow(pk, CursorAt(tables, n, start, j))
  {
    hide Page, Next, AtOrBelow;
    if i < j {
      CursorAdvances(tables, n, start, i, j - 1, pk);
      NextIsNoLower(tables[j - 1], n, CursorAt(tables, n, start, j - 1), pk);
    }
  }

  /** Everything on a page is at or below the cursor that follows it. */
  lemma PageBelowCursor(tables: seq<set<Bytes>>, n: int, start: Cursor, i: nat, pk: Bytes)
    requires i < |tables| && pk in PageAt(tables, n, start, i)
    ensures AtOrBelow(pk, CursorAt(tables, n, start, i + 1))
  {
    var page := PageAt(tables, n, start, i);
    PageSorted(tables[i], n, CursorAt(tables, n, start, i));
    var j :| 0 <= j < |page| && page[j] == pk;
  }

  /** Later pages lie strictly above earlier ones, whatever happened to the table in between. */
  lemma PagesIncrease(tables: seq<set<Bytes>>, n: int, start: Cursor, i: nat, j: nat, p: Bytes, q: Bytes)
    requires i < j < |tables|
    requires p in PageAt(tables, n, start, i) && q in PageAt(tables, n, start, j)
    ensures Lt(p, q)
  {
    hide Page, CursorAt;
    PageBelowCursor(tables, n, start, i, p);
    CursorAdvances(tables, n, start, i + 1, j, p);
    PageSorted(tables[j], n, CursorAt(tables, n, start, j));
    var c := CursorAt(tables, n, start, j).value;
    if p != c { LtTransitive(p, c, q); }
  }

  /** A page takes every key of its table that is ahead of the cursor, or leaves it ahead. */
  lemma TakenOrAhead(keys: set<Bytes>, n: int, cursor: Cursor, pk: Bytes)
    requires n > 0 && pk in keys && Ahead(cursor, pk)
    ensures pk in Page(keys, n, cursor) || (|Page(keys, n, cursor)| == n && Ahead(Next(Page(keys, n, cursor), cursor), pk))
  {
    var page := Page(keys, n, cursor);
    PageSplits(keys, n, cursor);
    PageSorted(keys, n, cursor);
    assert pk in SortedSeq(Behind(keys, cursor));
    assert pk in page || pk in SortedSeq(Behind(keys, Next(page, cursor)));
  }

  /** A key present at every fetch and ahead of the start is on a page, or still ahead. */
  lemma {:induction false} NotSkipped(tables: seq<set<Bytes>>, n: int, start: Cursor, i: nat, pk: Bytes)
    requires n > 0 && i <= |tables|
    requires Ahead(start, pk) && forall j :: 0 <= j < i ==> pk in tables[j]
    ensures Ahead(CursorAt(tables, n, start, i), pk) || exists j :: 0 <= j < i && pk in PageAt(tables, n, start, j)
  {
    hide Page, Ahead;
    if i > 0 {
      NotSkipped(tables, n, start, i - 1, pk);
      var c := CursorAt(tables, n, start, i - 1);
      if Ahead(c, pk) {
        TakenOrAhead(tables[i - 1], n, c, pk);
        assert Page(tables[i - 1], n, c) == PageAt(tables, n, start, i - 1);
      }
    }
  }

  /** Pages fetched from a changing table until one comes back short: a row that is live and matches
      at every fetch is delivered on exactly one page and once on it; rows come and go freely
      otherwise, the cursor's own row included. */
  lemma DeliveredExactlyOnce(tables: seq<set<Bytes>>, n: int, start: Cursor, pk: Bytes) returns (i: nat)
    requires n > 0 && |tables| > 0
    requires |PageAt(tables, n, start, |tables| - 1)| < n
    requires Ahead(start, pk) && forall j :: 0 <= j < |tables| ==> pk in tables[j]
    ensures i < |tables| && pk in PageAt(tables, n, start, i)
    ensures forall j :: 0 <= j < |tables| && pk in PageAt(tables, n, start, j) ==> j == i
    ensures forall a, b :: 0 <= a < b < |PageAt(tables, n, start, i)| ==>
      !(PageAt(tables, n, start, i)[a] == pk && PageAt(tables, n, start, i)[b] == pk)
  {
    var k := |tables| - 1;
    NotSkipped(tables, n, start, k, pk);
    if Ahead(CursorAt(tables, n, start, k), pk) {
      TakenOrAhead(tables[k], n, CursorAt(tables, n, start, k), pk);
      i := k;
    } else {
      i :| 0 <= i < k && pk in PageAt(tables, n, start, i);
    }
    LtIrreflexive(pk);
    forall j | 0 <= j < |tables| && pk in PageAt(tables, n, start, j) ensures j == i {
      if i < j { PagesIncrease(tables, n, start, i, j, pk, pk); }
      if j < i { PagesIncrease(tables, n, start, j, i, pk, pk); }
    }
    PageSorted(tables[i], n, CursorAt(tables, n, start, i));
  }

  // ---------------------------------------------------------------- numeric order

  /** With an integer primary key, key order is numeric order of the ids. */
  lemma NumericOrder(t: Table, rows: Rows, req: Request, now: Moment, i: nat, j: nat)
    requires t.WellFormed() && AllOk(t, rows) && CondsOk(t, req.conds) && t.fields[t.primary].typ.TInt?
    requires i < j < |Answer(t, rows, req, now)|
    ensures var pks := Answer(t, rows, req, now);
      pks[i] in rows && pks[j] in rows && rows[pks[i]].rec[t.primary].i < rows[pks[j]].rec[t.primary].i
  {
    hide Answer, EncodeOrdered;
    var pks := Answer(t, rows, req, now);
    AnswerRows(t, rows, req, now, pks[i]);
    AnswerRows(t, rows, req, now, pks[j]);
    AnswerSorted(t, rows, req, now);
    OrderedOrder(t.fields[t.primary].typ.kind, rows[pks[i]].rec[t.primary].i, rows[pks[j]].rec[t.primary].i);
  }

  lemma AnswerSorted(t: Table, rows: Rows, req: Request, now: Moment)
    requires t.WellFormed() && AllOk(t, rows) && CondsOk(t, req.conds)
    ensures Sorted(Answer(t, rows, req, now))
  {
  }
}
