/** Keyset pagination of audit events in (accepted_at, id) descending order. */
module Paging {
  import opened Order
  import opened Cursors

  /** An audit row; `data` stands for its other columns. */
  datatype Event = Event(at: int, id: int, data: int)

  predicate NewerEvent(a: Event, b: Event) {
    a.at > b.at || (a.at == b.at && a.id > b.id)
  }

  /** A table holds each id once. */
  ghost predicate Table(rows: seq<Event>) {
    forall i, j :: 0 <= i < j < |rows| ==> rows[i].id != rows[j].id
  }

  predicate BelowCursor(e: Event, cursor: Option<Cursor>) {
    cursor.None? || e.at < cursor.value.at || (e.at == cursor.value.at && e.id < cursor.value.id)
  }

  function Matching(rows: seq<Event>, filter: Event -> bool, cursor: Option<Cursor>): seq<Event> {
    if rows == [] then []
    else (if filter(rows[0]) && BelowCursor(rows[0], cursor) then [rows[0]] else []) + Matching(rows[1..], filter, cursor)
  }

  function Ordered(rows: seq<Event>, filter: Event -> bool, cursor: Option<Cursor>): seq<Event> {
    Sort(NewerEvent, Matching(rows, filter, cursor))
  }

  datatype Page = Page(events: seq<Event>, next: Option<Cursor>)

  /** One more row than the limit is fetched to see whether another page follows. */
  function ListPage(rows: seq<Event>, filter: Event -> bool, cursor: Option<Cursor>, limit: nat): Page
    requires limit >= 1
  {
    var ordered := Ordered(rows, filter, cursor);
    var fetched := if |ordered| > limit + 1 then ordered[..limit + 1] else ordered;
    var events := if |fetched| > limit then fetched[..limit] else fetched;
    Page(events, if |fetched| > limit then Some(Cursor(events[|events| - 1].at, events[|events| - 1].id)) else None)
  }

  /** Follows `next` through a series of tables, one for each request. */
  function Walk(tables: seq<seq<Event>>, filter: Event -> bool, cursor: Option<Cursor>, limit: nat): seq<Event>
    requires limit >= 1
  {
    if tables == [] then []
    else
      var page := ListPage(tables[0], filter, cursor, limit);
      page.events + if page.next.None? then [] else Walk(tables[1..], filter, page.next, limit)
  }

  /** The walk reached a page without a following one. */
  predicate Ends(tables: seq<seq<Event>>, filter: Event -> bool, cursor: Option<Cursor>, limit: nat)
    requires limit >= 1
  {
    tables != []
    && var page := ListPage(tables[0], filter, cursor, limit);
       page.next.None? || Ends(tables[1..], filter, page.next, limit)
  }

  /** Rows are only ever added. */
  ghost predicate Growing(tables: seq<seq<Event>>) {
    && (forall t :: t in tables ==> Table(t))
    && (forall i, j, e :: 0 <= i <= j < |tables| && e in tables[i] ==> e in tables[j])
  }

  // ---------------------------------------------------------------------------------------
  // One page
  // ---------------------------------------------------------------------------------------

  lemma {:induction false} NewerEventOrder()
    ensures StrictOrder(NewerEvent)
  {}

  lemma {:induction false} MatchingMembers(rows: seq<Event>, filter: Event -> bool, cursor: Option<Cursor>)
    ensures forall e :: e in Matching(rows, filter, cursor) <==> e in rows && filter(e) && BelowCursor(e, cursor)
    ensures Table(rows) ==> Table(Matching(rows, filter, cursor))
  {
    if rows != [] {
      MatchingMembers(rows[1..], filter, cursor);
      if Table(rows) {
        var rest := Matching(rows[1..], filter, cursor);
        forall j | 0 <= j < |rest| ensures rest[j].id != rows[0].id {
          assert rest[j] in rest && rest[j] in rows[1..];
        }
      }
    }
  }

  lemma {:induction false} OrderedSorts(rows: seq<Event>, filter: Event -> bool, cursor: Option<Cursor>)
    requires Table(rows)
    ensures SortedBy(NewerEvent, Ordered(rows, filter, cursor))
    ensures forall e :: e in Ordered(rows, filter, cursor) <==> e in rows && filter(e) && BelowCursor(e, cursor)
  {
    MatchingMembers(rows, filter, cursor);
    NewerEventOrder();
    SortSorts(NewerEvent, Matching(rows, filter, cursor));
  }

  /** What one page holds: a prefix of the remaining rows, and all of them if no page follows. */
  lemma {:induction false} PageIsPrefix(rows: seq<Event>, filter: Event -> bool, cursor: Option<Cursor>, limit: nat)
    requires limit >= 1
    ensures var page, ordered := ListPage(rows, filter, cursor, limit), Ordered(rows, filter, cursor);
            && |page.events| == (if |ordered| <= limit then |ordered| else limit)
            && page.events == ordered[..|page.events|]
            && (page.next.None? <==> |ordered| <= limit)
            && (page.next.Some? ==> page.next.value == Cursor(ordered[limit - 1].at, ordered[limit - 1].id))
  {}

  /** The rows behind a page are those below its cursor. */
  lemma {:induction false} RestBelowNext(rows: seq<Event>, filter: Event -> bool, cursor: Option<Cursor>, limit: nat)
    requires limit >= 1 && Table(rows) && ListPage(rows, filter, cursor, limit).next.Some?
    ensures Ordered(rows, filter, ListPage(rows, filter, cursor, limit).next) == Ordered(rows, filter, cursor)[limit..]
  {
    hide ListPage, Ordered, BelowCursor;
    var all := Ordered(rows, filter, cursor);
    var next := ListPage(rows, filter, cursor, limit).next;
    PageIsPrefix(rows, filter, cursor, limit);
    OrderedSorts(rows, filter, cursor);
    OrderedSorts(rows, filter, next);
    NewerEventOrder();
    forall e ensures e in Ordered(rows, filter, next) <==> e in all[limit..] {
      if e in Ordered(rows, filter, next) {
        assert all[limit - 1] in all;
        BelowLater(all, e, cursor, next, limit);
      }
      if e in all[limit..] {
        var i :| limit <= i < |all| && all[i] == e;
        assert all[limit - 1] in all && all[i] in all && NewerEvent(all[limit - 1], all[i]);
        NewerIsBelow(all[limit - 1], e);
      }
    }
    SortedUnique(NewerEvent, Ordered(rows, filter, next), all[limit..]);
  }

  lemma {:induction false} NewerIsBelow(a: Event, b: Event)
    ensures NewerEvent(a, b) <==> BelowCursor(b, Some(Cursor(a.at, a.id)))
  {}

  lemma {:induction false} BelowLater(all: seq<Event>, e: Event, cursor: Option<Cursor>, next: Option<Cursor>, limit: nat)
    requires 1 <= limit < |all| && SortedBy(NewerEvent, all) && next == Some(Cursor(all[limit - 1].at, all[limit - 1].id))
    requires BelowCursor(all[limit - 1], cursor) && BelowCursor(e, next)
    requires BelowCursor(e, cursor) ==> e in all
    ensures e in all[limit..]
  {
    assert BelowCursor(e, cursor);
    var i :| 0 <= i < |all| && all[i] == e;
    assert forall j :: 0 <= j < limit - 1 ==> NewerEvent(all[j], all[limit - 1]);
    assert i >= limit;
    assert all[limit..][i - limit] == e;
  }

  // ---------------------------------------------------------------------------------------
  // Whole walks
  // ---------------------------------------------------------------------------------------

  /** Latest first, and the greater id first at one moment. */
  ghost predicate Descending(s: seq<Event>) {
    forall i, j :: 0 <= i < j < |s| ==> s[i].at > s[j].at || (s[i].at == s[j].at && s[i].id > s[j].id)
  }

  lemma {:induction false} OrderedDescends(rows: seq<Event>, filter: Event -> bool, cursor: Option<Cursor>)
    requires Table(rows)
    ensures Descending(Ordered(rows, filter, cursor))
    ensures forall e :: e in Ordered(rows, filter, cursor) <==>
              e in rows && filter(e)
              && (cursor.None? || e.at < cursor.value.at || (e.at == cursor.value.at && e.id < cursor.value.id))
  {
    hide Ordered;
    OrderedSorts(rows, filter, cursor);
    var s := Ordered(rows, filter, cursor);
    forall i, j | 0 <= i < j < |s| ensures s[i].at > s[j].at || (s[i].at == s[j].at && s[i].id > s[j].id) {
      assert NewerEvent(s[i], s[j]);
    }
  }

  /** The walk over a table that does not change. */
  function Repeat(rows: seq<Event>, n: nat): seq<seq<Event>> {
    if n == 0 then [] else [rows] + Repeat(rows, n - 1)
  }

  lemma {:induction false} WalkIsOrdered(rows: seq<Event>, filter: Event -> bool, cursor: Option<Cursor>, limit: nat, n: nat)
    requires limit >= 1 && Table(rows) && Ends(Repeat(rows, n), filter, cursor, limit)
    ensures Walk(Repeat(rows, n), filter, cursor, limit) == Ordered(rows, filter, cursor)
    decreases n
  {
    hide ListPage, Ordered;
    var tables := Repeat(rows, n);
    var page, ordered := ListPage(rows, filter, cursor, limit), Ordered(rows, filter, cursor);
    PageIsPrefix(rows, filter, cursor, limit);
    assert tables[0] == rows && tables[1..] == Repeat(rows, n - 1);
    if page.next.Some? {
      RestBelowNext(rows, filter, cursor, limit);
      WalkIsOrdered(rows, filter, page.next, limit, n - 1);
      assert ordered == ordered[..limit] + ordered[limit..];
    }
  }

  /** Main theorem: over a table that does not change, a walk that ends lists exactly the filtered
      rows in descending order, each once, however many requests it takes. */
  lemma {:induction false} WalkListsAll(rows: seq<Event>, filter: Event -> bool, cursor: Option<Cursor>, limit: nat, n: nat)
    requires limit >= 1 && Table(rows) && Ends(Repeat(rows, n), filter, cursor, limit)
    ensures var walk := Walk(Repeat(rows, n), filter, cursor, limit);
            && walk == Ordered(rows, filter, cursor) && Descending(walk)
            && forall e :: e in walk <==>
                 e in rows && filter(e)
                 && (cursor.None? || e.at < cursor.value.at || (e.at == cursor.value.at && e.id < cursor.value.id))
  {
    hide Ordered, Descending, Walk, Ends;
    WalkIsOrdered(rows, filter, cursor, limit, n);
    OrderedDescends(rows, filter, cursor);
  }

  /** It ends within one request for each full page and one more. */
  lemma {:induction false} WalkEnds(rows: seq<Event>, filter: Event -> bool, cursor: Option<Cursor>, limit: nat, n: nat)
    requires limit >= 1 && Table(rows) && |Ordered(rows, filter, cursor)| < (n + 1) * limit
    ensures Ends(Repeat(rows, n + 1), filter, cursor, limit)
    decreases n
  {
    hide ListPage, Ordered;
    var page := ListPage(rows, filter, cursor, limit);
    PageIsPrefix(rows, filter, cursor, limit);
    assert Repeat(rows, n + 1)[1..] == Repeat(rows, n);
    if page.next.Some? {
      RestBelowNext(rows, filter, cursor, limit);
      assert n > 0;
      assert (n + 1) * limit - limit == n * limit;
      WalkEnds(rows, filter, page.next, limit, n - 1);
    }
  }

  lemma {:induction false} WalkMembers(tables: seq<seq<Event>>, filter: Event -> bool, cursor: Option<Cursor>, limit: nat)
    requires limit >= 1 && forall t :: t in tables ==> Table(t)
    ensures forall e :: e in Walk(tables, filter, cursor, limit) ==>
              filter(e) && BelowCursor(e, cursor) && exists t :: t in tables && e in t
    ensures SortedBy(NewerEvent, Walk(tables, filter, cursor, limit))
  {
    hide ListPage, Ordered, Table;
    if tables != [] {
      var rows := tables[0];
      assert rows in tables && forall t :: t in tables[1..] ==> t in tables;
      var page, ordered := ListPage(rows, filter, cursor, limit), Ordered(rows, filter, cursor);
      PageIsPrefix(rows, filter, cursor, limit);
      OrderedSorts(rows, filter, cursor);
      forall e | e in page.events ensures filter(e) && BelowCursor(e, cursor) && e in rows { assert e in ordered; }
      if page.next.Some? {
        WalkMembers(tables[1..], filter, page.next, limit);
        var rest := Walk(tables[1..], filter, page.next, limit);
        assert BelowCursor(ordered[limit - 1], cursor) by { assert ordered[limit - 1] in ordered; }
        forall i, j | 0 <= i < limit && 0 <= j < |rest| ensures NewerEvent(page.events[i], rest[j]) {
          assert rest[j] in rest;
          assert i < limit - 1 ==> NewerEvent(ordered[i], ordered[limit - 1]);
        }
        forall e | e in rest ensures BelowCursor(e, cursor) {}
      }
    }
  }

  lemma {:induction false} NothingSkipped(tables: seq<seq<Event>>, filter: Event -> bool, cursor: Option<Cursor>, limit: nat, e: Event)
    requires limit >= 1 && Growing(tables) && Ends(tables, filter, cursor, limit)
    requires e in tables[0] && filter(e) && BelowCursor(e, cursor)
    ensures e in Walk(tables, filter, cursor, limit)
  {
    hide ListPage, Ordered, BelowCursor, Table;
    var rows := tables[0];
    assert rows in tables;
    var page, ordered := ListPage(rows, filter, cursor, limit), Ordered(rows, filter, cursor);
    PageIsPrefix(rows, filter, cursor, limit);
    OrderedSorts(rows, filter, cursor);
    var i :| 0 <= i < |ordered| && ordered[i] == e;
    if i < |page.events| {
      assert page.events[i] == e;
    } else {
      RestBelowNext(rows, filter, cursor, limit);
      assert ordered[limit..][i - limit] == e;
      OrderedSorts(rows, filter, page.next);
      assert e in tables[1];
      GrowingTail(tables);
      NothingSkipped(tables[1..], filter, page.next, limit, e);
    }
  }

  lemma {:induction false} GrowingTail(tables: seq<seq<Event>>)
    requires Growing(tables) && tables != []
    ensures Growing(tables[1..])
  {
    assert forall t :: t in tables[1..] ==> t in tables;
    forall i, j, e | 0 <= i <= j < |tables[1..]| && e in tables[1..][i] ensures e in tables[1..][j] {
      assert tables[1..][i] == tables[i + 1] && tables[1..][j] == tables[j + 1];
    }
  }

  /** Main theorem: with arbitrary rows inserted between the requests, nothing is listed twice,
      the order is strictly descending throughout, only rows that pass the filter are listed, and
      every such row present at the start is. */
  lemma {:induction false} WalkUnderInserts(tables: seq<seq<Event>>, filter: Event -> bool, limit: nat)
    requires limit >= 1 && Growing(tables) && Ends(tables, filter, None, limit)
    ensures SortedBy(NewerEvent, Walk(tables, filter, None, limit)) && Descending(Walk(tables, filter, None, limit))
    ensures Distinct(Walk(tables, filter, None, limit))
    ensures forall e :: e in tables[0] && filter(e) ==> e in Walk(tables, filter, None, limit)
    ensures forall e :: e in Walk(tables, filter, None, limit) ==> filter(e) && e in tables[|tables| - 1]
  {
    WalkMembers(tables, filter, None, limit);
    var walk := Walk(tables, filter, None, limit);
    forall i, j | 0 <= i < j < |walk|
      ensures walk[i] != walk[j] && (walk[i].at > walk[j].at || (walk[i].at == walk[j].at && walk[i].id > walk[j].id))
    {
      assert NewerEvent(walk[i], walk[j]);
    }
    forall e | e in tables[0] && filter(e) ensures e in walk { NothingSkipped(tables, filter, None, limit, e); }
    forall e | e in walk ensures e in tables[|tables| - 1] {
      var t :| t in tables && e in t;
      var i :| 0 <= i < |tables| && tables[i] == t;
    }
  }
}
