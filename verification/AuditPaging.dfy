/**
 Keyset paging over the audit log. A page is read against the log as it stands at that moment;
 following the cursors still reads the log as it stood at the first page.
 */
module AuditPaging {
  import opened Wrappers
  import opened JsText
  import opened HashChains
  import opened AuditLogs

  const DEFAULT_PAGE_LIMIT := 20
  const MAX_PAGE_LIMIT := 100

  /** The limit asked for, twenty if none is, and the nearest of 1 and 100 if it lies outside them. */
  function PageLimit(requested: Option<int>): (limit: int)
    ensures 1 <= limit <= MAX_PAGE_LIMIT
    ensures requested.None? ==> limit == 20
    ensures requested.Some? && 1 <= requested.value <= 100 ==> limit == requested.value
    ensures requested.Some? && requested.value < 1 ==> limit == 1
    ensures requested.Some? && requested.value > 100 ==> limit == 100
  {
    var n := if requested.Some? then requested.value else DEFAULT_PAGE_LIMIT;
    var atLeastOne := if n < 1 then 1 else n;
    if atLeastOne > MAX_PAGE_LIMIT then MAX_PAGE_LIMIT else atLeastOne
  }

  // ----- What a page is ---------------------------------------------------------------------

  /** An empty tenant means every tenant. */
  predicate InTenant(tenantId: Text, row: AuditEvent) {
    tenantId == [] || row.content.tenantId == tenantId
  }

  predicate Before(cursor: Option<int>, row: AuditEvent) {
    cursor.None? || row.seqNo < cursor.value
  }

  /** The selected rows of the log, newest first. */
  function NewestFirst(log: seq<AuditEvent>, tenantId: Text, cursor: Option<int>): seq<AuditEvent> {
    if log == [] then []
    else
      var last := log[|log| - 1];
      (if InTenant(tenantId, last) && Before(cursor, last) then [last] else [])
      + NewestFirst(log[..|log| - 1], tenantId, cursor)
  }

  datatype Page = Page(items: seq<AuditEvent>, nextCursor: Option<int>)

  /** Full pages, as long as there are rows; a next cursor exactly when some are left. */
  function FirstPage(rows: seq<AuditEvent>, limit: nat): (page: Page)
    requires limit >= 1
    ensures page.items <= rows && |page.items| <= limit
    ensures page.items == rows || |page.items| == limit
    ensures page.nextCursor.None? <==> page.items == rows
  {
    if |rows| > limit then Page(rows[..limit], Some(rows[limit - 1].seqNo)) else Page(rows, None)
  }

  function PageOf(log: seq<AuditEvent>, tenantId: Text, cursor: Option<int>, limit: nat): Page
    requires limit >= 1
  {
    FirstPage(NewestFirst(log, tenantId, cursor), limit)
  }

  // ----- The two repositories ---------------------------------------------------------------

  /** Insertion into a list with descending numbers. */
  function Insert(row: AuditEvent, sorted: seq<AuditEvent>): seq<AuditEvent> {
    if sorted == [] || row.seqNo > sorted[0].seqNo then [row] + sorted
    else [sorted[0]] + Insert(row, sorted[1..])
  }

  function SortDescending(rows: seq<AuditEvent>): seq<AuditEvent> {
    if rows == [] then [] else Insert(rows[|rows| - 1], SortDescending(rows[..|rows| - 1]))
  }

  function OfTenant(rows: seq<AuditEvent>, tenantId: Text): seq<AuditEvent> {
    if rows == [] then []
    else (if rows[0].content.tenantId == tenantId then [rows[0]] else []) + OfTenant(rows[1..], tenantId)
  }

  function NumberedBefore(rows: seq<AuditEvent>, cursor: int): seq<AuditEvent> {
    if rows == [] then []
    else (if rows[0].seqNo < cursor then [rows[0]] else []) + NumberedBefore(rows[1..], cursor)
  }

  lemma {:induction false} SortOfIncreasing(log: seq<AuditEvent>)
    requires Increasing(log)
    ensures SortDescending(log) == NewestFirst(log, [], None)
  {
    if log != [] {
      var last, earlier := log[|log| - 1], log[..|log| - 1];
      SortOfIncreasing(earlier);
      if earlier != [] {
        assert NewestFirst(earlier, [], None)[0] == earlier[|earlier| - 1];
      }
      assert SortDescending(log) == Insert(last, NewestFirst(earlier, [], None)) == [last] + NewestFirst(earlier, [], None);
    }
  }

  lemma {:induction false} TenantOfNewestFirst(log: seq<AuditEvent>, tenantId: Text)
    requires tenantId != []
    ensures OfTenant(NewestFirst(log, [], None), tenantId) == NewestFirst(log, tenantId, None)
  {
    if log != [] {
      TenantOfNewestFirst(log[..|log| - 1], tenantId);
      var rows := NewestFirst(log, [], None);
      assert rows[1..] == NewestFirst(log[..|log| - 1], [], None);
    }
  }

  lemma {:induction false} BeforeOfNewestFirst(log: seq<AuditEvent>, tenantId: Text, c: int)
    ensures NumberedBefore(NewestFirst(log, tenantId, None), c) == NewestFirst(log, tenantId, Some(c))
  {
    if log != [] {
      var last, earlier := log[|log| - 1], log[..|log| - 1];
      BeforeOfNewestFirst(earlier, tenantId, c);
      var rows, rest := NewestFirst(log, tenantId, None), NewestFirst(earlier, tenantId, None);
      if InTenant(tenantId, last) {
        assert rows[0] == last && rows[1..] == rest;
      } else {
        assert rows == rest;
      }
    }
  }

  /** The reference list: sort, filter by tenant when one is given, filter by cursor when one is given. */
  method ListInMemory(log: seq<AuditEvent>, tenantId: Text, cursor: Option<int>, limit: nat) returns (page: Page)
    requires Increasing(log) && limit >= 1
    ensures page == PageOf(log, tenantId, cursor, limit)
  {
    SortOfIncreasing(log);
    var rows := SortDescending(log);
    if tenantId != [] {
      TenantOfNewestFirst(log, tenantId);
      rows := OfTenant(rows, tenantId);
    }
    if cursor.Some? {
      BeforeOfNewestFirst(log, tenantId, cursor.value);
      rows := NumberedBefore(rows, cursor.value);
    }
    var hasMore := |rows| > limit;
    var items := if hasMore then rows[..limit] else rows;
    var nextCursor := if hasMore then Some(items[|items| - 1].seqNo) else None;
    page := Page(items, nextCursor);
  }

  lemma FirstPageOfTake(all: seq<AuditEvent>, rows: seq<AuditEvent>, limit: nat)
    requires limit >= 1 && rows <= all && (|rows| == limit + 1 || rows == all)
    ensures FirstPage(rows, limit) == FirstPage(all, limit)
  {
  }

  lemma NewestStep(log: seq<AuditEvent>, tenantId: Text, cursor: Option<int>, k: nat, rows: seq<AuditEvent>)
    requires 0 < k <= |log|
    ensures rows + NewestFirst(log[..k], tenantId, cursor)
         == (if InTenant(tenantId, log[k - 1]) && Before(cursor, log[k - 1]) then rows + [log[k - 1]] else rows)
            + NewestFirst(log[..k - 1], tenantId, cursor)
  {
    var rest := log[..k];
    assert rest[..|rest| - 1] == log[..k - 1] && rest[|rest| - 1] == log[k - 1];
  }

  /** `ORDER BY seq DESC LIMIT n` under the two conditions. */
  method Take(log: seq<AuditEvent>, tenantId: Text, cursor: Option<int>, n: nat) returns (rows: seq<AuditEvent>)
    ensures rows <= NewestFirst(log, tenantId, cursor)
    ensures |rows| == n || rows == NewestFirst(log, tenantId, cursor)
  {
    rows := [];
    var k := |log|;
    assert log[..k] == log;
    while k > 0 && |rows| < n
      invariant 0 <= k <= |log| && |rows| <= n
      invariant rows + NewestFirst(log[..k], tenantId, cursor) == NewestFirst(log, tenantId, cursor)
    {
      NewestStep(log, tenantId, cursor, k, rows);
      k := k - 1;
      if InTenant(tenantId, log[k]) && Before(cursor, log[k]) {
        rows := rows + [log[k]];
      }
    }
  }

  /** The query: newest first, one row more than the limit, to see whether there is a next page. */
  method ListFromDatabase(log: seq<AuditEvent>, tenantId: Text, cursor: Option<int>, limit: nat) returns (page: Page)
    requires limit >= 1
    ensures page == PageOf(log, tenantId, cursor, limit)
  {
    var rows := Take(log, tenantId, cursor, limit + 1);
    FirstPageOfTake(NewestFirst(log, tenantId, cursor), rows, limit);
    var hasMore := |rows| > limit;
    var items := if hasMore then rows[..limit] else rows;
    var nextCursor := if hasMore && |items| > 0 then Some(items[|items| - 1].seqNo) else None;
    page := Page(items, nextCursor);
  }

  // ----- What a cursor stands for -----------------------------------------------------------

  lemma {:induction false} OlderAllPass(log: seq<AuditEvent>, tenantId: Text, c: int)
    requires forall i :: 0 <= i < |log| ==> log[i].seqNo < c
    ensures NewestFirst(log, tenantId, Some(c)) == NewestFirst(log, tenantId, None)
  {
    if log != [] {
      OlderAllPass(log[..|log| - 1], tenantId, c);
    }
  }

  lemma {:induction false} SelectedIsInLog(log: seq<AuditEvent>, tenantId: Text, cursor: Option<int>, i: nat)
    requires i < |NewestFirst(log, tenantId, cursor)|
    ensures exists k :: 0 <= k < |log| && log[k] == NewestFirst(log, tenantId, cursor)[i]
  {
    var last, earlier := log[|log| - 1], log[..|log| - 1];
    if InTenant(tenantId, last) && Before(cursor, last) {
      if i > 0 {
        SelectedIsInLog(earlier, tenantId, cursor, i - 1);
      }
    } else {
      SelectedIsInLog(earlier, tenantId, cursor, i);
    }
  }

  /** The cursor of row i selects exactly the rows after row i. */
  lemma {:induction false} CursorCuts(log: seq<AuditEvent>, tenantId: Text, i: nat)
    requires Increasing(log) && i < |NewestFirst(log, tenantId, None)|
    ensures NewestFirst(log, tenantId, Some(NewestFirst(log, tenantId, None)[i].seqNo)) == NewestFirst(log, tenantId, None)[i + 1..]
  {
    var last, earlier := log[|log| - 1], log[..|log| - 1];
    var rows, rest := NewestFirst(log, tenantId, None), NewestFirst(earlier, tenantId, None);
    if !InTenant(tenantId, last) {
      assert rows == rest;
      CursorCuts(earlier, tenantId, i);
    } else {
      assert rows == [last] + rest && rows[i + 1..] == rest[i..];
      if i == 0 {
        OlderAllPass(earlier, tenantId, last.seqNo);
      } else {
        SelectedIsInLog(earlier, tenantId, None, i - 1);
        assert rows[i].seqNo < last.seqNo;
        CursorCuts(earlier, tenantId, i - 1);
      }
    }
  }

  /** Rows appended later have higher numbers, so a cursor never lets them in. */
  lemma {:induction false} GrowthIsAboveCursor(log: seq<AuditEvent>, later: seq<AuditEvent>, tenantId: Text, c: int)
    requires Increasing(later) && log <= later && exists i :: 0 <= i < |log| && log[i].seqNo == c
    ensures NewestFirst(later, tenantId, Some(c)) == NewestFirst(log, tenantId, Some(c))
    decreases |later|
  {
    if |later| > |log| {
      GrowthIsAboveCursor(log, later[..|later| - 1], tenantId, c);
      var i :| 0 <= i < |log| && log[i].seqNo == c;
      assert later[i].seqNo < later[|later| - 1].seqNo;
    } else {
      assert later == log;
    }
  }

  // ----- Following the cursors --------------------------------------------------------------

  /** One page read: the log as it stands then, and the limit asked for. */
  datatype Visit = Visit(log: seq<AuditEvent>, limit: nat)

  datatype Reader = Reader(read: seq<AuditEvent>, cursor: Option<int>, pages: nat)

  ghost predicate Grows(visits: seq<Visit>) {
    forall k :: 0 <= k < |visits| ==> visits[k].limit >= 1 && Increasing(visits[k].log) && visits[0].log <= visits[k].log
  }

  /** A client that starts without a cursor, follows `nextCursor`, and stops when there is none. */
  ghost function Walk(tenantId: Text, visits: seq<Visit>): Reader
    requires visits != [] && Grows(visits)
  {
    var n := |visits| - 1;
    if n == 0 then
      var page := PageOf(visits[0].log, tenantId, None, visits[0].limit);
      Reader(page.items, page.nextCursor, 1)
    else
      var reader := Walk(tenantId, visits[..n]);
      if reader.cursor.None? then reader
      else
        var page := PageOf(visits[n].log, tenantId, reader.cursor, visits[n].limit);
        Reader(reader.read + page.items, page.nextCursor, reader.pages + 1)
  }

  /** What has been read is a beginning of `all`, and the cursor stands at its end. */
  ghost predicate ReadUpTo(all: seq<AuditEvent>, read: seq<AuditEvent>, cursor: Option<int>) {
    && read <= all
    && if cursor.Some? then 0 < |read| < |all| && cursor.value == all[|read| - 1].seqNo else read == all
  }

  lemma PageOfTheRest(all: seq<AuditEvent>, read: seq<AuditEvent>, limit: nat)
    requires read <= all && |read| < |all| && limit >= 1
    ensures var page := FirstPage(all[|read|..], limit);
            page.items != [] && ReadUpTo(all, read + page.items, page.nextCursor)
  {
    var page := FirstPage(all[|read|..], limit);
    assert all == read + all[|read|..];
    assert all[|read|..] == page.items + all[|read| + |page.items|..];
  }

  lemma RestAtCursor(first: seq<AuditEvent>, log: seq<AuditEvent>, tenantId: Text, read: seq<AuditEvent>, cursor: int)
    requires Increasing(first) && Increasing(log) && first <= log
    requires ReadUpTo(NewestFirst(first, tenantId, None), read, Some(cursor))
    ensures NewestFirst(log, tenantId, Some(cursor)) == NewestFirst(first, tenantId, None)[|read|..]
  {
    SelectedIsInLog(first, tenantId, None, |read| - 1);
    GrowthIsAboveCursor(first, log, tenantId, cursor);
    CursorCuts(first, tenantId, |read| - 1);
  }

  lemma WalkStep(tenantId: Text, visits: seq<Visit>)
    requires |visits| > 1 && Grows(visits)
    requires var before := Walk(tenantId, visits[..|visits| - 1]);
             ReadUpTo(NewestFirst(visits[0].log, tenantId, None), before.read, before.cursor)
    ensures var before, after := Walk(tenantId, visits[..|visits| - 1]), Walk(tenantId, visits);
            && ReadUpTo(NewestFirst(visits[0].log, tenantId, None), after.read, after.cursor)
            && (before.cursor.None? ==> after == before)
            && (before.cursor.Some? ==> |after.read| > |before.read| && after.pages == before.pages + 1)
  {
    var n := |visits| - 1;
    var before := Walk(tenantId, visits[..n]);
    if before.cursor.Some? {
      RestAtCursor(visits[0].log, visits[n].log, tenantId, before.read, before.cursor.value);
      PageOfTheRest(NewestFirst(visits[0].log, tenantId, None), before.read, visits[n].limit);
    }
  }

  /**
   However the log grows between the pages, what has been read so far is a beginning of the
   tenant's log as it stood at the first page, newest first: no gap and no repeat. It is the whole of
   it exactly when there is no next cursor, and every page but the last one brings something new.
   */
  lemma {:induction false} WalkReadsFirstLog(tenantId: Text, visits: seq<Visit>)
    requires visits != [] && Grows(visits)
    ensures ReadUpTo(NewestFirst(visits[0].log, tenantId, None), Walk(tenantId, visits).read, Walk(tenantId, visits).cursor)
    ensures Walk(tenantId, visits).cursor.Some? ==> |Walk(tenantId, visits).read| >= |visits|
    ensures Walk(tenantId, visits).pages == 1 || Walk(tenantId, visits).pages <= |Walk(tenantId, visits).read|
    decreases |visits|
  {
    var n := |visits| - 1;
    if n > 0 {
      WalkReadsFirstLog(tenantId, visits[..n]);
      WalkStep(tenantId, visits);
    }
  }

  /** Enough pages, and there is no next cursor and all of the first log has been read. */
  lemma WalkEnds(tenantId: Text, visits: seq<Visit>)
    requires visits != [] && Grows(visits) && |visits| >= |NewestFirst(visits[0].log, tenantId, None)|
    ensures Walk(tenantId, visits).cursor == None && Walk(tenantId, visits).read == NewestFirst(visits[0].log, tenantId, None)
  {
    WalkReadsFirstLog(tenantId, visits);
  }

  /** The newest-first list holds exactly the selected rows, in the reverse of the log's order. */
  lemma {:induction false} NewestFirstExact(log: seq<AuditEvent>, tenantId: Text, cursor: Option<int>)
    requires Increasing(log)
    ensures forall i, j :: 0 <= i < j < |NewestFirst(log, tenantId, cursor)| ==>
              NewestFirst(log, tenantId, cursor)[i].seqNo > NewestFirst(log, tenantId, cursor)[j].seqNo
    ensures forall r :: r in NewestFirst(log, tenantId, cursor) <==> r in log && InTenant(tenantId, r) && Before(cursor, r)
  {
    if log != [] {
      var last, earlier := log[|log| - 1], log[..|log| - 1];
      NewestFirstExact(earlier, tenantId, cursor);
      assert log == earlier + [last];
      forall r | r in earlier
        ensures r.seqNo < last.seqNo
      {
      }
    }
  }

  /** So it is for pages read at any moments of any run of the interleaved appenders. */
  lemma WalkThroughARun(hash: Hasher, states: seq<State>, events: seq<Event>, moments: seq<nat>, limits: seq<nat>, tenantId: Text)
    requires IsRun(hash, states, events) && |moments| == |limits| > 0
    requires forall k :: 0 <= k < |moments| ==> limits[k] >= 1 && moments[0] <= moments[k] < |states|
    ensures var visits := seq(|moments|, k requires 0 <= k < |moments| => Visit(states[moments[k]].log, limits[k]));
            && Grows(visits)
            && ReadUpTo(NewestFirst(visits[0].log, tenantId, None), Walk(tenantId, visits).read, Walk(tenantId, visits).cursor)
  {
    var visits := seq(|moments|, k requires 0 <= k < |moments| => Visit(states[moments[k]].log, limits[k]));
    forall k | 0 <= k < |moments|
      ensures Increasing(visits[k].log) && visits[0].log <= visits[k].log
    {
      EveryRunKeepsGoodLog(hash, states, events, moments[k]);
      AppendOnly(hash, states, events, moments[0], moments[k]);
    }
    WalkReadsFirstLog(tenantId, visits);
  }
}
