/** The bridge inbox: pages with item and byte budgets over a table that other clients keep
    appending to, and the client loop that walks them by cursor. */
module Inbox {
  import opened Numbers

  const DEFAULT_PAGE_LIMIT: nat := 100
  const MAX_PAGE_LIMIT: nat := 500
  const MAX_ITEM_BYTES: nat := 262_144
  const BRIDGE_MAX_BYTES: nat := 1_048_576
  const DEFAULT_TTL_SECONDS: nat := 86_400
  const MAX_TTL_SECONDS: nat := 604_800

  /** A row of the item table. Ids come from an ever-growing counter; an expiry is a second
      on the clock, kept as a signed 64-bit number. */
  datatype Row = Row(id: int, inbox: string, item: bytes, expires: Option<int>)

  predicate Visible(r: Row, inbox: string, now: int) {
    r.inbox == inbox && (r.expires.None? || r.expires.value > now)
  }

  // ----- storing -----

  function Seconds(ttl: Option<u64>): nat {
    if ttl.Some? then ttl.value else DEFAULT_TTL_SECONDS
  }

  /** The row stored for a request, if its size and time to live are allowed. */
  function NewRow(id: int, inbox: string, data: bytes, now: u64, ttl: Option<u64>): Option<Row> {
    var seconds := Seconds(ttl);
    if |data| > MAX_ITEM_BYTES || seconds == 0 || seconds > MAX_TTL_SECONDS
       || now + seconds > 0xffff_ffff_ffff_ffff then None
    else Some(Row(id, inbox, data, Some(AsI64(now + seconds))))
  }

  /** Storing is refused exactly for an item above 262144 bytes, a time to live of zero or more than
      seven days, or an expiry beyond 64 bits. Otherwise the item is stored as given, with the
      asked-for time to live, or a day if none is asked for. */
  lemma StoredIff(id: int, inbox: string, data: bytes, now: u64, ttl: Option<u64>)
    ensures NewRow(id, inbox, data, now, ttl).Some?
       <==> && |data| <= 262_144 && (ttl.Some? ==> 1 <= ttl.value <= 7 * 86_400)
            && now + (if ttl.Some? then ttl.value else 86_400) < 2 * TWO63
    ensures NewRow(id, inbox, data, now, ttl).Some? ==>
              && var row := NewRow(id, inbox, data, now, ttl).value;
              && row.id == id && row.inbox == inbox && row.item == data && row.expires.Some?
              && (row.expires.value - now - (if ttl.Some? then ttl.value else 86_400)) % (2 * TWO63) == 0
              && -TWO63 <= row.expires.value < TWO63
  {
  }

  /** From then on the item is visible in its inbox, and in no other, for exactly its time to live,
      as long as its expiry and the clock are on the same side of second 2^63, and not so
      otherwise: the comparison is signed. */
  lemma NewRowLifetimeIff(id: int, inbox: string, data: bytes, now: u64, ttl: Option<u64>, later: u64, reader: string)
    requires NewRow(id, inbox, data, now, ttl).Some? && now <= later
    ensures reader != inbox ==> !Visible(NewRow(id, inbox, data, now, ttl).value, reader, AsI64(later))
    ensures var seconds := if ttl.Some? then ttl.value else 86_400;
            (Visible(NewRow(id, inbox, data, now, ttl).value, inbox, AsI64(later)) <==> later - now < seconds)
            <==> (now + seconds < TWO63 <==> later < TWO63)
  {
  }

  // ----- one page -----

  function NormalizeLimit(limit: Option<nat>): (r: nat)
    ensures 1 <= r <= 500
    ensures limit.Some? && 1 <= limit.value <= 500 ==> r == limit.value
    ensures limit.Some? && limit.value > 500 ==> r == 500
    ensures limit.None? || limit.value == 0 ==> r == 100
  {
    if limit.Some? && limit.value > 0 then
      if limit.value < MAX_PAGE_LIMIT then limit.value else MAX_PAGE_LIMIT
    else DEFAULT_PAGE_LIMIT
  }

  function NormalizeMaxBytes(maxBytes: Option<nat>, allowed: nat): (r: nat)
    ensures r <= allowed
    ensures maxBytes.Some? && 1 <= maxBytes.value <= allowed ==> r == maxBytes.value
    ensures maxBytes.None? || maxBytes.value == 0 || maxBytes.value > allowed ==> r == allowed
  {
    if maxBytes.Some? && maxBytes.value > 0 then
      if maxBytes.value < allowed then maxBytes.value else allowed
    else allowed
  }

  /** The visible rows of one inbox past the cursor, in id order. */
  function Select(table: seq<Row>, inbox: string, now: int, cursor: int): seq<Row> {
    if table == [] then [] else Chosen(table[0], inbox, now, cursor) + Select(table[1..], inbox, now, cursor)
  }

  function Chosen(r: Row, inbox: string, now: int, cursor: int): seq<Row> {
    if Visible(r, inbox, now) && r.id > cursor then [r] else []
  }

  lemma {:induction false} SelectMembers(table: seq<Row>, inbox: string, now: int, cursor: int)
    ensures forall r :: r in Select(table, inbox, now, cursor) <==> r in table && Visible(r, inbox, now) && r.id > cursor
  {
    if table != [] {
      SelectMembers(table[1..], inbox, now, cursor);
      hide Visible;
      assert forall r :: r in table <==> r == table[0] || r in table[1..];
    }
  }

  function Bytes(rows: seq<Row>): nat {
    if rows == [] then 0 else |rows[0].item| + Bytes(rows[1..])
  }

  /** The longest prefix within both budgets. */
  function Fit(rows: seq<Row>, limit: nat, budget: nat): (s: seq<Row>)
    ensures s <= rows
  {
    if rows == [] || limit == 0 || |rows[0].item| > budget then []
    else [rows[0]] + Fit(rows[1..], limit - 1, budget - |rows[0].item|)
  }

  datatype Page = Page(rows: seq<Row>, nextCursor: Option<int>)

  /** What a page answers: as many rows as fit, and the last id when rows are left over. */
  function PageOf(table: seq<Row>, inbox: string, now: int, cursor: int, limit: nat, maxBytes: nat): Page {
    var s := Select(table, inbox, now, cursor);
    var taken := Fit(s, limit, maxBytes);
    Page(taken, if |taken| < |s| && taken != [] then Some(taken[|taken| - 1].id) else None)
  }

  lemma {:induction false} FitBudgets(rows: seq<Row>, limit: nat, budget: nat)
    ensures |Fit(rows, limit, budget)| <= limit
    ensures Bytes(Fit(rows, limit, budget)) <= budget
  {
    if rows != [] && limit > 0 && |rows[0].item| <= budget {
      FitBudgets(rows[1..], limit - 1, budget - |rows[0].item|);
      assert Fit(rows, limit, budget)[1..] == Fit(rows[1..], limit - 1, budget - |rows[0].item|);
    }
  }

  /** Fetching one row more than the limit is enough to know the page and whether more follow. */
  lemma {:induction false} FetchOneMore(rows: seq<Row>, limit: nat, budget: nat)
    ensures Fit(if |rows| > limit then rows[..limit + 1] else rows, limit, budget) == Fit(rows, limit, budget)
  {
    if |rows| > limit && limit > 0 && |rows[0].item| <= budget {
      FetchOneMore(rows[1..], limit - 1, budget - |rows[0].item|);
      assert rows[..limit + 1][1..] == rows[1..][..limit];
    }
  }

  lemma {:induction false} BytesSnoc(rows: seq<Row>, r: Row)
    ensures Bytes(rows + [r]) == Bytes(rows) + |r.item|
  {
    if rows == [] {
      assert rows + [r] == [r];
    } else {
      BytesSnoc(rows[1..], r);
      assert (rows + [r])[1..] == rows[1..] + [r];
    }
  }

  /** The loop's stopping rule characterizes the prefix that fits. */
  lemma {:induction false} FitIs(rows: seq<Row>, n: nat, limit: nat, budget: nat)
    requires n <= |rows| && n <= limit && Bytes(rows[..n]) <= budget
    requires n == |rows| || n == limit || Bytes(rows[..n]) + |rows[n].item| > budget
    ensures Fit(rows, limit, budget) == rows[..n]
  {
    if n > 0 {
      assert rows[..n][1..] == rows[1..][..n - 1];
      FitIs(rows[1..], n - 1, limit - 1, budget - |rows[0].item|);
    }
  }

  /** The loop over the fetched rows: stop at the first row that breaks a budget. */
  method TakeRows(rows: seq<Row>, limit: nat, maxBytes: nat)
    returns (items: seq<Row>, lastId: Option<int>, hasMore: bool)
    ensures items == Fit(rows, limit, maxBytes)
    ensures hasMore <==> |items| < |rows|
    ensures lastId == if items == [] then None else Some(items[|items| - 1].id)
  {
    hide Fit, Bytes;
    NoBytes();
    items, lastId, hasMore := [], None, false;
    var totalBytes := 0;
    var i := 0;
    while i < |rows|
      invariant 0 <= i <= |rows| && i <= limit
      invariant items == rows[..i] && totalBytes == Bytes(items) <= maxBytes
      invariant lastId == if i == 0 then None else Some(rows[i - 1].id)
    {
      if |items| >= limit {
        hasMore := true;
        break;
      }
      if totalBytes + |rows[i].item| > maxBytes {
        hasMore := true;
        break;
      }
      BytesSnoc(items, rows[i]);
      totalBytes := totalBytes + |rows[i].item|;
      lastId := Some(rows[i].id);
      items := items + [rows[i]];
      i := i + 1;
    }
    FitIs(rows, i, limit, maxBytes);
  }

  lemma NoBytes()
    ensures Bytes([]) == 0
  {
  }

  // ----- which rows a page is made of -----

  lemma {:induction false} FitMember(rows: seq<Row>, limit: nat, budget: nat, r: Row)
    requires r in Fit(rows, limit, budget)
    ensures r in rows
  {
    var part := Fit(rows, limit, budget);
    var i :| 0 <= i < |part| && part[i] == r;
    assert rows[i] == r;
  }

  /** The rows selected for a page are the stored rows of that inbox past the cursor whose expiry is
      absent or later than the clock. */
  lemma {:induction false} SelectedIff(table: seq<Row>, inbox: string, now: int, cursor: int, r: Row)
    ensures r in Select(table, inbox, now, cursor)
       <==> r in table && r.inbox == inbox && r.id > cursor && (r.expires == None || r.expires.value > now)
  {
    SelectMembers(table, inbox, now, cursor);
  }

  lemma {:induction false} PageRowsBelong(table: seq<Row>, inbox: string, now: int, cursor: int, limit: nat, maxBytes: nat, r: Row)
    requires r in PageOf(table, inbox, now, cursor, limit, maxBytes).rows
    ensures r in table && r.inbox == inbox && r.id > cursor && (r.expires == None || r.expires.value > now)
  {
    FitMember(Select(table, inbox, now, cursor), limit, maxBytes, r);
    SelectedIff(table, inbox, now, cursor, r);
  }

  lemma {:induction false} SelectConcat(a: seq<Row>, b: seq<Row>, inbox: string, now: int, cursor: int)
    ensures Select(a + b, inbox, now, cursor) == Select(a, inbox, now, cursor) + Select(b, inbox, now, cursor)
  {
    if a == [] {
      assert a + b == b;
    } else {
      hide Visible, Chosen;
      SelectConcat(a[1..], b, inbox, now, cursor);
      var ab := a + b;
      assert ab[0] == a[0] && ab[1..] == a[1..] + b;
      var head, mid, last := Chosen(a[0], inbox, now, cursor), Select(a[1..], inbox, now, cursor), Select(b, inbox, now, cursor);
      assert Select(ab, inbox, now, cursor) == head + Select(ab[1..], inbox, now, cursor);
      assert Select(a, inbox, now, cursor) == head + mid;
      Associates(head, mid, last);
    }
  }

  /** A row of another inbox, an expired one or one the cursor has passed never changes a page,
      wherever it stands. */
  lemma {:induction false} OtherRowsDoNotMatter(pre: seq<Row>, r: Row, post: seq<Row>, inbox: string, now: int, cursor: int,
                                                limit: nat, maxBytes: nat)
    requires r.inbox != inbox || r.id <= cursor || (r.expires.Some? && r.expires.value <= now)
    ensures PageOf(pre + [r] + post, inbox, now, cursor, limit, maxBytes)
         == PageOf(pre + post, inbox, now, cursor, limit, maxBytes)
  {
    NotSelected(r, inbox, now, cursor);
    hide Select, Fit;
    SelectConcat(pre + [r], post, inbox, now, cursor);
    SelectConcat(pre, [r], inbox, now, cursor);
    SelectConcat(pre, post, inbox, now, cursor);
    assert Select(pre, inbox, now, cursor) + [] == Select(pre, inbox, now, cursor);
  }

  lemma NotSelected(r: Row, inbox: string, now: int, cursor: int)
    requires r.inbox != inbox || r.id <= cursor || (r.expires.Some? && r.expires.value <= now)
    ensures Select([r], inbox, now, cursor) == []
  {
    assert [r][1..] == [];
  }

  /** The page query. */
  method LoadInboxItems(keys: set<string>, table: seq<Row>, inbox: string, now: int,
                        cursor: Option<int>, limit: nat, maxBytes: nat) returns (page: Option<Page>)
    ensures page == if inbox in keys
                    then Some(PageOf(table, inbox, now, if cursor.Some? then cursor.value else 0, limit, maxBytes))
                    else None
  {
    hide Select, Fit;
    if inbox !in keys {
      return None;
    }
    var start := if cursor.Some? then cursor.value else 0;
    var selected := Select(table, inbox, now, start);
    var rows := if |selected| > limit then selected[..limit + 1] else selected;
    FetchOneMore(selected, limit, maxBytes);
    FitBudgets(selected, limit, maxBytes);
    var items, lastId, hasMore := TakeRows(rows, limit, maxBytes);
    page := Some(Page(items, if hasMore then lastId else None));
  }
}

/** The client's cursor walk, interleaved with inserts by others and the advancing clock. */
module InboxWalk {
  import opened Numbers
  import opened Inbox

  /** The parameters of one walk. */
  datatype Query = Query(inbox: string, limit: nat, maxBytes: nat)

  /** Table and clock of the bridge, and what the client has so far. */
  datatype State = State(table: seq<Row>, now: int, cursor: int, got: seq<Row>, done: bool)

  ghost predicate AscendingIds(rows: seq<Row>) {
    forall i, j :: 0 <= i < j < |rows| ==> rows[i].id < rows[j].id
  }

  /** Positive ascending ids, and no stored item above the item limit. */
  ghost predicate GoodTable(table: seq<Row>) {
    && AscendingIds(table)
    && forall r :: r in table ==> r.id > 0 && |r.item| <= MAX_ITEM_BYTES
  }

  ghost predicate Init(s: State) {
    GoodTable(s.table) && s.cursor == 0 && s.got == [] && !s.done
  }

  /** Another client's item is appended, under an id above every earlier id. */
  ghost predicate Insert(s: State, t: State, r: Row) {
    && t == s.(table := s.table + [r])
    && GoodTable(t.table)
  }

  ghost predicate Tick(s: State, t: State) {
    t == s.(now := t.now) && s.now <= t.now
  }

  /** The client asks for the next page, keeps its items and follows its cursor. */
  ghost predicate NextPage(q: Query, s: State, t: State) {
    var page := PageOf(s.table, q.inbox, s.now, s.cursor, q.limit, q.maxBytes);
    t == s.(got := s.got + page.rows,
            cursor := if page.nextCursor.Some? then page.nextCursor.value else s.cursor,
            done := page.nextCursor.None?)
  }

  ghost predicate Step(q: Query, s: State, t: State) {
    !s.done && ((exists r :: Insert(s, t, r)) || Tick(s, t) || NextPage(q, s, t))
  }

  ghost predicate Run(q: Query, run: seq<State>) {
    && run != [] && Init(run[0])
    && forall i :: 0 <= i < |run| - 1 ==> Step(q, run[i], run[i + 1])
  }

  /** Every visible row up to the cursor has been returned, each once and in order. */
  ghost predicate Inv(q: Query, start: int, s: State) {
    && GoodTable(s.table) && start <= s.now
    && AscendingIds(s.got)
    && (s.cursor == 0 || exists r :: r in s.table && r.id == s.cursor)
    && (forall r :: r in s.got ==> r in s.table && Visible(r, q.inbox, start))
    && (!s.done ==> forall r :: r in s.got ==> r.id <= s.cursor)
    && (forall r :: r in s.table && Visible(r, q.inbox, s.now) && r.id <= s.cursor ==> r in s.got)
  }

  // ----- a page -----

  lemma {:induction false} SelectAscending(table: seq<Row>, inbox: string, now: int, cursor: int)
    requires AscendingIds(table)
    ensures AscendingIds(Select(table, inbox, now, cursor))
  {
    if table != [] {
      SelectAscending(table[1..], inbox, now, cursor);
      SelectMembers(table[1..], inbox, now, cursor);
      var rest := Select(table[1..], inbox, now, cursor);
      forall r | r in rest ensures table[0].id < r.id {
        assert r in table[1..];
        var i :| 0 <= i < |table[1..]| && table[1..][i] == r;
        assert table[i + 1] == r;
      }
      assert forall i :: 0 <= i < |rest| ==> rest[i] in rest;
    }
  }

  /** A page stops for good with rows left over exactly when the first row alone is too big. */
  lemma {:induction false} StalledPageIff(q: Query, s: State)
    requires q.limit >= 1
    ensures var rows := Select(s.table, q.inbox, s.now, s.cursor);
            var page := PageOf(s.table, q.inbox, s.now, s.cursor, q.limit, q.maxBytes);
            page.nextCursor.None? && |page.rows| < |rows| <==> rows != [] && |rows[0].item| > q.maxBytes
  {
  }

  /** The first row still to come, if any, fits the byte budget. */
  ghost predicate NextFits(q: Query, s: State) {
    var rows := Select(s.table, q.inbox, s.now, s.cursor);
    rows == [] || |rows[0].item| <= q.maxBytes
  }

  lemma {:induction false} PageCases(q: Query, s: State)
    requires q.limit >= 1
    ensures var rows := Select(s.table, q.inbox, s.now, s.cursor);
            var page := PageOf(s.table, q.inbox, s.now, s.cursor, q.limit, q.maxBytes);
            && page.rows <= rows
            && (page.nextCursor.None? ==> page.rows == if NextFits(q, s) then rows else [])
            && (page.nextCursor.Some? ==> page.rows != [] && page.nextCursor.value == page.rows[|page.rows| - 1].id)
  {
    hide Select;
    StalledPageIff(q, s);
  }

  /** The rows of a prefix of an ascending sequence are those up to its last id. */
  lemma {:induction false} PrefixByLast(rows: seq<Row>, part: seq<Row>, r: Row)
    requires AscendingIds(rows) && part <= rows && part != [] && r in rows
    ensures r in part <==> r.id <= part[|part| - 1].id
  {
    var i :| 0 <= i < |rows| && rows[i] == r;
    if i < |part| {
      assert r == part[i];
    }
  }

  lemma {:induction false} JoinAscending(a: seq<Row>, b: seq<Row>, cursor: int)
    requires AscendingIds(a) && AscendingIds(b)
    requires (forall r :: r in a ==> r.id <= cursor) && (forall r :: r in b ==> r.id > cursor)
    ensures AscendingIds(a + b)
  {
    var c := a + b;
    forall i, j | 0 <= i < j < |c| ensures c[i].id < c[j].id {
      if i < |a| <= j {
        assert a[i] in a && b[j - |a|] in b;
      }
    }
  }

  // ----- every step keeps the invariant -----

  /** What a page adds: past the cursor, in order, and leaving out nothing up to its own cursor. */
  lemma {:induction false} PageParts(q: Query, s: State, page: Page)
    requires q.limit >= 1 && GoodTable(s.table)
    requires page == PageOf(s.table, q.inbox, s.now, s.cursor, q.limit, q.maxBytes)
    ensures AscendingIds(page.rows)
    ensures forall r :: r in page.rows ==> r in s.table && Visible(r, q.inbox, s.now) && r.id > s.cursor
    ensures page.nextCursor.Some? ==> page.rows != [] && page.nextCursor.value == page.rows[|page.rows| - 1].id
    ensures forall r :: r in s.table && Visible(r, q.inbox, s.now) && r.id > s.cursor ==>
                          if page.nextCursor.None? then NextFits(q, s) <==> r in page.rows
                          else r in page.rows <==> r.id <= page.nextCursor.value
  {
    var rows := Select(s.table, q.inbox, s.now, s.cursor);
    SelectAscending(s.table, q.inbox, s.now, s.cursor);
    SelectMembers(s.table, q.inbox, s.now, s.cursor);
    PageCases(q, s);
    hide Select, PageOf, Visible, AscendingIds, NextFits;
    PrefixAscending(rows, page.rows);
    forall r | r in rows
      ensures if page.nextCursor.None? then NextFits(q, s) <==> r in page.rows
              else r in page.rows <==> r.id <= page.nextCursor.value
    {
      if page.nextCursor.Some? {
        PrefixByLast(rows, page.rows, r);
      }
    }
  }

  lemma {:induction false} PrefixAscending(rows: seq<Row>, part: seq<Row>)
    requires AscendingIds(rows) && part <= rows
    ensures AscendingIds(part) && forall r :: r in part ==> r in rows
  {
    assert forall i :: 0 <= i < |part| ==> part[i] == rows[i];
  }

  lemma VisibleEarlier(r: Row, inbox: string, start: int, now: int)
    requires start <= now && Visible(r, inbox, now)
    ensures Visible(r, inbox, start)
  {
  }

  lemma {:induction false} PageKeepsInv(q: Query, start: int, s: State, t: State)
    requires q.limit >= 1 && Inv(q, start, s) && !s.done && NextPage(q, s, t)
    ensures Inv(q, start, t)
  {
    var page := PageOf(s.table, q.inbox, s.now, s.cursor, q.limit, q.maxBytes);
    PageParts(q, s, page);
    JoinAscending(s.got, page.rows, s.cursor);
    assert forall r :: r in t.got <==> r in s.got || r in page.rows;
    forall r | r in page.rows ensures r in s.table && Visible(r, q.inbox, start) {
      VisibleEarlier(r, q.inbox, start, s.now);
    }
    CursorMoves(s, page);
    hide PageOf, NextFits, Select, Visible, AscendingIds, GoodTable;
  }

  /** A page that is not the last moves the cursor to its last row, the highest so far. */
  lemma {:induction false} CursorMoves(s: State, page: Page)
    requires AscendingIds(page.rows) && forall r :: r in page.rows ==> r in s.table && r.id > s.cursor
    requires page.nextCursor.Some? ==> page.rows != [] && page.nextCursor.value == page.rows[|page.rows| - 1].id
    ensures page.nextCursor.Some? ==>
              && page.nextCursor.value > s.cursor
              && (exists r :: r in s.table && r.id == page.nextCursor.value)
              && (forall r :: r in page.rows ==> r.id <= page.nextCursor.value)
  {
    if page.nextCursor.Some? {
      assert page.rows[|page.rows| - 1] in page.rows;
    }
  }

  lemma {:induction false} InsertKeepsInv(q: Query, start: int, s: State, t: State, r: Row)
    requires Inv(q, start, s) && !s.done && Insert(s, t, r)
    ensures Inv(q, start, t)
  {
    assert forall x :: x in t.table <==> x in s.table || x == r;
    if s.cursor != 0 {
      var c :| c in s.table && c.id == s.cursor;
      var i :| 0 <= i < |s.table| && s.table[i] == c;
      assert t.table[i].id < t.table[|s.table|].id;
      assert r.id > s.cursor;
    }
  }

  lemma {:induction false} StepKeepsInv(q: Query, start: int, s: State, t: State)
    requires q.limit >= 1 && Inv(q, start, s) && Step(q, s, t)
    ensures Inv(q, start, t)
  {
    if r :| Insert(s, t, r) {
      InsertKeepsInv(q, start, s, t, r);
    } else if NextPage(q, s, t) {
      PageKeepsInv(q, start, s, t);
    }
  }

  lemma {:induction false} RunInv(q: Query, run: seq<State>, i: nat)
    requires q.limit >= 1 && Run(q, run) && i < |run|
    ensures Inv(q, run[0].now, run[i])
  {
    if i > 0 {
      RunInv(q, run, i - 1);
      StepKeepsInv(q, run[0].now, run[i - 1], run[i]);
    }
  }

  /** What a page that ends the walk leaves behind. */
  lemma {:induction false} LastPage(q: Query, start: int, s: State, t: State)
    requires q.limit >= 1 && Inv(q, start, s) && !s.done && NextPage(q, s, t) && t.done
    ensures (forall r :: r in t.table && Visible(r, q.inbox, t.now) ==> r in t.got) <==> NextFits(q, s)
  {
    var page := PageOf(s.table, q.inbox, s.now, s.cursor, q.limit, q.maxBytes);
    PageParts(q, s, page);
    hide PageOf;
    assert forall r :: r in t.got <==> r in s.got || r in page.rows;
    SelectMembers(s.table, q.inbox, s.now, s.cursor);
    hide Select;
    if !NextFits(q, s) {
      var r := Select(s.table, q.inbox, s.now, s.cursor)[0];
      assert r in Select(s.table, q.inbox, s.now, s.cursor);
      assert r in t.table && Visible(r, q.inbox, t.now) && r !in t.got;
    }
  }

  /** Whatever else happens meanwhile, and for every page limit and byte budget, a finished walk
      has returned rows of the inbox that had not expired when it began, in id order and each
      once; among them is every row that is stored and unexpired at its last page if and only if,
      at that page, no row was left or the next one fits the byte budget. */
  lemma {:induction false} FinishedWalkIff(q: Query, run: seq<State>)
    requires q.limit >= 1 && Run(q, run) && run[|run| - 1].done
    ensures |run| >= 2 && AscendingIds(run[|run| - 1].got)
    ensures var last := run[|run| - 1];
            && (forall r :: r in last.got ==> r in last.table && Visible(r, q.inbox, run[0].now))
            && ((forall r :: r in last.table && Visible(r, q.inbox, last.now) ==> r in last.got)
                <==> NextFits(q, run[|run| - 2]))
  {
    var n := |run| - 1;
    RunInv(q, run, n);
    RunInv(q, run, n - 1);
    hide Inv, NextFits;
    assert Step(q, run[n - 1], run[n]);
    LastPage(q, run[0].now, run[n - 1], run[n]);
    InvParts(q, run[0].now, run[n]);
  }

  lemma InvParts(q: Query, start: int, s: State)
    requires Inv(q, start, s)
    ensures AscendingIds(s.got) && forall r :: r in s.got ==> r in s.table && Visible(r, q.inbox, start)
  {
  }

  /** In the rows' own terms: everything a walk returned is an item of the inbox that had no expiry
      or one later than the clock at its start. */
  lemma {:induction false} WalkRowsBelong(q: Query, run: seq<State>, n: nat, r: Row)
    requires q.limit >= 1 && Run(q, run) && n < |run| && r in run[n].got
    ensures r in run[n].table && r.inbox == q.inbox && (r.expires == None || r.expires.value > run[0].now)
  {
    RunInv(q, run, n);
  }

  /** With a byte budget that holds every item, nothing is ever left behind. */
  lemma {:induction false} FinishedWalkIsExact(q: Query, run: seq<State>)
    requires q.limit >= 1 && q.maxBytes >= MAX_ITEM_BYTES
    requires Run(q, run) && run[|run| - 1].done
    ensures var last := run[|run| - 1];
            && AscendingIds(last.got)
            && (forall r :: r in last.got ==> r in last.table && Visible(r, q.inbox, run[0].now))
            && (forall r :: r in last.table && Visible(r, q.inbox, last.now) ==> r in last.got)
  {
    FinishedWalkIff(q, run);
    RunInv(q, run, |run| - 2);
    var s := run[|run| - 2];
    var rows := Select(s.table, q.inbox, s.now, s.cursor);
    SelectMembers(s.table, q.inbox, s.now, s.cursor);
    hide Run, Select;
    if rows != [] {
      assert rows[0] in rows;
      assert rows[0] in s.table;
    }
  }

  /** The walk of the shipped client: its page limit, and the bridge's byte limit. */
  function ClientQuery(inbox: string): Query {
    Query(inbox, NormalizeLimit(Some(DEFAULT_PAGE_LIMIT)), NormalizeMaxBytes(None, BRIDGE_MAX_BYTES))
  }

  /** The shipped client never leaves a row behind. */
  lemma {:induction false} ClientWalkIsExact(inbox: string, run: seq<State>)
    requires Run(ClientQuery(inbox), run) && run[|run| - 1].done
    ensures var last := run[|run| - 1];
            forall r :: r in last.table && r.inbox == inbox && (r.expires == None || r.expires.value > last.now) ==>
                          r in last.got
  {
    hide Run;
    FinishedWalkIsExact(ClientQuery(inbox), run);
  }

  /** A walk with a budget of one byte over an inbox with one item of two ends without it. */
  lemma SmallPagesLoseItems()
    ensures var r := Row(1, "k", [7, 7], None);
            var s := State([r], 0, 0, [], false);
            var q := Query("k", 100, NormalizeMaxBytes(Some(1), BRIDGE_MAX_BYTES));
            Run(q, [s, s.(done := true)]) && Visible(r, "k", 0) && r !in s.got
  {
    var r := Row(1, "k", [7, 7], None);
    var s := State([r], 0, 0, [], false);
    var q := Query("k", 100, 1);
    assert Select([r][1..], "k", 0, 0) == [];
    assert Select([r], "k", 0, 0) == [r];
    assert NextPage(q, s, s.(done := true));
  }

  // ----- without inserts the walk ends -----

  /** Rows still ahead of the cursor. */
  function Ahead(table: seq<Row>, cursor: int): nat {
    if table == [] then 0 else (if table[0].id > cursor then 1 else 0) + Ahead(table[1..], cursor)
  }

  lemma {:induction false} AheadShrinks(table: seq<Row>, c: int, d: int)
    requires c < d
    ensures Ahead(table, d) <= Ahead(table, c)
    ensures (exists r :: r in table && c < r.id <= d) ==> Ahead(table, d) < Ahead(table, c)
  {
    if table != [] {
      AheadShrinks(table[1..], c, d);
      if r :| r in table && c < r.id <= d {
        assert r == table[0] || r in table[1..];
      }
    }
  }

  /** The client loop against a bridge whose table stands still while its clock runs. It always
      ends, and returns every item that is unexpired at the last page. */
  method ScanInbox(keys: set<string>, table: seq<Row>, inbox: string, clock: nat -> int)
    returns (items: Option<seq<bytes>>, ghost run: seq<State>)
    requires GoodTable(table)
    requires forall i, j :: i <= j ==> clock(i) <= clock(j)
    ensures items.None? <==> inbox !in keys
    ensures items.Some? ==>
              && Run(ClientQuery(inbox), run)
              && run[|run| - 1].done && run[|run| - 1].table == table
              && items.value == Items(run[|run| - 1].got)
  {
    var q := ClientQuery(inbox);
    run := [State(table, clock(0), 0, [], false)];
    assert Run(q, run);
    hide GoodTable, Run, PageOf, ClientQuery, Items;
    if inbox !in keys {
      return None, run;
    }
    var collected: seq<bytes> := [];
    var cursor: Option<int> := None;
    var i := 0;
    ghost var s := run[0];
    assert Items([]) == [];
    while true
      invariant run != [] && Run(q, run) && run[|run| - 1] == s
      invariant s == State(table, clock(i), if cursor.Some? then cursor.value else 0, s.got, false)
      invariant collected == Items(s.got)
      decreases Ahead(table, s.cursor)
    {
      var page := LoadInboxItems(keys, table, inbox, clock(i), cursor, q.limit, q.maxBytes);
      collected := collected + Items(page.value.rows);
      ItemsConcat(s.got, page.value.rows);
      run := PageExtends(q, run, page.value);
      if page.value.nextCursor.None? {
        break;
      }
      PageAdvances(q, s);
      cursor := page.value.nextCursor;
      i := i + 1;
      run := TickExtends(q, run, clock(i));
      s := run[|run| - 1];
    }
    items := Some(collected);
  }

  lemma {:induction false} PageExtends(q: Query, run: seq<State>, page: Page) returns (longer: seq<State>)
    requires Run(q, run) && !run[|run| - 1].done
    requires var s := run[|run| - 1]; page == PageOf(s.table, q.inbox, s.now, s.cursor, q.limit, q.maxBytes)
    ensures longer != [] && Run(q, longer)
    ensures longer[|longer| - 1]
         == run[|run| - 1].(got := run[|run| - 1].got + page.rows,
                            cursor := if page.nextCursor.Some? then page.nextCursor.value else run[|run| - 1].cursor,
                            done := page.nextCursor.None?)
  {
    hide PageOf;
    var s := run[|run| - 1];
    var t := s.(got := s.got + page.rows,
                cursor := if page.nextCursor.Some? then page.nextCursor.value else s.cursor,
                done := page.nextCursor.None?);
    assert NextPage(q, s, t);
    longer := run + [t];
  }

  lemma {:induction false} TickExtends(q: Query, run: seq<State>, now: int) returns (longer: seq<State>)
    requires Run(q, run) && !run[|run| - 1].done && run[|run| - 1].now <= now
    ensures longer != [] && Run(q, longer) && longer[|longer| - 1] == run[|run| - 1].(now := now)
  {
    var s := run[|run| - 1];
    assert Tick(s, s.(now := now));
    longer := run + [s.(now := now)];
  }

  lemma {:induction false} ItemsConcat(a: seq<Row>, b: seq<Row>)
    ensures Items(a + b) == Items(a) + Items(b)
  {
  }

  function Items(rows: seq<Row>): (r: seq<bytes>)
    ensures |r| == |rows| && forall i :: 0 <= i < |rows| ==> r[i] == rows[i].item
  {
    seq(|rows|, i requires 0 <= i < |rows| => rows[i].item)
  }

  lemma {:induction false} PageAdvances(q: Query, s: State)
    requires q.limit >= 1
    requires PageOf(s.table, q.inbox, s.now, s.cursor, q.limit, q.maxBytes).nextCursor.Some?
    ensures var c := PageOf(s.table, q.inbox, s.now, s.cursor, q.limit, q.maxBytes).nextCursor.value;
            c > s.cursor && Ahead(s.table, c) < Ahead(s.table, s.cursor)
  {
    PageCases(q, s);
    SelectMembers(s.table, q.inbox, s.now, s.cursor);
    hide Select, PageOf;
    var page := PageOf(s.table, q.inbox, s.now, s.cursor, q.limit, q.maxBytes);
    var r := page.rows[|page.rows| - 1];
    assert r in Select(s.table, q.inbox, s.now, s.cursor);
    AheadShrinks(s.table, s.cursor, r.id);
  }
}
