/** Keyset paging over the message table: the two SQL queries, the listing call that serves pages and
    mints cursors, and what following those cursors yields. */
module Paging {
  import opened Options
  import opened Decimal
  import opened KeysetWalk
  import opened Seqs
  import Cursor

  datatype Row = Row(id: int, thread: int, date: int, body: string)

  // ---------------------------------------------------------------- SQL over a finite table

  predicate Before(a: Row, b: Row) {
    a.date < b.date || (a.date == b.date && a.id < b.id)
  }

  function Where(rows: seq<Row>, p: Row -> bool): seq<Row> {
    if rows == [] then []
    else if p(rows[0]) then [rows[0]] + Where(rows[1..], p)
    else Where(rows[1..], p)
  }

  function InsertAsc(x: Row, s: seq<Row>): seq<Row> {
    if s == [] || Before(x, s[0]) then [x] + s else [s[0]] + InsertAsc(x, s[1..])
  }

  /** ORDER BY date ASC, id ASC */
  function OrderAsc(rows: seq<Row>): seq<Row> {
    if rows == [] then [] else InsertAsc(rows[0], OrderAsc(rows[1..]))
  }

  function InsertDesc(x: Row, s: seq<Row>): seq<Row> {
    if s == [] || Before(s[0], x) then [x] + s else [s[0]] + InsertDesc(x, s[1..])
  }

  /** ORDER BY date DESC, id DESC */
  function OrderDesc(rows: seq<Row>): seq<Row> {
    if rows == [] then [] else InsertDesc(rows[0], OrderDesc(rows[1..]))
  }

  function Limit(rows: seq<Row>, n: nat): seq<Row> {
    if |rows| <= n then rows else rows[..n]
  }

  /** SELECT ... FROM (SELECT ... ORDER BY DESC LIMIT n) ORDER BY ASC */
  function Newest(rows: seq<Row>, n: nat): seq<Row> {
    OrderAsc(Limit(OrderDesc(rows), n))
  }

  function InThread(rows: seq<Row>, thread: int): seq<Row> {
    Where(rows, OfThread(thread))
  }

  function OfThread(thread: int): Row -> bool {
    (r: Row) => r.thread == thread
  }

  /** The WHERE clause behind a cursor; without a row id it compares dates only. */
  function OlderThan(thread: int, date: int, id: int): Row -> bool {
    (r: Row) => r.thread == thread &&
                (if id > 0 then r.date < date || (r.date == date && r.id < id) else r.date < date)
  }

  /** LoadMessagesForThread */
  function LoadThread(rows: seq<Row>, thread: int, limit: int): seq<Row> {
    if thread <= 0 then [] else Newest(InThread(rows, thread), if limit <= 0 then 100 else limit)
  }

  /** LoadMessagesBeforeCursor */
  function LoadBefore(rows: seq<Row>, thread: int, date: int, id: int, limit: int): seq<Row> {
    if thread <= 0 then [] else Newest(Where(rows, OlderThan(thread, date, id)), if limit <= 0 then 100 else limit)
  }

  // ---------------------------------------------------------------- facts about ordering

  ghost predicate Ascending(s: seq<Row>) {
    forall i, j :: 0 <= i < j < |s| ==> Before(s[i], s[j])
  }

  ghost predicate Descending(s: seq<Row>) {
    forall i, j :: 0 <= i < j < |s| ==> Before(s[j], s[i])
  }

  ghost predicate DistinctIds(rows: seq<Row>) {
    forall i, j :: 0 <= i < j < |rows| ==> rows[i].id != rows[j].id
  }

  ghost function Elems(s: seq<Row>): set<Row> {
    set x | x in s
  }

  lemma ConsElems(x: Row, s: seq<Row>)
    ensures Elems([x] + s) == {x} + Elems(s)
  {
  }

  lemma NoElems(s: seq<Row>)
    ensures Elems(s) == {} <==> s == []
  {
    if s != [] {
      assert s[0] in Elems(s);
    }
  }

  lemma TailElems(s: seq<Row>)
    requires s != []
    ensures Elems(s) == {s[0]} + Elems(s[1..])
  {
    assert s == [s[0]] + s[1..];
    ConsElems(s[0], s[1..]);
  }

  lemma ConsAscending(x: Row, s: seq<Row>)
    requires Ascending(s) && forall y :: y in Elems(s) ==> Before(x, y)
    ensures Ascending([x] + s)
  {
    forall i | 0 <= i < |s| ensures Before(x, s[i]) {
      assert s[i] in Elems(s);
    }
  }

  lemma FirstBeforeTail(s: seq<Row>)
    requires Ascending(s) && s != []
    ensures forall y :: y in Elems(s[1..]) ==> Before(s[0], y)
    ensures Ascending(s[1..])
  {
  }

  lemma {:induction false} InsertAscFacts(x: Row, s: seq<Row>)
    requires Ascending(s) && forall y :: y in Elems(s) ==> y.id != x.id
    ensures Ascending(InsertAsc(x, s)) && Elems(InsertAsc(x, s)) == {x} + Elems(s)
    ensures |InsertAsc(x, s)| == |s| + 1
  {
    if s == [] {
    } else {
      TailElems(s);
      FirstBeforeTail(s);
      assert s[0] in Elems(s);
      if Before(x, s[0]) {
        ConsElems(x, s);
        ConsAscending(x, s);
      } else {
        InsertAscFacts(x, s[1..]);
        ConsElems(s[0], InsertAsc(x, s[1..]));
        ConsAscending(s[0], InsertAsc(x, s[1..]));
      }
    }
  }

  lemma HeadIdIsNew(rows: seq<Row>)
    requires DistinctIds(rows) && rows != []
    ensures forall y :: y in Elems(rows[1..]) ==> y.id != rows[0].id
    ensures DistinctIds(rows[1..])
  {
  }

  lemma {:induction false} OrderAscFacts(rows: seq<Row>)
    requires DistinctIds(rows)
    ensures Ascending(OrderAsc(rows)) && Elems(OrderAsc(rows)) == Elems(rows)
    ensures |OrderAsc(rows)| == |rows|
  {
    if rows != [] {
      HeadIdIsNew(rows);
      OrderAscFacts(rows[1..]);
      InsertAscFacts(rows[0], OrderAsc(rows[1..]));
      TailElems(rows);
    }
  }

  /** An ascending arrangement of given rows is unique. */
  lemma {:induction false} AscendingIsUnique(a: seq<Row>, b: seq<Row>)
    requires Ascending(a) && Ascending(b) && Elems(a) == Elems(b)
    ensures a == b
  {
    NoElems(a);
    NoElems(b);
    if a != [] {
      assert a[0] in Elems(b);
      TailElems(a);
      TailElems(b);
      FirstBeforeTail(a);
      FirstBeforeTail(b);
      assert b[0] in Elems(a);
      assert a[0] == b[0];
      assert Elems(a[1..]) == Elems(a) - {a[0]};
      assert Elems(b[1..]) == Elems(b) - {b[0]};
      AscendingIsUnique(a[1..], b[1..]);
      assert a == [a[0]] + a[1..] && b == [b[0]] + b[1..];
    }
  }

  function Reverse(s: seq<Row>): (r: seq<Row>)
    ensures |r| == |s| && forall i :: 0 <= i < |s| ==> r[i] == s[|s| - 1 - i]
  {
    if s == [] then [] else Reverse(s[1..]) + [s[0]]
  }

  lemma {:induction false} InsertDescFacts(x: Row, s: seq<Row>)
    requires Descending(s) && forall y :: y in Elems(s) ==> y.id != x.id
    ensures Descending(InsertDesc(x, s)) && Elems(InsertDesc(x, s)) == {x} + Elems(s)
  {
    if s == [] {
    } else {
      TailElems(s);
      assert s[0] in Elems(s);
      assert forall y :: y in Elems(s[1..]) ==> Before(y, s[0]);
      if Before(s[0], x) {
        ConsElems(x, s);
        ConsDescending(x, s);
      } else {
        InsertDescFacts(x, s[1..]);
        ConsElems(s[0], InsertDesc(x, s[1..]));
        ConsDescending(s[0], InsertDesc(x, s[1..]));
      }
    }
  }

  lemma ConsDescending(x: Row, s: seq<Row>)
    requires Descending(s) && forall y :: y in Elems(s) ==> Before(y, x)
    ensures Descending([x] + s)
  {
    forall i | 0 <= i < |s| ensures Before(s[i], x) {
      assert s[i] in Elems(s);
    }
  }

  lemma {:induction false} OrderDescFacts(rows: seq<Row>)
    requires DistinctIds(rows)
    ensures Descending(OrderDesc(rows)) && Elems(OrderDesc(rows)) == Elems(rows)
  {
    if rows != [] {
      HeadIdIsNew(rows);
      OrderDescFacts(rows[1..]);
      InsertDescFacts(rows[0], OrderDesc(rows[1..]));
      TailElems(rows);
    }
  }

  lemma ReverseElems(s: seq<Row>)
    ensures Elems(Reverse(s)) == Elems(s)
  {
    forall x ensures x in Elems(Reverse(s)) <==> x in Elems(s) {
      if x in s {
        var i :| 0 <= i < |s| && s[i] == x;
        assert Reverse(s)[|s| - 1 - i] == x;
      }
    }
  }

  /** Descending order is ascending order backwards. */
  lemma OrdersMirror(rows: seq<Row>)
    requires DistinctIds(rows)
    ensures Reverse(OrderDesc(rows)) == OrderAsc(rows)
  {
    OrderDescFacts(rows);
    OrderAscFacts(rows);
    ReverseElems(OrderDesc(rows));
    AscendingIsUnique(Reverse(OrderDesc(rows)), OrderAsc(rows));
  }

  lemma DistinctFromDescending(s: seq<Row>, rows: seq<Row>)
    requires Descending(s) && DistinctIds(rows) && Elems(s) <= Elems(rows)
    ensures DistinctIds(s)
  {
    forall i, j | 0 <= i < j < |s| ensures s[i].id != s[j].id {
      assert s[i] in Elems(rows) && s[j] in Elems(rows);
      assert Before(s[j], s[i]);
      var p :| 0 <= p < |rows| && rows[p] == s[i];
      var q :| 0 <= q < |rows| && rows[q] == s[j];
    }
  }

  /** The nested SELECT is the last n rows of the ascending order. */
  lemma NewestIsSuffix(rows: seq<Row>, n: nat)
    requires DistinctIds(rows)
    ensures Newest(rows, n) == Last(OrderAsc(rows), n)
  {
    var desc := OrderDesc(rows);
    var cut := Limit(desc, n);
    OrderDescFacts(rows);
    OrdersMirror(rows);
    assert forall i :: 0 <= i < |cut| ==> cut[i] == desc[i];
    assert Elems(cut) <= Elems(rows) by {
      forall x | x in cut ensures x in Elems(rows) {
        assert x in Elems(desc);
      }
    }
    DistinctFromDescending(cut, rows);
    OrderAscFacts(cut);
    ReverseElems(cut);
    AscendingIsUnique(Reverse(cut), OrderAsc(cut));
    assert Reverse(cut) == Last(Reverse(desc), n);
  }

  lemma {:induction false} WhereFacts(rows: seq<Row>, p: Row -> bool)
    requires DistinctIds(rows)
    ensures DistinctIds(Where(rows, p))
    ensures forall x :: x in Elems(Where(rows, p)) <==> x in Elems(rows) && p(x)
  {
    if rows != [] {
      HeadIdIsNew(rows);
      WhereFacts(rows[1..], p);
      TailElems(rows);
      if p(rows[0]) {
        ConsElems(rows[0], Where(rows[1..], p));
        ConsDistinct(rows[0], Where(rows[1..], p));
      }
    }
  }

  lemma ConsDistinct(x: Row, s: seq<Row>)
    requires DistinctIds(s) && forall y :: y in Elems(s) ==> y.id != x.id
    ensures DistinctIds([x] + s)
  {
    forall i | 0 <= i < |s| ensures s[i].id != x.id {
      assert s[i] in Elems(s);
    }
  }

  // ---------------------------------------------------------------- the thread and its pages

  /** The whole thread, oldest first: what paging is supposed to deliver. */
  function Thread(rows: seq<Row>, thread: int): seq<Row> {
    OrderAsc(InThread(rows, thread))
  }

  /** The table as the phone fills it: unique positive ids, positive dates, all within int64. */
  ghost predicate WellFormed(rows: seq<Row>) {
    DistinctIds(rows) && InRange(rows)
  }

  ghost predicate InRange(rows: seq<Row>) {
    forall i :: 0 <= i < |rows| ==> 0 < rows[i].id <= MAX_INT64 && 0 < rows[i].date <= MAX_INT64
  }

  lemma ThreadFacts(rows: seq<Row>, thread: int)
    requires WellFormed(rows)
    ensures Ascending(Thread(rows, thread))
    ensures forall x :: x in Elems(Thread(rows, thread)) <==> x in Elems(rows) && x.thread == thread
    ensures forall i :: 0 <= i < |Thread(rows, thread)| ==>
              0 < Thread(rows, thread)[i].id <= MAX_INT64 && 0 < Thread(rows, thread)[i].date <= MAX_INT64
  {
    WhereFacts(rows, OfThread(thread));
    OrderAscFacts(InThread(rows, thread));
    var t := Thread(rows, thread);
    forall i | 0 <= i < |t| ensures 0 < t[i].id <= MAX_INT64 && 0 < t[i].date <= MAX_INT64 {
      assert t[i] in Elems(t);
      assert t[i] in Elems(rows);
    }
  }

  /** The thread's rows older than a given row, which need not be in the table itself. */
  function Older(rows: seq<Row>, thread: int, x: Row): seq<Row> {
    OrderAsc(Where(rows, OlderThan(thread, x.date, x.id)))
  }

  /** Of an ascending list, the rows before x are a prefix. */
  lemma {:induction false} BeforeIsPrefix(t: seq<Row>, x: Row) returns (m: nat)
    requires Ascending(t)
    ensures m <= |t|
    ensures forall i :: 0 <= i < |t| ==> (Before(t[i], x) <==> i < m)
  {
    if t == [] || !Before(t[|t| - 1], x) {
      if t == [] {
        m := 0;
      } else {
        m := BeforeIsPrefix(t[..|t| - 1], x);
        assert forall i :: 0 <= i < |t| - 1 ==> t[..|t| - 1][i] == t[i];
      }
    } else {
      m := |t|;
      forall i | 0 <= i < |t| ensures Before(t[i], x) {
        assert i < |t| - 1 ==> Before(t[i], t[|t| - 1]);
      }
    }
  }

  lemma ElemsOfPrefix(t: seq<Row>, m: nat, x: Row)
    requires m <= |t| && forall i :: 0 <= i < |t| ==> (Before(t[i], x) <==> i < m)
    ensures forall y :: y in Elems(t[..m]) <==> y in Elems(t) && Before(y, x)
  {
    forall y | y in Elems(t) && Before(y, x) ensures y in Elems(t[..m]) {
      var i :| 0 <= i < |t| && t[i] == y;
      assert t[..m][i] == y;
    }
    forall y | y in Elems(t[..m]) ensures y in Elems(t) && Before(y, x) {
      var i :| 0 <= i < m && t[..m][i] == y;
      assert t[i] == y;
    }
  }

  /** The rows older than x are the first m of the thread. */
  lemma OlderIsPrefix(rows: seq<Row>, thread: int, x: Row) returns (m: nat)
    requires WellFormed(rows) && 0 < x.id
    ensures m <= |Thread(rows, thread)| && Older(rows, thread, x) == Thread(rows, thread)[..m]
    ensures forall i :: 0 <= i < |Thread(rows, thread)| ==> (Before(Thread(rows, thread)[i], x) <==> i < m)
  {
    var t := Thread(rows, thread);
    ThreadFacts(rows, thread);
    m := BeforeIsPrefix(t, x);
    ElemsOfPrefix(t, m, x);
    var p := OlderThan(thread, x.date, x.id);
    WhereFacts(rows, p);
    OrderAscFacts(Where(rows, p));
    assert forall y :: p(y) <==> y.thread == thread && Before(y, x);
    AscendingIsUnique(Older(rows, thread, x), t[..m]);
  }

  /** The query behind a row's cursor returns the last of the older rows. */
  lemma LoadBeforeIsOlder(rows: seq<Row>, thread: int, x: Row, limit: int)
    requires WellFormed(rows) && 0 < thread && 0 < limit
    ensures LoadBefore(rows, thread, x.date, x.id, limit) == Last(Older(rows, thread, x), limit)
  {
    WhereFacts(rows, OlderThan(thread, x.date, x.id));
    NewestIsSuffix(Where(rows, OlderThan(thread, x.date, x.id)), limit);
  }

  /** The rows older than the k-th of the thread are the first k. */
  lemma OlderThanRow(rows: seq<Row>, thread: int, k: nat)
    requires WellFormed(rows) && k < |Thread(rows, thread)|
    ensures Older(rows, thread, Thread(rows, thread)[k]) == Thread(rows, thread)[..k]
  {
    var t := Thread(rows, thread);
    ThreadFacts(rows, thread);
    var m := OlderIsPrefix(rows, thread, t[k]);
    assert m == k by {
      assert !Before(t[k], t[k]);
      assert k > 0 ==> Before(t[k - 1], t[k]);
    }
  }

  /** A cursor query on the k-th row of the thread returns the rows just before it. */
  lemma LoadBeforeIsSlice(rows: seq<Row>, thread: int, k: nat, limit: int)
    requires WellFormed(rows) && 0 < thread && 0 < limit && k < |Thread(rows, thread)|
    ensures var t := Thread(rows, thread);
      LoadBefore(rows, thread, t[k].date, t[k].id, limit) == Last(t[..k], limit)
  {
    OlderThanRow(rows, thread, k);
    LoadBeforeIsOlder(rows, thread, Thread(rows, thread)[k], limit);
  }

  lemma LoadThreadIsSlice(rows: seq<Row>, thread: int, limit: int)
    requires WellFormed(rows) && 0 < thread && 0 < limit
    ensures LoadThread(rows, thread, limit) == Last(Thread(rows, thread), limit)
  {
    WhereFacts(rows, OfThread(thread));
    NewestIsSuffix(InThread(rows, thread), limit);
  }

  // ---------------------------------------------------------------- the listing call

  function CursorOf(r: Row): string {
    Cursor.FormatIsBytes(r.date);
    Cursor.Encode(Format(r.date), r.id)
  }

  /** The oldest row of a cached page, as the listing call searches for it. */
  function Oldest(msgs: seq<Row>): (o: Row)
    requires msgs != []
  {
    if |msgs| == 1 then msgs[0]
    else
      var o := Oldest(msgs[..|msgs| - 1]);
      if Before(msgs[|msgs| - 1], o) then msgs[|msgs| - 1] else o
  }

  /** What the table answers to a cursor. */
  function OlderPage(rows: seq<Row>, thread: int, decoded: Option<Cursor.Pair>, limit: int): Answer<Row> {
    match decoded
    case None => AskPhone
    case Some(pair) =>
      match Parse(pair.sortKey)
      case None => AskPhone
      case Some(date) =>
        if date <= 0 then AskPhone
        else
          var msgs := LoadBefore(rows, thread, date, pair.rowId, limit);
          if msgs == [] then AskPhone
          else Page(msgs, if |msgs| == limit then CursorOf(msgs[0]) else "")
  }

  lemma {:induction false} OldestIsFirst(msgs: seq<Row>)
    requires Ascending(msgs) && msgs != []
    ensures Oldest(msgs) == msgs[0]
  {
    if |msgs| > 1 {
      OldestIsFirst(msgs[..|msgs| - 1]);
      assert Before(msgs[0], msgs[|msgs| - 1]);
    }
  }

  /** The search finds a row that no other row of the page precedes. */
  lemma {:induction false} OldestIsLeast(msgs: seq<Row>)
    requires msgs != []
    ensures Oldest(msgs) in msgs && forall i :: 0 <= i < |msgs| ==> !Before(msgs[i], Oldest(msgs))
  {
    if |msgs| > 1 {
      OldestIsLeast(msgs[..|msgs| - 1]);
      assert forall i :: 0 <= i < |msgs| - 1 ==> msgs[..|msgs| - 1][i] == msgs[i];
    }
  }

  function CachedFor(cache: map<int, seq<Row>>, thread: int): seq<Row> {
    if thread in cache then cache[thread] else []
  }

  /** The first page: the cached messages, or else the newest rows of the table. */
  function FirstPage(rows: seq<Row>, cache: map<int, seq<Row>>, thread: int, limit: int): seq<Row> {
    if CachedFor(cache, thread) != [] then CachedFor(cache, thread) else LoadThread(rows, thread, limit)
  }

  /** What ListSMSMessages answers without going to the phone. */
  function Listed(rows: seq<Row>, cache: map<int, seq<Row>>, thread: int, cursor: string, limit: int): Answer<Row> {
    if thread <= 0 || |cursor| > Cursor.MAX_CURSOR_LEN || !LimitOk(limit) || !Cursor.Valid(cursor) then Rejected
    else if cursor != "" then OlderPage(rows, thread, Cursor.Decode(cursor), Effective(limit))
    else
      var msgs := FirstPage(rows, cache, thread, Effective(limit));
      if msgs == [] then AskPhone
      else Page(msgs, if Oldest(msgs).date > 0 then CursorOf(Oldest(msgs)) else "")
  }

  /** Every cached transcript is the newest part of its thread. */
  ghost predicate CacheFits(rows: seq<Row>, cache: map<int, seq<Row>>) {
    forall t :: t in cache ==> SuffixOf(cache[t], Thread(rows, t))
  }

  lemma LoadKeepsFit(rows: seq<Row>, cache: map<int, seq<Row>>, thread: int, limit: int)
    requires WellFormed(rows) && CacheFits(rows, cache) && 0 < thread && 0 < limit
    ensures CacheFits(rows, cache[thread := LoadThread(rows, thread, limit)])
  {
    LoadThreadIsSlice(rows, thread, limit);
  }

  class MessageStore {
    const rows: seq<Row>
    var cache: map<int, seq<Row>>

    constructor (rows: seq<Row>)
      ensures this.rows == rows && cache == map[] && CacheFits(rows, cache)
    {
      this.rows, cache := rows, map[];
    }

    /** ListSMSMessages up to the point where it would ask the phone. */
    method List(thread: int, cursor: string, limit: int, forceRefresh: bool) returns (a: Answer<Row>)
      modifies this
      ensures a == if forceRefresh && !Listed(rows, old(cache), thread, cursor, limit).Rejected? then AskPhone
                   else Listed(rows, old(cache), thread, cursor, limit)
      ensures cache == old(cache) ||
              (0 < thread && LimitOk(limit) &&
               cache == old(cache)[thread := FirstPage(rows, old(cache), thread, Effective(limit))])
      ensures a.Page? && cursor == "" ==> CachedFor(cache, thread) == a.messages
      ensures WellFormed(rows) && CacheFits(rows, old(cache)) ==> CacheFits(rows, cache)
    {
      if thread <= 0 || |cursor| > Cursor.MAX_CURSOR_LEN {
        return Rejected;
      }
      var lim := if limit == 0 then DEFAULT_LIMIT else limit;
      if lim < 1 || lim > MAX_LIMIT || !Cursor.Valid(cursor) {
        return Rejected;
      }
      if forceRefresh {
        return AskPhone;
      }
      if cursor != "" {
        return OlderPage(rows, thread, Cursor.Decode(cursor), lim);
      }
      Fill(thread, lim);
      var msgs := CachedFor(cache, thread);
      if msgs == [] {
        return AskPhone;
      }
      var oldest := FindOldest(msgs);
      a := Page(msgs, if oldest.date > 0 then CursorOf(oldest) else "");
    }

    /** An empty transcript is filled from the table. */
    method Fill(thread: int, limit: int)
      requires 0 < thread && 0 < limit
      modifies this
      ensures cache == old(cache) || cache == old(cache)[thread := FirstPage(rows, old(cache), thread, limit)]
      ensures CachedFor(cache, thread) == FirstPage(rows, old(cache), thread, limit)
      ensures WellFormed(rows) && CacheFits(rows, old(cache)) ==> CacheFits(rows, cache)
    {
      if CachedFor(cache, thread) == [] {
        var loaded := LoadThread(rows, thread, limit);
        if loaded != [] {
          if WellFormed(rows) && CacheFits(rows, cache) {
            LoadKeepsFit(rows, cache, thread, limit);
          }
          cache := cache[thread := loaded];
        }
      }
    }

    static method FindOldest(msgs: seq<Row>) returns (oldest: Row)
      requires msgs != []
      ensures oldest == Oldest(msgs)
    {
      oldest := msgs[0];
      for k := 1 to |msgs|
        invariant oldest == Oldest(msgs[..k])
      {
        assert msgs[..k + 1][..k] == msgs[..k];
        if Before(msgs[k], oldest) {
          oldest := msgs[k];
        }
      }
      assert msgs[..|msgs|] == msgs;
    }
  }

  // ---------------------------------------------------------------- following the cursors

  /** The listing as the user interface sees it, while table and cache stay as they are. */
  function Listing(rows: seq<Row>, cache: map<int, seq<Row>>, thread: int): (string, int) -> Answer<Row> {
    (cursor, limit) => Listed(rows, cache, thread, cursor, limit)
  }

  /** A message's cursor survives the trip: it is accepted and decodes to the message's date and id. */
  lemma CursorDecodes(r: Row)
    requires 0 < r.id <= MAX_INT64 && 0 < r.date <= MAX_INT64
    ensures CursorOf(r) != "" && |CursorOf(r)| <= Cursor.MAX_CURSOR_LEN && Cursor.Valid(CursorOf(r))
    ensures Cursor.Decode(CursorOf(r)) == Some(Cursor.Pair(Format(r.date), r.id))
  {
    Cursor.MessageCursorRoundTrip(r.date, r.id);
  }

  // What a walk is to deliver: the cached page, preceded by all that the table holds older than it.

  /** The thread as the listing shows it. With nothing cached it is the table's thread. */
  function Visible(rows: seq<Row>, cached: seq<Row>, thread: int): seq<Row> {
    if cached == [] then Thread(rows, thread) else Older(rows, thread, Oldest(cached)) + cached
  }

  /** How far back the first page reaches at least. */
  function Top(rows: seq<Row>, cached: seq<Row>, thread: int): nat {
    if cached == [] then |Thread(rows, thread)| else |Older(rows, thread, Oldest(cached))|
  }

  /** The row that the cursor at a position of the visible thread names: its own or, for the cached page, the oldest. */
  function Named(rows: seq<Row>, cached: seq<Row>, thread: int, k: nat): Row
    requires k < |Visible(rows, cached, thread)|
  {
    if cached != [] && k >= Top(rows, cached, thread) then Oldest(cached) else Visible(rows, cached, thread)[k]
  }

  function CursorAt(rows: seq<Row>, cached: seq<Row>, thread: int): nat -> string {
    (k: nat) => if k < |Visible(rows, cached, thread)| then CursorOf(Named(rows, cached, thread, k)) else ""
  }

  lemma OldestInRange(cached: seq<Row>)
    requires cached != [] && InRange(cached)
    ensures 0 < Oldest(cached).id <= MAX_INT64 && 0 < Oldest(cached).date <= MAX_INT64
  {
    OldestIsLeast(cached);
  }

  /** The rows behind the cursor at a position are exactly the visible rows before it. */
  lemma OlderThanNamed(rows: seq<Row>, cached: seq<Row>, thread: int, k: nat)
    requires WellFormed(rows) && InRange(cached) && 0 < thread
    requires k < |Visible(rows, cached, thread)| && k <= Top(rows, cached, thread)
    ensures var x := Named(rows, cached, thread, k);
      && 0 < x.id <= MAX_INT64 && 0 < x.date <= MAX_INT64
      && Older(rows, thread, x) == Visible(rows, cached, thread)[..k]
  {
    ThreadFacts(rows, thread);
    var t := Thread(rows, thread);
    if cached == [] {
      OlderThanRow(rows, thread, k);
    } else {
      OldestInRange(cached);
      var o := Oldest(cached);
      var m := OlderIsPrefix(rows, thread, o);
      if k < m {
        assert Visible(rows, cached, thread)[k] == t[k];
        OlderThanRow(rows, thread, k);
        assert Visible(rows, cached, thread)[..k] == t[..k];
      } else {
        assert Visible(rows, cached, thread)[..k] == Older(rows, thread, o);
      }
    }
  }

  lemma LastOfPrefix(t: seq<Row>, k: nat, n: nat)
    requires k <= |t|
    ensures Last(t[..k], n) == if k <= n then t[..k] else t[k - n..k]
  {
  }

  /** The page behind a row whose older rows are the first k of t. */
  lemma OlderPageIsSlice(rows: seq<Row>, thread: int, x: Row, t: seq<Row>, cursorAt: nat -> string, k: nat, n: nat)
    requires WellFormed(rows) && 0 < thread && 0 < n && k < |t| && 0 < x.date <= MAX_INT64
    requires Older(rows, thread, x) == t[..k] && forall i: nat :: i < k ==> cursorAt(i) == CursorOf(t[i])
    ensures OlderPage(rows, thread, Some(Cursor.Pair(Format(x.date), x.id)), n) == SliceBefore(t, cursorAt, k, n)
  {
    ParseOfFormat(x.date);
    LoadBeforeIsOlder(rows, thread, x, n);
    LastOfPrefix(t, k, n);
  }

  /** The listing call answers each cursor with the slice of the visible thread behind it. */
  lemma NextPage(rows: seq<Row>, cache: map<int, seq<Row>>, thread: int, k: nat, limit: int)
    requires WellFormed(rows) && InRange(CachedFor(cache, thread)) && 0 < thread && LimitOk(limit)
    requires k < |Visible(rows, CachedFor(cache, thread), thread)| && k <= Top(rows, CachedFor(cache, thread), thread)
    ensures var cached := CachedFor(cache, thread);
      var t, cursorAt := Visible(rows, cached, thread), CursorAt(rows, cached, thread);
      && cursorAt(k) != ""
      && Listed(rows, cache, thread, cursorAt(k), limit) == SliceBefore(t, cursorAt, k, Effective(limit))
  {
    var cached := CachedFor(cache, thread);
    var x := Named(rows, cached, thread, k);
    OlderThanNamed(rows, cached, thread, k);
    ListedBehind(rows, cache, thread, x, limit);
    CursorsBelow(rows, cached, thread, k);
    OlderPageIsSlice(rows, thread, x, Visible(rows, cached, thread), CursorAt(rows, cached, thread), k,
                     Effective(limit));
  }

  /** A row's cursor is accepted and leads to the page behind that row. */
  lemma ListedBehind(rows: seq<Row>, cache: map<int, seq<Row>>, thread: int, x: Row, limit: int)
    requires 0 < x.id <= MAX_INT64 && 0 < x.date <= MAX_INT64 && 0 < thread && LimitOk(limit)
    ensures CursorOf(x) != ""
    ensures Listed(rows, cache, thread, CursorOf(x), limit) ==
            OlderPage(rows, thread, Some(Cursor.Pair(Format(x.date), x.id)), Effective(limit))
  {
    CursorDecodes(x);
  }

  lemma CursorsBelow(rows: seq<Row>, cached: seq<Row>, thread: int, k: nat)
    requires k < |Visible(rows, cached, thread)| && k <= Top(rows, cached, thread)
    ensures CursorAt(rows, cached, thread)(k) == CursorOf(Named(rows, cached, thread, k))
    ensures forall i: nat :: i < k ==> CursorAt(rows, cached, thread)(i) == CursorOf(Visible(rows, cached, thread)[i])
  {
  }

  /** The first page is the cached transcript ... */
  lemma CachedFirstPage(rows: seq<Row>, cache: map<int, seq<Row>>, thread: int, limit: int)
    requires InRange(CachedFor(cache, thread)) && CachedFor(cache, thread) != [] && 0 < thread && LimitOk(limit)
    ensures var cached := CachedFor(cache, thread);
      Listed(rows, cache, thread, "", limit) == Page(cached, CursorOf(Oldest(cached)))
  {
    OldestInRange(CachedFor(cache, thread));
    assert Cursor.Valid("");
  }

  /** ... or else the newest rows of the table. */
  lemma FreshFirstPage(rows: seq<Row>, cache: map<int, seq<Row>>, thread: int, limit: int)
    requires WellFormed(rows) && CachedFor(cache, thread) == [] && 0 < thread && LimitOk(limit)
    ensures var t := Thread(rows, thread); var msgs := Last(t, Effective(limit));
      Listed(rows, cache, thread, "", limit) == if t == [] then AskPhone else Page(msgs, CursorOf(msgs[0]))
  {
    var t := Thread(rows, thread);
    ThreadFacts(rows, thread);
    LoadThreadIsSlice(rows, thread, Effective(limit));
    var msgs := Last(t, Effective(limit));
    assert Cursor.Valid("");
    if msgs != [] {
      assert Ascending(msgs);
      OldestIsFirst(msgs);
    }
  }

  lemma FirstPageIsSuffix(rows: seq<Row>, cache: map<int, seq<Row>>, thread: int, limit: int)
    requires WellFormed(rows) && InRange(CachedFor(cache, thread)) && 0 < thread && LimitOk(limit)
    ensures var cached := CachedFor(cache, thread);
      StartsAt(Visible(rows, cached, thread), CursorAt(rows, cached, thread), Top(rows, cached, thread),
               Listed(rows, cache, thread, "", limit))
  {
    if CachedFor(cache, thread) == [] {
      FreshStarts(rows, thread, Effective(limit));
      FreshFirstPage(rows, cache, thread, limit);
    } else {
      CachedStarts(rows, CachedFor(cache, thread), thread);
      CachedFirstPage(rows, cache, thread, limit);
    }
  }

  lemma FreshStarts(rows: seq<Row>, thread: int, n: nat)
    requires n > 0
    ensures var t := Thread(rows, thread); var msgs := Last(t, n);
      StartsAt(Visible(rows, [], thread), CursorAt(rows, [], thread), Top(rows, [], thread),
               if t == [] then AskPhone else Page(msgs, CursorOf(msgs[0])))
  {
    var t := Thread(rows, thread);
    if t != [] {
      var msgs := Last(t, n);
      var k := |t| - |msgs|;
      assert t[..k] + msgs == t;
      CursorsBelow(rows, [], thread, k);
      TailStarts(t[..k], msgs, CursorAt(rows, [], thread), |t|);
    }
  }

  lemma CachedStarts(rows: seq<Row>, cached: seq<Row>, thread: int)
    requires cached != []
    ensures StartsAt(Visible(rows, cached, thread), CursorAt(rows, cached, thread), Top(rows, cached, thread),
                     Page(cached, CursorOf(Oldest(cached))))
  {
    var older := Older(rows, thread, Oldest(cached));
    CursorsBelow(rows, cached, thread, |older|);
    TailStarts(older, cached, CursorAt(rows, cached, thread), |older|);
  }

  lemma CursorContinues(rows: seq<Row>, cache: map<int, seq<Row>>, thread: int, k: nat)
    requires WellFormed(rows) && InRange(CachedFor(cache, thread)) && 0 < thread
    requires k < |Visible(rows, CachedFor(cache, thread), thread)| && k <= Top(rows, CachedFor(cache, thread), thread)
    ensures var cached := CachedFor(cache, thread);
      Continues(Visible(rows, cached, thread), CursorAt(rows, cached, thread), Listing(rows, cache, thread), k)
  {
    var cached, serve := CachedFor(cache, thread), Listing(rows, cache, thread);
    var t, cursorAt := Visible(rows, cached, thread), CursorAt(rows, cached, thread);
    NextPage(rows, cache, thread, k, 1);
    forall limit | LimitOk(limit)
      ensures serve(cursorAt(k), limit) == SliceBefore(t, cursorAt, k, Effective(limit))
    {
      NextPage(rows, cache, thread, k, limit);
    }
  }

  lemma ListingServesVisible(rows: seq<Row>, cache: map<int, seq<Row>>, thread: int)
    requires WellFormed(rows) && InRange(CachedFor(cache, thread)) && 0 < thread
    ensures var cached := CachedFor(cache, thread);
      Serves(Visible(rows, cached, thread), CursorAt(rows, cached, thread), Top(rows, cached, thread),
             Listing(rows, cache, thread))
  {
    var cached, serve := CachedFor(cache, thread), Listing(rows, cache, thread);
    var t, cursorAt, top := Visible(rows, cached, thread), CursorAt(rows, cached, thread), Top(rows, cached, thread);
    forall limit | LimitOk(limit) ensures StartsAt(t, cursorAt, top, serve("", limit)) {
      FirstPageIsSuffix(rows, cache, thread, limit);
    }
    forall k: nat | k <= top && k < |t| ensures Continues(t, cursorAt, serve, k) {
      CursorContinues(rows, cache, thread, k);
    }
  }

  /** Main result. For every table, every cached transcript and every choice of page limits, following the cursors
      delivers the visible thread with nothing skipped and nothing repeated; it can stop only at its end, and does so
      within as many pages as there are messages. */
  lemma PagingIsComplete(rows: seq<Row>, cache: map<int, seq<Row>>, thread: int, w: Walk, limit: int)
    requires WellFormed(rows) && InRange(CachedFor(cache, thread)) && 0 < thread && LimitOk(limit)
    requires IsWalk(Listing(rows, cache, thread), w)
    ensures var serve := Listing(rows, cache, thread);
      var t := Visible(rows, CachedFor(cache, thread), thread);
      var g := Gathered(serve, w); var cursor := Latest(serve, w).nextCursor;
      && SuffixOf(g, t) && Size(w) <= |t|
      && (g == t <==> cursor == "" || serve(cursor, limit) == AskPhone)
      && (g != t ==> IsWalk(serve, Then(w, limit)))
  {
    var cached := CachedFor(cache, thread);
    ListingServesVisible(rows, cache, thread);
    WalkIsComplete(Visible(rows, cached, thread), CursorAt(rows, cached, thread), Top(rows, cached, thread),
                   Listing(rows, cache, thread), w, limit);
  }

  // ---------------------------------------------------------------- the visible thread and the table

  /** A cached transcript that is a newest part of the thread, as the listing call itself caches it, changes nothing:
      the visible thread is the table's, in (date, id) order. */
  lemma FittingCacheShowsThread(rows: seq<Row>, cached: seq<Row>, thread: int)
    requires WellFormed(rows) && SuffixOf(cached, Thread(rows, thread))
    ensures Visible(rows, cached, thread) == Thread(rows, thread) && Ascending(Visible(rows, cached, thread))
  {
    ThreadFacts(rows, thread);
    if cached != [] {
      var t := Thread(rows, thread);
      OldestOfSuffix(t, cached);
      OlderThanRow(rows, thread, |t| - |cached|);
    }
  }

  lemma OldestOfSuffix(t: seq<Row>, s: seq<Row>)
    requires Ascending(t) && SuffixOf(s, t) && s != []
    ensures Oldest(s) == t[|t| - |s|] && t[..|t| - |s|] + s == t
  {
    SuffixIsAscending(t, s);
    OldestIsFirst(s);
    JoinSuffix(t, s);
  }

  lemma JoinSuffix(t: seq<Row>, s: seq<Row>)
    requires SuffixOf(s, t) && s != []
    ensures s[0] == t[|t| - |s|] && t[..|t| - |s|] + s == t
  {
  }

  lemma SuffixIsAscending(t: seq<Row>, s: seq<Row>)
    requires Ascending(t) && SuffixOf(s, t)
    ensures Ascending(s)
  {
    var k := |t| - |s|;
    forall i, j | 0 <= i < j < |s| ensures Before(s[i], s[j]) {
      assert s[i] == t[k + i] && s[j] == t[k + j];
    }
  }

  /** The cached transcript hides a stored row that it does not hold itself, but is not older than its oldest. */
  ghost predicate Hides(rows: seq<Row>, cached: seq<Row>, thread: int, x: Row) {
    x in Elems(Thread(rows, thread)) && cached != [] && !Before(x, Oldest(cached)) && x !in cached
  }

  /** Main result. Exactly the hidden rows are missing: every stored row of the thread is visible if and only if the
      cached transcript holds every stored row that is not older than its oldest. */
  lemma VisibleIsAllExactly(rows: seq<Row>, cached: seq<Row>, thread: int, x: Row)
    requires WellFormed(rows) && InRange(cached) && x in Elems(Thread(rows, thread))
    ensures x in Visible(rows, cached, thread) <==> !Hides(rows, cached, thread, x)
  {
    if cached != [] {
      OldestInRange(cached);
      var t, o := Thread(rows, thread), Oldest(cached);
      var m := OlderIsPrefix(rows, thread, o);
      ElemsOfPrefix(t, m, o);
      assert x in Older(rows, thread, o) <==> Before(x, o);
      assert x in Older(rows, thread, o) + cached <==> x in Older(rows, thread, o) || x in cached;
    }
  }

  /** No row is visible twice, unless it is cached twice. */
  lemma VisibleRepeatsNothing(rows: seq<Row>, cached: seq<Row>, thread: int)
    requires WellFormed(rows) && InRange(cached) && Distinct(cached)
    ensures Distinct(Visible(rows, cached, thread))
  {
    ThreadFacts(rows, thread);
    if cached != [] {
      OldestInRange(cached);
      OldestIsLeast(cached);
      var m := OlderIsPrefix(rows, thread, Oldest(cached));
      var older := Older(rows, thread, Oldest(cached));
      assert Ascending(older);
      assert forall i, j :: 0 <= i < |older| && 0 <= j < |cached| ==> older[i] != cached[j];
    }
  }
}
