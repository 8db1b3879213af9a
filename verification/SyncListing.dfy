/** What the caches hold after ordinary use: a listing fetched page by page, a confirmed send, a thread marked read, a
    deletion, a fill from the database. */
module SyncListing {
  import opened Options
  import opened RowMerge
  import SmsPush
  import opened PushEffect
  import M = MessagesSync
  import C = ContactsSync

  /** One page: the request that asks for it and the answer that brings it. */
  datatype Page<R> = Page(id: string, cursor: string, rows: seq<R>, next: string)

  function AllRows<R>(pages: seq<Page<R>>): seq<R> {
    if pages == [] then [] else AllRows(pages[..|pages| - 1]) + pages[|pages| - 1].rows
  }

  /** A listing from its start: the first request has no cursor, every later one has. */
  ghost predicate IsListing<R>(pages: seq<Page<R>>) {
    forall i :: 0 <= i < |pages| ==> (pages[i].cursor == "" <==> i == 0)
  }

  lemma DistinctPrefix<R, K>(a: seq<R>, b: seq<R>, key: R -> Option<K>)
    requires DistinctKeys(a + b, key)
    ensures DistinctKeys(a, key)
  {
    assert forall i :: 0 <= i < |a| ==> (a + b)[i] == a[i];
  }

  // ---------------------------------------------------------------- threads

  /** Ask, get the answer, be done. */
  function FetchThreads(s: M.Sync, p: Page<SmsPush.Thread>): M.Sync {
    M.Run(s, [M.AskThreads(p.id, p.cursor), M.ThreadsPage(p.id, false, p.rows, p.next), M.Finish(M.ThreadsReq, p.id)])
  }

  function ListThreads(s: M.Sync, pages: seq<Page<SmsPush.Thread>>): M.Sync {
    if pages == [] then s else FetchThreads(ListThreads(s, pages[..|pages| - 1]), pages[|pages| - 1])
  }

  lemma RunOfThree(s: M.Sync, a: M.SyncEvent, b: M.SyncEvent, c: M.SyncEvent)
    ensures M.Run(s, [a, b, c]) == M.Advance(M.Advance(M.Advance(s, a), b), c)
  {
    assert [a, b, c][..2] == [a, b] && [a, b][..1] == [a] && [a][..0] == [];
    assert M.Run(s, [a]) == M.Advance(M.Run(s, []), a);
    assert M.Run(s, [a, b]) == M.Advance(M.Run(s, [a]), b);
  }

  lemma FetchThreadsEffect(s: M.Sync, p: Page<SmsPush.Thread>)
    ensures var c, d := s.sms.caches, FetchThreads(s, p).sms.caches;
      && d.messages == c.messages
      && d.threads == if p.cursor == "" then p.rows else Merged(c.threads, p.rows, M.ThreadKey)
  {
    RunOfThree(s, M.AskThreads(p.id, p.cursor), M.ThreadsPage(p.id, false, p.rows, p.next),
               M.Finish(M.ThreadsReq, p.id));
  }

  /** Main result. Whatever was cached before, fetching a whole listing page by page leaves exactly the rows of all its
      pages, in order, if no thread is listed twice; the transcripts stay. */
  lemma {:induction false} ListedThreadsAreCached(s: M.Sync, pages: seq<Page<SmsPush.Thread>>)
    requires pages != [] && IsListing(pages) && DistinctKeys(AllRows(pages), M.ThreadKey)
    ensures ListThreads(s, pages).sms.caches == SmsPush.Caches(AllRows(pages), s.sms.caches.messages)
  {
    var k := |pages| - 1;
    var before, rows := pages[..k], pages[k].rows;
    FetchThreadsEffect(ListThreads(s, before), pages[k]);
    if k == 0 {
      assert before == [] && AllRows(pages) == [] + rows;
    } else {
      DistinctPrefix(AllRows(before), rows, M.ThreadKey);
      ListedThreadsAreCached(s, before);
      MergedOfDistinct(AllRows(before), rows, M.ThreadKey);
    }
  }

  // ---------------------------------------------------------------- messages

  function FetchMessages(s: M.Sync, thread: int, p: Page<SmsPush.Message>): M.Sync {
    M.Run(s, [M.AskMessages(p.id, thread, p.cursor), M.MessagesPage(p.id, thread, false, p.rows, p.next),
              M.Finish(M.MessagesReq, p.id)])
  }

  function ListMessages(s: M.Sync, thread: int, pages: seq<Page<SmsPush.Message>>): M.Sync {
    if pages == [] then s
    else FetchMessages(ListMessages(s, thread, pages[..|pages| - 1]), thread, pages[|pages| - 1])
  }

  lemma FetchMessagesEffect(s: M.Sync, thread: int, p: Page<SmsPush.Message>)
    ensures var c, d := s.sms.caches, FetchMessages(s, thread, p).sms.caches;
      && d.threads == c.threads
      && d.messages == Some(M.Held(c)[thread :=
           if p.cursor == "" then p.rows else MergedMessages(M.Transcript(c, thread), p.rows)])
  {
    RunOfThree(s, M.AskMessages(p.id, thread, p.cursor), M.MessagesPage(p.id, thread, false, p.rows, p.next),
               M.Finish(M.MessagesReq, p.id));
  }

  lemma {:induction false} DistinctOfSameRows<R, K>(a: seq<R>, b: seq<R>, key: R -> Option<K>)
    requires multiset(a) == multiset(b) && DistinctKeys(a, key)
    ensures DistinctKeys(b, key)
    decreases |b|
  {
    if b != [] {
      assert b == [b[0]] + b[1..];
      assert b[0] in multiset(a);
      var p :| 0 <= p < |a| && a[p] == b[0];
      var rest := a[..p] + a[p + 1..];
      RowsWithout(a, p);
      RowsWithout(b, 0);
      assert b[..0] + b[1..] == b[1..];
      DistinctWithout(a, p, key);
      DistinctOfSameRows(rest, b[1..], key);
      forall j | 0 < j < |b| && key(b[0]).Some? ensures key(b[0]) != key(b[j]) {
        assert b[1..][j - 1] == b[j];
        assert b[j] in multiset(rest);
      }
      DistinctCons(b, key);
    }
  }

  lemma RowsWithout<R>(a: seq<R>, p: nat)
    requires p < |a|
    ensures multiset(a[..p] + a[p + 1..]) == multiset(a) - multiset{a[p]}
  {
    assert a == a[..p] + [a[p]] + a[p + 1..];
  }

  lemma DistinctWithout<R, K>(a: seq<R>, p: nat, key: R -> Option<K>)
    requires p < |a| && DistinctKeys(a, key)
    ensures var rest := a[..p] + a[p + 1..];
      DistinctKeys(rest, key) && (key(a[p]).Some? ==> forall r :: r in rest ==> key(r) != key(a[p]))
  {
    var rest := a[..p] + a[p + 1..];
    assert forall i :: 0 <= i < |rest| ==> rest[i] == if i < p then a[i] else a[i + 1];
  }

  lemma DistinctCons<R, K>(b: seq<R>, key: R -> Option<K>)
    requires b != [] && DistinctKeys(b[1..], key)
    requires forall j :: 0 < j < |b| && key(b[0]).Some? ==> key(b[0]) != key(b[j])
    ensures DistinctKeys(b, key)
  {
    forall i, j | 0 <= i < j < |b| && key(b[i]).Some? ensures key(b[i]) != key(b[j]) {
      if i > 0 {
        assert b[1..][i - 1] == b[i] && b[1..][j - 1] == b[j];
      }
    }
  }

  /** Rows with different keys, merged into the same rows in another order. */
  lemma MergedMessagesOfDistinct(cached: seq<SmsPush.Message>, all: seq<SmsPush.Message>, rows: seq<SmsPush.Message>)
    requires multiset(cached) == multiset(all) && DistinctKeys(all + rows, MessageKey)
    ensures multiset(MergedMessages(cached, rows)) == multiset(all + rows)
    ensures Chronological(MergedMessages(cached, rows))
  {
    assert multiset(all + rows) == multiset(cached + rows);
    DistinctOfSameRows(all + rows, cached + rows, MessageKey);
    MergedOfDistinct(cached, rows, MessageKey);
    SortIsOrderedPermutation(cached + rows);
  }

  /** Of the caches c, thread's transcript has become these rows in some order, and nothing else has changed. */
  ghost predicate Relisted(c: SmsPush.Caches, d: SmsPush.Caches, thread: int, rows: seq<SmsPush.Message>) {
    && d.threads == c.threads && d.messages == Some(M.Held(c)[thread := M.Transcript(d, thread)])
    && multiset(M.Transcript(d, thread)) == multiset(rows)
  }

  lemma FirstPageLists(s: M.Sync, thread: int, p: Page<SmsPush.Message>)
    requires p.cursor == ""
    ensures var d := FetchMessages(s, thread, p).sms.caches;
      Relisted(s.sms.caches, d, thread, p.rows) && M.Transcript(d, thread) == p.rows
  {
    FetchMessagesEffect(s, thread, p);
  }

  lemma NextPageLists(
      c: SmsPush.Caches, s: M.Sync, thread: int, all: seq<SmsPush.Message>, p: Page<SmsPush.Message>)
    requires p.cursor != "" && Relisted(c, s.sms.caches, thread, all) && DistinctKeys(all + p.rows, MessageKey)
    ensures var d := FetchMessages(s, thread, p).sms.caches;
      Relisted(c, d, thread, all + p.rows) && Chronological(M.Transcript(d, thread))
  {
    var cached := M.Transcript(s.sms.caches, thread);
    FetchMessagesEffect(s, thread, p);
    MergedMessagesOfDistinct(cached, all, p.rows);
    RelistedAgain(c, s.sms.caches, FetchMessages(s, thread, p).sms.caches, thread, all, MergedMessages(cached, p.rows),
                  all + p.rows);
  }

  lemma RelistedAgain(c: SmsPush.Caches, d: SmsPush.Caches, e: SmsPush.Caches, thread: int, all: seq<SmsPush.Message>,
                      msgs: seq<SmsPush.Message>, more: seq<SmsPush.Message>)
    requires Relisted(c, d, thread, all) && multiset(msgs) == multiset(more)
    requires e.threads == d.threads && e.messages == Some(M.Held(d)[thread := msgs])
    ensures Relisted(c, e, thread, more) && M.Transcript(e, thread) == msgs
  {
    var cached := M.Transcript(d, thread);
    assert M.Held(c)[thread := cached][thread := msgs] == M.Held(c)[thread := msgs];
  }

  /** The outcome of a listing: all its rows, and from the second page on in order. */
  ghost predicate Listed(c: SmsPush.Caches, d: SmsPush.Caches, thread: int, rows: seq<SmsPush.Message>, n: nat) {
    && Relisted(c, d, thread, rows)
    && (n == 1 ==> M.Transcript(d, thread) == rows)
    && (n > 1 ==> Chronological(M.Transcript(d, thread)))
  }

  lemma ListMessagesStep(s: M.Sync, thread: int, pages: seq<Page<SmsPush.Message>>, k: nat)
    requires k + 1 == |pages|
    ensures ListMessages(s, thread, pages) == FetchMessages(ListMessages(s, thread, pages[..k]), thread, pages[k])
    ensures AllRows(pages) == AllRows(pages[..k]) + pages[k].rows
  {
  }

  /** Main result. Fetching a whole thread page by page leaves exactly the rows of all its pages in its transcript, each
      once, and from the second page on in order of date; the other transcripts and the thread rows stay. */
  lemma {:induction false} ListedMessagesAreCached(s: M.Sync, thread: int, pages: seq<Page<SmsPush.Message>>)
    requires pages != [] && IsListing(pages) && DistinctKeys(AllRows(pages), MessageKey)
    ensures Listed(s.sms.caches, ListMessages(s, thread, pages).sms.caches, thread, AllRows(pages), |pages|)
  {
    var k := |pages| - 1;
    var before, last := pages[..k], pages[k];
    ListMessagesStep(s, thread, pages, k);
    if k == 0 {
      assert before == [] && AllRows(pages) == last.rows;
      FirstPageLists(s, thread, last);
    } else {
      DistinctPrefix(AllRows(before), last.rows, MessageKey);
      ListedMessagesAreCached(s, thread, before);
      NextPageLists(s.sms.caches, ListMessages(s, thread, before), thread, AllRows(before), last);
    }
  }

  // ---------------------------------------------------------------- contacts

  /** An unfiltered page of the directory. */
  function FetchContacts(s: C.Directory, p: Page<C.Contact>): C.Directory {
    C.Run(s, [C.AskList(p.id, "", p.cursor), C.ListPage(p.id, false, p.rows, p.next), C.Finish(C.ListReq, p.id)])
  }

  function ListContacts(s: C.Directory, pages: seq<Page<C.Contact>>): C.Directory {
    if pages == [] then s else FetchContacts(ListContacts(s, pages[..|pages| - 1]), pages[|pages| - 1])
  }

  lemma FetchContactsEffect(s: C.Directory, p: Page<C.Contact>)
    ensures FetchContacts(s, p).contacts ==
      if p.cursor == "" then p.rows else Merged(s.contacts, p.rows, C.ContactKey)
  {
    var a, b, c := C.AskList(p.id, "", p.cursor), C.ListPage(p.id, false, p.rows, p.next), C.Finish(C.ListReq, p.id);
    assert [a, b, c][..2] == [a, b] && [a, b][..1] == [a] && [a][..0] == [];
    assert C.Run(s, [a]) == C.Advance(C.Run(s, []), a);
    assert C.Run(s, [a, b]) == C.Advance(C.Run(s, [a]), b);
  }

  /** Main result, for the directory: exactly the entries of all pages, in order, if no contact is listed twice. */
  lemma {:induction false} ListedContactsAreCached(s: C.Directory, pages: seq<Page<C.Contact>>)
    requires pages != [] && IsListing(pages) && DistinctKeys(AllRows(pages), C.ContactKey)
    ensures ListContacts(s, pages).contacts == AllRows(pages)
  {
    var k := |pages| - 1;
    var before, rows := pages[..k], pages[k].rows;
    FetchContactsEffect(ListContacts(s, before), pages[k]);
    if k == 0 {
      assert before == [] && AllRows(pages) == [] + rows;
    } else {
      DistinctPrefix(AllRows(before), rows, C.ContactKey);
      ListedContactsAreCached(s, before);
      MergedOfDistinct(AllRows(before), rows, C.ContactKey);
    }
  }

  /** A confirmed deletion takes out the first entry of that contact and leaves the others in their order. */
  lemma DeletedExactly(s: C.Directory, who: string, j: nat)
    requires j < |s.contacts| && s.contacts[j].contactId == who
    requires forall i :: 0 <= i < j ==> s.contacts[i].contactId != who
    ensures var after := C.Advance(s, C.Deleted(who)).contacts;
      && |after| == |s.contacts| - 1
      && (forall i :: 0 <= i < j ==> after[i] == s.contacts[i])
      && (forall i :: j <= i < |after| ==> after[i] == s.contacts[i + 1])
  {
    assert C.IndexOf(s.contacts, who) == j;
  }

  /** Forgetting the phone empties the directory and nothing else. */
  lemma ForgetEmpties(s: C.Directory)
    ensures var t := C.Advance(s, C.Forget); t.contacts == [] && t == s.(contacts := t.contacts)
  {
  }

  lemma NothingDeleted(s: C.Directory, who: string)
    requires forall i :: 0 <= i < |s.contacts| ==> s.contacts[i].contactId != who
    ensures C.Advance(s, C.Deleted(who)) == s
  {
    assert C.IndexOf(s.contacts, who) == |s.contacts|;
  }

  // ---------------------------------------------------------------- single events

  /** A confirmed send: the message ends its thread's transcript, if any transcript is held at all, and the first row
      of the thread shows its body and date; everything else stays. */
  lemma SentShows(s: M.Sync, m: SmsPush.Message, i: nat, thread: int)
    requires m.threadId > 0 && IsFirstRow(s.sms.caches.threads, i, m.threadId)
    ensures var c, d := s.sms.caches, M.Advance(s, M.Sent(m)).sms.caches;
      && |d.threads| == |c.threads| && (forall j :: 0 <= j < |c.threads| && j != i ==> d.threads[j] == c.threads[j])
      && d.threads[i] == c.threads[i].(snippet := m.body, date := m.date)
      && M.Transcript(d, thread) == M.Transcript(c, thread) +
           if thread == m.threadId && c.messages.Some? then [m] else []
  {
    assert SmsPush.IndexOf(s.sms.caches.threads, m.threadId) == i;
  }

  /** A thread marked read: its first row has nothing unread, its messages are read, and everything else stays. */
  lemma MarkedReadShows(s: M.Sync, thread: int, i: nat, k: nat)
    requires IsFirstRow(s.sms.caches.threads, i, thread)
    requires k < |M.Transcript(s.sms.caches, thread)|
    ensures var c, d := s.sms.caches, M.Advance(s, M.MarkedRead(thread)).sms.caches;
      && |d.threads| == |c.threads| && (forall j :: 0 <= j < |c.threads| && j != i ==> d.threads[j] == c.threads[j])
      && d.threads[i] == c.threads[i].(unread := 0, read := true)
      && |M.Transcript(d, thread)| == |M.Transcript(c, thread)|
      && M.Transcript(d, thread)[k] == M.Transcript(c, thread)[k].(read := true)
      && (forall t :: t != thread ==> M.Transcript(d, t) == M.Transcript(c, t))
  {
    assert SmsPush.IndexOf(s.sms.caches.threads, thread) == i;
  }

  /** The database fills what is empty, and only that. */
  lemma LoadFillsTheEmpty(s: M.Sync, threads: seq<SmsPush.Thread>, thread: int, rows: seq<SmsPush.Message>, other: int)
    ensures M.Advance(s, M.LoadThreads(threads)).sms.caches.threads ==
      if s.sms.caches.threads == [] then threads else s.sms.caches.threads
    ensures M.Transcript(M.Advance(s, M.LoadMessages(thread, rows)).sms.caches, other) ==
      if other == thread && M.Transcript(s.sms.caches, thread) == [] then rows else M.Transcript(s.sms.caches, other)
  {
  }

  // ---------------------------------------------------------------- requests in flight

  function Pending(s: M.Sync, kind: M.Kind): set<string> {
    match kind
    case ThreadsReq => s.threadsReqs
    case MessagesReq => s.messagesReqs
    case SendReq => s.sendReqs
    case MarkReadReq => s.markReadReqs
  }

  /** The event asks for an answer of this kind under this id. */
  predicate Asks(e: M.SyncEvent, kind: M.Kind, id: string) {
    match kind
    case ThreadsReq => e.AskThreads? && e.id == id
    case MessagesReq => e.AskMessages? && e.id == id
    case _ => e == M.AskOther(kind, id)
  }

  lemma PendingStep(s: M.Sync, e: M.SyncEvent, kind: M.Kind, id: string)
    ensures id in Pending(M.Advance(s, e), kind) <==>
      Asks(e, kind, id) || (id in Pending(s, kind) && e != M.Finish(kind, id) && e != M.Disconnect)
  {
  }

  /** Asked at some step, and neither finished nor cut off since. */
  ghost predicate InFlight(evs: seq<M.SyncEvent>, kind: M.Kind, id: string) {
    exists i :: 0 <= i < |evs| && Asks(evs[i], kind, id) && Undisturbed(evs[i + 1..], kind, id)
  }

  ghost predicate Undisturbed(evs: seq<M.SyncEvent>, kind: M.Kind, id: string) {
    forall j :: 0 <= j < |evs| ==> evs[j] != M.Finish(kind, id) && evs[j] != M.Disconnect
  }

  lemma InFlightSnoc(evs: seq<M.SyncEvent>, e: M.SyncEvent, kind: M.Kind, id: string, all: seq<M.SyncEvent>)
    requires all == evs + [e]
    ensures InFlight(all, kind, id) <==>
      Asks(e, kind, id) || (InFlight(evs, kind, id) && e != M.Finish(kind, id) && e != M.Disconnect)
  {
    if Asks(e, kind, id) {
      assert all[|evs|] == e && Undisturbed(all[|evs| + 1..], kind, id);
    } else if InFlight(all, kind, id) {
      var i :| 0 <= i < |all| && Asks(all[i], kind, id) && Undisturbed(all[i + 1..], kind, id);
      assert all[i + 1..] == evs[i + 1..] + [e];
      assert all[i + 1..][|evs| - i - 1] == e;
      UndisturbedSnoc(evs[i + 1..], e, kind, id);
      assert evs[i] == all[i];
    }
    if InFlight(evs, kind, id) && e != M.Finish(kind, id) && e != M.Disconnect {
      var i :| 0 <= i < |evs| && Asks(evs[i], kind, id) && Undisturbed(evs[i + 1..], kind, id);
      assert all[i + 1..] == evs[i + 1..] + [e];
      UndisturbedSnoc(evs[i + 1..], e, kind, id);
      assert all[i] == evs[i];
    }
  }

  lemma UndisturbedSnoc(evs: seq<M.SyncEvent>, e: M.SyncEvent, kind: M.Kind, id: string)
    ensures Undisturbed(evs + [e], kind, id) <==>
      Undisturbed(evs, kind, id) && e != M.Finish(kind, id) && e != M.Disconnect
  {
    var all := evs + [e];
    assert all[|evs|] == e && forall j :: 0 <= j < |evs| ==> all[j] == evs[j];
  }

  /** Main result. Over every run, exactly those requests of each kind wait for an answer that were made and since then
      neither finished nor cut off by a disconnect. */
  lemma {:induction false} PendingExactly(s: M.Sync, evs: seq<M.SyncEvent>, kind: M.Kind, id: string)
    requires Pending(s, kind) == {}
    ensures id in Pending(M.Run(s, evs), kind) <==> InFlight(evs, kind, id)
  {
    if evs != [] {
      var k := |evs| - 1;
      PendingExactly(s, evs[..k], kind, id);
      PendingStep(M.Run(s, evs[..k]), evs[k], kind, id);
      InFlightSnoc(evs[..k], evs[k], kind, id, evs);
    }
  }
}
