/** The thread and message caches, guarded by a generation number against late pages. */
module MessagesSync {
  import opened Options
  import opened SmsPush
  import opened RowMerge
  import opened Seqs

  /** What a pending page request remembers. */
  datatype PageMeta = PageMeta(cursor: string, threadId: int, gen: int)

  datatype Kind = ThreadsReq | MessagesReq | SendReq | MarkReadReq

  datatype Sync = Sync(
    gen: int, sms: PushState,
    threadsReqs: set<string>, threadsMeta: map<string, PageMeta>,
    messagesReqs: set<string>, messagesMeta: map<string, PageMeta>,
    sendReqs: set<string>, markReadReqs: set<string>)

  datatype SyncEvent =
    | AskThreads(id: string, cursor: string)
    | AskMessages(id: string, thread: int, cursor: string)
    | AskOther(kind: Kind, id: string)
    | Finish(kind: Kind, id: string)                  // the asker gives up or has its answer
    | ThreadsPage(id: string, error: bool, threads: seq<Thread>, next: string)
    | MessagesPage(id: string, thread: int, error: bool, messages: seq<Message>, next: string)
    | Pushed(push: Push)
    | Sent(message: Message)                          // a confirmed outgoing message
    | MarkedRead(thread: int)
    | LoadThreads(threads: seq<Thread>)               // the database fills an empty cache
    | LoadMessages(thread: int, messages: seq<Message>)
    | Wipe                                            // sms-changed, or a reconnect
    | Disconnect
    | Forget

  function ThreadKey(t: Thread): Option<int> {
    Some(t.threadId)
  }

  predicate Stale(meta: map<string, PageMeta>, id: string, gen: int) {
    id in meta && meta[id].gen != gen
  }

  /** A first page replaces what is cached, a later page is merged in. */
  predicate Replaces(meta: map<string, PageMeta>, id: string, next: string) {
    if id in meta then meta[id].cursor == "" else next == ""
  }

  function PageOfThreads(s: Sync, id: string, error: bool, rows: seq<Thread>, next: string): Sync {
    if id !in s.threadsReqs || error || Stale(s.threadsMeta, id, s.gen) then s
    else
      var cached := s.sms.caches.threads;
      var threads := if Replaces(s.threadsMeta, id, next) then rows else Merged(cached, rows, ThreadKey);
      s.(sms := s.sms.(caches := s.sms.caches.(threads := threads)))
  }

  function Held(c: Caches): map<int, seq<Message>> {
    if c.messages.Some? then c.messages.value else map[]
  }

  function Transcript(c: Caches, thread: int): seq<Message> {
    if thread in Held(c) then Held(c)[thread] else []
  }

  function WithTranscript(s: Sync, thread: int, msgs: seq<Message>): Sync {
    s.(sms := s.sms.(caches := s.sms.caches.(messages := Some(Held(s.sms.caches)[thread := msgs]))))
  }

  function PageOfMessages(s: Sync, id: string, thread: int, error: bool, rows: seq<Message>, next: string): Sync {
    if id !in s.messagesReqs || error || Stale(s.messagesMeta, id, s.gen)
       || (id in s.messagesMeta && s.messagesMeta[id].threadId != thread) then s
    else
      WithTranscript(s, thread, if Replaces(s.messagesMeta, id, next) then rows
                                else MergedMessages(Transcript(s.sms.caches, thread), rows))
  }

  function ReadAll(msgs: seq<Message>): seq<Message> {
    seq(|msgs|, i requires 0 <= i < |msgs| => msgs[i].(read := true))
  }

  function AfterMarkRead(c: Caches, thread: int): Caches {
    var i := IndexOf(c.threads, thread);
    Caches(if i < |c.threads| then c.threads[i := c.threads[i].(unread := 0, read := true)] else c.threads,
           if thread in Held(c) then Some(Held(c)[thread := ReadAll(Held(c)[thread])]) else c.messages)
  }

  function AfterSent(c: Caches, m: Message): Caches {
    if m.threadId <= 0 then c
    else
      var i := IndexOf(c.threads, m.threadId);
      Caches(if i < |c.threads| then c.threads[i := c.threads[i].(snippet := m.body, date := m.date)] else c.threads,
             if c.messages.Some? then Some(Held(c)[m.threadId := Transcript(c, m.threadId) + [m]]) else None)
  }

  function Wiped(): Caches {
    Caches([], None)
  }

  function Invalidated(s: Sync): Sync {
    s.(gen := s.gen + 1, sms := s.sms.(caches := Wiped()))
  }

  function Disconnected(s: Sync): Sync {
    s.(threadsReqs := {}, threadsMeta := s.threadsMeta - s.threadsReqs, messagesReqs := {},
       messagesMeta := s.messagesMeta - s.messagesReqs, sendReqs := {}, markReadReqs := {})
  }

  function Advance(s: Sync, e: SyncEvent): Sync {
    match e
    case AskThreads(id, cursor) =>
      s.(threadsReqs := s.threadsReqs + {id}, threadsMeta := s.threadsMeta[id := PageMeta(cursor, 0, s.gen)])
    case AskMessages(id, thread, cursor) =>
      s.(messagesReqs := s.messagesReqs + {id}, messagesMeta := s.messagesMeta[id := PageMeta(cursor, thread, s.gen)])
    case AskOther(kind, id) =>
      if kind == SendReq then s.(sendReqs := s.sendReqs + {id})
      else if kind == MarkReadReq then s.(markReadReqs := s.markReadReqs + {id})
      else s
    case Finish(kind, id) =>
      (match kind
       case ThreadsReq => s.(threadsReqs := s.threadsReqs - {id}, threadsMeta := s.threadsMeta - {id})
       case MessagesReq => s.(messagesReqs := s.messagesReqs - {id}, messagesMeta := s.messagesMeta - {id})
       case SendReq => s.(sendReqs := s.sendReqs - {id})
       case MarkReadReq => s.(markReadReqs := s.markReadReqs - {id}))
    case ThreadsPage(id, error, rows, next) => PageOfThreads(s, id, error, rows, next)
    case MessagesPage(id, thread, error, rows, next) => PageOfMessages(s, id, thread, error, rows, next)
    case Pushed(p) => s.(sms := Receive(s.sms, p))
    case Sent(m) => s.(sms := s.sms.(caches := AfterSent(s.sms.caches, m)))
    case MarkedRead(thread) => s.(sms := s.sms.(caches := AfterMarkRead(s.sms.caches, thread)))
    case LoadThreads(rows) =>
      if s.sms.caches.threads == [] && rows != [] then s.(sms := s.sms.(caches := s.sms.caches.(threads := rows)))
      else s
    case LoadMessages(thread, rows) =>
      if Transcript(s.sms.caches, thread) == [] && rows != [] then WithTranscript(s, thread, rows) else s
    case Wipe => Invalidated(s)
    case Disconnect => Disconnected(s)
    case Forget => s.(sms := s.sms.(caches := Wiped()))
  }

  /** Every live request has its meta record, and only live requests do. */
  ghost predicate Valid(s: Sync) {
    s.threadsMeta.Keys == s.threadsReqs && s.messagesMeta.Keys == s.messagesReqs
  }

  lemma AdvanceKeepsValid(s: Sync, e: SyncEvent)
    requires Valid(s)
    ensures Valid(Advance(s, e))
  {
  }

  // ---------------------------------------------------------------- the service's side

  class MessagesService {
    var gen: int
    var threads: seq<Thread>
    var messages: Option<map<int, seq<Message>>>
    ghost var accepted: seq<string>
    var threadsReqs: set<string>
    var threadsMeta: map<string, PageMeta>
    var messagesReqs: set<string>
    var messagesMeta: map<string, PageMeta>
    var sendReqs: set<string>
    var markReadReqs: set<string>

    ghost function View(): Sync
      reads this
    {
      Sync(gen, PushState(Caches(threads, messages), accepted), threadsReqs, threadsMeta, messagesReqs,
            messagesMeta, sendReqs, markReadReqs)
    }

    constructor (threads: seq<Thread>)
      ensures Valid(View()) && View().gen == 0 && View().sms == PushState(Caches(threads, None), [])
    {
      gen, this.threads, messages, accepted := 0, threads, None, [];
      threadsReqs, threadsMeta, messagesReqs, messagesMeta := {}, map[], {}, map[];
      sendReqs, markReadReqs := {}, {};
    }

    /** An sms-threads-resp message; `answered` says whether the waiter gets the page. */
    method IngestThreadsPage(id: string, error: bool, rows: seq<Thread>, next: string) returns (answered: bool)
      modifies this`threads
      ensures View() == PageOfThreads(old(View()), id, error, rows, next)
      ensures answered <==> id in threadsReqs && (error || !Stale(threadsMeta, id, gen))
    {
      answered := id in threadsReqs;
      if answered && !error {
        if id in threadsMeta && threadsMeta[id].gen != gen {
          answered := false;
        } else if id in threadsMeta && threadsMeta[id].cursor == "" {
          threads := rows;
        } else if next == "" && (id !in threadsMeta || threadsMeta[id].cursor == "") {
          threads := rows;
        } else {
          threads := MergeRows(threads, rows, ThreadKey);
        }
      }
    }

    /** An sms-messages-resp message. */
    method IngestMessagesPage(id: string, thread: int, error: bool, rows: seq<Message>, next: string)
      returns (answered: bool)
      modifies this`messages
      ensures View() == PageOfMessages(old(View()), id, thread, error, rows, next)
      ensures answered <==>
        && id in messagesReqs
        && (error || (!Stale(messagesMeta, id, gen) && (id in messagesMeta ==> messagesMeta[id].threadId == thread)))
    {
      answered := id in messagesReqs;
      if answered && !error {
        if id in messagesMeta && (messagesMeta[id].gen != gen || messagesMeta[id].threadId != thread) {
          answered := false;
        } else {
          var held := if messages.Some? then messages.value else map[];
          var page := rows;
          if !(id in messagesMeta && messagesMeta[id].cursor == "")
             && !(next == "" && (id !in messagesMeta || messagesMeta[id].cursor == "")) {
            var merged := MergeRows(if thread in held then held[thread] else [], rows, MessageKey);
            page := SortMessages(merged);
          }
          messages := Some(held[thread := page]);
        }
      }
    }

    /** An sms-changed message, and likewise a reconnect. */
    method Invalidate()
      modifies this`gen, this`threads, this`messages
      ensures View() == Invalidated(old(View()))
    {
      gen := gen + 1;
      threads, messages := [], None;
    }

    /** failPendingSMSRequests: every waiter is told, and none is left. */
    method FailPending() returns (told: set<string>)
      requires Valid(View())
      modifies this`threadsReqs, this`threadsMeta, this`messagesReqs, this`messagesMeta
      modifies this`sendReqs, this`markReadReqs
      ensures View() == Disconnected(old(View())) && Valid(View())
      ensures threadsReqs == messagesReqs == sendReqs == markReadReqs == {}
      ensures threadsMeta == map[] && messagesMeta == map[]
      ensures told == old(threadsReqs) + old(messagesReqs) + old(sendReqs) + old(markReadReqs)
    {
      var t1, m1 := Drain(threadsReqs, threadsMeta);
      threadsReqs, threadsMeta := {}, m1;
      var t2, m2 := Drain(messagesReqs, messagesMeta);
      messagesReqs, messagesMeta := {}, m2;
      var t3, _ := Drain(sendReqs, map[]);
      var t4, _ := Drain(markReadReqs, map[]);
      sendReqs, markReadReqs := {}, {};
      told := t1 + t2 + t3 + t4;
    }

    /** One of the loops over a pending map: tell the waiter, delete the request and its meta record. */
    static method Drain(reqs: set<string>, meta: map<string, PageMeta>)
      returns (told: set<string>, left: map<string, PageMeta>)
      ensures told == reqs && left == meta - reqs
    {
      var pending := reqs;
      told, left := {}, meta;
      while pending != {}
        invariant told + pending == reqs && told !! pending
        invariant left == meta - told
        decreases pending
      {
        var id :| id in pending;
        told := told + {id};
        left := left - {id};
        pending := pending - {id};
      }
    }
  }

  // ---------------------------------------------------------------- late pages, over every run

  function Run(s: Sync, evs: seq<SyncEvent>): Sync {
    if evs == [] then s else Advance(Run(s, evs[..|evs| - 1]), evs[|evs| - 1])
  }

  /** In every reachable state exactly the live requests have a meta record. */
  lemma {:induction false} RunKeepsValid(s: Sync, evs: seq<SyncEvent>)
    requires Valid(s)
    ensures Valid(Run(s, evs))
  {
    if evs != [] {
      RunKeepsValid(s, evs[..|evs| - 1]);
      AdvanceKeepsValid(Run(s, evs[..|evs| - 1]), evs[|evs| - 1]);
    }
  }

  /** The waiter of a thread listing is gone: it finished, timed out or was failed by a disconnect. */
  ghost predicate ThreadsDone(evs: seq<SyncEvent>, id: string) {
    Finish(ThreadsReq, id) in evs || Disconnect in evs
  }

  ghost predicate NotAskedAgain(evs: seq<SyncEvent>, id: string) {
    forall i :: 0 <= i < |evs| ==> !(evs[i].AskThreads? && evs[i].id == id) && !(evs[i].AskMessages? && evs[i].id == id)
  }

  lemma ThreadsRequestStep(s: Sync, id: string, e: SyncEvent)
    requires id in s.threadsReqs ==> id in s.threadsMeta
    requires !(e.AskThreads? && e.id == id)
    ensures var t := Advance(s, e);
      && t.gen == s.gen + (if e == Wipe then 1 else 0)
      && (id in t.threadsReqs <==> id in s.threadsReqs && e != Finish(ThreadsReq, id) && e != Disconnect)
      && (id in t.threadsReqs ==> id in t.threadsMeta && t.threadsMeta[id] == s.threadsMeta[id])
  {
  }

  /** What a run does to one pending thread listing. */
  lemma {:induction false} ThreadsRequestTracked(s: Sync, id: string, evs: seq<SyncEvent>)
    requires id in s.threadsReqs && id in s.threadsMeta && NotAskedAgain(evs, id)
    ensures var t := Run(s, evs);
      && t.gen >= s.gen && (t.gen == s.gen <==> Wipe !in evs)
      && (id in t.threadsReqs <==> !ThreadsDone(evs, id))
      && (id in t.threadsReqs ==> id in t.threadsMeta && t.threadsMeta[id] == s.threadsMeta[id])
  {
    if evs != [] {
      var k := |evs| - 1;
      ThreadsRequestTracked(s, id, evs[..k]);
      ThreadsRequestStep(Run(s, evs[..k]), id, evs[k]);
      InSnoc(evs, Wipe);
      InSnoc(evs, Disconnect);
      InSnoc(evs, Finish(ThreadsReq, id));
    }
  }

  /** Main result. A page of threads, whatever happened since it was asked for, takes effect exactly when its
      waiter is still there and no invalidation or reconnect came in between; then a first page replaces the
      cache and a later one is merged. Otherwise nothing changes. */
  lemma ThreadsPageExactly(s: Sync, id: string, cursor: string, evs: seq<SyncEvent>, rows: seq<Thread>, next: string)
    requires NotAskedAgain(evs, id)
    ensures var t := Run(Advance(s, AskThreads(id, cursor)), evs);
      var after := Advance(t, ThreadsPage(id, false, rows, next));
      if ThreadsDone(evs, id) || Wipe in evs then after == t
      else
        && after.sms.caches.threads == (if cursor == "" then rows else Merged(t.sms.caches.threads, rows, ThreadKey))
        && after.sms.caches.messages == t.sms.caches.messages
  {
    ThreadsRequestTracked(Advance(s, AskThreads(id, cursor)), id, evs);
  }

  ghost predicate MessagesDone(evs: seq<SyncEvent>, id: string) {
    Finish(MessagesReq, id) in evs || Disconnect in evs
  }

  lemma MessagesRequestStep(s: Sync, id: string, e: SyncEvent)
    requires id in s.messagesReqs ==> id in s.messagesMeta
    requires !(e.AskMessages? && e.id == id)
    ensures var t := Advance(s, e);
      && t.gen == s.gen + (if e == Wipe then 1 else 0)
      && (id in t.messagesReqs <==> id in s.messagesReqs && e != Finish(MessagesReq, id) && e != Disconnect)
      && (id in t.messagesReqs ==> id in t.messagesMeta && t.messagesMeta[id] == s.messagesMeta[id])
  {
  }

  lemma {:induction false} MessagesRequestTracked(s: Sync, id: string, evs: seq<SyncEvent>)
    requires id in s.messagesReqs && id in s.messagesMeta && NotAskedAgain(evs, id)
    ensures var t := Run(s, evs);
      && t.gen >= s.gen && (t.gen == s.gen <==> Wipe !in evs)
      && (id in t.messagesReqs <==> !MessagesDone(evs, id))
      && (id in t.messagesReqs ==> id in t.messagesMeta && t.messagesMeta[id] == s.messagesMeta[id])
  {
    if evs != [] {
      var k := |evs| - 1;
      MessagesRequestTracked(s, id, evs[..k]);
      MessagesRequestStep(Run(s, evs[..k]), id, evs[k]);
      InSnoc(evs, Wipe);
      InSnoc(evs, Disconnect);
      InSnoc(evs, Finish(MessagesReq, id));
    }
  }

  /** The same for a page of messages, which must also be for the thread that was asked about. */
  lemma MessagesPageExactly(s: Sync, id: string, thread: int, cursor: string, evs: seq<SyncEvent>, answer: int,
                            rows: seq<Message>, next: string)
    requires NotAskedAgain(evs, id)
    ensures var t := Run(Advance(s, AskMessages(id, thread, cursor)), evs);
      var after := Advance(t, MessagesPage(id, answer, false, rows, next));
      if MessagesDone(evs, id) || Wipe in evs || answer != thread then after == t
      else
        after == WithTranscript(t, thread, if cursor == "" then rows
                                           else MergedMessages(Transcript(t.sms.caches, thread), rows))
  {
    MessagesRequestTracked(Advance(s, AskMessages(id, thread, cursor)), id, evs);
  }

  /** Forgetting the phone wipes the caches but does not start a new generation, so it does not count as an
      invalidation above: a page asked for before it still brings its rows back. */
  lemma ForgetDoesNotGuard(s: Sync, id: string, rows: seq<Thread>)
    ensures var t := Run(Advance(s, AskThreads(id, "")), [Forget]);
      && t.sms.caches == Wiped()
      && Advance(t, ThreadsPage(id, false, rows, "")).sms.caches.threads == rows
  {
    assert [Forget][..0] == [];
    ThreadsPageExactly(s, id, "", [Forget], rows, "");
  }

  // ---------------------------------------------------------------- where cached rows come from

  /** What a thread row tells: all of it but the unread badge and flag. */
  datatype Fact =
    | Address(thread: int, address: string)
    | Line(thread: int, snippet: string, date: int)
    | Name(thread: int, contactName: string)
    | Person(thread: int, contactId: string)
    | Photo(thread: int, photoVersion: string)

  function FactsOf(t: Thread): set<Fact> {
    {Address(t.threadId, t.address), Line(t.threadId, t.snippet, t.date), Name(t.threadId, t.contactName),
     Person(t.threadId, t.contactId), Photo(t.threadId, t.photoVersion)}
  }

  function FactsIn(threads: seq<Thread>): set<Fact> {
    set t, f | t in threads && f in FactsOf(t) :: f
  }

  function FactsOfPush(p: Push): set<Fact> {
    FactsOf(NewThread(p))
  }

  /** The request ids used since the last invalidation. */
  function AskedThreads(evs: seq<SyncEvent>): set<string> {
    if evs == [] then {}
    else
      var e := evs[|evs| - 1];
      if e.Wipe? then {}
      else AskedThreads(evs[..|evs| - 1]) + if e.AskThreads? then {e.id} else {}
  }

  /** What one event tells about threads. */
  function TellsThreads(asked: set<string>, e: SyncEvent): set<Fact> {
    if e.ThreadsPage? && e.id in asked then FactsIn(e.threads)
    else if e.Pushed? then FactsOfPush(e.push)
    else if e.Sent? then {Line(e.message.threadId, e.message.body, e.message.date)}
    else if e.LoadThreads? then FactsIn(e.threads)
    else {}
  }

  /** What was told since the last invalidation: by pages asked for since then, pushes, sends, the database. */
  function ToldThreads(initial: set<Fact>, evs: seq<SyncEvent>): set<Fact> {
    if evs == [] then initial
    else
      var before, e := evs[..|evs| - 1], evs[|evs| - 1];
      if e.Wipe? then {} else ToldThreads(initial, before) + TellsThreads(AskedThreads(before), e)
  }

  /** A live request of the current generation was made since the last invalidation. */
  ghost predicate CurrentIsRecent(s: Sync, asked: set<string>) {
    forall id :: id in s.threadsReqs ==>
      id in s.threadsMeta && s.threadsMeta[id].gen <= s.gen && (s.threadsMeta[id].gen == s.gen ==> id in asked)
  }

  lemma FactsOfRow(threads: seq<Thread>, i: nat)
    requires i < |threads|
    ensures FactsOf(threads[i]) <= FactsIn(threads)
  {
    assert threads[i] in threads;
  }

  /** Rewriting one row adds at most what the new row tells beyond the old one. */
  lemma FactsOfUpdate(threads: seq<Thread>, i: nat, t: Thread, more: set<Fact>)
    requires i < |threads| && FactsOf(t) <= FactsOf(threads[i]) + more
    ensures FactsIn(threads[i := t]) <= FactsIn(threads) + more
  {
    var after := threads[i := t];
    FactsOfRow(threads, i);
    forall x | x in after ensures FactsOf(x) <= FactsIn(threads) + more {
      var j :| 0 <= j < |after| && after[j] == x;
      if j != i {
        FactsOfRow(threads, j);
      }
    }
  }

  lemma FactsOfPushed(threads: seq<Thread>, p: Push)
    ensures FactsIn(PushThreads(threads, p)) <= FactsIn(threads) + FactsOfPush(p)
  {
    var i := IndexOf(threads, p.message.threadId);
    if i < |threads| {
      FactsOfUpdate(threads, i, Bumped(threads[i], p), FactsOfPush(p));
    }
  }

  lemma FactsOfMerged(threads: seq<Thread>, rows: seq<Thread>)
    ensures FactsIn(Merged(threads, rows, ThreadKey)) <= FactsIn(threads) + FactsIn(rows)
  {
    MergedKeepsAndAdds(threads, rows, ThreadKey);
  }

  lemma CurrentStep(s: Sync, asked: set<string>, e: SyncEvent)
    requires CurrentIsRecent(s, asked)
    ensures CurrentIsRecent(Advance(s, e), if e.Wipe? then {} else asked + if e.AskThreads? then {e.id} else {})
  {
  }

  lemma ToldStep(s: Sync, asked: set<string>, told: set<Fact>, e: SyncEvent)
    requires CurrentIsRecent(s, asked) && FactsIn(s.sms.caches.threads) <= told
    ensures FactsIn(Advance(s, e).sms.caches.threads) <= if e.Wipe? then {} else told + TellsThreads(asked, e)
  {
    var threads := s.sms.caches.threads;
    if e.ThreadsPage? {
      FactsOfMerged(threads, e.threads);
    } else if e.Pushed? {
      FactsOfPushed(threads, e.push);
    } else if e.Sent? {
      SentTells(threads, e.message);
    } else if e.MarkedRead? && IndexOf(threads, e.thread) < |threads| {
      var i := IndexOf(threads, e.thread);
      FactsOfUpdate(threads, i, threads[i].(unread := 0, read := true), {});
    }
  }

  lemma SentTells(threads: seq<Thread>, m: Message)
    ensures var i := IndexOf(threads, m.threadId);
      i < |threads| ==> FactsIn(threads[i := threads[i].(snippet := m.body, date := m.date)]) <=
                        FactsIn(threads) + {Line(m.threadId, m.body, m.date)}
  {
    var i := IndexOf(threads, m.threadId);
    if i < |threads| {
      FactsOfUpdate(threads, i, threads[i].(snippet := m.body, date := m.date), {Line(m.threadId, m.body, m.date)});
    }
  }

  /** Main result. Over every run, everything a cached thread row shows (address, snippet and date, contact) was told
      since the last invalidation or reconnect, and if a page told it then that page was asked for since then too. */
  lemma {:induction false} CachedThreadsAreRecent(s: Sync, evs: seq<SyncEvent>)
    requires s.threadsReqs == {}
    ensures CurrentIsRecent(Run(s, evs), AskedThreads(evs))
    ensures FactsIn(Run(s, evs).sms.caches.threads) <= ToldThreads(FactsIn(s.sms.caches.threads), evs)
  {
    if evs != [] {
      var k := |evs| - 1;
      var t, before := Run(s, evs[..k]), evs[..k];
      CachedThreadsAreRecent(s, before);
      CurrentStep(t, AskedThreads(before), evs[k]);
      ToldStep(t, AskedThreads(before), ToldThreads(FactsIn(s.sms.caches.threads), before), evs[k]);
    }
  }

  /** A message up to its read flag. */
  function Unflagged(m: Message): Message {
    m.(read := true)
  }

  function RowsOf(msgs: seq<Message>): set<Message> {
    set m | m in msgs :: Unflagged(m)
  }

  function AskedMessages(evs: seq<SyncEvent>): set<string> {
    if evs == [] then {}
    else
      var e := evs[|evs| - 1];
      if e.Wipe? then {}
      else AskedMessages(evs[..|evs| - 1]) + if e.AskMessages? then {e.id} else {}
  }

  /** What one event offers to the transcripts. */
  function Offer(asked: set<string>, e: SyncEvent): set<Message> {
    if e.MessagesPage? && e.id in asked then RowsOf(e.messages)
    else if e.Pushed? then {Unflagged(e.push.message)}
    else if e.Sent? then {Unflagged(e.message)}
    else if e.LoadMessages? then RowsOf(e.messages)
    else {}
  }

  function OfferedMessages(evs: seq<SyncEvent>): set<Message> {
    if evs == [] then {}
    else
      var before, e := evs[..|evs| - 1], evs[|evs| - 1];
      if e.Wipe? then {} else OfferedMessages(before) + Offer(AskedMessages(before), e)
  }

  ghost predicate CurrentMessagesAreRecent(s: Sync, asked: set<string>) {
    forall id :: id in s.messagesReqs ==>
      id in s.messagesMeta && s.messagesMeta[id].gen <= s.gen && (s.messagesMeta[id].gen == s.gen ==> id in asked)
  }

  /** Every row of every transcript was offered. */
  ghost predicate TranscriptsFrom(c: Caches, offered: set<Message>) {
    forall t :: t in Held(c) ==> RowsOf(Held(c)[t]) <= offered
  }

  lemma RowsOfSnoc(msgs: seq<Message>, m: Message)
    ensures RowsOf(msgs + [m]) == RowsOf(msgs) + {Unflagged(m)}
  {
    assert forall x :: x in msgs + [m] <==> x in msgs || x == m;
  }

  lemma RowsOfMerged(dst: seq<Message>, src: seq<Message>)
    ensures RowsOf(MergedMessages(dst, src)) <= RowsOf(dst) + RowsOf(src)
  {
    MergedMessagesComeFrom(dst, src);
  }

  lemma RowsOfReadAll(msgs: seq<Message>)
    ensures RowsOf(ReadAll(msgs)) <= RowsOf(msgs)
  {
    var after := ReadAll(msgs);
    forall m | m in after ensures Unflagged(m) in RowsOf(msgs) {
      var i :| 0 <= i < |after| && after[i] == m;
      assert Unflagged(msgs[i]) == Unflagged(m) && msgs[i] in msgs;
    }
  }

  lemma CurrentMessagesStep(s: Sync, asked: set<string>, e: SyncEvent)
    requires CurrentMessagesAreRecent(s, asked)
    ensures CurrentMessagesAreRecent(Advance(s, e),
                                     if e.Wipe? then {} else asked + if e.AskMessages? then {e.id} else {})
  {
  }

  lemma TranscriptReplaced(c: Caches, offered: set<Message>, thread: int, msgs: seq<Message>, more: set<Message>)
    requires TranscriptsFrom(c, offered) && RowsOf(msgs) <= RowsOf(Transcript(c, thread)) + more
    ensures TranscriptsFrom(c.(messages := Some(Held(c)[thread := msgs])), offered + more)
  {
  }

  lemma PageStep(s: Sync, asked: set<string>, offered: set<Message>, e: SyncEvent)
    requires e.MessagesPage? && CurrentMessagesAreRecent(s, asked) && TranscriptsFrom(s.sms.caches, offered)
    ensures TranscriptsFrom(Advance(s, e).sms.caches, offered + Offer(asked, e))
  {
    var c := s.sms.caches;
    if Advance(s, e) != s {
      var merged := MergedMessages(Transcript(c, e.thread), e.messages);
      RowsOfMerged(Transcript(c, e.thread), e.messages);
      TranscriptReplaced(c, offered, e.thread, e.messages, RowsOf(e.messages));
      TranscriptReplaced(c, offered, e.thread, merged, RowsOf(e.messages));
    }
  }

  lemma OffersGrow(c: Caches, offered: set<Message>, more: set<Message>)
    requires TranscriptsFrom(c, offered)
    ensures TranscriptsFrom(c, offered + more)
  {
  }

  lemma SameTranscripts(c: Caches, d: Caches, offered: set<Message>)
    requires c.messages == d.messages && TranscriptsFrom(c, offered)
    ensures TranscriptsFrom(d, offered)
  {
    assert Held(d) == Held(c);
  }

  lemma PushKeepsFrom(c: Caches, offered: set<Message>, p: Push)
    requires TranscriptsFrom(c, offered)
    ensures TranscriptsFrom(ApplyPush(c, p), offered + {Unflagged(p.message)})
  {
    var m := p.message;
    RowsOfSnoc(Transcript(c, m.threadId), m);
    TranscriptReplaced(c, offered, m.threadId, Transcript(c, m.threadId) + [m], {Unflagged(m)});
  }

  lemma SentKeepsFrom(c: Caches, offered: set<Message>, m: Message)
    requires TranscriptsFrom(c, offered)
    ensures TranscriptsFrom(AfterSent(c, m), offered + {Unflagged(m)})
  {
    RowsOfSnoc(Transcript(c, m.threadId), m);
    TranscriptReplaced(c, offered, m.threadId, Transcript(c, m.threadId) + [m], {Unflagged(m)});
  }

  lemma MarkReadKeepsFrom(c: Caches, offered: set<Message>, thread: int)
    requires TranscriptsFrom(c, offered)
    ensures TranscriptsFrom(AfterMarkRead(c, thread), offered)
  {
    if thread in Held(c) {
      RowsOfReadAll(Held(c)[thread]);
      TranscriptReplaced(c, offered, thread, ReadAll(Held(c)[thread]), {});
      assert offered + {} == offered;
    }
  }

  lemma TranscriptsStep(s: Sync, asked: set<string>, offered: set<Message>, e: SyncEvent)
    requires CurrentMessagesAreRecent(s, asked) && TranscriptsFrom(s.sms.caches, offered)
    ensures TranscriptsFrom(Advance(s, e).sms.caches, if e.Wipe? then {} else offered + Offer(asked, e))
  {
    var c := s.sms.caches;
    OffersGrow(c, offered, Offer(asked, e));
    if e.MessagesPage? {
      PageStep(s, asked, offered, e);
    } else if e.Pushed? {
      PushKeepsFrom(c, offered, e.push);
    } else if e.Sent? {
      SentKeepsFrom(c, offered, e.message);
    } else if e.MarkedRead? {
      MarkReadKeepsFrom(c, offered, e.thread);
      assert offered + {} == offered;
    } else if e.LoadMessages? {
      TranscriptReplaced(c, offered, e.thread, e.messages, RowsOf(e.messages));
    } else if e.Wipe? || e.Forget? {
      assert Held(Wiped()) == map[];
    } else {
      SameTranscripts(c, Advance(s, e).sms.caches, offered + Offer(asked, e));
    }
  }

  /** Main result, for the transcripts: over every run, each cached message was offered since the last invalidation
      or reconnect, by a page asked for since then, a push, a confirmed send or the database. */
  lemma {:induction false} CachedMessagesAreRecent(s: Sync, evs: seq<SyncEvent>)
    requires s.messagesReqs == {} && s.sms.caches.messages.None?
    ensures CurrentMessagesAreRecent(Run(s, evs), AskedMessages(evs))
    ensures TranscriptsFrom(Run(s, evs).sms.caches, OfferedMessages(evs))
  {
    if evs != [] {
      var k := |evs| - 1;
      CachedMessagesAreRecent(s, evs[..k]);
      CurrentMessagesStep(Run(s, evs[..k]), AskedMessages(evs[..k]), evs[k]);
      TranscriptsStep(Run(s, evs[..k]), AskedMessages(evs[..k]), OfferedMessages(evs[..k]), evs[k]);
    }
  }
}
