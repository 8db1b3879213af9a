/** When a row can get into the message caches twice, over every run. */
module Duplicates {
  import opened Options
  import opened MessagesSync
  import opened RowMerge
  import opened SmsPush

  /** The state after the first n events of a run. */
  function After(s: Sync, evs: seq<SyncEvent>, n: nat): Sync
    requires n <= |evs|
  {
    MessagesSync.Run(s, evs[..n])
  }

  // ---------------------------------------------------------------- thread ids

  ghost predicate DistinctThreads(s: Sync) {
    DistinctKeys(s.sms.caches.threads, ThreadKey)
  }

  /** A page of threads that would take effect. */
  predicate ThreadsPageCounts(s: Sync, e: SyncEvent) {
    e.ThreadsPage? && e.id in s.threadsReqs && !e.error && !Stale(s.threadsMeta, e.id, s.gen)
  }

  /** The rows that an event puts in place of all cached threads, or into an empty cache, as they are. */
  predicate SetsThreads(s: Sync, e: SyncEvent) {
    || (ThreadsPageCounts(s, e) && (Replaces(s.threadsMeta, e.id, e.next) || s.sms.caches.threads == []))
    || (e.LoadThreads? && s.sms.caches.threads == [] && e.threads != [])
  }

  ghost predicate RepeatsThread(s: Sync, e: SyncEvent) {
    SetsThreads(s, e) && !DistinctKeys(e.threads, ThreadKey)
  }

  lemma SameIdsSameDistinct(a: seq<Thread>, b: seq<Thread>)
    requires |a| == |b| && forall i :: 0 <= i < |a| ==> a[i].threadId == b[i].threadId
    ensures DistinctKeys(a, ThreadKey) <==> DistinctKeys(b, ThreadKey)
  {
    if DistinctKeys(a, ThreadKey) {
      forall i, j | 0 <= i < j < |b| ensures ThreadKey(b[i]) != ThreadKey(b[j]) {
        assert ThreadKey(a[i]) != ThreadKey(a[j]);
      }
    }
    if DistinctKeys(b, ThreadKey) {
      forall i, j | 0 <= i < j < |a| ensures ThreadKey(a[i]) != ThreadKey(a[j]) {
        assert ThreadKey(b[i]) != ThreadKey(b[j]);
      }
    }
  }

  lemma PushKeepsThreadsDistinct(threads: seq<Thread>, p: Push)
    requires DistinctKeys(threads, ThreadKey)
    ensures DistinctKeys(PushThreads(threads, p), ThreadKey)
  {
    var i := IndexOf(threads, p.message.threadId);
    if i < |threads| {
      SameIdsSameDistinct(threads, PushThreads(threads, p));
    }
  }

  /** From a cache without repeats, one event brings one in exactly when it sets rows that repeat an id themselves. */
  lemma ThreadsStepExactly(s: Sync, e: SyncEvent)
    requires DistinctThreads(s)
    ensures DistinctThreads(Advance(s, e)) <==> !RepeatsThread(s, e)
  {
    var threads := s.sms.caches.threads;
    if e.ThreadsPage? {
      MergedIsDistinctExactly(threads, e.threads, ThreadKey);
    } else if e.Pushed? {
      PushKeepsThreadsDistinct(threads, e.push);
    } else if e.Sent? && IndexOf(threads, e.message.threadId) < |threads| {
      var i := IndexOf(threads, e.message.threadId);
      SameIdsSameDistinct(threads, threads[i := threads[i].(snippet := e.message.body, date := e.message.date)]);
    } else if e.MarkedRead? && IndexOf(threads, e.thread) < |threads| {
      var i := IndexOf(threads, e.thread);
      SameIdsSameDistinct(threads, threads[i := threads[i].(unread := 0, read := true)]);
    }
  }

  /** Main result. Along a run no thread is ever cached twice if and only if no event of it sets rows that repeat a
      thread id themselves. Pushes, merges into a filled cache, sends and reads never bring a repeat in. */
  lemma ThreadsStayDistinctExactly(s: Sync, evs: seq<SyncEvent>)
    requires DistinctThreads(s)
    ensures (forall n :: 0 <= n <= |evs| ==> DistinctThreads(After(s, evs, n))) <==>
            (forall n :: 0 <= n < |evs| ==> !RepeatsThread(After(s, evs, n), evs[n]))
  {
    if forall n :: 0 <= n <= |evs| ==> DistinctThreads(After(s, evs, n)) {
      forall n | 0 <= n < |evs| ensures !RepeatsThread(After(s, evs, n), evs[n]) {
        RunOfPrefix(s, evs, n);
        assert DistinctThreads(After(s, evs, n)) && DistinctThreads(After(s, evs, n + 1));
        ThreadsStepExactly(After(s, evs, n), evs[n]);
      }
    }
    if forall n :: 0 <= n < |evs| ==> !RepeatsThread(After(s, evs, n), evs[n]) {
      forall n | 0 <= n <= |evs| ensures DistinctThreads(After(s, evs, n)) {
        ThreadsDistinctUpTo(s, evs, n);
      }
    }
  }

  lemma RunOfPrefix(s: Sync, evs: seq<SyncEvent>, n: nat)
    requires n < |evs|
    ensures After(s, evs, n + 1) == Advance(After(s, evs, n), evs[n])
  {
    assert evs[..n + 1][..n] == evs[..n];
  }

  lemma {:induction false} ThreadsDistinctUpTo(s: Sync, evs: seq<SyncEvent>, n: nat)
    requires n <= |evs| && DistinctThreads(s)
    requires forall k :: 0 <= k < |evs| ==> !RepeatsThread(After(s, evs, k), evs[k])
    ensures DistinctThreads(After(s, evs, n))
  {
    if n > 0 {
      ThreadsDistinctUpTo(s, evs, n - 1);
      RunOfPrefix(s, evs, n - 1);
      ThreadsStepExactly(After(s, evs, n - 1), evs[n - 1]);
    }
  }

  // ---------------------------------------------------------------- sorting and repeats

  ghost predicate DistinctMessages(msgs: seq<Message>) {
    DistinctKeys(msgs, MessageKey)
  }

  /** Repeats, said from the front. */
  lemma DistinctCons(m: Message, s: seq<Message>)
    ensures DistinctMessages([m] + s) <==>
            DistinctMessages(s) && (m.id != 0 ==> Lacks(s, m.id, MessageKey))
  {
    var all := [m] + s;
    assert forall i :: 0 <= i < |s| ==> all[i + 1] == s[i];
    if DistinctMessages(all) {
      forall i, j | 0 <= i < j < |s| && MessageKey(s[i]).Some? ensures MessageKey(s[i]) != MessageKey(s[j]) {
        assert MessageKey(all[i + 1]) != MessageKey(all[j + 1]);
      }
      forall i | 0 <= i < |s| && m.id != 0 ensures MessageKey(s[i]) != Some(m.id) {
        assert MessageKey(all[0]) != MessageKey(all[i + 1]);
      }
    }
    if DistinctMessages(s) && (m.id != 0 ==> Lacks(s, m.id, MessageKey)) {
      forall i, j | 0 <= i < j < |all| && MessageKey(all[i]).Some? ensures MessageKey(all[i]) != MessageKey(all[j]) {
        assert all[j] == s[j - 1];
        assert i > 0 ==> all[i] == s[i - 1];
      }
    }
  }

  lemma LacksCons(m: Message, s: seq<Message>, k: int)
    ensures Lacks([m] + s, k, MessageKey) <==> MessageKey(m) != Some(k) && Lacks(s, k, MessageKey)
  {
    var all := [m] + s;
    assert all[0] == m && forall i :: 0 <= i < |s| ==> all[i + 1] == s[i];
  }

  lemma {:induction false} LacksInserted(m: Message, s: seq<Message>, k: int)
    ensures Lacks(InsertSorted(m, s), k, MessageKey) <==> MessageKey(m) != Some(k) && Lacks(s, k, MessageKey)
  {
    if s == [] || NotAfter(m, s[0]) {
      LacksCons(m, s, k);
    } else {
      LacksInserted(m, s[1..], k);
      LacksCons(s[0], InsertSorted(m, s[1..]), k);
      LacksCons(s[0], s[1..], k);
      assert s == [s[0]] + s[1..];
    }
  }

  lemma {:induction false} DistinctInserted(m: Message, s: seq<Message>)
    ensures DistinctMessages(InsertSorted(m, s)) <==>
            DistinctMessages(s) && (m.id != 0 ==> Lacks(s, m.id, MessageKey))
  {
    DistinctCons(m, s);
    if s != [] && !NotAfter(m, s[0]) {
      var x, rest := s[0], s[1..];
      assert s == [x] + rest;
      DistinctInserted(m, rest);
      DistinctCons(x, InsertSorted(m, rest));
      DistinctCons(x, rest);
      LacksInserted(m, rest, x.id);
      LacksCons(x, rest, m.id);
    }
  }

  lemma {:induction false} LacksSorted(s: seq<Message>, k: int)
    ensures Lacks(SortMessages(s), k, MessageKey) <==> Lacks(s, k, MessageKey)
  {
    if s != [] {
      LacksSorted(s[1..], k);
      LacksInserted(s[0], SortMessages(s[1..]), k);
      LacksCons(s[0], s[1..], k);
      assert s == [s[0]] + s[1..];
    }
  }

  /** Sorting neither adds nor removes repeats. */
  lemma {:induction false} DistinctSorted(s: seq<Message>)
    ensures DistinctMessages(SortMessages(s)) <==> DistinctMessages(s)
  {
    if s != [] {
      DistinctSorted(s[1..]);
      DistinctInserted(s[0], SortMessages(s[1..]));
      LacksSorted(s[1..], s[0].id);
      DistinctCons(s[0], s[1..]);
      assert s == [s[0]] + s[1..];
    }
  }

  lemma DistinctSnoc(s: seq<Message>, m: Message)
    requires DistinctMessages(s)
    ensures DistinctMessages(s + [m]) <==> !(m.id != 0 && HasId(s, m.id))
  {
    var all := s + [m];
    assert forall i :: 0 <= i < |s| ==> all[i] == s[i];
    if m.id != 0 && HasId(s, m.id) {
      var i :| 0 <= i < |s| && s[i].id == m.id;
      assert MessageKey(all[i]) == MessageKey(all[|s|]);
    }
  }

  // ---------------------------------------------------------------- message ids

  ghost predicate DistinctTranscripts(s: Sync) {
    forall t :: t in Held(s.sms.caches) ==> DistinctMessages(Held(s.sms.caches)[t])
  }

  predicate MessagesPageCounts(s: Sync, e: SyncEvent) {
    && e.MessagesPage? && e.id in s.messagesReqs && !e.error && !Stale(s.messagesMeta, e.id, s.gen)
    && (e.id in s.messagesMeta ==> s.messagesMeta[e.id].threadId == e.thread)
  }

  /** The rows that an event makes a transcript of, as they are or sorted. */
  predicate SetsTranscript(s: Sync, e: SyncEvent) {
    || (MessagesPageCounts(s, e) &&
        (Replaces(s.messagesMeta, e.id, e.next) || Transcript(s.sms.caches, e.thread) == []))
    || (e.LoadMessages? && Transcript(s.sms.caches, e.thread) == [] && e.messages != [])
  }

  /** A confirmed send of a message that the transcript already holds: it is appended without looking. */
  predicate SendsAgain(s: Sync, e: SyncEvent) {
    && e.Sent? && e.message.threadId > 0 && s.sms.caches.messages.Some? && e.message.id != 0
    && HasId(Transcript(s.sms.caches, e.message.threadId), e.message.id)
  }

  ghost predicate RepeatsMessage(s: Sync, e: SyncEvent) {
    SendsAgain(s, e) || (SetsTranscript(s, e) && !DistinctMessages(e.messages))
  }

  lemma TranscriptIsDistinct(s: Sync, thread: int)
    requires DistinctTranscripts(s)
    ensures DistinctMessages(Transcript(s.sms.caches, thread))
  {
  }

  /** With one transcript replaced, all are distinct exactly when the new one is. */
  lemma ReplacedExactly(s: Sync, c: Caches, thread: int, msgs: seq<Message>)
    requires DistinctTranscripts(s) && c.messages == Some(Held(s.sms.caches)[thread := msgs])
    ensures (forall t :: t in Held(c) ==> DistinctMessages(Held(c)[t])) <==> DistinctMessages(msgs)
  {
    assert Held(c) == Held(s.sms.caches)[thread := msgs];
    assert thread in Held(c) && Held(c)[thread] == msgs;
  }

  lemma PageExactly(s: Sync, e: SyncEvent)
    requires DistinctTranscripts(s) && MessagesPageCounts(s, e)
    ensures DistinctTranscripts(Advance(s, e)) <==> !RepeatsMessage(s, e)
  {
    var cached := Transcript(s.sms.caches, e.thread);
    TranscriptIsDistinct(s, e.thread);
    var msgs := if Replaces(s.messagesMeta, e.id, e.next) then e.messages else MergedMessages(cached, e.messages);
    MergedIsDistinctExactly(cached, e.messages, MessageKey);
    DistinctSorted(Merged(cached, e.messages, MessageKey));
    ReplacedExactly(s, Advance(s, e).sms.caches, e.thread, msgs);
  }

  lemma PushKeepsDistinct(s: Sync, p: Push)
    requires DistinctTranscripts(s)
    ensures DistinctTranscripts(Advance(s, Pushed(p)))
  {
    var m, c := p.message, Advance(s, Pushed(p)).sms.caches;
    if c.messages != s.sms.caches.messages {
      TranscriptIsDistinct(s, m.threadId);
      DistinctSnoc(Transcript(s.sms.caches, m.threadId), m);
      ReplacedExactly(s, c, m.threadId, Transcript(s.sms.caches, m.threadId) + [m]);
    } else {
      assert Held(c) == Held(s.sms.caches);
    }
  }

  lemma SentExactly(s: Sync, m: Message)
    requires DistinctTranscripts(s)
    ensures DistinctTranscripts(Advance(s, Sent(m))) <==> !SendsAgain(s, Sent(m))
  {
    var c := Advance(s, Sent(m)).sms.caches;
    if m.threadId > 0 && s.sms.caches.messages.Some? {
      TranscriptIsDistinct(s, m.threadId);
      DistinctSnoc(Transcript(s.sms.caches, m.threadId), m);
      ReplacedExactly(s, c, m.threadId, Transcript(s.sms.caches, m.threadId) + [m]);
    } else {
      assert Held(c) == Held(s.sms.caches);
    }
  }

  lemma ReadKeepsDistinct(s: Sync, thread: int)
    requires DistinctTranscripts(s)
    ensures DistinctTranscripts(Advance(s, MarkedRead(thread)))
  {
    var c, held := Advance(s, MarkedRead(thread)).sms.caches, Held(s.sms.caches);
    if thread in held {
      var msgs := ReadAll(held[thread]);
      assert DistinctMessages(held[thread]);
      forall i, j | 0 <= i < j < |msgs| && MessageKey(msgs[i]).Some?
        ensures MessageKey(msgs[i]) != MessageKey(msgs[j])
      {
        assert MessageKey(held[thread][i]) != MessageKey(held[thread][j]);
      }
      ReplacedExactly(s, c, thread, msgs);
    } else {
      assert Held(c) == held;
    }
  }

  lemma LoadExactly(s: Sync, e: SyncEvent)
    requires DistinctTranscripts(s) && e.LoadMessages?
    ensures DistinctTranscripts(Advance(s, e)) <==> !RepeatsMessage(s, e)
  {
    if SetsTranscript(s, e) {
      ReplacedExactly(s, Advance(s, e).sms.caches, e.thread, e.messages);
    }
  }

  /** From transcripts without repeats, one event brings one in exactly when it confirms a send that the transcript
      already holds, or makes a transcript of rows that repeat an id themselves. */
  lemma MessagesStepExactly(s: Sync, e: SyncEvent)
    requires DistinctTranscripts(s)
    ensures DistinctTranscripts(Advance(s, e)) <==> !RepeatsMessage(s, e)
  {
    if MessagesPageCounts(s, e) {
      PageExactly(s, e);
    } else if e.Pushed? {
      PushKeepsDistinct(s, e.push);
    } else if e.Sent? {
      SentExactly(s, e.message);
    } else if e.MarkedRead? {
      ReadKeepsDistinct(s, e.thread);
    } else if e.LoadMessages? {
      LoadExactly(s, e);
    } else if e.Wipe? || e.Forget? {
      assert Held(Wiped()) == map[];
    } else {
      assert Held(Advance(s, e).sms.caches) == Held(s.sms.caches);
    }
  }

  lemma {:induction false} MessagesDistinctUpTo(s: Sync, evs: seq<SyncEvent>, n: nat)
    requires n <= |evs| && DistinctTranscripts(s)
    requires forall k :: 0 <= k < |evs| ==> !RepeatsMessage(After(s, evs, k), evs[k])
    ensures DistinctTranscripts(After(s, evs, n))
  {
    if n > 0 {
      MessagesDistinctUpTo(s, evs, n - 1);
      RunOfPrefix(s, evs, n - 1);
      MessagesStepExactly(After(s, evs, n - 1), evs[n - 1]);
    }
  }

  /** Main result. Along a run no message id is ever in a transcript twice if and only if no event of it confirms a send
      that is already there, or makes a transcript of rows that repeat an id themselves. */
  lemma MessagesStayDistinctExactly(s: Sync, evs: seq<SyncEvent>)
    requires DistinctTranscripts(s)
    ensures (forall n :: 0 <= n <= |evs| ==> DistinctTranscripts(After(s, evs, n))) <==>
            (forall n :: 0 <= n < |evs| ==> !RepeatsMessage(After(s, evs, n), evs[n]))
  {
    if forall n :: 0 <= n <= |evs| ==> DistinctTranscripts(After(s, evs, n)) {
      forall n | 0 <= n < |evs| ensures !RepeatsMessage(After(s, evs, n), evs[n]) {
        RunOfPrefix(s, evs, n);
        assert DistinctTranscripts(After(s, evs, n)) && DistinctTranscripts(After(s, evs, n + 1));
        MessagesStepExactly(After(s, evs, n), evs[n]);
      }
    }
    if forall n :: 0 <= n < |evs| ==> !RepeatsMessage(After(s, evs, n), evs[n]) {
      forall n | 0 <= n <= |evs| ensures DistinctTranscripts(After(s, evs, n)) {
        MessagesDistinctUpTo(s, evs, n);
      }
    }
  }

  /** Such a send: the page that lists a message comes before the confirmation of its send, and the message is there
      twice. */
  lemma ConfirmedSendIsDoubled(s: Sync, m: Message)
    requires m.id != 0 && m.threadId > 0 && s.sms.caches.messages == Some(map[m.threadId := [m]])
    ensures Transcript(Advance(s, Sent(m)).sms.caches, m.threadId) == [m, m]
  {
  }
}
