/** What a message push shows: its line in the transcript and its thread's row, each told from the caches before. */
module PushEffect {
  import opened Options
  import opened Seqs
  import opened SmsPush
  import Dedup

  /** No row carries this message id; the id 0 is no id. */
  ghost predicate IsUnlisted(rows: seq<Message>, id: int) {
    id == 0 || forall i :: 0 <= i < |rows| ==> rows[i].id != id
  }

  ghost predicate Holds(c: Caches, thread: int) {
    c.messages.Some? && thread in c.messages.value
  }

  /** Main result. A push with a new key goes to the end of its thread's transcript exactly when that transcript is
      held, the thread's id is positive and no row has the message's id; no other transcript changes, and none is
      created or dropped. */
  lemma TranscriptAfterPush(s: PushState, p: Push, thread: int)
    requires Fresh(s, p) && Holds(s.caches, thread)
    ensures Holds(Receive(s, p).caches, thread)
    ensures var rows := s.caches.messages.value[thread];
      Receive(s, p).caches.messages.value[thread] ==
        if thread == p.message.threadId && thread > 0 && IsUnlisted(rows, p.message.id) then rows + [p.message]
        else rows
  {
  }

  lemma NoTranscriptFromPush(s: PushState, p: Push, thread: int)
    requires !Holds(s.caches, thread)
    ensures !Holds(Receive(s, p).caches, thread)
  {
  }

  /** Row i is the first of its thread. */
  ghost predicate IsFirstRow(threads: seq<Thread>, i: nat, thread: int) {
    i < |threads| && threads[i].threadId == thread && forall j :: 0 <= j < i ==> threads[j].threadId != thread
  }

  /** Main result. If the thread has a row, the first one shows the push: its body, its date, one more unread, no
      longer read, and the contact it names; every other row stays as it is. */
  lemma RowAfterPush(s: PushState, p: Push, i: nat)
    requires Fresh(s, p) && IsFirstRow(s.caches.threads, i, p.message.threadId)
    ensures var before, after := s.caches.threads, Receive(s, p).caches.threads;
      && |after| == |before|
      && (forall j :: 0 <= j < |before| && j != i ==> after[j] == before[j])
      && ShowsPush(before[i], after[i], p)
  {
    var k := IndexOf(s.caches.threads, p.message.threadId);
    assert k == i;
  }

  /** An existing row that now tells of the push. */
  ghost predicate ShowsPush(before: Thread, after: Thread, p: Push) {
    && after.snippet == p.message.body && after.date == p.message.date
    && after.unread == before.unread + 1 && !after.read
    && after.threadId == before.threadId && after.address == before.address
    && (p.contactName == "" ==> after.contactName == before.contactName)
    && (p.contactName != "" ==> after.contactName == p.contactName)
    && (p.contactId == "" ==> after.contactId == before.contactId)
    && (p.contactId != "" ==> after.contactId == p.contactId)
    && (p.photoVersion == "" ==> after.photoVersion == before.photoVersion)
    && (p.photoVersion != "" ==> after.photoVersion == p.photoVersion)
  }

  /** A thread without a row gets one in front, if its id is positive; the others move down unchanged. */
  lemma NewRowAfterPush(s: PushState, p: Push)
    requires Fresh(s, p)
    requires forall j :: 0 <= j < |s.caches.threads| ==> s.caches.threads[j].threadId != p.message.threadId
    ensures var before, after := s.caches.threads, Receive(s, p).caches.threads;
      if p.message.threadId > 0 then |after| == |before| + 1 && after[1..] == before && IsRowOf(after[0], p)
      else after == before
  {
    var k := IndexOf(s.caches.threads, p.message.threadId);
    assert k == |s.caches.threads|;
  }

  ghost predicate IsRowOf(row: Thread, p: Push) {
    && row.threadId == p.message.threadId && row.address == p.message.address
    && row.snippet == p.message.body && row.date == p.message.date && row.unread == 1 && !row.read
    && row.contactName == p.contactName && row.contactId == p.contactId && row.photoVersion == p.photoVersion
  }

  // ---------------------------------------------------------------- many pushes

  /** The messages of one thread among the pushes, in order. */
  function MessagesFor(pushes: seq<Push>, thread: int): seq<Message> {
    if pushes == [] then []
    else
      var m := pushes[|pushes| - 1].message;
      MessagesFor(pushes[..|pushes| - 1], thread) + if m.threadId == thread then [m] else []
  }

  /** No message id twice, the id 0 apart. */
  ghost predicate IdsDiffer(rows: seq<Message>) {
    forall i, j :: 0 <= i < j < |rows| && rows[j].id != 0 ==> rows[i].id != rows[j].id
  }

  lemma ApplyExtends(c: Caches, p: Push, thread: int)
    requires thread > 0 && Holds(c, thread)
    requires IsUnlisted(c.messages.value[thread], p.message.id) || p.message.threadId != thread
    ensures Holds(ApplyPush(c, p), thread)
    ensures ApplyPush(c, p).messages.value[thread] ==
      c.messages.value[thread] + if p.message.threadId == thread then [p.message] else []
  {
  }

  lemma {:induction false} AppliedExtends(c: Caches, pushes: seq<Push>, thread: int)
    requires thread > 0 && Holds(c, thread)
    requires IdsDiffer(c.messages.value[thread] + MessagesFor(pushes, thread))
    ensures Holds(ApplyAll(c, pushes), thread)
    ensures ApplyAll(c, pushes).messages.value[thread] == c.messages.value[thread] + MessagesFor(pushes, thread)
  {
    if pushes != [] {
      var k := |pushes| - 1;
      var m, rows, early := pushes[k].message, c.messages.value[thread], MessagesFor(pushes[..k], thread);
      var all := rows + MessagesFor(pushes, thread);
      IdsOfPrefix(all, rows + early, m, thread);
      AppliedExtends(c, pushes[..k], thread);
      ApplyExtends(ApplyAll(c, pushes[..k]), pushes[k], thread);
    }
  }

  lemma IdsOfPrefix(all: seq<Message>, init: seq<Message>, m: Message, thread: int)
    requires IdsDiffer(all) && all == init + if m.threadId == thread then [m] else []
    ensures IdsDiffer(init) && (m.threadId == thread ==> IsUnlisted(init, m.id))
  {
    forall i, j | 0 <= i < j < |init| && init[j].id != 0 ensures init[i].id != init[j].id {
      assert all[i] == init[i] && all[j] == init[j];
    }
    if m.threadId == thread && m.id != 0 {
      assert all[|init|] == m;
      forall i | 0 <= i < |init| ensures init[i].id != m.id {
        assert all[i] == init[i];
      }
    }
  }

  /** Main result. However often and in whatever order pushes are redelivered, up to 500 different ones: a held
      transcript ends as it was, followed by each different push of its thread once, in order of first delivery. */
  lemma EachPushShowsOnce(c: Caches, pushes: seq<Push>, thread: int)
    requires thread > 0 && Holds(c, thread) && |FirstOfEach(pushes)| <= Dedup.DEFAULT_CAP
    requires IdsDiffer(c.messages.value[thread] + MessagesFor(FirstOfEach(pushes), thread))
    ensures var after := ReceiveAll(PushState(c, []), pushes).caches;
      && Holds(after, thread)
      && after.messages.value[thread] == c.messages.value[thread] + MessagesFor(FirstOfEach(pushes), thread)
  {
    AppliedExactlyOnce(c, pushes);
    AppliedExtends(c, FirstOfEach(pushes), thread);
  }
}
