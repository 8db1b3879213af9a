/** Message pushes: the transport delivers each at least once, the caches apply each once. */
module SmsPush {
  import opened Options
  import opened GoText
  import Decimal
  import Dedup
  import opened Seqs

  datatype Thread = Thread(
    threadId: int, address: string, contactName: string, contactId: string, photoVersion: string,
    snippet: string, date: int, unread: int, read: bool)

  datatype Message = Message(id: int, threadId: int, address: string, body: string, date: int, read: bool)

  datatype Push = Push(message: Message, clientId: string, contactName: string, contactId: string, photoVersion: string)

  /** The key of a push that has neither a client id nor a message id. */
  function FallbackKey(m: Message): string {
    "fb:" + m.address + "|" + Decimal.Format(m.date) + "|" + Decimal.Format(|m.body|)
  }

  /** smsPushDedupKey */
  function DedupKey(p: Push): (key: string)
    ensures key != ""
  {
    var m := p.message;
    if p.clientId != "" then "c:" + p.clientId
    else if m.id != 0 then "id:" + Decimal.Format(m.id)
    else FallbackKey(m)
  }

  lemma JoinIsInjective(x: string, y: string, u: string, v: string)
    requires '|' !in y && '|' !in v && x + "|" + y == u + "|" + v
    ensures x == u && y == v
  {
    LastIndexOfJoin(x, '|', y);
    LastIndexOfJoin(u, '|', v);
    assert x + ['|'] + y == u + ['|'] + v;
    assert (x + ['|'] + y)[..|x|] == x && (u + ['|'] + v)[..|u|] == u;
    assert (x + ['|'] + y)[|x| + 1..] == y && (u + ['|'] + v)[|u| + 1..] == v;
  }

  lemma FormatHasNoBar(n: int)
    ensures '|' !in Decimal.Format(n)
  {
    Decimal.UnsignedFormat(n);
    var s := Decimal.Format(n);
    assert n < 0 ==> s == [s[0]] + s[1..];
  }

  lemma FallbackKeysAgreeExactly(m: Message, n: Message)
    ensures FallbackKey(m) == FallbackKey(n) <==> m.address == n.address && m.date == n.date && |m.body| == |n.body|
  {
    if FallbackKey(m) == FallbackKey(n) {
      var a, b := "fb:" + m.address + "|" + Decimal.Format(m.date), "fb:" + n.address + "|" + Decimal.Format(n.date);
      FormatHasNoBar(|m.body|);
      FormatHasNoBar(|n.body|);
      JoinIsInjective(a, Decimal.Format(|m.body|), b, Decimal.Format(|n.body|));
      Decimal.FormatIsInjective(|m.body|, |n.body|);
      FormatHasNoBar(m.date);
      FormatHasNoBar(n.date);
      JoinIsInjective("fb:" + m.address, Decimal.Format(m.date), "fb:" + n.address, Decimal.Format(n.date));
      Decimal.FormatIsInjective(m.date, n.date);
      assert ("fb:" + m.address)[3..] == m.address && ("fb:" + n.address)[3..] == n.address;
    }
  }

  /** Exactly when two pushes count as one: the same client id, or without one the same message id, or with neither
      the same address, date and body length, whatever the bodies say. */
  lemma KeysAgreeExactly(p: Push, q: Push)
    ensures DedupKey(p) == DedupKey(q) <==>
      if p.clientId != "" || q.clientId != "" then p.clientId == q.clientId
      else if p.message.id != 0 || q.message.id != 0 then p.message.id == q.message.id
      else
        && p.message.address == q.message.address && p.message.date == q.message.date
        && |p.message.body| == |q.message.body|
  {
    KeyStarts(p);
    KeyStarts(q);
    Decimal.FormatIsInjective(p.message.id, q.message.id);
    FallbackKeysAgreeExactly(p.message, q.message);
  }

  /** The three kinds of key start differently and end in their contents. */
  lemma KeyStarts(p: Push)
    ensures var k := DedupKey(p);
      if p.clientId != "" then k[0] == 'c' && k[2..] == p.clientId
      else if p.message.id != 0 then k[0] == 'i' && k[3..] == Decimal.Format(p.message.id)
      else k[0] == 'f' && k == FallbackKey(p.message)
  {
  }

  /** messages: the transcripts held, per thread; None is the wiped (nil) cache. */
  datatype Caches = Caches(threads: seq<Thread>, messages: Option<map<int, seq<Message>>>)

  predicate HasId(msgs: seq<Message>, id: int) {
    exists i :: 0 <= i < |msgs| && msgs[i].id == id
  }

  /** The first row of a thread, or the length when there is none. */
  function IndexOf(threads: seq<Thread>, id: int): (i: nat)
    ensures i <= |threads| && (i < |threads| ==> threads[i].threadId == id)
    ensures forall j :: 0 <= j < i ==> threads[j].threadId != id
  {
    if threads == [] || threads[0].threadId == id then 0 else 1 + IndexOf(threads[1..], id)
  }

  function Bumped(t: Thread, p: Push): Thread {
    t.(snippet := p.message.body, date := p.message.date, unread := t.unread + 1, read := false,
       contactName := if p.contactName != "" then p.contactName else t.contactName,
       contactId := if p.contactId != "" then p.contactId else t.contactId,
       photoVersion := if p.photoVersion != "" then p.photoVersion else t.photoVersion)
  }

  function NewThread(p: Push): Thread {
    Thread(p.message.threadId, p.message.address, p.contactName, p.contactId, p.photoVersion,
           p.message.body, p.message.date, 1, false)
  }

  function PushThreads(threads: seq<Thread>, p: Push): seq<Thread> {
    var i := IndexOf(threads, p.message.threadId);
    if i < |threads| then threads[i := Bumped(threads[i], p)]
    else if p.message.threadId > 0 then [NewThread(p)] + threads
    else threads
  }

  function PushMessages(messages: Option<map<int, seq<Message>>>, m: Message): Option<map<int, seq<Message>>> {
    if messages.Some? && m.threadId > 0 && m.threadId in messages.value
       && !(m.id != 0 && HasId(messages.value[m.threadId], m.id))
    then Some(messages.value[m.threadId := messages.value[m.threadId] + [m]])
    else messages
  }

  function ApplyPush(c: Caches, p: Push): Caches {
    Caches(PushThreads(c.threads, p), PushMessages(c.messages, p.message))
  }

  /** The caches with the keys accepted so far. */
  datatype PushState = PushState(caches: Caches, accepted: seq<string>)

  predicate Fresh(s: PushState, p: Push) {
    DedupKey(p) !in Last(s.accepted, Dedup.DEFAULT_CAP)
  }

  function Receive(s: PushState, p: Push): PushState {
    if Fresh(s, p) then PushState(ApplyPush(s.caches, p), s.accepted + [DedupKey(p)]) else s
  }

  class PushReceiver {
    var threads: seq<Thread>
    var messages: Option<map<int, seq<Message>>>
    const dedup: Dedup.DedupCache

    ghost predicate Valid()
      reads this, dedup
    {
      dedup.Valid() && dedup.cap == Dedup.DEFAULT_CAP
    }

    ghost function View(): PushState
      reads this, dedup
    {
      PushState(Caches(threads, messages), dedup.accepted)
    }

    constructor ()
      ensures Valid() && View() == PushState(Caches([], None), []) && fresh(dedup)
    {
      threads, messages := [], None;
      dedup := new Dedup.DedupCache(0);
    }

    /** One sms-push message. */
    method ReceivePush(p: Push)
      requires Valid()
      modifies this, dedup
      ensures Valid() && View() == Receive(old(View()), p)
    {
      var isNew := dedup.Mark(DedupKey(p));
      if !isNew {
        return;
      }
      AppendMessage(p.message);
      UpdateThread(p);
    }

    method AppendMessage(m: Message)
      modifies this`messages
      ensures messages == PushMessages(old(messages), m)
    {
      if messages.Some? && m.threadId > 0 && m.threadId in messages.value {
        var msgs := messages.value[m.threadId];
        var dup, i := false, 0;
        while m.id != 0 && i < |msgs| && !dup
          invariant 0 <= i <= |msgs|
          invariant dup ==> m.id != 0 && HasId(msgs, m.id)
          invariant !dup ==> forall j :: 0 <= j < i ==> msgs[j].id != m.id
          decreases |msgs| - i, !dup
        {
          if msgs[i].id == m.id {
            dup := true;
          } else {
            i := i + 1;
          }
        }
        if !dup {
          messages := Some(messages.value[m.threadId := msgs + [m]]);
        }
      }
    }

    method UpdateThread(p: Push)
      modifies this`threads
      ensures threads == PushThreads(old(threads), p)
    {
      var i := 0;
      while i < |threads| && threads[i].threadId != p.message.threadId
        invariant 0 <= i <= |threads| && forall j :: 0 <= j < i ==> threads[j].threadId != p.message.threadId
      {
        i := i + 1;
      }
      if i < |threads| {
        threads := threads[i := Bumped(threads[i], p)];
      } else if p.message.threadId > 0 {
        threads := [NewThread(p)] + threads;
      }
    }
  }

  // ---------------------------------------------------------------- redelivery

  /** What can happen between two deliveries of a push: other pushes, and anything else that rewrites the caches. */
  datatype Event = Delivered(push: Push) | Rewritten(caches: Caches)

  function Step(s: PushState, e: Event): PushState {
    match e
    case Delivered(p) => Receive(s, p)
    case Rewritten(c) => s.(caches := c)
  }

  function Run(s: PushState, evs: seq<Event>): PushState
    decreases |evs|
  {
    if evs == [] then s else Run(Step(s, evs[0]), evs[1..])
  }

  lemma {:induction false} RunOnlyAccepts(s: PushState, evs: seq<Event>)
    ensures s.accepted <= Run(s, evs).accepted
    decreases |evs|
  {
    if evs != [] {
      RunOnlyAccepts(Step(s, evs[0]), evs[1..]);
    }
  }

  /** After a push was applied, and whatever happened since: delivered again it changes nothing at all exactly
      while fewer than 500 other pushes have been applied; from then on it would be applied a second time. */
  lemma RedeliveryExactly(s: PushState, p: Push, evs: seq<Event>)
    requires Fresh(s, p)
    requires var before := Receive(s, p).accepted; var after := Run(Receive(s, p), evs).accepted;
      forall q :: |before| <= q < |after| ==> after[q] != DedupKey(p)
    ensures var t := Run(Receive(s, p), evs);
      var others := |t.accepted| - |Receive(s, p).accepted|;
      && others >= 0
      && (others < Dedup.DEFAULT_CAP ==> Receive(t, p) == t)
      && (others >= Dedup.DEFAULT_CAP ==> Receive(t, p).accepted == t.accepted + [DedupKey(p)])
  {
    var t := Run(Receive(s, p), evs);
    RunOnlyAccepts(Receive(s, p), evs);
    var k := |s.accepted|;
    assert t.accepted[k] == DedupKey(p);
    Dedup.RefusedExactly(t.accepted, Dedup.DEFAULT_CAP, k);
  }

  // ---------------------------------------------------------------- exactly once

  function ReceiveAll(s: PushState, pushes: seq<Push>): PushState {
    if pushes == [] then s else Receive(ReceiveAll(s, pushes[..|pushes| - 1]), pushes[|pushes| - 1])
  }

  function ApplyAll(c: Caches, pushes: seq<Push>): Caches {
    if pushes == [] then c else ApplyPush(ApplyAll(c, pushes[..|pushes| - 1]), pushes[|pushes| - 1])
  }

  function KeysOf(pushes: seq<Push>): (ks: seq<string>)
    ensures |ks| == |pushes| && forall i :: 0 <= i < |ks| ==> ks[i] == DedupKey(pushes[i])
  {
    seq(|pushes|, i requires 0 <= i < |pushes| => DedupKey(pushes[i]))
  }

  /** The first delivery of each key. */
  function FirstOfEach(pushes: seq<Push>): seq<Push> {
    if pushes == [] then []
    else
      var rest := FirstOfEach(pushes[..|pushes| - 1]);
      if DedupKey(pushes[|pushes| - 1]) in KeysOf(rest) then rest else rest + [pushes[|pushes| - 1]]
  }

  /** The pushes of one thread. */
  function CountFor(pushes: seq<Push>, thread: int): nat {
    if pushes == [] then 0
    else CountFor(pushes[..|pushes| - 1], thread) + if pushes[|pushes| - 1].message.threadId == thread then 1 else 0
  }

  /** The unread badge of a thread; a thread without a row has none. */
  function Unread(threads: seq<Thread>, thread: int): int {
    var i := IndexOf(threads, thread);
    if i < |threads| then threads[i].unread else 0
  }

  /** The exactly-once illusion: with any redeliveries in any order, as long as no more than 500 different pushes
      are involved, the caches end as if each push had been applied once, at its first delivery. */
  lemma {:induction false} AppliedExactlyOnce(c: Caches, pushes: seq<Push>)
    requires |FirstOfEach(pushes)| <= Dedup.DEFAULT_CAP
    ensures ReceiveAll(PushState(c, []), pushes) ==
            PushState(ApplyAll(c, FirstOfEach(pushes)), KeysOf(FirstOfEach(pushes)))
  {
    if pushes != [] {
      var k := |pushes| - 1;
      AppliedExactlyOnce(c, pushes[..k]);
      var rest := FirstOfEach(pushes[..k]);
      if DedupKey(pushes[k]) !in KeysOf(rest) {
        var all := FirstOfEach(pushes);
        assert all[..|all| - 1] == rest;
        assert KeysOf(all) == KeysOf(rest) + [DedupKey(pushes[k])];
      }
    }
  }

  lemma PushCountsOnce(threads: seq<Thread>, p: Push, thread: int)
    requires thread > 0
    ensures Unread(PushThreads(threads, p), thread) ==
            Unread(threads, thread) + if p.message.threadId == thread then 1 else 0
  {
    var i, j := IndexOf(threads, p.message.threadId), IndexOf(threads, thread);
    var after := PushThreads(threads, p);
    if i < |threads| {
      SameIdsSameIndex(threads, after, thread);
    } else if p.message.threadId > 0 && p.message.threadId != thread {
      assert after[1..] == threads;
    }
  }

  lemma {:induction false} SameIdsSameIndex(a: seq<Thread>, b: seq<Thread>, thread: int)
    requires |a| == |b| && forall i :: 0 <= i < |a| ==> a[i].threadId == b[i].threadId
    ensures IndexOf(a, thread) == IndexOf(b, thread)
  {
    if a != [] {
      SameIdsSameIndex(a[1..], b[1..], thread);
    }
  }

  lemma {:induction false} UnreadAfterAll(c: Caches, pushes: seq<Push>, thread: int)
    requires thread > 0
    ensures Unread(ApplyAll(c, pushes).threads, thread) == Unread(c.threads, thread) + CountFor(pushes, thread)
  {
    if pushes != [] {
      var k := |pushes| - 1;
      UnreadAfterAll(c, pushes[..k], thread);
      PushCountsOnce(ApplyAll(c, pushes[..k]).threads, pushes[k], thread);
    }
  }

  /** So every unread badge grows by the number of different pushes of its thread, however often each arrived. */
  lemma UnreadCountsEachPushOnce(c: Caches, pushes: seq<Push>, thread: int)
    requires thread > 0 && |FirstOfEach(pushes)| <= Dedup.DEFAULT_CAP
    ensures Unread(ReceiveAll(PushState(c, []), pushes).caches.threads, thread) ==
            Unread(c.threads, thread) + CountFor(FirstOfEach(pushes), thread)
  {
    AppliedExactlyOnce(c, pushes);
    UnreadAfterAll(c, FirstOfEach(pushes), thread);
  }
}
