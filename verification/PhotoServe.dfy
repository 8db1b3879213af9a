/** What the stream delivers: which bytes are recorded, told from the history alone, and that a read whose bytes have
    arrived is served in full. */
module PhotoServe {
  import opened Ints
  import opened Intervals
  import opened PartFile
  import opened PhotoStream

  // ---------------------------------------------------------------- the history of chunks

  /** What a history says about chunks: whether the transfer has failed, which chunk each writer is busy with, and the
      chunks that were written out in full and recorded. */
  datatype Log = Log(failed: bool, busy: map<nat, Writer>, recorded: seq<Writer>)

  function Noted(l: Log, w: nat, a: WriterAction): Log {
    match a
    case Arrive(off, raw) => if l.failed || w in l.busy then l else l.(busy := l.busy[w := Writer(off, raw, 0)])
    case Write =>
      if w in l.busy && l.busy[w].done < |l.busy[w].raw|
      then l.(busy := l.busy[w := l.busy[w].(done := l.busy[w].done + 1)])
      else l
    case Record(_) =>
      if w in l.busy && l.busy[w].done == |l.busy[w].raw|
      then Log(false, l.busy - {w}, l.recorded + [l.busy[w]])
      else l
    case Break => if w in l.busy then l.(failed := true, busy := l.busy - {w}) else l
  }

  function History(acts: seq<Action>): Log {
    if acts == [] then Log(false, map[], [])
    else
      var l, a := History(acts[..|acts| - 1]), acts[|acts| - 1];
      match a
      case ByWriter(w, wa) => Noted(l, w, wa)
      case Cancel => l.(failed := true)
      case _ => l
  }

  /** Byte b lies in a chunk that was recorded. */
  ghost predicate ByteRecorded(chunks: seq<Writer>, b: int) {
    exists i :: 0 <= i < |chunks| && chunks[i].off <= b < chunks[i].off + |chunks[i].raw|
  }

  ghost predicate AllHonest(acts: seq<Action>, source: Data) {
    forall i :: 0 <= i < |acts| ==> Honest(acts[i], source)
  }

  lemma RecordedSnoc(chunks: seq<Writer>, x: Writer, b: int)
    ensures ByteRecorded(chunks + [x], b) <==> ByteRecorded(chunks, b) || x.off <= b < x.off + |x.raw|
  {
    var all := chunks + [x];
    assert all[|chunks|] == x && forall i :: 0 <= i < |chunks| ==> all[i] == chunks[i];
    if ByteRecorded(chunks, b) {
      var i :| 0 <= i < |chunks| && chunks[i].off <= b < chunks[i].off + |chunks[i].raw|;
      assert all[i].off <= b < all[i].off + |all[i].raw|;
    }
  }

  /** The stream agrees with the log. */
  ghost predicate Agrees(s: Stream, l: Log) {
    && s.writers == l.busy && s.dead == l.failed
    && forall b :: Holds(s.ranges, b) <==> ByteRecorded(l.recorded, b)
  }

  lemma WriterAgrees(s: Stream, l: Log, w: nat, a: WriterAction, source: Data)
    requires Agrees(s, l) && Inv(s, source) && Honest(ByWriter(w, a), source)
    ensures Agrees(ApplyWriter(s, w, a), Noted(l, w, a))
  {
    if a.Record? && w in s.writers && s.writers[w].done == |s.writers[w].raw| {
      var x := s.writers[w];
      AddedIsCanonicalUnion(s.ranges, x.off, |x.raw|);
      forall b ensures Holds(Added(s.ranges, x.off, |x.raw|), b) <==> ByteRecorded(l.recorded + [x], b) {
        RecordedSnoc(l.recorded, x, b);
      }
    } else if a.Write? && w in s.writers {
      assert WriterOk(s.writers[w], s.part, source);
    }
  }

  /** Main result. After any run a byte counts as held if and only if some chunk containing it arrived, was written out
      in full and was recorded, in that order and by one writer. */
  lemma {:induction false} HeldExactly(acts: seq<Action>, source: Data)
    requires AllHonest(acts, source)
    ensures Agrees(Run(Init(), acts), History(acts))
  {
    if acts != [] {
      var n := |acts| - 1;
      HeldExactly(acts[..n], source);
      RunKeepsInv(acts[..n], source);
      if acts[n].ByWriter? {
        WriterAgrees(Run(Init(), acts[..n]), History(acts[..n]), acts[n].w, acts[n].wa, source);
      }
    }
  }

  /** A chunk delivered undisturbed: it arrives, all its bytes are written, and it is recorded. */
  function Delivery(w: nat, off: nat, raw: Data, size: nat): seq<Action> {
    [ByWriter(w, Arrive(off, raw))] + Writes(w, |raw|) + [ByWriter(w, Record(size))]
  }

  function Writes(w: nat, n: nat): seq<Action> {
    if n == 0 then [] else Writes(w, n - 1) + [ByWriter(w, Write)]
  }

  lemma HistorySnoc(acts: seq<Action>, w: nat, a: WriterAction, all: seq<Action>)
    requires all == acts + [ByWriter(w, a)]
    ensures History(all) == Noted(History(acts), w, a)
  {
    assert all[..|acts|] == acts;
  }

  /** The log with writer w so far. */
  function Written(l: Log, w: nat, n: nat): Log
    requires w in l.busy
  {
    l.(busy := l.busy[w := l.busy[w].(done := n)])
  }

  lemma WriteNoted(l: Log, w: nat, n: nat)
    requires w in l.busy && n < |l.busy[w].raw|
    ensures Noted(Written(l, w, n), w, Write) == Written(l, w, n + 1)
  {
    assert l.busy[w := l.busy[w].(done := n)][w := l.busy[w].(done := n + 1)] == l.busy[w := l.busy[w].(done := n + 1)];
  }

  lemma {:induction false} HistoryOfWrites(acts: seq<Action>, l: Log, w: nat, n: nat)
    requires History(acts) == l && w in l.busy && l.busy[w].done == 0 && n <= |l.busy[w].raw|
    ensures History(acts + Writes(w, n)) == Written(l, w, n)
  {
    if n == 0 {
      assert acts + Writes(w, 0) == acts;
      assert l.busy[w := l.busy[w].(done := 0)] == l.busy;
    } else {
      HistoryOfWrites(acts, l, w, n - 1);
      OneMoreWrite(acts, w, n);
      HistorySnoc(acts + Writes(w, n - 1), w, Write, acts + Writes(w, n));
      WriteNoted(l, w, n - 1);
    }
  }

  lemma OneMoreWrite(acts: seq<Action>, w: nat, n: nat)
    requires n > 0
    ensures acts + Writes(w, n) == acts + Writes(w, n - 1) + [ByWriter(w, Write)]
  {
  }

  lemma ArriveAndRecordNoted(l: Log, w: nat, off: nat, raw: Data, size: nat)
    requires !l.failed && w !in l.busy
    ensures var m := Noted(l, w, Arrive(off, raw));
      && w in m.busy && m.busy[w] == Writer(off, raw, 0)
      && Noted(Written(m, w, |raw|), w, Record(size)) == Log(false, l.busy, l.recorded + [Writer(off, raw, |raw|)])
  {
    var m := Noted(l, w, Arrive(off, raw));
    assert Written(m, w, |raw|).busy - {w} == l.busy;
  }

  /** Such a chunk is always recorded: an idle writer of a live transfer adds exactly it to the log. */
  lemma DeliveryIsRecorded(acts: seq<Action>, w: nat, off: nat, raw: Data, size: nat)
    requires !History(acts).failed && w !in History(acts).busy
    ensures History(acts + Delivery(w, off, raw, size)) ==
            Log(false, History(acts).busy, History(acts).recorded + [Writer(off, raw, |raw|)])
  {
    var a1 := acts + [ByWriter(w, Arrive(off, raw))];
    var a2 := a1 + Writes(w, |raw|);
    ArriveAndRecordNoted(History(acts), w, off, raw, size);
    HistorySnoc(acts, w, Arrive(off, raw), a1);
    HistoryOfWrites(a1, History(a1), w, |raw|);
    HistorySnoc(a2, w, Record(size), acts + Delivery(w, off, raw, size));
  }

  // ---------------------------------------------------------------- a read whose bytes have arrived is served

  /** How much a read of len bytes at off can get. */
  function Want(off: nat, len: nat, size: nat): nat
    requires off <= size
  {
    Min(len, size - off)
  }

  /** Every byte that the read wants was recorded. */
  ghost predicate Arrived(chunks: seq<Writer>, off: nat, n: nat) {
    forall b :: off <= b < off + n ==> ByteRecorded(chunks, b)
  }

  /** The reader after a read: n more bytes of the source. */
  ghost function Served(x: Reader, n: nat, source: Data): Reader
    requires x.off + n <= |source|
  {
    x.(off := x.off + n, delivered := x.delivered + source[x.off..x.off + n], pc := Idle)
  }

  ghost predicate ReaderIs(s: Stream, r: nat, x: Reader) {
    r in s.readers && s.readers[r] == x
  }

  lemma StepOf(s: Stream, r: nat, a: ReaderAction)
    requires r in s.readers
    ensures var t := Apply(s, ByReader(r, a));
      t == s.(readers := s.readers[r := StepReader(s, s.readers[r], a)])
  {
  }

  /** About to look, with everything there: the look finds it and the transfer takes it. */
  lemma CheckServes(s: Stream, r: nat, n: nat, source: Data)
    requires Inv(s, source) && r in s.readers && s.readers[r].pc.Checking? && !s.dead && s.readers[r].pc.len <= n
    requires forall b :: s.readers[r].off <= b < s.readers[r].off + s.readers[r].pc.len ==> Holds(s.ranges, b)
    ensures var x := s.readers[r];
      && x.off + x.pc.len <= |source|
      && ReaderIs(Apply(Apply(s, ByReader(r, Check)), ByReader(r, Copy(n))), r, Served(x, x.pc.len, source))
  {
    var x := s.readers[r];
    assert ReaderOk(x, s, source);
    CoveredIsExact(s.ranges, x.off, x.pc.len);
    ApplyPreserves(s, ByReader(r, Check), source);
    StepOf(s, r, Check);
    var t := Apply(s, ByReader(r, Check));
    assert t.readers[r] == x.(pc := Copying(x.pc.len, []));
    CopyCompletes(t, r, n, source);
    CopyKeepsRest(t, r, n, source);
  }

  /** A transfer changes nothing of the reader but its position and what it has delivered. */
  lemma CopyKeepsRest(s: Stream, r: nat, n: nat, source: Data)
    requires r in s.readers && s.readers[r].pc.Copying? && |s.readers[r].pc.buf| <= s.readers[r].pc.len
    ensures var x, y := s.readers[r], Apply(s, ByReader(r, Copy(n))).readers[r]; y.size == x.size && y.base == x.base
  {
  }

  lemma BeginLooks(s: Stream, r: nat, len: nat, source: Data)
    requires Inv(s, source) && r in s.readers && s.readers[r].pc.Idle? && s.readers[r].off < |source| && 0 < len
    ensures var x := s.readers[r];
      Apply(s, ByReader(r, Begin(len))) ==
      s.(readers := s.readers[r := x.(pc := Checking(Want(x.off, len, |source|)))])
  {
    assert ReaderOk(s.readers[r], s, source);
  }

  lemma RunIs(acts: seq<Action>, a: Action, all: seq<Action>)
    requires all == acts + [a]
    ensures Run(Init(), all) == Apply(Run(Init(), acts), a)
  {
    RunSnoc(acts, a);
  }

  /** Main result. Whatever happened before: if every byte that a read wants was recorded and the transfer has not
      failed, then an idle reader inside the file gets it. Asking, looking and copying append exactly those bytes of
      the source, clipped at its end, to what the reader has delivered. */
  lemma ArrivedReadIsServed(acts: seq<Action>, source: Data, r: nat, len: nat, n: nat)
    requires AllHonest(acts, source) && !History(acts).failed && 0 < len
    requires r in Run(Init(), acts).readers && Run(Init(), acts).readers[r].pc.Idle?
    requires Run(Init(), acts).readers[r].off < |source|
    requires var off := Run(Init(), acts).readers[r].off;
      Want(off, len, |source|) <= n && Arrived(History(acts).recorded, off, Want(off, len, |source|))
    ensures var x := Run(Init(), acts).readers[r];
      ReaderIs(Run(Init(), acts + [ByReader(r, Begin(len)), ByReader(r, Check), ByReader(r, Copy(n))]), r,
               Served(x, Want(x.off, len, |source|), source))
  {
    var s := Run(Init(), acts);
    RunKeepsInv(acts, source);
    HeldExactly(acts, source);
    BeginServes(s, r, len, n, source);
    var begin, check, copy := ByReader(r, Begin(len)), ByReader(r, Check), ByReader(r, Copy(n));
    RunIs(acts, begin, acts + [begin]);
    RunIs(acts + [begin], check, acts + [begin, check]);
    RunIs(acts + [begin, check], copy, acts + [begin, check, copy]);
  }

  lemma BeginServes(s: Stream, r: nat, len: nat, n: nat, source: Data)
    requires Inv(s, source) && r in s.readers && s.readers[r].pc.Idle? && s.readers[r].off < |source| && 0 < len
    requires !s.dead && Want(s.readers[r].off, len, |source|) <= n
    requires forall b :: s.readers[r].off <= b < s.readers[r].off + Want(s.readers[r].off, len, |source|) ==>
      Holds(s.ranges, b)
    ensures var x := s.readers[r];
      ReaderIs(Apply(Apply(Apply(s, ByReader(r, Begin(len))), ByReader(r, Check)), ByReader(r, Copy(n))), r,
               Served(x, Want(x.off, len, |source|), source))
  {
    BeginLooks(s, r, len, source);
    ApplyPreserves(s, ByReader(r, Begin(len)), source);
    CheckServes(Apply(s, ByReader(r, Begin(len))), r, n, source);
  }

  /** A reader that looks at its window under the lock, with everything there, is sent back to look again. */
  lemma ProbeReturns(s: Stream, r: nat, source: Data)
    requires Inv(s, source) && r in s.readers && s.readers[r].pc.Probing? && !s.dead
    requires forall b :: s.readers[r].off <= b < s.readers[r].off + s.readers[r].pc.len ==> Holds(s.ranges, b)
    ensures var x := s.readers[r];
      Apply(s, ByReader(r, Probe)) == s.(readers := s.readers[r := x.(pc := Checking(x.pc.len))])
  {
    var x := s.readers[r];
    assert ReaderOk(x, s, source);
    CoveredIsExact(s.ranges, x.off, Min(x.pc.len, STREAM_WINDOW));
  }

  lemma ProbeServes(s: Stream, r: nat, n: nat, source: Data)
    requires Inv(s, source) && r in s.readers && s.readers[r].pc.Probing? && !s.dead && s.readers[r].pc.len <= n
    requires forall b :: s.readers[r].off <= b < s.readers[r].off + s.readers[r].pc.len ==> Holds(s.ranges, b)
    ensures var x := s.readers[r];
      && x.off + x.pc.len <= |source|
      && ReaderIs(Apply(Apply(Apply(s, ByReader(r, Probe)), ByReader(r, Check)), ByReader(r, Copy(n))), r,
                  Served(x, x.pc.len, source))
  {
    ProbeReturns(s, r, source);
    ApplyPreserves(s, ByReader(r, Probe), source);
    CheckServes(Apply(s, ByReader(r, Probe)), r, n, source);
  }

  /** Main result. A reader that had to wait is served too: once every byte it wants was recorded, it can wake, look
      twice and copy, or, if it has only just asked the phone, look without sleeping. */
  lemma WaitingReadIsServed(acts: seq<Action>, source: Data, r: nat, n: nat)
    requires AllHonest(acts, source) && !History(acts).failed && r in Run(Init(), acts).readers
    requires var pc := Run(Init(), acts).readers[r].pc; (pc.Waiting? || pc.Pulling?) && pc.len <= n
    requires var x := Run(Init(), acts).readers[r]; Arrived(History(acts).recorded, x.off, x.pc.len)
    ensures var x := Run(Init(), acts).readers[r];
      var first := if x.pc.Waiting? then Wake else Pull(true);
      && x.off + x.pc.len <= |source|
      && ReaderIs(Run(Init(), acts + [ByReader(r, first), ByReader(r, Probe), ByReader(r, Check),
                                      ByReader(r, Copy(n))]),
                  r, Served(x, x.pc.len, source))
  {
    var s := Run(Init(), acts);
    RunKeepsInv(acts, source);
    HeldExactly(acts, source);
    var first := ByReader(r, if s.readers[r].pc.Waiting? then Wake else Pull(true));
    WaitingServes(s, r, n, source);
    var probe, check, copy := ByReader(r, Probe), ByReader(r, Check), ByReader(r, Copy(n));
    RunIs(acts, first, acts + [first]);
    RunIs(acts + [first], probe, acts + [first, probe]);
    RunIs(acts + [first, probe], check, acts + [first, probe, check]);
    RunIs(acts + [first, probe, check], copy, acts + [first, probe, check, copy]);
  }

  /** With its bytes there, a sleeper has been signalled; it, and one that has just asked, goes on to look. */
  lemma WakesUp(s: Stream, r: nat, source: Data)
    requires Inv(s, source) && r in s.readers && (s.readers[r].pc.Waiting? || s.readers[r].pc.Pulling?)
    requires forall b :: s.readers[r].off <= b < s.readers[r].off + s.readers[r].pc.len ==> Holds(s.ranges, b)
    ensures var x := s.readers[r];
      Apply(s, ByReader(r, if x.pc.Waiting? then Wake else Pull(true))) ==
      s.(readers := s.readers[r := x.(pc := Probing(x.pc.len))])
  {
    var x := s.readers[r];
    assert ReaderOk(x, s, source);
    CoveredIsExact(s.ranges, x.off, Min(x.pc.len, STREAM_WINDOW));
  }

  lemma WaitingServes(s: Stream, r: nat, n: nat, source: Data)
    requires Inv(s, source) && r in s.readers && (s.readers[r].pc.Waiting? || s.readers[r].pc.Pulling?)
    requires !s.dead && s.readers[r].pc.len <= n
    requires forall b :: s.readers[r].off <= b < s.readers[r].off + s.readers[r].pc.len ==> Holds(s.ranges, b)
    ensures var x := s.readers[r]; var t := Apply(s, ByReader(r, if x.pc.Waiting? then Wake else Pull(true)));
      && x.off + x.pc.len <= |source|
      && ReaderIs(Apply(Apply(Apply(t, ByReader(r, Probe)), ByReader(r, Check)), ByReader(r, Copy(n))), r,
                  Served(x, x.pc.len, source))
  {
    var first := ByReader(r, if s.readers[r].pc.Waiting? then Wake else Pull(true));
    WakesUp(s, r, source);
    ApplyPreserves(s, first, source);
    ProbeServes(Apply(s, first), r, n, source);
  }

  /** A seek of an idle reader starts a fresh stretch at its target. */
  lemma SeekStartsOver(acts: seq<Action>, r: nat, pos: nat)
    requires r in Run(Init(), acts).readers && Run(Init(), acts).readers[r].pc.Idle?
    ensures var x := Run(Init(), acts).readers[r];
      ReaderIs(Run(Init(), acts + [ByReader(r, Seek(pos))]), r, Reader(x.size, pos, pos, [], Idle))
  {
    RunSnoc(acts, ByReader(r, Seek(pos)));
  }

  lemma {:induction false} TotalKnown(acts: seq<Action>, source: Data)
    requires AllHonest(acts, source) && History(acts).recorded != []
    ensures Run(Init(), acts).total == |source|
  {
    var n := |acts| - 1;
    RunKeepsInv(acts, source);
    HeldExactly(acts[..n], source);
    RunKeepsInv(acts[..n], source);
    if History(acts[..n]).recorded != [] {
      TotalKnown(acts[..n], source);
    }
  }

  /** Once a chunk was recorded, the stream of a live transfer can be opened: a new reader stands at the start and knows
      the size of the source. */
  lemma OpensAtStart(acts: seq<Action>, source: Data, r: nat)
    requires AllHonest(acts, source) && History(acts).recorded != [] && !History(acts).failed
    requires r !in Run(Init(), acts).readers && source != []
    ensures ReaderIs(Run(Init(), acts + [Open(r)]), r, Reader(|source|, 0, 0, [], Idle))
  {
    TotalKnown(acts, source);
    HeldExactly(acts, source);
    RunSnoc(acts, Open(r));
  }

  // ---------------------------------------------------------------- failure

  lemma ProbeOfDead(s: Stream, r: nat)
    requires r in s.readers && s.dead && s.readers[r].pc.Waiting? && s.readers[r].pc.seen < s.notify
    ensures var t := Apply(Apply(s, ByReader(r, Wake)), ByReader(r, Probe)); ReaderIs(t, r, s.readers[r].(pc := Idle))
  {
    StepOf(s, r, Wake);
    StepOf(Apply(s, ByReader(r, Wake)), r, Probe);
  }

  /** A sleeping reader learns of a cancelled transfer: it wakes, looks and gives its read up, nothing delivered. */
  lemma CancelEndsTheRead(acts: seq<Action>, source: Data, r: nat)
    requires AllHonest(acts, source) && r in Run(Init(), acts).readers && Run(Init(), acts).readers[r].pc.Waiting?
    ensures ReaderIs(Run(Init(), acts + [Cancel] + [ByReader(r, Wake)] + [ByReader(r, Probe)]), r,
                     Run(Init(), acts).readers[r].(pc := Idle))
  {
    RunKeepsInv(acts, source);
    RunSnoc(acts, Cancel);
    RunSnoc(acts + [Cancel], ByReader(r, Wake));
    RunSnoc(acts + [Cancel] + [ByReader(r, Wake)], ByReader(r, Probe));
    ProbeOfDead(Run(Init(), acts + [Cancel]), r);
  }

  /** And so of a chunk that could not be written. */
  lemma BreakEndsTheRead(acts: seq<Action>, source: Data, r: nat, w: nat)
    requires AllHonest(acts, source) && r in Run(Init(), acts).readers && Run(Init(), acts).readers[r].pc.Waiting?
    requires w in Run(Init(), acts).writers
    ensures ReaderIs(Run(Init(), acts + [ByWriter(w, Break)] + [ByReader(r, Wake)] + [ByReader(r, Probe)]), r,
                     Run(Init(), acts).readers[r].(pc := Idle))
  {
    RunKeepsInv(acts, source);
    RunSnoc(acts, ByWriter(w, Break));
    RunSnoc(acts + [ByWriter(w, Break)], ByReader(r, Wake));
    RunSnoc(acts + [ByWriter(w, Break)] + [ByReader(r, Wake)], ByReader(r, Probe));
    ProbeOfDead(Run(Init(), acts + [ByWriter(w, Break)]), r);
  }

  /** A reader past its deadline, or whose request to the phone could not be sent, gives up with nothing delivered. */
  lemma ReaderMayGiveUp(s: Stream, r: nat)
    requires r in s.readers && (s.readers[r].pc.Waiting? || s.readers[r].pc.Pulling?)
    ensures var a := if s.readers[r].pc.Waiting? then GiveUp else Pull(false);
      ReaderIs(Apply(s, ByReader(r, a)), r, s.readers[r].(pc := Idle))
  {
    StepOf(s, r, if s.readers[r].pc.Waiting? then GiveUp else Pull(false));
  }
}
