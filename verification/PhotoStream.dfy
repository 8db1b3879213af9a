/** The on-demand video stream: chunk writers fill a sparse part file and record what they wrote,
    while blocking readers hand bytes to the player. Each action below is one mutex-protected region,
    one file-system transfer of some bytes, or one wake-up; a run is any interleaving of them. */
module PhotoStream {
  import opened Ints
  import opened Intervals
  import opened PartFile

  /** One on-demand pull behind a read miss asks for at most 4 MiB. */
  const STREAM_WINDOW: nat := 0x40_0000

  /** A chunk being ingested: raw belongs at off, and its first `done` bytes are in the file. */
  datatype Writer = Writer(off: nat, raw: Data, done: nat)

  datatype Pc =
    | Idle
    | Checking(len: nat)                 // about to look at the interval set
    | Pulling(len: nat)                  // missed: about to ask the phone for the window
    | Probing(len: nat)                  // about to look at the window under the lock
    | Waiting(len: nat, seen: nat)       // asleep on the notify channel number `seen`
    | Copying(len: nat, buf: Data)       // found covered: reading the file into the buffer

  /** delivered is what Read has returned since the last Seek, which went to base. */
  datatype Reader = Reader(size: nat, off: nat, base: nat, delivered: Data, pc: Pc)

  /** notify counts how often the broadcast channel was closed and replaced. */
  datatype Stream = Stream(
    part: Data, ranges: seq<Interval>, total: nat, dead: bool, notify: nat,
    writers: map<nat, Writer>, readers: map<nat, Reader>)

  datatype WriterAction =
    | Arrive(off: nat, raw: Data)
    | Write                              // one more byte of the chunk reaches the file
    | Record(totalSize: nat)
    | Break                              // open, seek or write failed

  datatype ReaderAction =
    | Seek(pos: nat)
    | Begin(len: nat)
    | Check
    | Pull(sent: bool)
    | Probe
    | Wake
    | GiveUp                             // deadline or cancelled request
    | Copy(n: nat)

  datatype Action =
    | ByWriter(w: nat, wa: WriterAction)
    | ByReader(r: nat, ra: ReaderAction)
    | Open(r: nat)
    | Cancel

  function Init(): Stream {
    Stream([], [], 0, false, 0, map[], map[])
  }

  function ApplyWriter(s: Stream, w: nat, a: WriterAction): Stream {
    match a
    case Arrive(off, raw) =>
      if s.dead || w in s.writers then s else s.(writers := s.writers[w := Writer(off, raw, 0)])
    case Write =>
      if w !in s.writers || |s.writers[w].raw| <= s.writers[w].done then s
      else
        var x := s.writers[w];
        s.(part := WriteAt(s.part, x.off + x.done, [x.raw[x.done]]), writers := s.writers[w := x.(done := x.done + 1)])
    case Record(totalSize) =>
      if w !in s.writers || s.writers[w].done != |s.writers[w].raw| then s
      else
        var x := s.writers[w];
        s.(total := if s.total == 0 then totalSize else s.total,
           ranges := Added(s.ranges, x.off, |x.raw|),
           dead := false, notify := s.notify + 1, writers := s.writers - {w})
    case Break =>
      if w !in s.writers then s
      else s.(dead := true, notify := s.notify + 1, writers := s.writers - {w})
  }

  /** One f.ReadAt transfer of up to n bytes; io.EOF ends the read early when the file runs out. */
  function CopySome(part: Data, x: Reader, n: nat): Reader
    requires x.pc.Copying? && |x.pc.buf| <= x.pc.len
  {
    var at := x.off + |x.pc.buf|;
    var left := if at < |part| then |part| - at else 0;
    var k := Min(n, Min(left, x.pc.len - |x.pc.buf|));
    var buf := x.pc.buf + (if k == 0 then [] else part[at..at + k]);
    if |buf| == x.pc.len || |part| <= x.off + |buf| then
      x.(off := x.off + |buf|, delivered := x.delivered + buf, pc := Idle)
    else x.(pc := Copying(x.pc.len, buf))
  }

  function StepReader(s: Stream, x: Reader, a: ReaderAction): Reader {
    match a
    case Seek(pos) =>
      if x.pc.Idle? then x.(off := pos, base := pos, delivered := []) else x
    case Begin(len) =>
      if !x.pc.Idle? || len == 0 || x.size <= x.off then x
      else x.(pc := Checking(Min(len, x.size - x.off)))
    case Check =>
      if !x.pc.Checking? then x
      else if s.dead then x.(pc := Idle)
      else if Covered(s.ranges, x.off, x.pc.len) then x.(pc := Copying(x.pc.len, []))
      else x.(pc := Pulling(x.pc.len))
    case Pull(sent) =>
      if !x.pc.Pulling? then x else x.(pc := if sent then Probing(x.pc.len) else Idle)
    case Probe =>
      if !x.pc.Probing? then x
      else if s.dead then x.(pc := Idle)
      else if Covered(s.ranges, x.off, Min(x.pc.len, STREAM_WINDOW)) then x.(pc := Checking(x.pc.len))
      else x.(pc := Waiting(x.pc.len, s.notify))
    case Wake =>
      if x.pc.Waiting? && x.pc.seen < s.notify then x.(pc := Probing(x.pc.len)) else x
    case GiveUp =>
      if x.pc.Waiting? then x.(pc := Idle) else x
    case Copy(n) =>
      if x.pc.Copying? && |x.pc.buf| <= x.pc.len then CopySome(s.part, x, n) else x
  }

  function Apply(s: Stream, a: Action): Stream {
    match a
    case ByWriter(w, wa) => ApplyWriter(s, w, wa)
    case ByReader(r, ra) =>
      if r in s.readers then s.(readers := s.readers[r := StepReader(s, s.readers[r], ra)]) else s
    case Open(r) =>
      if r in s.readers || s.total == 0 || s.dead then s
      else s.(readers := s.readers[r := Reader(s.total, 0, 0, [], Idle)])
    case Cancel => s.(dead := true, notify := s.notify + 1)
  }

  function Run(s: Stream, acts: seq<Action>): Stream
    decreases |acts|
  {
    if acts == [] then s else Apply(Run(s, acts[..|acts| - 1]), acts[|acts| - 1])
  }

  lemma RunSnoc(acts: seq<Action>, a: Action)
    ensures Run(Init(), acts + [a]) == Apply(Run(Init(), acts), a)
  {
    assert (acts + [a])[..|acts + [a]| - 1] == acts;
  }

  /** The phone cuts its chunks out of one source video and reports its true size. */
  ghost predicate Honest(a: Action, source: Data) {
    a.ByWriter? ==>
      && (a.wa.Arrive? ==> Excerpt(a.wa.raw, source, a.wa.off))
      && (a.wa.Record? ==> a.wa.totalSize == |source|)
  }

  ghost predicate WriterOk(x: Writer, part: Data, source: Data) {
    && x.done <= |x.raw| && Excerpt(x.raw, source, x.off)
    && forall b :: x.off <= b < x.off + x.done ==> Faithful(part, source, b)
  }

  ghost predicate ReaderOk(x: Reader, s: Stream, source: Data) {
    && x.size == |source|
    && x.off == x.base + |x.delivered|
    && (x.delivered != [] ==> Excerpt(x.delivered, source, x.base))
    && (!x.pc.Idle? ==> 0 < x.pc.len && x.off + x.pc.len <= |source|)
    && (x.pc.Waiting? ==> x.pc.seen <= s.notify)
    && (x.pc.Waiting? && x.pc.seen == s.notify ==>
          !s.dead && !Covered(s.ranges, x.off, Min(x.pc.len, STREAM_WINDOW)))
    && (x.pc.Copying? ==>
          && |x.pc.buf| < x.pc.len && Excerpt(x.pc.buf, source, x.off)
          && forall b :: x.off <= b < x.off + x.pc.len ==> Holds(s.ranges, b))
  }

  ghost predicate Recorded(s: Stream, source: Data) {
    && Canonical(s.ranges)
    && (forall b :: Holds(s.ranges, b) ==> Faithful(s.part, source, b))
  }

  ghost predicate Inv(s: Stream, source: Data) {
    && Recorded(s, source)
    && |s.part| <= |source|
    && (s.total == 0 || s.total == |source|)
    && (forall w :: w in s.writers ==> WriterOk(s.writers[w], s.part, source))
    && (forall r :: r in s.readers ==> ReaderOk(s.readers[r], s, source))
  }

  lemma OthersKeepReaders(s: Stream, t: Stream, source: Data)
    requires forall r :: r in s.readers ==> ReaderOk(s.readers[r], s, source)
    requires t.readers == s.readers && s.notify <= t.notify
    requires s.notify == t.notify ==> t.ranges == s.ranges && t.dead == s.dead
    requires forall b :: Holds(s.ranges, b) ==> Holds(t.ranges, b)
    ensures forall r :: r in t.readers ==> ReaderOk(t.readers[r], t, source)
  {
    forall r | r in t.readers ensures ReaderOk(t.readers[r], t, source) {
      assert ReaderOk(s.readers[r], s, source);
    }
  }

  lemma PartImproves(s: Stream, after: Data, ws: map<nat, Writer>, source: Data)
    requires Inv(s, source) && |after| <= |source|
    requires forall b :: Faithful(s.part, source, b) ==> Faithful(after, source, b)
    requires forall v :: v in ws ==> WriterOk(ws[v], after, source)
    ensures Inv(s.(part := after, writers := ws), source)
  {
    OthersKeepReaders(s, s.(part := after, writers := ws), source);
  }

  lemma WritePreserves(s: Stream, w: nat, source: Data)
    requires Inv(s, source)
    ensures Inv(ApplyWriter(s, w, Write), source)
  {
    if w in s.writers {
      var x := s.writers[w];
      assert WriterOk(x, s.part, source);
      if x.done < |x.raw| {
        var after := WriteAt(s.part, x.off + x.done, [x.raw[x.done]]);
        WriterAdvances(x, s.part, source);
        OtherWritersKeep(s.writers, s.part, after, source);
        PartImproves(s, after, s.writers[w := x.(done := x.done + 1)], source);
      }
    }
  }

  lemma OtherWritersKeep(writers: map<nat, Writer>, part: Data, after: Data, source: Data)
    requires forall v :: v in writers ==> WriterOk(writers[v], part, source)
    requires forall b :: Faithful(part, source, b) ==> Faithful(after, source, b)
    ensures forall v :: v in writers ==> WriterOk(writers[v], after, source)
  {
  }

  lemma WriterAdvances(x: Writer, part: Data, source: Data)
    requires WriterOk(x, part, source) && x.done < |x.raw| && |part| <= |source|
    ensures var after := WriteAt(part, x.off + x.done, [x.raw[x.done]]);
      && WriterOk(x.(done := x.done + 1), after, source) && |after| <= |source|
      && forall b :: Faithful(part, source, b) ==> Faithful(after, source, b)
  {
    WriteKeepsFaithful(part, source, x.off + x.done, [x.raw[x.done]]);
  }

  lemma WriterPreserves(s: Stream, w: nat, a: WriterAction, source: Data)
    requires Inv(s, source) && Honest(ByWriter(w, a), source)
    ensures Inv(ApplyWriter(s, w, a), source)
  {
    if a.Write? {
      WritePreserves(s, w, source);
    } else if a.Record? && w in s.writers {
      var x := s.writers[w];
      assert WriterOk(x, s.part, source);
      AddedIsCanonicalUnion(s.ranges, x.off, |x.raw|);
      OthersKeepReaders(s, ApplyWriter(s, w, a), source);
    } else {
      OthersKeepReaders(s, ApplyWriter(s, w, a), source);
    }
  }

  /** In a good state a copy takes exactly the bytes it wants, and they are the source's. */
  lemma CopyTakesSource(s: Stream, x: Reader, n: nat, source: Data)
    requires Recorded(s, source) && ReaderOk(x, s, source) && x.pc.Copying?
    ensures var k := Min(n, x.pc.len - |x.pc.buf|); var at := x.off + |x.pc.buf|;
      && at + k <= |s.part| && Excerpt(x.pc.buf + s.part[at..at + k], source, x.off)
      && CopySome(s.part, x, n) ==
           (var buf := x.pc.buf + s.part[at..at + k];
            if |buf| == x.pc.len then x.(off := x.off + |buf|, delivered := x.delivered + buf, pc := Idle)
            else x.(pc := Copying(x.pc.len, buf)))
  {
    var at := x.off + |x.pc.buf|;
    FaithfulExcerpt(s.part, source, x.off, x.off + x.pc.len);
    var k := Min(n, x.pc.len - |x.pc.buf|);
    FaithfulExcerpt(s.part, source, at, at + k);
    assert k == 0 ==> s.part[at..at + k] == [];
    ExcerptConcat(x.pc.buf, s.part[at..at + k], source, x.off);
  }

  lemma CopyKeepsReader(s: Stream, x: Reader, n: nat, source: Data)
    requires Recorded(s, source) && ReaderOk(x, s, source) && x.pc.Copying?
    ensures ReaderOk(CopySome(s.part, x, n), s, source)
  {
    CopyTakesSource(s, x, n, source);
    var k := Min(n, x.pc.len - |x.pc.buf|);
    var at := x.off + |x.pc.buf|;
    var buf := x.pc.buf + s.part[at..at + k];
    if x.delivered == [] {
      assert x.delivered + buf == buf;
    } else {
      ExcerptConcat(x.delivered, buf, source, x.base);
    }
  }

  lemma ReaderPreserves(s: Stream, r: nat, a: ReaderAction, source: Data)
    requires Inv(s, source) && r in s.readers
    ensures ReaderOk(StepReader(s, s.readers[r], a), s, source)
  {
    var x := s.readers[r];
    assert ReaderOk(x, s, source);
    if a.Copy? && x.pc.Copying? {
      CopyKeepsReader(s, x, a.n, source);
    } else if a.Check? && x.pc.Checking? {
      CoveredIsExact(s.ranges, x.off, x.pc.len);
    }
  }

  lemma ApplyPreserves(s: Stream, a: Action, source: Data)
    requires Inv(s, source) && Honest(a, source)
    ensures Inv(Apply(s, a), source)
  {
    var t := Apply(s, a);
    match a
    case ByWriter(w, wa) => WriterPreserves(s, w, wa, source);
    case ByReader(r, ra) =>
      if r in s.readers {
        ReaderPreserves(s, r, ra, source);
        forall q | q in t.readers ensures ReaderOk(t.readers[q], t, source) {
          assert q != r ==> ReaderOk(s.readers[q], s, source);
        }
      }
    case Open(r) =>
      forall q | q in t.readers ensures ReaderOk(t.readers[q], t, source) {
        assert q in s.readers ==> ReaderOk(s.readers[q], s, source);
      }
    case Cancel => OthersKeepReaders(s, t, source);
  }

  lemma {:induction false} RunKeepsInv(acts: seq<Action>, source: Data)
    requires forall i :: 0 <= i < |acts| ==> Honest(acts[i], source)
    ensures Inv(Run(Init(), acts), source)
    decreases |acts|
  {
    if acts != [] {
      var n := |acts| - 1;
      RunKeepsInv(acts[..n], source);
      ApplyPreserves(Run(Init(), acts[..n]), acts[n], source);
    }
  }

  /** Main result. In every interleaving of honest writers with any number of readers, everything a
      reader has returned since its last Seek is exactly the source from that position on, and a read
      that found its window covered can be completed in full from the file. */
  lemma NoHoleIsEverServed(acts: seq<Action>, source: Data, r: nat)
    requires forall i :: 0 <= i < |acts| ==> Honest(acts[i], source)
    requires r in Run(Init(), acts).readers
    ensures var s := Run(Init(), acts); var x := s.readers[r];
      && (x.delivered != [] ==> x.off <= |source|)
      && (x.off <= |source| ==> x.base <= x.off && x.delivered == source[x.base..x.off])
      && (x.pc.Copying? ==>
            && x.off + x.pc.len <= |s.part| && x.off + x.pc.len <= |source|
            && s.part[x.off..x.off + x.pc.len] == source[x.off..x.off + x.pc.len])
  {
    ReachableReader(acts, source, r);
    ReaderIsFaithful(Run(Init(), acts), Run(Init(), acts).readers[r], source);
  }

  lemma ReachableReader(acts: seq<Action>, source: Data, r: nat)
    requires forall i :: 0 <= i < |acts| ==> Honest(acts[i], source)
    requires r in Run(Init(), acts).readers
    ensures Recorded(Run(Init(), acts), source)
    ensures ReaderOk(Run(Init(), acts).readers[r], Run(Init(), acts), source)
  {
    RunKeepsInv(acts, source);
  }

  lemma ReaderIsFaithful(s: Stream, x: Reader, source: Data)
    requires Recorded(s, source) && ReaderOk(x, s, source)
    ensures x.delivered != [] ==> x.off <= |source|
    ensures x.off <= |source| ==> x.base <= x.off && x.delivered == source[x.base..x.off]
    ensures x.pc.Copying? ==>
              && x.off + x.pc.len <= |s.part| && x.off + x.pc.len <= |source|
              && s.part[x.off..x.off + x.pc.len] == source[x.off..x.off + x.pc.len]
  {
    if x.delivered != [] {
      ExcerptIsSlice(x.delivered, source, x.base);
    } else if x.off <= |source| {
      assert source[x.base..x.off] == [];
    }
    if x.pc.Copying? {
      FaithfulExcerpt(s.part, source, x.off, x.off + x.pc.len);
      ExcerptIsSlice(s.part[x.off..x.off + x.pc.len], source, x.off);
    }
  }

  lemma CopyCompletes(s: Stream, r: nat, n: nat, source: Data)
    requires Inv(s, source) && r in s.readers && s.readers[r].pc.Copying? && s.readers[r].pc.len <= n
    ensures var x := s.readers[r]; var y := Apply(s, ByReader(r, Copy(n))).readers[r];
      && y.pc.Idle? && y.off == x.off + x.pc.len <= |source|
      && y.delivered == x.delivered + source[x.off..y.off]
  {
    var x := s.readers[r];
    assert ReaderOk(x, s, source);
    CopyTakesSource(s, x, n, source);
    var at := x.off + |x.pc.buf|;
    ExcerptIsSlice(x.pc.buf + s.part[at..x.off + x.pc.len], source, x.off);
  }

  /** A read that found its window covered returns all of it: a transfer step able to take the rest
      advances the reader by exactly the bytes asked for, and they are the source's. */
  lemma CoveredReadCompletes(acts: seq<Action>, source: Data, r: nat, n: nat)
    requires forall i :: 0 <= i < |acts| ==> Honest(acts[i], source)
    requires r in Run(Init(), acts).readers && Run(Init(), acts).readers[r].pc.Copying?
    requires Run(Init(), acts).readers[r].pc.len <= n
    ensures var x := Run(Init(), acts).readers[r]; var y := Run(Init(), acts + [ByReader(r, Copy(n))]).readers[r];
      && y.pc.Idle? && y.off == x.off + x.pc.len <= |source|
      && y.delivered == x.delivered + source[x.off..y.off]
  {
    RunKeepsInv(acts, source);
    var s := Run(Init(), acts);
    RunSnoc(acts, ByReader(r, Copy(n)));
    CopyCompletes(s, r, n, source);
  }

  /** No wake-up is lost: a reader still asleep on the current channel is one whose window has really not
      arrived and whose transfer has not failed. */
  lemma NoLostWakeup(acts: seq<Action>, source: Data, r: nat)
    requires forall i :: 0 <= i < |acts| ==> Honest(acts[i], source)
    requires r in Run(Init(), acts).readers
    ensures var s := Run(Init(), acts); var x := s.readers[r];
      x.pc.Waiting? && !(x.pc.seen < s.notify) ==>
        !s.dead && exists b :: x.off <= b < x.off + Min(x.pc.len, STREAM_WINDOW) && !Holds(s.ranges, b)
  {
    ReachableReader(acts, source, r);
    var s := Run(Init(), acts);
    var x := s.readers[r];
    if x.pc.Waiting? {
      CoveredIsExact(s.ranges, x.off, Min(x.pc.len, STREAM_WINDOW));
    }
  }
}
