/** Sending a file: the native lane and its resume, and the browser lane with its incremental session digest. */
module Upload {
  import opened Options
  import opened Ints
  import opened PartFile
  import opened ChunkPlan
  import Download

  /** One chunk as it goes out; the digest is empty on all but the last. */
  datatype Sent = Sent(index: nat, offset: nat, raw: Data, sha: string)

  function SentOf(file: Data, stride: nat, hash: Data -> string, i: nat): Sent
    requires i * stride <= |file|
  {
    Sent(i, i * stride, Piece(file, stride, i), if i == TotalChunks(|file|, stride) - 1 then hash(file) else "")
  }

  /** The chunks of a file from chunk k on. A fresh upload is Plan(.., 0). */
  function Plan(file: Data, stride: nat, hash: Data -> string, k: nat): (p: seq<Sent>)
    requires 0 < stride && k <= TotalChunks(|file|, stride)
    ensures |p| == TotalChunks(|file|, stride) - k
    decreases TotalChunks(|file|, stride) - k
  {
    if k == TotalChunks(|file|, stride) then []
    else
      PieceFits(|file|, stride, k);
      [SentOf(file, stride, hash, k)] + Plan(file, stride, hash, k + 1)
  }

  lemma {:induction false} PlanAt(file: Data, stride: nat, hash: Data -> string, k: nat, j: nat)
    requires 0 < stride && k + j < TotalChunks(|file|, stride)
    ensures (k + j) * stride <= |file| && Plan(file, stride, hash, k)[j] == SentOf(file, stride, hash, k + j)
    decreases j
  {
    PieceFits(|file|, stride, k + j);
    if j != 0 {
      PlanAt(file, stride, hash, k + 1, j - 1);
    }
  }

  /** What is left from chunk `next` on is the tail of a fresh upload. */
  lemma PlanIsSuffix(file: Data, stride: nat, hash: Data -> string, next: nat)
    requires 0 < stride && next <= TotalChunks(|file|, stride)
    ensures Plan(file, stride, hash, next) == Plan(file, stride, hash, 0)[next..]
  {
    var n := TotalChunks(|file|, stride);
    forall j | 0 <= j < n - next
      ensures Plan(file, stride, hash, next)[j] == Plan(file, stride, hash, 0)[next..][j]
    {
      PlanAt(file, stride, hash, next, j);
      PlanAt(file, stride, hash, 0, next + j);
    }
  }

  /** Chunk i as the phone must get it: its number, its place, its bytes, and on the last one the file's digest. */
  ghost predicate IsCut(s: Sent, file: Data, stride: nat, hash: Data -> string, i: nat) {
    && s.index == i && s.offset == i * stride <= |file|
    && s.raw == file[i * stride..Min(i * stride + stride, |file|)]
    && s.sha == (if i + 1 == TotalChunks(|file|, stride) then hash(file) else "")
  }

  /** Consecutive chunks of the file, from chunk `next` on. */
  ghost predicate AllCut(sent: seq<Sent>, file: Data, stride: nat, hash: Data -> string, next: nat) {
    forall j :: 0 <= j < |sent| ==> IsCut(sent[j], file, stride, hash, next + j)
  }

  lemma PlanIsCut(file: Data, stride: nat, hash: Data -> string, k: nat)
    requires 0 < stride && k <= TotalChunks(|file|, stride)
    ensures AllCut(Plan(file, stride, hash, k), file, stride, hash, k)
  {
    forall j | 0 <= j < |Plan(file, stride, hash, k)|
      ensures IsCut(Plan(file, stride, hash, k)[j], file, stride, hash, k + j)
    {
      PlanAt(file, stride, hash, k, j);
    }
  }

  // ---------------------------------------------------------------- the native lane

  /** What the outside world does to a sending loop at each chunk. */
  datatype World = World(cancelled: nat -> bool, delivers: nat -> bool)

  /** The loop stopped before chunk k, and for no other reason than a cancel or a failed send. */
  ghost predicate StoppedAt(w: World, from: nat, k: nat, n: nat) {
    && from <= k <= n
    && (forall i :: from <= i < k ==> !w.cancelled(i) && w.delivers(i))
    && (k < n ==> w.cancelled(k) || !w.delivers(k))
  }

  /** io.ReadFull at file position pos: up to `want` bytes, fewer only at the end of the file. */
  function ReadFull(file: Data, pos: nat, want: nat): Data
    requires pos <= |file|
  {
    file[pos..Min(pos + want, |file|)]
  }

  lemma PlanPrefixGrows(file: Data, stride: nat, hash: Data -> string, from: nat, k: nat)
    requires 0 < stride && from <= k < TotalChunks(|file|, stride)
    ensures k * stride <= |file|
    ensures var p := Plan(file, stride, hash, from);
      p[..k - from] + [SentOf(file, stride, hash, k)] == p[..k + 1 - from]
  {
    PlanAt(file, stride, hash, from, k - from);
  }

  /** Reading one more chunk carries the reader and the digest over one more piece. */
  lemma ReadsNextPiece(file: Data, stride: nat, k: nat, pos: nat, fed: Data)
    requires 0 < stride && k < TotalChunks(|file|, stride) && pos == Min(k * stride, |file|) && fed == file[..pos]
    ensures k * stride <= |file| && pos == k * stride && ReadFull(file, pos, stride) == Piece(file, stride, k)
    ensures var next := Min((k + 1) * stride, |file|);
      && pos + |Piece(file, stride, k)| == next && fed + Piece(file, stride, k) == file[..next]
      && (k == TotalChunks(|file|, stride) - 1 ==> file[..next] == file)
  {
    NextPlace(|file|, stride, k);
    var next := Min(k * stride + stride, |file|);
    assert file[..pos] + file[pos..next] == file[..next];
  }

  lemma NextPlace(size: nat, stride: nat, k: nat)
    requires 0 < stride && k < TotalChunks(size, stride)
    ensures k * stride <= size && (k + 1) * stride == k * stride + stride
    ensures k == TotalChunks(size, stride) - 1 ==> Min(k * stride + stride, size) == size
  {
    PieceFits(size, stride, k);
  }

  /** The send loop shared in shape by the sequential and the pipelined sender: read, hash, send. */
  method SendFresh(file: Data, stride: nat, hash: Data -> string, w: World)
    returns (sent: seq<Sent>, done: bool)
    requires 0 < stride
    ensures |sent| <= TotalChunks(|file|, stride)
    ensures StoppedAt(w, 0, |sent|, TotalChunks(|file|, stride))
    ensures done <==> |sent| == TotalChunks(|file|, stride)
    ensures sent == Plan(file, stride, hash, 0)[..|sent|]
    ensures AllCut(sent, file, stride, hash, 0)
  {
    CountCoversFile(|file|, stride);
    PlanIsCut(file, stride, hash, 0);
    sent, done := SendFrom(file, stride, hash, w, 0, 0, []);
  }

  /** The loop from chunk `from` on, with the reader at its offset and the digest fed with all before it. */
  method SendFrom(file: Data, stride: nat, hash: Data -> string, w: World, from: nat, start: nat, prefix: Data)
    returns (sent: seq<Sent>, done: bool)
    requires 0 < stride && from <= TotalChunks(|file|, stride)
    requires start == Min(from * stride, |file|) && prefix == file[..start]
    ensures |sent| <= TotalChunks(|file|, stride) - from
    ensures StoppedAt(w, from, from + |sent|, TotalChunks(|file|, stride))
    ensures done <==> from + |sent| == TotalChunks(|file|, stride)
    ensures sent == Plan(file, stride, hash, from)[..|sent|]
  {
    var n := TotalChunks(|file|, stride);
    var pos, hasher, idx := start, prefix, from;
    sent, done := [], false;
    while idx < n
      invariant from <= idx <= n && |sent| == idx - from
      invariant pos == Min(idx * stride, |file|) && hasher == file[..pos]
      invariant sent == Plan(file, stride, hash, from)[..idx - from]
      invariant forall i :: from <= i < idx ==> !w.cancelled(i) && w.delivers(i)
    {
      if w.cancelled(idx) {
        return;
      }
      ReadsNextPiece(file, stride, idx, pos, hasher);
      var raw := ReadFull(file, pos, stride);
      pos := pos + |raw|;
      hasher := hasher + raw;
      var sha := if idx == n - 1 then hash(hasher) else "";
      if !w.delivers(idx) {
        return;
      }
      PlanPrefixGrows(file, stride, hash, from, idx);
      sent := sent + [Sent(idx, idx * stride, raw, sha)];
      idx := idx + 1;
    }
    done := true;
  }

  /** Resume re-reads and re-hashes the confirmed chunks without sending, then sends the rest: exactly the tail
      of a fresh upload, the digest of the whole file included. */
  method ResumeChunks(file: Data, stride: nat, hash: Data -> string, w: World, next: nat)
    returns (sent: seq<Sent>, done: bool)
    requires 0 < stride && next < TotalChunks(|file|, stride)
    ensures |sent| <= TotalChunks(|file|, stride) - next
    ensures StoppedAt(w, next, next + |sent|, TotalChunks(|file|, stride))
    ensures done <==> next + |sent| == TotalChunks(|file|, stride)
    ensures sent == Plan(file, stride, hash, 0)[next..next + |sent|]
    ensures AllCut(sent, file, stride, hash, next)
  {
    var pos, hasher, idx := 0, [], 0;
    while idx < next
      invariant 0 <= idx <= next && pos == Min(idx * stride, |file|) && hasher == file[..pos]
    {
      ReadsNextPiece(file, stride, idx, pos, hasher);
      var raw := ReadFull(file, pos, stride);
      pos := pos + |raw|;
      hasher := hasher + raw;
      idx := idx + 1;
    }
    sent, done := SendFrom(file, stride, hash, w, next, pos, hasher);
    PlanIsSuffix(file, stride, hash, next);
    PlanIsCut(file, stride, hash, next);
  }

  datatype Session = Session(totalSize: nat, totalChunks: nat, stride: nat)

  datatype Outcome = NotRetryable | Unreadable | Changed | Offline | AlreadyThere | Interrupted | Resumed

  /** A session was saved, and the local file is there with the size it had. */
  predicate Resumable(session: Option<Session>, file: Option<Data>) {
    session.Some? && file.Some? && |file.value| == session.value.totalSize
  }

  /** ResumeUpload: the session saved for a failed upload, what stat says of the local file, whether the phone is
      paired, and its answer to the offset query. `keep` says whether the session survives for another try. */
  method ResumeUpload(session: Option<Session>, file: Option<Data>, paired: bool, answer: int,
                      hash: Data -> string, w: World)
    returns (outcome: Outcome, sent: seq<Sent>, keep: bool)
    requires session.Some? ==>
      && session.value.stride > 0
      && session.value.totalChunks == TotalChunks(session.value.totalSize, session.value.stride)
    ensures outcome == NotRetryable <==> session.None?
    ensures outcome == Unreadable <==> session.Some? && file.None?
    ensures outcome == Changed <==> session.Some? && file.Some? && |file.value| != session.value.totalSize
    ensures outcome == Offline <==> Resumable(session, file) && !paired
    ensures outcome == AlreadyThere <==>
            Resumable(session, file) && paired && session.value.totalChunks <= Max(answer, 0)
    ensures outcome !in {Interrupted, Resumed} ==> sent == []
    ensures outcome in {Interrupted, Resumed} ==>
      && Resumable(session, file) && paired
      && var next := Max(answer, 0); var n := session.value.totalChunks;
      && next + |sent| <= n == TotalChunks(|file.value|, session.value.stride)
      && sent == Plan(file.value, session.value.stride, hash, 0)[next..next + |sent|]
      && StoppedAt(w, next, next + |sent|, n)
      && (outcome == Resumed <==> next + |sent| == n)
    ensures keep <==> outcome in {Unreadable, Offline, Interrupted}
  {
    sent, keep := [], false;
    if session.None? {
      return NotRetryable, sent, keep;
    }
    if file.None? {
      return Unreadable, sent, true;
    }
    if |file.value| != session.value.totalSize {
      return Changed, sent, false;
    }
    if !paired {
      return Offline, sent, true;
    }
    var next := Max(answer, 0);
    if next >= session.value.totalChunks {
      return AlreadyThere, sent, false;
    }
    var done;
    sent, done := ResumeChunks(file.value, session.value.stride, hash, w, next);
    outcome, keep := if done then Resumed else Interrupted, !done;
  }

  // ---------------------------------------------------------------- end to end

  function Upto(lo: nat, hi: nat): (s: seq<nat>)
    requires lo <= hi
    ensures |s| == hi - lo && forall i :: 0 <= i < |s| ==> s[i] == lo + i
  {
    seq(hi - lo, i requires 0 <= i => lo + i)
  }

  /** The message that carries a chunk of a file of this size. */
  function Framed(m: Meta, size: nat, stride: nat, s: Sent): Chunk {
    Chunk(m.nonce, m.transferId, m.path, s.offset, size, s.index, TotalChunks(size, stride), B64Len(|s.raw|), s.raw,
          s.sha, m.policy, m.sourceMtime)
  }

  /** The messages of a sender's chunks, handled without a fault. */
  function Messages(m: Meta, size: nat, stride: nat, sent: seq<Sent>): (msgs: seq<Download.Message>)
    ensures |msgs| == |sent|
    ensures forall j :: 0 <= j < |sent| ==>
      msgs[j] == Download.Message(Framed(m, size, stride, sent[j]), Download.NoFault)
  {
    seq(|sent|, j requires 0 <= j < |sent| =>
      Download.Message(Framed(m, size, stride, sent[j]), Download.NoFault))
  }

  lemma CutIsChunk(m: Meta, file: Data, stride: nat, hash: Data -> string, i: nat, s: Sent)
    requires IsCut(s, file, stride, hash, i)
    ensures Framed(m, |file|, stride, s) == ChunkOf(m, file, stride, hash, i)
  {
  }

  lemma {:induction false} DeliveryAt(
      m: Meta, file: Data, stride: nat, hash: Data -> string, order: seq<nat>, p: nat)
    requires 0 < stride && Download.InRange(order, file, stride) && p < |order|
    ensures |Download.Delivery(m, file, stride, hash, order)| == |order| && order[p] * stride <= |file|
    ensures Download.Delivery(m, file, stride, hash, order)[p] ==
            Download.Message(ChunkOf(m, file, stride, hash, order[p]), Download.NoFault)
  {
    var k := |order| - 1;
    PieceFits(|file|, stride, order[p]);
    if k > 0 {
      DeliveryAt(m, file, stride, hash, order[..k], if p < k then p else 0);
    }
  }

  lemma DeliveryLength(m: Meta, file: Data, stride: nat, hash: Data -> string, order: seq<nat>)
    requires 0 < stride && Download.InRange(order, file, stride)
    ensures |Download.Delivery(m, file, stride, hash, order)| == |order|
  {
    if order != [] {
      DeliveryAt(m, file, stride, hash, order, 0);
    }
  }

  /** Consecutive chunks that were sent are a delivery of those chunks. */
  lemma MessagesAreDelivery(
      m: Meta, file: Data, stride: nat, hash: Data -> string, before: seq<nat>, next: nat, sent: seq<Sent>,
      order: seq<nat>)
    requires 0 < stride && Download.InRange(before, file, stride) && Download.InRange(order, file, stride)
    requires order == before + Upto(next, next + |sent|)
    requires AllCut(sent, file, stride, hash, next)
    ensures Download.Delivery(m, file, stride, hash, order) ==
            Download.Delivery(m, file, stride, hash, before) + Messages(m, |file|, stride, sent)
  {
    var all, first := Download.Delivery(m, file, stride, hash, order), Download.Delivery(m, file, stride, hash, before);
    var rest := Messages(m, |file|, stride, sent);
    DeliveryLength(m, file, stride, hash, order);
    DeliveryLength(m, file, stride, hash, before);
    forall p | 0 <= p < |before| ensures all[p] == first[p] {
      SamePlaceSameMessage(m, file, stride, hash, order, before, p);
    }
    forall j | 0 <= j < |sent| ensures all[|before| + j] == rest[j] {
      SentIsDelivered(m, file, stride, hash, order, |before| + j, sent, next, j);
    }
    Joined(all, first, rest);
  }

  lemma SamePlaceSameMessage(
      m: Meta, file: Data, stride: nat, hash: Data -> string, a: seq<nat>, b: seq<nat>, p: nat)
    requires 0 < stride && Download.InRange(a, file, stride) && Download.InRange(b, file, stride)
    requires p < |a| && p < |b| && a[p] == b[p]
    ensures |Download.Delivery(m, file, stride, hash, a)| == |a| && |Download.Delivery(m, file, stride, hash, b)| == |b|
    ensures Download.Delivery(m, file, stride, hash, a)[p] == Download.Delivery(m, file, stride, hash, b)[p]
  {
    DeliveryAt(m, file, stride, hash, a, p);
    DeliveryAt(m, file, stride, hash, b, p);
  }

  lemma SentIsDelivered(m: Meta, file: Data, stride: nat, hash: Data -> string, order: seq<nat>, p: nat,
                        sent: seq<Sent>, next: nat, j: nat)
    requires 0 < stride && Download.InRange(order, file, stride) && p < |order| && j < |sent|
    requires AllCut(sent, file, stride, hash, next) && order[p] == next + j
    ensures |Download.Delivery(m, file, stride, hash, order)| == |order|
    ensures Download.Delivery(m, file, stride, hash, order)[p] == Messages(m, |file|, stride, sent)[j]
  {
    DeliveryAt(m, file, stride, hash, order, p);
    CutIsChunk(m, file, stride, hash, order[p], sent[j]);
  }

  lemma Joined<T>(all: seq<T>, a: seq<T>, b: seq<T>)
    requires |all| == |a| + |b|
    requires forall i :: 0 <= i < |a| ==> all[i] == a[i]
    requires forall j :: 0 <= j < |b| ==> all[|a| + j] == b[j]
    ensures all == a + b
  {
    assert forall i :: |a| <= i < |all| ==> all[i] == all[|a| + (i - |a|)];
  }

  /** The chunks before, then all from `next` on: every chunk but the last, and then the last. */
  lemma TailCovers(before: seq<nat>, next: nat, n: nat, order: seq<nat>)
    requires next < n && order == before + Upto(next, n)
    requires forall i :: 0 <= i < |before| ==> before[i] < n - 1
    requires forall i :: 0 <= i < next ==> i in before
    ensures var k := |order| - 1;
      && order[k] == n - 1
      && (forall i :: 0 <= i < k ==> order[i] < n - 1)
      && (forall i :: 0 <= i < n - 1 ==> i in order[..k])
  {
    var k := |order| - 1;
    assert order[..k] == before + Upto(next, n - 1);
    forall i | 0 <= i < n - 1 ensures i in order[..k] {
      if i >= next {
        assert order[..k][|before| + (i - next)] == i;
      } else {
        assert i in before;
      }
    }
  }

  lemma TailCommits(
      m: Meta, file: Data, stride: nat, hash: Data -> string, before: seq<nat>, next: nat, order: seq<nat>)
    requires Download.Sendable(m, file, stride, hash) && next < TotalChunks(|file|, stride)
    requires forall i :: 0 <= i < |before| ==> before[i] < TotalChunks(|file|, stride) - 1
    requires forall i :: 0 <= i < next ==> i in before
    requires order == before + Upto(next, TotalChunks(|file|, stride))
    ensures Download.InRange(order, file, stride)
    ensures var s := Download.Run(Download.Delivery(m, file, stride, hash, order), hash);
      s.status == Download.Done && s.committed == [file]
  {
    TailCovers(before, next, TotalChunks(|file|, stride), order);
    Download.CompleteDeliveryCommits(m, file, stride, hash, order);
  }

  /** Main result. If the chunks that reached the phone before the failure include all below `next`, then the chunks
      that the resumed upload sends, if it sends all, make the receiver commit exactly the file. */
  lemma ResumedUploadCommits(
      m: Meta, file: Data, stride: nat, hash: Data -> string, before: seq<nat>, next: nat, sent: seq<Sent>)
    requires Download.Sendable(m, file, stride, hash) && next < TotalChunks(|file|, stride)
    requires forall i :: 0 <= i < |before| ==> before[i] < TotalChunks(|file|, stride) - 1
    requires forall i :: 0 <= i < next ==> i in before
    requires next + |sent| == TotalChunks(|file|, stride)
    requires AllCut(sent, file, stride, hash, next)
    ensures var msgs := Download.Delivery(m, file, stride, hash, before) + Messages(m, |file|, stride, sent);
      Download.Run(msgs, hash).status == Download.Done && Download.Run(msgs, hash).committed == [file]
  {
    var order := before + Upto(next, TotalChunks(|file|, stride));
    TailCommits(m, file, stride, hash, before, next, order);
    MessagesAreDelivery(m, file, stride, hash, before, next, sent, order);
  }

  lemma NothingBefore(m: Meta, file: Data, stride: nat, hash: Data -> string, msgs: seq<Download.Message>)
    requires 0 < stride
    ensures Download.Delivery(m, file, stride, hash, []) + msgs == msgs
  {
    assert Download.Delivery(m, file, stride, hash, []) == [];
  }

  /** Main result. The chunks of a fresh upload that sends all make the receiver commit exactly the file. */
  lemma FreshUploadCommits(m: Meta, file: Data, stride: nat, hash: Data -> string, sent: seq<Sent>)
    requires Download.Sendable(m, file, stride, hash) && |sent| == TotalChunks(|file|, stride)
    requires AllCut(sent, file, stride, hash, 0)
    ensures var msgs := Messages(m, |file|, stride, sent);
      Download.Run(msgs, hash).status == Download.Done && Download.Run(msgs, hash).committed == [file]
  {
    CountCoversFile(|file|, stride);
    NothingBefore(m, file, stride, hash, Messages(m, |file|, stride, sent));
    ResumedUploadCommits(m, file, stride, hash, [], 0, sent);
  }

  /** Whatever becomes of the sender's chunks on the way, in whatever order, number and with whatever faults they are
      handled: since the last one carries the digest, nothing but the file is ever committed. */
  lemma UploadCommitsNothingElse(
      m: Meta, file: Data, stride: nat, hash: Data -> string, sent: seq<Sent>, msgs: seq<Download.Message>)
    requires 0 < stride && Download.CollisionFree(hash) && hash(file) != "" && |sent| <= TotalChunks(|file|, stride)
    requires AllCut(sent, file, stride, hash, 0)
    requires forall i :: 0 <= i < |msgs| ==>
      exists j :: 0 <= j < |sent| && msgs[i].chunk == Framed(m, |file|, stride, sent[j])
    ensures forall i :: 0 <= i < |Download.Run(msgs, hash).committed| ==> Download.Run(msgs, hash).committed[i] == file
  {
    Download.OnlyTheFileIsCommitted(msgs, hash, file, TotalChunks(|file|, stride));
  }

  // ---------------------------------------------------------------- the browser lane

  /** open: the session still exists. fed: what its digest was fed. sent: the chunks that went out. */
  datatype Lane = Lane(open: bool, fed: Data, next: nat, sent: seq<Sent>)

  datatype Event =
    | SendSlice(slice: Option<Data>, cancelled: bool, delivered: bool)
    | Resume(paired: bool, answer: int)
    | Rehash(slice: Option<Data>)
    | Abort

  /** decodeBrowserSlice; None stands for text that is not base64. */
  predicate Decodes(slice: Option<Data>, size: nat, idx: nat) {
    var n := TotalChunks(size, LEGACY_STRIDE);
    && slice.Some? && idx < n
    && |slice.value| == (if idx < n - 1 then LEGACY_STRIDE else size - idx * LEGACY_STRIDE)
  }

  /** The digest is fed before the chunk goes out, and a chunk that does not go out leaves it fed. */
  function Step(s: Lane, size: nat, hash: Data -> string, e: Event): Lane {
    if !s.open then s
    else
      match e
      case SendSlice(slice, cancelled, delivered) =>
        if cancelled then s.(open := false)
        else if !Decodes(slice, size, s.next) then s
        else
          var fed := s.fed + slice.value;
          var last := s.next == TotalChunks(size, LEGACY_STRIDE) - 1;
          if !delivered then s.(fed := fed)
          else
            Lane(!last, fed, s.next + 1,
                 s.sent + [Sent(s.next, s.next * LEGACY_STRIDE, slice.value, if last then hash(fed) else "")])
      case Resume(_, _) => if Resets(s, size, e) then s.(fed := [], next := 0) else s
      case Rehash(slice) =>
        if Decodes(slice, size, s.next) then s.(fed := s.fed + slice.value, next := s.next + 1) else s
      case Abort => s.(open := false)
  }

  /** A resume starts the digest over, unless the phone already has every chunk. */
  predicate Resets(s: Lane, size: nat, e: Event) {
    e.Resume? && s.open && e.paired && e.answer < TotalChunks(size, LEGACY_STRIDE)
  }

  /** A slice was accepted and hashed, but the chunk did not go out. */
  predicate Fails(s: Lane, size: nat, e: Event) {
    e.SendSlice? && s.open && !e.cancelled && Decodes(e.slice, size, s.next) && !e.delivered
  }

  class BrowserSession {
    const hash: Data -> string
    const totalSize: nat
    const totalChunks: nat
    var open: bool
    var hasher: Data
    var nextChunk: nat
    var sent: seq<Sent>

    ghost predicate Valid()
      reads this
    {
      totalChunks == TotalChunks(totalSize, LEGACY_STRIDE)
    }

    ghost function View(): Lane
      reads this
    {
      Lane(open, hasher, nextChunk, sent)
    }

    constructor (totalSize: nat, hash: Data -> string)
      ensures Valid() && View() == Lane(true, [], 0, []) && this.totalSize == totalSize && this.hash == hash
    {
      CountCoversFile(totalSize, LEGACY_STRIDE);
      this.totalSize, this.totalChunks, this.hash := totalSize, TotalChunks(totalSize, LEGACY_STRIDE), hash;
      open, hasher, nextChunk, sent := true, [], 0, [];
    }

    /** SendBrowserChunk */
    method SendChunk(slice: Option<Data>, cancelled: bool, delivered: bool) returns (last: bool)
      requires Valid()
      modifies this
      ensures Valid() && View() == Step(old(View()), totalSize, hash, SendSlice(slice, cancelled, delivered))
      ensures last <==> old(open) && !cancelled && Decodes(slice, totalSize, old(nextChunk)) && delivered
                        && old(nextChunk) == totalChunks - 1
    {
      last := false;
      if !open {
        return;
      }
      if cancelled {
        open := false;
        return;
      }
      if !Decodes(slice, totalSize, nextChunk) {
        return;
      }
      hasher := hasher + slice.value;
      var isLast := nextChunk == totalChunks - 1;
      var sha := if isLast then hash(hasher) else "";
      if !delivered {
        return;
      }
      sent := sent + [Sent(nextChunk, nextChunk * LEGACY_STRIDE, slice.value, sha)];
      nextChunk := nextChunk + 1;
      if isLast {
        open := false;
      }
      last := isLast;
    }

    /** ResumeBrowserUpload */
    method ResumeUpload(paired: bool, answer: int) returns (next: Option<nat>)
      requires Valid()
      modifies this
      ensures Valid() && View() == Step(old(View()), totalSize, hash, Resume(paired, answer))
      ensures next.Some? <==> old(open) && paired
      ensures next.Some? ==> next.value <= totalChunks && (next.value < totalChunks ==> hasher == [] && nextChunk == 0)
    {
      CountCoversFile(totalSize, LEGACY_STRIDE);
      if !open || !paired {
        return None;
      }
      var n := if answer < 0 then 0 else answer;
      if n >= totalChunks {
        return Some(totalChunks);
      }
      hasher, nextChunk := [], 0;
      next := Some(n);
    }

    /** RehashBrowserChunk */
    method RehashChunk(slice: Option<Data>)
      requires Valid()
      modifies this
      ensures Valid() && View() == Step(old(View()), totalSize, hash, Rehash(slice))
    {
      if !open || !Decodes(slice, totalSize, nextChunk) {
        return;
      }
      hasher := hasher + slice.value;
      nextChunk := nextChunk + 1;
    }
  }

  // ---------------------------------------------------------------- the browser lane's digest, over every run

  function Run(evs: seq<Event>, size: nat, hash: Data -> string): Lane {
    if evs == [] then Lane(true, [], 0, [])
    else Step(Run(evs[..|evs| - 1], size, hash), size, hash, evs[|evs| - 1])
  }

  /** The tab's side of the protocol: the slice it hands over is the file's slice at the session's position. */
  ghost predicate Honest(s: Lane, file: Data, e: Event) {
    (e.SendSlice? || e.Rehash?) && Decodes(e.slice, |file|, s.next) ==>
      s.next * LEGACY_STRIDE <= |file| && e.slice.value == Piece(file, LEGACY_STRIDE, s.next)
  }

  ghost predicate HonestRun(evs: seq<Event>, file: Data, hash: Data -> string) {
    evs == [] ||
    (HonestRun(evs[..|evs| - 1], file, hash) && Honest(Run(evs[..|evs| - 1], |file|, hash), file, evs[|evs| - 1]))
  }

  /** Some chunk failed to go out since the last reset. */
  ghost predicate Tainted(evs: seq<Event>, size: nat, hash: Data -> string) {
    evs != [] &&
    var s, e := Run(evs[..|evs| - 1], size, hash), evs[|evs| - 1];
    if Resets(s, size, e) then false else Fails(s, size, e) || Tainted(evs[..|evs| - 1], size, hash)
  }

  /** The digest was fed the chunks before `next`, or, once tainted, strictly more bytes than those. */
  ghost predicate FedInv(fed: Data, next: nat, file: Data, tainted: bool) {
    && next <= TotalChunks(|file|, LEGACY_STRIDE)
    && (!tainted ==> fed == Laid(file, LEGACY_STRIDE, next))
    && (tainted && file != [] ==> |fed| > |Laid(file, LEGACY_STRIDE, next)|)
    && (file == [] ==> fed == [])
  }

  ghost predicate LaneInv(s: Lane, file: Data, tainted: bool) {
    FedInv(s.fed, s.next, file, tainted)
  }

  lemma PieceIsEmptyOnlyInEmptyFile(file: Data, i: nat)
    requires i < TotalChunks(|file|, LEGACY_STRIDE)
    ensures i * LEGACY_STRIDE <= |file|
    ensures |Piece(file, LEGACY_STRIDE, i)| == 0 <==> file == []
  {
    PieceFits(|file|, LEGACY_STRIDE, i);
    CountCoversFile(|file|, LEGACY_STRIDE);
    EarlierChunkStarts(i, TotalChunks(|file|, LEGACY_STRIDE), LEGACY_STRIDE);
  }

  /** Feeding the next chunk: with it going out, the account moves on; without, the digest is ahead. */
  lemma FeedKeepsInv(fed: Data, next: nat, file: Data, tainted: bool)
    requires FedInv(fed, next, file, tainted) && next < TotalChunks(|file|, LEGACY_STRIDE)
    ensures next * LEGACY_STRIDE <= |file|
    ensures var more := fed + Piece(file, LEGACY_STRIDE, next);
      FedInv(more, next + 1, file, tainted) && FedInv(more, next, file, true)
  {
    PieceIsEmptyOnlyInEmptyFile(file, next);
    assert Laid(file, LEGACY_STRIDE, next + 1) == Laid(file, LEGACY_STRIDE, next) + Piece(file, LEGACY_STRIDE, next);
  }

  lemma StartIsClean(file: Data)
    ensures FedInv([], 0, file, false)
  {
    CountCoversFile(|file|, LEGACY_STRIDE);
  }

  lemma StepKeepsInv(s: Lane, file: Data, hash: Data -> string, tainted: bool, e: Event)
    requires LaneInv(s, file, tainted) && Honest(s, file, e)
    ensures LaneInv(Step(s, |file|, hash, e), file,
                    if Resets(s, |file|, e) then false else Fails(s, |file|, e) || tainted)
  {
    if s.open && (e.SendSlice? || e.Rehash?) && Decodes(e.slice, |file|, s.next) {
      FeedKeepsInv(s.fed, s.next, file, tainted);
    } else if Resets(s, |file|, e) {
      StartIsClean(file);
    }
  }

  lemma {:induction false} RunKeepsInv(evs: seq<Event>, file: Data, hash: Data -> string)
    requires HonestRun(evs, file, hash)
    ensures LaneInv(Run(evs, |file|, hash), file, Tainted(evs, |file|, hash))
  {
    StartIsClean(file);
    if evs != [] {
      var k := |evs| - 1;
      RunKeepsInv(evs[..k], file, hash);
      StepKeepsInv(Run(evs[..k], |file|, hash), file, hash, Tainted(evs[..k], |file|, hash), evs[k]);
    }
  }

  /** The final chunk goes out with this digest. */
  function FinalDigest(s: Lane, raw: Data, hash: Data -> string): string {
    hash(s.fed + raw)
  }

  /** Main result. After any run of sends, failures, resumes and rehashes, the digest on the final chunk is the
      whole file's exactly when no chunk has failed to go out since the digest was last started over (an empty
      file has nothing to get wrong). */
  lemma FinalDigestExactly(evs: seq<Event>, file: Data, hash: Data -> string)
    requires HonestRun(evs, file, hash) && Download.CollisionFree(hash)
    requires var s := Run(evs, |file|, hash); s.open && s.next == TotalChunks(|file|, LEGACY_STRIDE) - 1
    ensures var s := Run(evs, |file|, hash);
      && s.next * LEGACY_STRIDE <= |file|
      && var raw := Piece(file, LEGACY_STRIDE, s.next);
      && var t := Step(s, |file|, hash, SendSlice(Some(raw), false, true));
      && t.sent == s.sent + [Sent(s.next, s.next * LEGACY_STRIDE, raw, FinalDigest(s, raw, hash))]
      && (FinalDigest(s, raw, hash) == hash(file) <==> !Tainted(evs, |file|, hash) || file == [])
  {
    var s := Run(evs, |file|, hash);
    RunKeepsInv(evs, file, hash);
    FinalFedExactly(s, file, Tainted(evs, |file|, hash));
    PieceFits(|file|, LEGACY_STRIDE, s.next);
    var raw := Piece(file, LEGACY_STRIDE, s.next);
    HashTellsApart(s.fed + raw, file, hash);
  }

  lemma HashTellsApart(a: Data, b: Data, hash: Data -> string)
    requires Download.CollisionFree(hash)
    ensures hash(a) == hash(b) <==> a == b
  {
    if hash(a) == hash(b) {
      assert Download.EqualFold(hash(a), hash(b));
    }
  }

  lemma FinalFedExactly(s: Lane, file: Data, tainted: bool)
    requires LaneInv(s, file, tainted) && s.next == TotalChunks(|file|, LEGACY_STRIDE) - 1
    ensures s.next * LEGACY_STRIDE <= |file|
    ensures s.fed + Piece(file, LEGACY_STRIDE, s.next) == file <==> !tainted || file == []
  {
    PieceFits(|file|, LEGACY_STRIDE, s.next);
    ChunksTileFile(file, LEGACY_STRIDE);
    assert Laid(file, LEGACY_STRIDE, s.next + 1) ==
           Laid(file, LEGACY_STRIDE, s.next) + Piece(file, LEGACY_STRIDE, s.next);
    if file != [] && tainted {
      assert |s.fed + Piece(file, LEGACY_STRIDE, s.next)| > |file|;
    }
  }

  /** Whatever the run, every chunk that went out sits at its place and holds the file's bytes. */
  lemma {:induction false} SentChunksAreRight(evs: seq<Event>, file: Data, hash: Data -> string)
    requires HonestRun(evs, file, hash)
    ensures forall c :: c in Run(evs, |file|, hash).sent ==>
      && c.index < TotalChunks(|file|, LEGACY_STRIDE) && c.offset == c.index * LEGACY_STRIDE <= |file|
      && c.raw == Piece(file, LEGACY_STRIDE, c.index)
  {
    if evs != [] {
      SentChunksAreRight(evs[..|evs| - 1], file, hash);
    }
  }

  /** A plain second try, without a resume in between, is not enough: a one-byte file whose only chunk first fails
      to go out is then sent with the digest of the byte twice over. */
  lemma RetryWithoutResetIsWrong(b: Byte, hash: Data -> string)
    requires Download.CollisionFree(hash)
    ensures var file := [b]; var slice := Some(file);
      && HonestRun([SendSlice(slice, false, false)], file, hash)
      && Tainted([SendSlice(slice, false, false)], 1, hash)
      && Run([SendSlice(slice, false, false), SendSlice(slice, false, true)], 1, hash).sent
           == [Sent(0, 0, file, hash([b, b]))]
      && hash([b, b]) != hash(file)
  {
    var file := [b];
    var slice := Some(file);
    var first, second := SendSlice(slice, false, false), SendSlice(slice, false, true);
    assert [first, second][..1] == [first] && [first][..0] == [];
    assert Piece(file, LEGACY_STRIDE, 0) == file;
    assert Run([], 1, hash) == Lane(true, [], 0, []);
    assert [] + file == file && file + file == [b, b];
    HashTellsApart([b, b], file, hash);
    assert |[b, b]| != |file|;
  }
}
