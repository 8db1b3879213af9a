/** Receiving a file: chunks are staged at their offsets, an incremental digest rides along as a fast path, and
    the last chunk verifies and commits. */
module Download {
  import opened Options
  import opened Ints
  import opened PartFile
  import opened ChunkPlan
  import opened GoText

  datatype Status = Running | Done | Cancelled | Failed

  /** What can go wrong in the file system while one chunk is handled. */
  datatype Fault = NoFault | OpenFault | WriteFault | SyncFault | RereadFault | StatFault | RenameFault

  /** part: the staged file, if it exists. hashed, dlFed, dlDirty: the incremental digest (the bytes fed to it),
      how far it has come, and whether it was retired. committed: what was renamed into place, in order. */
  datatype Transfer = Transfer(
    status: Status, part: Option<Data>, hashed: Option<Data>, dlFed: nat, dlDirty: bool, doneSize: int,
    committed: seq<Data>)

  function Fresh(): Transfer {
    Transfer(Running, None, None, 0, false, 0, [])
  }

  /** strings.EqualFold on hex digests */
  predicate EqualFold(a: string, b: string) {
    |a| == |b| && forall i :: 0 <= i < |a| ==> Lower(a[i]) == Lower(b[i])
  }

  // ---------------------------------------------------------------- one chunk

  /** Feed the digest while offsets are contiguous; any gap or repeat retires it. */
  function FeedDigest(s: Transfer, offset: nat, raw: Data): Transfer {
    var hashed := if s.hashed.Some? then s.hashed.value else [];
    var fed := if s.hashed.Some? then s.dlFed else 0;
    if !s.dlDirty && offset == fed then s.(hashed := Some(hashed + raw), dlFed := fed + |raw|)
    else if offset != fed then s.(hashed := Some(hashed), dlFed := fed, dlDirty := true)
    else s.(hashed := Some(hashed), dlFed := fed)
  }

  function Staged(s: Transfer): Data {
    if s.part.Some? then s.part.value else []
  }

  /** Open the part file, feed the digest, write the chunk at its offset. */
  function Stage(s: Transfer, c: Chunk): Transfer
    requires c.offset >= 0
  {
    FeedDigest(s, c.offset, c.raw).(part := Some(WriteAt(Staged(s), c.offset, c.raw)))
  }

  /** failTransfer */
  function Broken(s: Transfer): Transfer {
    s.(status := Failed, part := None)
  }

  /** The digest check of the last chunk: incremental when still valid, else by re-reading the file. */
  predicate DigestOk(s: Transfer, sha: string, fault: Fault, hash: Data -> string)
    requires s.part.Some? && s.hashed.Some?
  {
    if !s.dlDirty then EqualFold(hash(s.hashed.value), sha)
    else !fault.RereadFault? && EqualFold(hash(s.part.value), sha)
  }

  function Finish(s: Transfer, c: Chunk, fault: Fault, hash: Data -> string): Transfer
    requires s.part.Some? && s.hashed.Some?
  {
    if c.sha != "" && !DigestOk(s, c.sha, fault, hash) then s.(status := Failed)
    else if !fault.StatFault? && |s.part.value| != c.totalSize then s.(status := Failed)
    else if fault.RenameFault? then s.(status := Failed)
    else s.(status := Done, part := None, committed := s.committed + [s.part.value])
  }

  predicate Live(s: Transfer) {
    s.status.Running? || s.status.Done?
  }

  /** What an accepted chunk does to a live transfer. */
  function Handle(s: Transfer, c: Chunk, fault: Fault, hash: Data -> string): Transfer
    requires c.offset >= 0
  {
    var last := c.index == c.totalChunks - 1;
    if fault.OpenFault? then Broken(s)
    else if fault.WriteFault? || (last && fault.SyncFault?) then Broken(FeedDigest(s, c.offset, c.raw))
    else AfterStaging(Stage(s, c).(doneSize := c.offset + |c.raw|), c, fault, hash)
  }

  /** The last chunk finishes the transfer; any other leaves it running. */
  function AfterStaging(u: Transfer, c: Chunk, fault: Fault, hash: Data -> string): Transfer
    requires u.part.Some? && u.hashed.Some?
  {
    if c.index == c.totalChunks - 1 then Finish(u, c, fault, hash) else u.(status := Running)
  }

  /** ingestFileChunkBody as a function of the transfer record and the part file. */
  function Ingest(s: Transfer, c: Chunk, fault: Fault, hash: Data -> string): Transfer {
    if !Accepts(c) || !Live(s) then s else Handle(s, c, fault, hash)
  }

  class Receiver {
    const hash: Data -> string
    var status: Status
    var part: Option<Data>
    var dlHash: Option<Data>
    var dlFed: nat
    var dlDirty: bool
    var doneSize: int
    var committed: seq<Data>

    ghost function View(): Transfer
      reads this
    {
      Transfer(status, part, dlHash, dlFed, dlDirty, doneSize, committed)
    }

    constructor (hash: Data -> string)
      ensures View() == Fresh() && this.hash == hash
    {
      this.hash := hash;
      status, part, dlHash, dlFed, dlDirty, doneSize, committed := Running, None, None, 0, false, 0, [];
    }

    method FailTransfer()
      modifies this
      ensures View() == Broken(old(View()))
    {
      status := Failed;
      part := None;
    }

    /** Handle one file-chunk message. */
    method IngestChunk(c: Chunk, fault: Fault)
      modifies this
      ensures View() == Ingest(old(View()), c, fault, hash)
    {
      if !Accepts(c) {
        return;
      }
      if status == Cancelled || status == Failed {
        return;
      }
      HandleChunk(c, fault);
    }

    method HandleChunk(c: Chunk, fault: Fault)
      requires c.offset >= 0
      modifies this
      ensures View() == Handle(old(View()), c, fault, hash)
    {
      if fault == OpenFault {
        FailTransfer();
        return;
      }
      var last := c.index == c.totalChunks - 1;
      Feed(c.offset, c.raw);
      if fault == WriteFault || (last && fault == SyncFault) {
        FailTransfer();
        return;
      }
      WriteChunk(c.offset, c.raw);
      Conclude(c, fault);
    }

    method Conclude(c: Chunk, fault: Fault)
      requires part.Some? && dlHash.Some?
      modifies this
      ensures View() == AfterStaging(old(View()), c, fault, hash)
    {
      if c.index == c.totalChunks - 1 {
        Commit(c, fault);
      } else {
        status := Running;
      }
    }

    method WriteChunk(offset: nat, raw: Data)
      modifies this`part, this`doneSize
      ensures part == Some(WriteAt(Staged(old(View())), offset, raw)) && doneSize == offset + |raw|
    {
      part := Some(WriteAt(if part.Some? then part.value else [], offset, raw));
      doneSize := offset + |raw|;
    }

    method Feed(offset: nat, raw: Data)
      modifies this`dlHash, this`dlFed, this`dlDirty
      ensures View() == FeedDigest(old(View()), offset, raw)
    {
      if dlHash == None {
        dlHash := Some([]);
        dlFed := 0;
      }
      if !dlDirty && offset == dlFed {
        dlHash := Some(dlHash.value + raw);
        dlFed := dlFed + |raw|;
      } else if offset != dlFed {
        dlDirty := true;
      }
    }

    method Commit(c: Chunk, fault: Fault)
      requires part.Some? && dlHash.Some?
      modifies this
      ensures View() == Finish(old(View()), c, fault, hash)
    {
      if c.sha != "" {
        var ok;
        if !dlDirty {
          ok := EqualFold(hash(dlHash.value), c.sha);
        } else {
          ok := fault != RereadFault && EqualFold(hash(part.value), c.sha);
        }
        if !ok {
          status := Failed;
          return;
        }
      }
      if fault != StatFault && |part.value| != c.totalSize {
        status := Failed;
        return;
      }
      if fault == RenameFault {
        status := Failed;
        return;
      }
      committed := committed + [part.value];
      part := None;
      status := Done;
    }
  }

  // ---------------------------------------------------------------- the digest fast path

  /** A valid incremental digest has been fed exactly the staged bytes, while anything is staged. */
  ghost predicate DigestInv(s: Transfer) {
    && (s.hashed.None? ==> s.part.None? && !s.dlDirty)
    && (s.hashed.Some? ==> s.dlFed == |s.hashed.value|)
    && (s.hashed.Some? && !s.dlDirty && s.part.Some? ==> s.part == s.hashed)
  }

  /** The one situation in which feeding goes wrong: the bytes fed so far were already committed away, so
      nothing is staged, and the next chunk happens to continue them. */
  predicate Detached(s: Transfer, c: Chunk) {
    s.part.None? && s.hashed.Some? && s.hashed.value != [] && !s.dlDirty && c.offset == s.dlFed
  }

  lemma AppendIsWrite(file: Data, raw: Data)
    ensures WriteAt(file, |file|, raw) == file + raw
  {
  }

  lemma StageKeepsDigest(s: Transfer, c: Chunk)
    requires DigestInv(s) && c.offset >= 0 && !Detached(s, c)
    ensures DigestInv(Stage(s, c))
  {
    AppendIsWrite(Staged(s), c.raw);
  }

  /** Outside that situation the fast path is exact: its verdict on a staged last chunk is the verdict of
      re-reading and hashing the part file, whatever digest is expected. */
  lemma FastPathIsExact(s: Transfer, c: Chunk, sha: string, hash: Data -> string)
    requires DigestInv(s) && c.offset >= 0 && !Detached(s, c)
    ensures var t := Stage(s, c); DigestOk(t, sha, NoFault, hash) <==> EqualFold(hash(t.part.value), sha)
  {
    StageKeepsDigest(s, c);
  }

  /** In it the digest no longer describes the staged file, unless the committed bytes were all zero. */
  lemma DetachedDigestIsWrong(s: Transfer, c: Chunk)
    requires DigestInv(s) && c.offset >= 0 && Detached(s, c)
    ensures var t := Stage(s, c);
      !t.dlDirty && (t.hashed == t.part <==> c.raw != [] && s.hashed.value == Zeros(|s.hashed.value|))
  {
    var t := Stage(s, c);
    var h := s.hashed.value;
    if c.raw != [] {
      assert t.part.value == Zeros(|h|) + c.raw;
      assert t.part.value[..|h|] == Zeros(|h|) && t.hashed.value[..|h|] == h;
    }
  }

  // ---------------------------------------------------------------- whole transfers

  /** All messages of one transfer id announce the same size and chunk count. */
  ghost predicate OfTransfer(c: Chunk, size: nat, n: nat) {
    Accepts(c) ==> c.totalSize == size && c.totalChunks == n
  }

  /** For such a transfer the bad situation cannot arise: what a commit took away was the whole file. */
  ghost predicate TransferInv(s: Transfer, size: nat) {
    && DigestInv(s)
    && (s.hashed.Some? && !s.dlDirty && s.part.None? && Live(s) ==> |s.hashed.value| == size)
  }

  lemma NeverDetached(s: Transfer, c: Chunk, size: nat, n: nat)
    requires TransferInv(s, size) && OfTransfer(c, size, n) && Accepts(c) && Live(s)
    ensures !Detached(s, c)
  {
    AcceptedChunkIsInPlace(c);
    var stride := StrideFor(size, n);
    CountCoversFile(size, stride);
    EarlierChunkStarts(c.index, n, stride);
  }

  lemma CommitTakesAll(s: Transfer, c: Chunk)
    requires DigestInv(s) && !Detached(s, c) && c.offset >= 0 && c.offset + |c.raw| == c.totalSize
    ensures var t := Stage(s, c); !t.dlDirty ==> |t.hashed.value| == c.totalSize
  {
  }

  lemma HandleKeepsInv(s: Transfer, c: Chunk, fault: Fault, hash: Data -> string)
    requires DigestInv(s) && Live(s) && !Detached(s, c) && c.offset >= 0
    requires c.index == c.totalChunks - 1 ==> c.offset + |c.raw| == c.totalSize
    requires c.totalSize >= 0
    ensures TransferInv(Handle(s, c, fault, hash), c.totalSize)
  {
    StageKeepsDigest(s, c);
    if c.index == c.totalChunks - 1 {
      CommitTakesAll(s, c);
    }
  }

  lemma IngestKeepsInv(s: Transfer, c: Chunk, fault: Fault, hash: Data -> string, size: nat, n: nat)
    requires TransferInv(s, size) && OfTransfer(c, size, n)
    ensures TransferInv(Ingest(s, c, fault, hash), size)
  {
    if Accepts(c) && Live(s) {
      NeverDetached(s, c, size, n);
      AcceptedChunkIsInPlace(c);
      HandleKeepsInv(s, c, fault, hash);
    }
  }

  datatype Message = Message(chunk: Chunk, fault: Fault)

  /** The messages of a transfer handled one after another, as the socket's read loop does. */
  function Run(msgs: seq<Message>, hash: Data -> string): Transfer {
    if msgs == [] then Fresh()
    else
      var m := msgs[|msgs| - 1];
      Ingest(Run(msgs[..|msgs| - 1], hash), m.chunk, m.fault, hash)
  }

  ghost predicate OneTransfer(msgs: seq<Message>, size: nat, n: nat) {
    forall i :: 0 <= i < |msgs| ==> OfTransfer(msgs[i].chunk, size, n)
  }

  lemma {:induction false} RunKeepsInv(msgs: seq<Message>, hash: Data -> string, size: nat, n: nat)
    requires OneTransfer(msgs, size, n)
    ensures TransferInv(Run(msgs, hash), size)
  {
    if msgs != [] {
      var m := msgs[|msgs| - 1];
      RunKeepsInv(msgs[..|msgs| - 1], hash, size, n);
      IngestKeepsInv(Run(msgs[..|msgs| - 1], hash), m.chunk, m.fault, hash, size, n);
    }
  }

  /** Main result on the digest. Whatever chunks of the transfer came before, in whatever order, with whatever
      gaps, repeats, contents and faults, a last chunk gets the verdict that re-reading the file would give. */
  lemma FastPathIsSound(msgs: seq<Message>, c: Chunk, sha: string, hash: Data -> string, size: nat, n: nat)
    requires OneTransfer(msgs, size, n) && OfTransfer(c, size, n) && Accepts(c)
    requires Live(Run(msgs, hash))
    ensures c.offset >= 0
    ensures var t := Stage(Run(msgs, hash), c);
      DigestOk(t, sha, NoFault, hash) <==> EqualFold(hash(t.part.value), sha)
  {
    RunKeepsInv(msgs, hash, size, n);
    NeverDetached(Run(msgs, hash), c, size, n);
    FastPathIsExact(Run(msgs, hash), c, sha, hash);
  }

  // ---------------------------------------------------------------- what gets committed

  /** The last chunk always carries the digest d. */
  ghost predicate CarriesDigest(msgs: seq<Message>, n: nat, d: string) {
    forall i :: 0 <= i < |msgs| && Accepts(msgs[i].chunk) && msgs[i].chunk.index == n - 1 ==> msgs[i].chunk.sha == d
  }

  lemma HandleCommitsDigest(s: Transfer, c: Chunk, fault: Fault, hash: Data -> string) returns (x: Data)
    requires DigestInv(s) && !Detached(s, c) && c.offset >= 0
    requires c.index == c.totalChunks - 1 ==> c.sha != ""
    ensures var t := Handle(s, c, fault, hash);
      || t.committed == s.committed
      || (t.committed == s.committed + [x] && c.index == c.totalChunks - 1 && EqualFold(hash(x), c.sha))
  {
    StageKeepsDigest(s, c);
    x := Stage(s, c).part.value;
  }

  ghost predicate AllHaveDigest(done: seq<Data>, hash: Data -> string, d: string) {
    forall i :: 0 <= i < |done| ==> EqualFold(hash(done[i]), d)
  }

  lemma IngestCommitsDigest(s: Transfer, c: Chunk, fault: Fault, hash: Data -> string, size: nat, n: nat, d: string)
    requires TransferInv(s, size) && OfTransfer(c, size, n) && AllHaveDigest(s.committed, hash, d) && d != ""
    requires Accepts(c) && c.index == n - 1 ==> c.sha == d
    ensures AllHaveDigest(Ingest(s, c, fault, hash).committed, hash, d)
  {
    if Accepts(c) && Live(s) {
      NeverDetached(s, c, size, n);
      var x := HandleCommitsDigest(s, c, fault, hash);
    }
  }

  /** Under any order, loss, repetition, fault, even with altered bytes: only data with the announced digest is
      ever committed. */
  lemma {:induction false} OnlyDigestIsCommitted(msgs: seq<Message>, hash: Data -> string, size: nat, n: nat, d: string)
    requires OneTransfer(msgs, size, n) && CarriesDigest(msgs, n, d) && d != ""
    ensures AllHaveDigest(Run(msgs, hash).committed, hash, d)
  {
    if msgs != [] {
      var k := |msgs| - 1;
      OnlyDigestIsCommitted(msgs[..k], hash, size, n, d);
      RunKeepsInv(msgs[..k], hash, size, n);
      IngestCommitsDigest(Run(msgs[..k], hash), msgs[k].chunk, msgs[k].fault, hash, size, n, d);
    }
  }

  ghost predicate CollisionFree(hash: Data -> string) {
    forall a: Data, b: Data :: EqualFold(hash(a), hash(b)) ==> a == b
  }

  /** Main result, safety. Nothing but the sender's file is ever committed. */
  lemma OnlyTheFileIsCommitted(msgs: seq<Message>, hash: Data -> string, file: Data, n: nat)
    requires CollisionFree(hash) && hash(file) != ""
    requires OneTransfer(msgs, |file|, n) && CarriesDigest(msgs, n, hash(file))
    ensures forall i :: 0 <= i < |Run(msgs, hash).committed| ==> Run(msgs, hash).committed[i] == file
  {
    OnlyDigestIsCommitted(msgs, hash, |file|, n, hash(file));
  }

  // ---------------------------------------------------------------- a complete delivery commits

  /** The sender's transfer: which file, cut how. */
  ghost predicate Sendable(m: Meta, file: Data, stride: nat, hash: Data -> string) {
    ValidMeta(m) && IsStride(stride) && |file| <= MAX_TOTAL_SIZE && |hash(file)| == 64 && AllHex(hash(file))
  }

  /** The messages that deliver the file's chunks in the given order, nothing going wrong. */
  function Delivery(m: Meta, file: Data, stride: nat, hash: Data -> string, order: seq<nat>): seq<Message>
    requires 0 < stride && forall i :: 0 <= i < |order| ==> order[i] < TotalChunks(|file|, stride)
  {
    if order == [] then []
    else
      var k := |order| - 1;
      PieceFits(|file|, stride, order[k]);
      Delivery(m, file, stride, hash, order[..k]) + [Message(ChunkOf(m, file, stride, hash, order[k]), NoFault)]
  }

  /** Chunk i is on disk. */
  ghost predicate OnDisk(part: Data, file: Data, stride: nat, i: nat) {
    forall b :: i * stride <= b < i * stride + stride && b < |file| ==> Faithful(part, file, b)
  }

  /** Mid-transfer: running, nothing committed, and the chunks in `got` are on disk. */
  ghost predicate Gathering(s: Transfer, file: Data, stride: nat, got: seq<nat>) {
    && s.status.Running? && s.committed == [] && TransferInv(s, |file|)
    && |Staged(s)| <= |file| && AllGot(Staged(s), file, stride, got)
  }

  lemma PieceIsExcerpt(file: Data, stride: nat, i: nat)
    requires 0 < stride && i < TotalChunks(|file|, stride)
    ensures i * stride <= |file| && Excerpt(Piece(file, stride, i), file, i * stride)
    ensures |Piece(file, stride, i)| == Min(i * stride + stride, |file|) - i * stride
  {
    PieceFits(|file|, stride, i);
  }

  ghost predicate AllGot(part: Data, file: Data, stride: nat, got: seq<nat>) {
    forall j :: 0 <= j < |got| ==> OnDisk(part, file, stride, got[j])
  }

  /** Writing one of the file's chunks puts it on disk and disturbs no other. */
  lemma WritePutsOnDisk(part: Data, file: Data, stride: nat, i: nat, got: seq<nat>)
    requires 0 < stride && i < TotalChunks(|file|, stride) && i * stride <= |file|
    requires |part| <= |file| && AllGot(part, file, stride, got)
    ensures var after := WriteAt(part, i * stride, Piece(file, stride, i));
      |after| <= |file| && OnDisk(after, file, stride, i) && AllGot(after, file, stride, got)
  {
    PieceIsExcerpt(file, stride, i);
    WriteKeepsFaithful(part, file, i * stride, Piece(file, stride, i));
  }

  ghost predicate InRange(order: seq<nat>, file: Data, stride: nat) {
    forall i :: 0 <= i < |order| ==> order[i] < TotalChunks(|file|, stride)
  }

  /** Delivering one more chunk is handling one more message. */
  lemma DeliverySnoc(m: Meta, file: Data, stride: nat, hash: Data -> string, got: seq<nat>, i: nat)
    requires 0 < stride && InRange(got, file, stride) && i < TotalChunks(|file|, stride)
    ensures InRange(got + [i], file, stride) && i * stride <= |file|
    ensures Run(Delivery(m, file, stride, hash, got + [i]), hash) ==
            Ingest(Run(Delivery(m, file, stride, hash, got), hash), ChunkOf(m, file, stride, hash, i), NoFault, hash)
  {
    PieceFits(|file|, stride, i);
    assert (got + [i])[..|got|] == got;
    var before, msg := Delivery(m, file, stride, hash, got), Message(ChunkOf(m, file, stride, hash, i), NoFault);
    assert Delivery(m, file, stride, hash, got + [i]) == before + [msg];
    assert (before + [msg])[..|before|] == before;
  }

  ghost predicate Gathers(m: Meta, file: Data, stride: nat, hash: Data -> string, order: seq<nat>)
    requires 0 < stride
  {
    InRange(order, file, stride) && Gathering(Run(Delivery(m, file, stride, hash, order), hash), file, stride, order)
  }

  lemma GatheringStarts(m: Meta, file: Data, stride: nat, hash: Data -> string)
    requires 0 < stride
    ensures Gathers(m, file, stride, hash, [])
  {
    assert Run(Delivery(m, file, stride, hash, []), hash) == Fresh();
  }

  lemma {:induction false} GatheringGrows(m: Meta, file: Data, stride: nat, hash: Data -> string, order: seq<nat>)
    requires Sendable(m, file, stride, hash)
    requires forall i :: 0 <= i < |order| ==> order[i] < TotalChunks(|file|, stride) - 1
    ensures Gathers(m, file, stride, hash, order)
  {
    if order == [] {
      GatheringStarts(m, file, stride, hash);
    } else {
      var k := |order| - 1;
      GatheringGrows(m, file, stride, hash, order[..k]);
      GatheringNext(m, file, stride, hash, order[k], order[..k], order);
    }
  }

  lemma GatheringNext(m: Meta, file: Data, stride: nat, hash: Data -> string, i: nat, got: seq<nat>, all: seq<nat>)
    requires Sendable(m, file, stride, hash) && i < TotalChunks(|file|, stride) - 1
    requires Gathers(m, file, stride, hash, got) && all == got + [i]
    ensures Gathers(m, file, stride, hash, all)
  {
    DeliverySnoc(m, file, stride, hash, got, i);
    GatheringFrom(m, file, stride, hash, i, got, Run(Delivery(m, file, stride, hash, got), hash));
  }

  /** One more of the file's chunks, from any gathering state. */
  lemma GatheringFrom(m: Meta, file: Data, stride: nat, hash: Data -> string, i: nat, got: seq<nat>, s: Transfer)
    requires Sendable(m, file, stride, hash) && i < TotalChunks(|file|, stride) - 1 && Gathering(s, file, stride, got)
    ensures i * stride <= |file|
    ensures Gathering(Ingest(s, ChunkOf(m, file, stride, hash, i), NoFault, hash), file, stride, got + [i])
  {
    SentChunksAreAccepted(m, file, stride, hash, i);
    GatheringStep(s, ChunkOf(m, file, stride, hash, i), file, stride, i, got, hash);
  }

  lemma GatheringStep(s: Transfer, c: Chunk, file: Data, stride: nat, i: nat, got: seq<nat>, hash: Data -> string)
    requires 0 < stride && Gathering(s, file, stride, got) && Accepts(c)
    requires i < TotalChunks(|file|, stride) - 1 == c.totalChunks - 1 && i * stride <= |file|
    requires c.index == i && c.offset == i * stride && c.raw == Piece(file, stride, i) && c.totalSize == |file|
    ensures Gathering(Ingest(s, c, NoFault, hash), file, stride, got + [i])
  {
    WritePutsOnDisk(Staged(s), file, stride, i, got);
    IngestKeepsInv(s, c, NoFault, hash, |file|, c.totalChunks);
  }

  /** Every byte lies in the chunk that its position falls into. */
  lemma ChunkOfByte(b: nat, stride: nat, size: nat) returns (i: nat)
    requires 0 < stride && b < size
    ensures i < TotalChunks(size, stride) && i * stride <= b < i * stride + stride
  {
    CountCoversFile(size, stride);
    i := b / stride;
    assert b == i * stride + b % stride;
    var n := TotalChunks(size, stride);
    if i >= n {
      MulMonotone(n, i, stride);
    }
  }

  lemma AllOnDisk(part: Data, file: Data, stride: nat)
    requires 0 < stride && |part| == |file|
    requires forall i :: 0 <= i < TotalChunks(|file|, stride) ==> OnDisk(part, file, stride, i)
    ensures part == file
  {
    forall b | 0 <= b < |file| ensures part[b] == file[b] {
      var i := ChunkOfByte(b, stride, |file|);
      assert OnDisk(part, file, stride, i);
      assert Faithful(part, file, b);
    }
  }

  /** With every other chunk on disk, writing the last one completes the file. */
  lemma LastWriteIsFile(part: Data, file: Data, stride: nat, got: seq<nat>, n: nat)
    requires 0 < stride && n == TotalChunks(|file|, stride) && n >= 1 && (n - 1) * stride <= |file|
    requires |part| <= |file| && AllGot(part, file, stride, got) && forall i :: 0 <= i < n - 1 ==> i in got
    ensures WriteAt(part, (n - 1) * stride, Piece(file, stride, n - 1)) == file
  {
    var raw := Piece(file, stride, n - 1);
    var after := WriteAt(part, (n - 1) * stride, raw);
    WritePutsOnDisk(part, file, stride, n - 1, got);
    LastPieceEndsFile(file, stride, n);
    LastChunkEndsFile(part, raw, (n - 1) * stride, |file|);
    EveryChunkOnDisk(after, file, stride, got, n);
    AllOnDisk(after, file, stride);
  }

  lemma LastPieceEndsFile(file: Data, stride: nat, n: nat)
    requires 0 < stride && n == TotalChunks(|file|, stride) && n >= 1 && (n - 1) * stride <= |file|
    ensures var raw := Piece(file, stride, n - 1);
      (n - 1) * stride + |raw| == |file| && (raw == [] ==> |file| == 0)
  {
    PieceFits(|file|, stride, n - 1);
    CountCoversFile(|file|, stride);
  }

  lemma EveryChunkOnDisk(part: Data, file: Data, stride: nat, got: seq<nat>, n: nat)
    requires n >= 1 && OnDisk(part, file, stride, n - 1) && forall i :: 0 <= i < n - 1 ==> i in got
    requires AllGot(part, file, stride, got)
    ensures forall i :: 0 <= i < n ==> OnDisk(part, file, stride, i)
  {
    forall i | 0 <= i < n ensures OnDisk(part, file, stride, i) {
      if i < n - 1 {
        assert i in got;
      }
    }
  }

  lemma GoodFileCommits(s: Transfer, c: Chunk, file: Data, hash: Data -> string)
    requires DigestInv(s) && !Detached(s, c) && c.offset >= 0 && Stage(s, c).part == Some(file) && s.committed == []
    requires c.index == c.totalChunks - 1 && c.totalSize == |file| && c.sha == hash(file)
    ensures Handle(s, c, NoFault, hash).status == Done && Handle(s, c, NoFault, hash).committed == [file]
  {
    StageKeepsDigest(s, c);
    assert [] + [file] == [file];
  }

  lemma LastChunkCommits(s: Transfer, c: Chunk, file: Data, stride: nat, got: seq<nat>, hash: Data -> string)
    requires 0 < stride && Gathering(s, file, stride, got) && Accepts(c)
    requires var n := TotalChunks(|file|, stride);
      && n >= 1 && (n - 1) * stride <= |file|
      && c.totalChunks == n && c.index == n - 1 && c.offset == (n - 1) * stride
      && c.raw == Piece(file, stride, n - 1) && c.totalSize == |file| && c.sha == hash(file)
    requires forall i :: 0 <= i < TotalChunks(|file|, stride) - 1 ==> i in got
    ensures Ingest(s, c, NoFault, hash).status == Done && Ingest(s, c, NoFault, hash).committed == [file]
  {
    AcceptedChunkIsInPlace(c);
    CountCoversFile(|file|, stride);
    NeverDetached(s, c, |file|, c.totalChunks);
    LastWriteIsFile(Staged(s), file, stride, got, c.totalChunks);
    GoodFileCommits(s, c, file, hash);
  }

  lemma LastChunkEndsFile(file: Data, raw: Data, off: nat, size: nat)
    requires off + |raw| == size && |file| <= size && (raw == [] ==> size == 0)
    ensures |WriteAt(file, off, raw)| == size
  {
  }

  /** Main result, completeness. For every file up to 8 GiB, at either stride: delivered in any order and with any
      repeats, as long as the last chunk is handled after all the others, exactly the file is committed. */
  lemma CompleteDeliveryCommits(m: Meta, file: Data, stride: nat, hash: Data -> string, order: seq<nat>)
    requires Sendable(m, file, stride, hash) && order != []
    requires var n := TotalChunks(|file|, stride); var k := |order| - 1;
      && n >= 1 && order[k] == n - 1
      && (forall i :: 0 <= i < k ==> order[i] < n - 1)
      && (forall i :: 0 <= i < n - 1 ==> i in order[..k])
    ensures forall i :: 0 <= i < |order| ==> order[i] < TotalChunks(|file|, stride)
    ensures var s := Run(Delivery(m, file, stride, hash, order), hash); s.status == Done && s.committed == [file]
  {
    var k := |order| - 1;
    assert order == order[..k] + [order[k]];
    GatheringGrows(m, file, stride, hash, order[..k]);
    DeliverySnoc(m, file, stride, hash, order[..k], order[k]);
    LastFromGathering(m, file, stride, hash, order[..k], Run(Delivery(m, file, stride, hash, order[..k]), hash));
  }

  lemma LastFromGathering(m: Meta, file: Data, stride: nat, hash: Data -> string, got: seq<nat>, s: Transfer)
    requires Sendable(m, file, stride, hash) && Gathering(s, file, stride, got)
    requires var n := TotalChunks(|file|, stride); n >= 1 && forall i :: 0 <= i < n - 1 ==> i in got
    ensures var n := TotalChunks(|file|, stride);
      && (n - 1) * stride <= |file|
      && var t := Ingest(s, ChunkOf(m, file, stride, hash, n - 1), NoFault, hash);
      t.status == Done && t.committed == [file]
  {
    var n := TotalChunks(|file|, stride);
    SentChunksAreAccepted(m, file, stride, hash, n - 1);
    LastChunkCommits(s, ChunkOf(m, file, stride, hash, n - 1), file, stride, got, hash);
  }

  // ---------------------------------------------------------------- why one transfer id must keep its totals

  /** A file of exactly one legacy stride. */
  function OneMiB(): (a: Data)
    ensures |a| == LEGACY_STRIDE && forall i :: 0 <= i < |a| ==> a[i] == 7
  {
    seq(LEGACY_STRIDE, _ => 7)
  }

  /** The second chunk of a file one byte longer, under the same transfer id. */
  function SecondChunk(m: Meta, sha: string): Chunk {
    Chunk(m.nonce, m.transferId, m.path, LEGACY_STRIDE, LEGACY_STRIDE + 1, 1, 2, 4, [9], sha, m.policy, m.sourceMtime)
  }

  lemma FirstFileCommits(m: Meta, hash: Data -> string, c: Chunk)
    requires Sendable(m, OneMiB(), LEGACY_STRIDE, hash) && TotalChunks(LEGACY_STRIDE, LEGACY_STRIDE) == 1
    requires c == ChunkOf(m, OneMiB(), LEGACY_STRIDE, hash, 0)
    ensures var s := Ingest(Fresh(), c, NoFault, hash);
      && s.status == Done && s.part == None && s.committed == [OneMiB()]
      && s.hashed == Some(OneMiB()) && s.dlFed == LEGACY_STRIDE && !s.dlDirty
  {
    var file := OneMiB();
    SentChunksAreAccepted(m, file, LEGACY_STRIDE, hash, 0);
    assert Piece(file, LEGACY_STRIDE, 0) == file;
    assert [] + file == file;
    AppendIsWrite([], file);
  }

  /** The assumption is needed. After a commit, a chunk that announces other totals and continues where the
      committed file ended passes the digest check and commits zeros where the file's bytes should be. */
  lemma MixedTotalsFoolTheDigest(m: Meta, hash: Data -> string)
    requires Sendable(m, OneMiB(), LEGACY_STRIDE, hash)
    requires |hash(OneMiB() + [9])| == 64 && AllHex(hash(OneMiB() + [9]))
    ensures TotalChunks(LEGACY_STRIDE, LEGACY_STRIDE) == 1
    ensures var s := Run([Message(ChunkOf(m, OneMiB(), LEGACY_STRIDE, hash, 0), NoFault),
                          Message(SecondChunk(m, hash(OneMiB() + [9])), NoFault)], hash);
      s.committed == [OneMiB(), Zeros(LEGACY_STRIDE) + [9]] && s.committed[1] != OneMiB() + [9]
  {
    var c1 := ChunkOf(m, OneMiB(), LEGACY_STRIDE, hash, 0);
    var c2 := SecondChunk(m, hash(OneMiB() + [9]));
    var msgs := [Message(c1, NoFault), Message(c2, NoFault)];
    assert msgs[..1] == [Message(c1, NoFault)] && msgs[..1][..0] == [];
    assert Run(msgs[..1], hash) == Ingest(Fresh(), c1, NoFault, hash);
    FirstFileCommits(m, hash, c1);
    SecondChunkFools(Ingest(Fresh(), c1, NoFault, hash), c2, hash);
    assert SecondChunkAccepted(m, hash(OneMiB() + [9]));
    assert (Zeros(LEGACY_STRIDE) + [9])[0] == 0 && (OneMiB() + [9])[0] == 7;
  }

  predicate SecondChunkAccepted(m: Meta, sha: string) {
    Accepts(SecondChunk(m, sha))
  }

  lemma SecondChunkFools(s: Transfer, c: Chunk, hash: Data -> string)
    requires s.part == None && s.hashed == Some(OneMiB()) && s.dlFed == LEGACY_STRIDE && !s.dlDirty
    requires c.offset == LEGACY_STRIDE && c.raw == [9] && c.index == c.totalChunks - 1
    requires c.totalSize == LEGACY_STRIDE + 1 && c.sha == hash(OneMiB() + [9])
    ensures Handle(s, c, NoFault, hash).committed == s.committed + [Zeros(LEGACY_STRIDE) + [9]]
  {
    assert WriteAt([], LEGACY_STRIDE, [9]) == Zeros(LEGACY_STRIDE) + [9];
  }
}
