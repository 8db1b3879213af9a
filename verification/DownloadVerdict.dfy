/** How a transfer ends: the verdict on its last chunk, told from the staged bytes alone, and what faults do. */
module DownloadVerdict {
  import opened Options
  import opened Ints
  import opened PartFile
  import opened ChunkPlan
  import opened Download

  /** The part file once a chunk is written. */
  function Written(s: Transfer, c: Chunk): Data
    requires c.offset >= 0
  {
    WriteAt(if s.part == None then [] else s.part.value, c.offset, c.raw)
  }

  /** The bytes are what the last chunk announced: its digest, where it carries one, and its size. */
  predicate AsAnnounced(file: Data, c: Chunk, hash: Data -> string) {
    (c.sha == "" || EqualFold(hash(file), c.sha)) && |file| == c.totalSize
  }

  lemma StagedIsWritten(s: Transfer, c: Chunk)
    requires c.offset >= 0
    ensures Stage(s, c).part == Some(Written(s, c)) && Stage(s, c).hashed.Some?
    ensures Stage(s, c).committed == s.committed && Stage(s, c).status == s.status
  {
  }

  lemma HandleDecides(s: Transfer, c: Chunk, hash: Data -> string)
    requires DigestInv(s) && c.offset >= 0 && !Detached(s, c) && c.index == c.totalChunks - 1
    ensures var t := Handle(s, c, NoFault, hash);
      if AsAnnounced(Written(s, c), c, hash)
      then t.status == Done && t.part == None && t.committed == s.committed + [Written(s, c)]
      else t.status == Failed && t.committed == s.committed
  {
    FastPathIsExact(s, c, c.sha, hash);
    StagedIsWritten(s, c);
  }

  /** Main result. Whatever came before in a transfer, and through whichever of the two digests: an accepted last chunk
      without a fault finishes it if the staged file is as announced, and commits exactly that file; otherwise the
      transfer fails and nothing is committed. */
  lemma LastChunkDecides(msgs: seq<Message>, c: Chunk, hash: Data -> string, size: nat, n: nat)
    requires OneTransfer(msgs, size, n) && OfTransfer(c, size, n) && Accepts(c) && c.index == n - 1
    requires Live(Run(msgs, hash))
    ensures c.offset >= 0
    ensures var s, t := Run(msgs, hash), Run(msgs + [Message(c, NoFault)], hash);
      if AsAnnounced(Written(s, c), c, hash)
      then t.status == Done && t.part == None && t.committed == s.committed + [Written(s, c)]
      else t.status == Failed && t.committed == s.committed
  {
    RunKeepsInv(msgs, hash, size, n);
    NeverDetached(Run(msgs, hash), c, size, n);
    RunSnoc(msgs, Message(c, NoFault), hash);
    HandleDecides(Run(msgs, hash), c, hash);
  }

  lemma RunSnoc(msgs: seq<Message>, m: Message, hash: Data -> string)
    ensures Run(msgs + [m], hash) == Ingest(Run(msgs, hash), m.chunk, m.fault, hash)
  {
    assert (msgs + [m])[..|msgs|] == msgs;
  }

  /** Any other accepted chunk is written and leaves the transfer running. */
  lemma EarlierChunkIsStaged(s: Transfer, c: Chunk, hash: Data -> string)
    requires Live(s) && Accepts(c) && c.index < c.totalChunks - 1
    ensures var t := Ingest(s, c, NoFault, hash);
      && t.status == Running && t.part == Some(Written(s, c)) && t.committed == s.committed
      && t.doneSize == c.offset + |c.raw|
  {
    StagedIsWritten(s, c);
  }

  /** A fault of opening or writing fails the transfer and drops the part file; so does one of syncing the last chunk,
      and one of the final rename fails it too. Nothing is committed. */
  lemma FaultFails(s: Transfer, c: Chunk, fault: Fault, hash: Data -> string)
    requires Live(s) && Accepts(c)
    requires fault.OpenFault? || fault.WriteFault?
             || (c.index == c.totalChunks - 1 && (fault.SyncFault? || fault.RenameFault?))
    ensures var t := Ingest(s, c, fault, hash);
      && t.status == Failed && t.committed == s.committed && (!fault.RenameFault? ==> t.part == None)
  {
    if fault.RenameFault? {
      StagedIsWritten(s, c);
    }
  }

  /** Failing is final: whatever still arrives changes nothing. */
  lemma {:induction false} FailedIsFinal(msgs: seq<Message>, more: seq<Message>, hash: Data -> string)
    requires !Live(Run(msgs, hash))
    ensures Run(msgs + more, hash) == Run(msgs, hash)
  {
    if more == [] {
      assert msgs + more == msgs;
    } else {
      var k := |more| - 1;
      FailedIsFinal(msgs, more[..k], hash);
      assert msgs + more == (msgs + more[..k]) + [more[k]];
      RunSnoc(msgs + more[..k], more[k], hash);
    }
  }
}
