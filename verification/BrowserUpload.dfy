/** The browser lane when the tab does its part: what a whole upload, and a resumed one, put on the wire. */
module BrowserUpload {
  import opened Options
  import opened Ints
  import opened PartFile
  import opened ChunkPlan
  import opened Upload

  /** The tab hands over the file's chunks from k on, and each goes out. */
  function SendRest(s: Lane, file: Data, hash: Data -> string, k: nat): Lane
    requires k <= TotalChunks(|file|, LEGACY_STRIDE)
    decreases TotalChunks(|file|, LEGACY_STRIDE) - k
  {
    if k == TotalChunks(|file|, LEGACY_STRIDE) then s
    else
      PieceFits(|file|, LEGACY_STRIDE, k);
      SendRest(Step(s, |file|, hash, SendSlice(Some(Piece(file, LEGACY_STRIDE, k)), false, true)), file, hash, k + 1)
  }

  /** The tab hands over the first k chunks once more, only to be hashed. */
  function RehashFirst(s: Lane, file: Data, hash: Data -> string, k: nat): Lane
    requires k <= TotalChunks(|file|, LEGACY_STRIDE)
  {
    if k == 0 then s
    else
      PieceFits(|file|, LEGACY_STRIDE, k - 1);
      Step(RehashFirst(s, file, hash, k - 1), |file|, hash, Rehash(Some(Piece(file, LEGACY_STRIDE, k - 1))))
  }

  /** The file's own slice is what the session expects at that position. */
  lemma PieceDecodes(file: Data, k: nat)
    requires k < TotalChunks(|file|, LEGACY_STRIDE)
    ensures k * LEGACY_STRIDE <= |file| && Decodes(Some(Piece(file, LEGACY_STRIDE, k)), |file|, k)
  {
    PieceFits(|file|, LEGACY_STRIDE, k);
  }

  /** The lane stands before chunk k with its digest fed with all before it. */
  ghost predicate ReadyAt(s: Lane, file: Data, k: nat) {
    k <= TotalChunks(|file|, LEGACY_STRIDE) && s.next == k && s.fed == Laid(file, LEGACY_STRIDE, k)
  }

  lemma SendOne(s: Lane, file: Data, hash: Data -> string, k: nat)
    requires s.open && ReadyAt(s, file, k) && k < TotalChunks(|file|, LEGACY_STRIDE)
    ensures k * LEGACY_STRIDE <= |file|
    ensures var t := Step(s, |file|, hash, SendSlice(Some(Piece(file, LEGACY_STRIDE, k)), false, true));
      && ReadyAt(t, file, k + 1) && (t.open <==> k + 1 < TotalChunks(|file|, LEGACY_STRIDE))
      && t.sent == s.sent + [SentOf(file, LEGACY_STRIDE, hash, k)]
  {
    PieceDecodes(file, k);
    ChunksTileFile(file, LEGACY_STRIDE);
    assert Laid(file, LEGACY_STRIDE, k + 1) == Laid(file, LEGACY_STRIDE, k) + Piece(file, LEGACY_STRIDE, k);
  }

  lemma {:induction false} RestIsPlan(s: Lane, file: Data, hash: Data -> string, k: nat)
    requires ReadyAt(s, file, k) && (s.open <==> k < TotalChunks(|file|, LEGACY_STRIDE))
    ensures SendRest(s, file, hash, k).sent == s.sent + Plan(file, LEGACY_STRIDE, hash, k)
    ensures !SendRest(s, file, hash, k).open
    decreases TotalChunks(|file|, LEGACY_STRIDE) - k
  {
    if k < TotalChunks(|file|, LEGACY_STRIDE) {
      SendOne(s, file, hash, k);
      RestIsPlan(Step(s, |file|, hash, SendSlice(Some(Piece(file, LEGACY_STRIDE, k)), false, true)), file, hash, k + 1);
    }
  }

  lemma {:induction false} RehashKeepsReady(s: Lane, file: Data, hash: Data -> string, k: nat)
    requires s.open && ReadyAt(s, file, 0) && k <= TotalChunks(|file|, LEGACY_STRIDE)
    ensures var t := RehashFirst(s, file, hash, k); t.open && ReadyAt(t, file, k) && t.sent == s.sent
  {
    if k > 0 {
      RehashKeepsReady(s, file, hash, k - 1);
      PieceDecodes(file, k - 1);
      assert Laid(file, LEGACY_STRIDE, k) == Laid(file, LEGACY_STRIDE, k - 1) + Piece(file, LEGACY_STRIDE, k - 1);
    }
  }

  /** Chunks `from` on of the file, as they must be, and all of them. */
  ghost predicate CompleteTail(sent: seq<Sent>, file: Data, hash: Data -> string, from: nat) {
    AllCut(sent, file, LEGACY_STRIDE, hash, from) && from + |sent| == TotalChunks(|file|, LEGACY_STRIDE)
  }

  lemma PlanIsTail(sent: seq<Sent>, file: Data, hash: Data -> string, from: nat, all: seq<Sent>)
    requires from <= TotalChunks(|file|, LEGACY_STRIDE) && all == sent + Plan(file, LEGACY_STRIDE, hash, from)
    ensures |sent| <= |all| && all[..|sent|] == sent && CompleteTail(all[|sent|..], file, hash, from)
  {
    assert all[|sent|..] == Plan(file, LEGACY_STRIDE, hash, from);
    PlanIsCut(file, LEGACY_STRIDE, hash, from);
  }

  /** A new session whose chunks all go out sends every chunk of the file, in order, the digest on the last, and is
      then over. */
  lemma PlainUploadSendsAll(file: Data, hash: Data -> string)
    ensures var t := SendRest(Lane(true, [], 0, []), file, hash, 0);
      !t.open && CompleteTail(t.sent, file, hash, 0)
  {
    var s := Lane(true, [], 0, []);
    CountCoversFile(|file|, LEGACY_STRIDE);
    RestIsPlan(s, file, hash, 0);
    PlanIsTail([], file, hash, 0, SendRest(s, file, hash, 0).sent);
  }

  /** The chunk a resume starts at. */
  function ResumePoint(answer: int): nat {
    Max(answer, 0)
  }

  /** Main result. From any state of an open session, whatever failed before: a resume, the confirmed chunks hashed
      again, and the others sent, puts exactly those others on the wire, with the whole file's digest on the last. */
  lemma ResumeSendsTheRest(s: Lane, file: Data, hash: Data -> string, answer: int)
    requires s.open && answer < TotalChunks(|file|, LEGACY_STRIDE)
    ensures ResumePoint(answer) < TotalChunks(|file|, LEGACY_STRIDE)
    ensures var next := ResumePoint(answer);
      && var u := RehashFirst(Step(s, |file|, hash, Resume(true, answer)), file, hash, next);
      && var t := SendRest(u, file, hash, next);
      && !t.open && |s.sent| <= |t.sent| && t.sent[..|s.sent|] == s.sent
      && CompleteTail(t.sent[|s.sent|..], file, hash, next)
  {
    CountCoversFile(|file|, LEGACY_STRIDE);
    var next := ResumePoint(answer);
    var r := Step(s, |file|, hash, Resume(true, answer));
    RehashKeepsReady(r, file, hash, next);
    var u := RehashFirst(r, file, hash, next);
    RestIsPlan(u, file, hash, next);
    PlanIsTail(s.sent, file, hash, next, SendRest(u, file, hash, next).sent);
  }

  /** A cancelled or aborted session is over without another chunk, and stays as it is whatever still comes. */
  lemma {:induction false} CancelIsFinal(s: Lane, size: nat, hash: Data -> string, e: Event, more: seq<Event>)
    requires e.Abort? || (e.SendSlice? && e.cancelled)
    ensures var t := StepAll(Step(s, size, hash, e), size, hash, more); !t.open && t.sent == s.sent
  {
    ClosedStays(Step(s, size, hash, e), size, hash, more);
  }

  function StepAll(s: Lane, size: nat, hash: Data -> string, evs: seq<Event>): Lane {
    if evs == [] then s else Step(StepAll(s, size, hash, evs[..|evs| - 1]), size, hash, evs[|evs| - 1])
  }

  lemma {:induction false} ClosedStays(s: Lane, size: nat, hash: Data -> string, evs: seq<Event>)
    requires !s.open
    ensures StepAll(s, size, hash, evs) == s
  {
    if evs != [] {
      ClosedStays(s, size, hash, evs[..|evs| - 1]);
    }
  }
}
