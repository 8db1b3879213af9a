/** Reassembling a large clipboard image from chunks that may come in any order. */
module ClipHub {
  import opened Options
  import opened Ints
  import opened PartFile
  import opened ChunkPlan
  import Download
  import FiniteSets

  const CLIP_STRIDE: nat := 0x10_0000
  const MAX_INLINE: nat := 5 * 0x10_0000
  const MAX_TOTAL: nat := 25 * 0x10_0000
  const MAX_CHUNKS: nat := 32
  const MAX_SESSIONS: nat := 8
  const EXPIRY: int := 300

  datatype Manifest = Manifest(session: string, totalRaw: nat, totalChunks: nat, contentHash: string)

  datatype ClipChunk = ClipChunk(session: string, index: nat, totalChunks: nat, offset: nat, totalRaw: nat, raw: Data)

  /** How the hub hashes bytes, and whether bytes look like an image. */
  datatype Rules = Rules(hash: Data -> string, image: Data -> bool)

  predicate ValidManifest(m: Manifest) {
    && MAX_INLINE < m.totalRaw <= MAX_TOTAL && 2 <= m.totalChunks <= MAX_CHUNKS
    && m.totalChunks == TotalChunks(m.totalRaw, CLIP_STRIDE) && |m.contentHash| == 64
  }

  predicate ValidChunk(c: ClipChunk) {
    && 2 <= c.totalChunks <= MAX_CHUNKS && c.index < c.totalChunks && MAX_INLINE < c.totalRaw <= MAX_TOTAL
    && c.offset == c.index * CLIP_STRIDE < c.totalRaw && 0 < |c.raw| <= CLIP_STRIDE
  }

  datatype Session = Session(manifest: Manifest, chunks: map<nat, Data>, received: nat, updated: int)

  /** The chunks 0, .., n - 1 end to end, if all are there. */
  function Joined(chunks: map<nat, Data>, n: nat): Option<Data> {
    if n == 0 then Some([])
    else if n - 1 !in chunks || Joined(chunks, n - 1).None? then None
    else Some(Joined(chunks, n - 1).value + chunks[n - 1])
  }

  datatype Pushed = Pushed(manifest: Manifest, data: Data)

  /** What the hub hands on when the last missing chunk is in. */
  function Completed(r: Rules, s: Session): Option<Pushed> {
    match Joined(s.chunks, s.manifest.totalChunks)
    case None => None
    case Some(data) =>
      if |data| == s.manifest.totalRaw && Download.EqualFold(r.hash(data), s.manifest.contentHash) && r.image(data)
      then Some(Pushed(s.manifest, data))
      else None
  }

  type Sessions = map<string, Session>

  function Stored(s: Session, c: ClipChunk, now: int): Session {
    s.(chunks := s.chunks[c.index := c.raw], received := s.received + 1, updated := now)
  }

  /** Add, on the sessions ... */
  function AfterAdd(h: Sessions, c: ClipChunk, now: int): Sessions {
    if !ValidChunk(c) || c.session !in h then h
    else
      var s := h[c.session];
      if c.totalChunks != s.manifest.totalChunks || c.totalRaw != s.manifest.totalRaw then h - {c.session}
      else if c.index in s.chunks then h
      else if s.received + 1 != s.manifest.totalChunks then h[c.session := Stored(s, c, now)]
      else h - {c.session}
  }

  /** ... and what it returns. */
  function PushOf(r: Rules, h: Sessions, c: ClipChunk, now: int): Option<Pushed> {
    if !ValidChunk(c) || c.session !in h then None
    else
      var s := h[c.session];
      if c.totalChunks != s.manifest.totalChunks || c.totalRaw != s.manifest.totalRaw || c.index in s.chunks
         || s.received + 1 != s.manifest.totalChunks
      then None
      else Completed(r, Stored(s, c, now))
  }

  /** Sessions idle for more than five minutes are gone, and if more than eight are left, one least recently updated
      goes too. */
  ghost predicate Swept(h: Sessions, t: Sessions, now: int) {
    var live := map id | id in h && now - h[id].updated <= EXPIRY :: h[id];
    if |live| <= MAX_SESSIONS then t == live
    else exists id :: id in live && (forall o :: o in live ==> live[id].updated <= live[o].updated) && t == live - {id}
  }

  class Hub {
    const rules: Rules
    var sessions: Sessions

    constructor (rules: Rules)
      ensures sessions == map[] && this.rules == rules
    {
      this.rules := rules;
      sessions := map[];
    }

    method Sweep(now: int)
      modifies this
      ensures Swept(old(sessions), sessions, now)
      ensures |old(sessions)| <= MAX_SESSIONS + 1 ==> |sessions| <= MAX_SESSIONS
    {
      var live := map id | id in sessions && now - sessions[id].updated <= EXPIRY :: sessions[id];
      FewerKeys(live, sessions);
      if |live| <= MAX_SESSIONS {
        sessions := live;
      } else {
        var oldest := Oldest(live);
        sessions := live - {oldest};
        assert sessions.Keys == live.Keys - {oldest};
      }
    }

    /** One session updated no later than any other. */
    static method Oldest(live: Sessions) returns (oldest: string)
      requires live != map[]
      ensures oldest in live && forall o :: o in live ==> live[oldest].updated <= live[o].updated
    {
      oldest :| oldest in live;
      var todo := live.Keys - {oldest};
      while todo != {}
        invariant todo <= live.Keys && oldest in live
        invariant forall o :: o in live && o !in todo ==> live[oldest].updated <= live[o].updated
        decreases todo
      {
        var id :| id in todo;
        if live[id].updated < live[oldest].updated {
          oldest := id;
        }
        todo := todo - {id};
      }
    }

    /** A manifest opens a session, after a sweep; never are more than nine held. */
    method Begin(m: Manifest, now: int) returns (isNew: bool, ghost swept: Sessions)
      modifies this
      ensures Swept(old(sessions), swept, now) && (isNew <==> m.session !in swept)
      ensures sessions == if isNew then swept[m.session := Session(m, map[], 0, now)] else swept
      ensures |old(sessions)| <= MAX_SESSIONS + 1 ==> |sessions| <= MAX_SESSIONS + 1
    {
      Sweep(now);
      swept := sessions;
      isNew := m.session !in sessions;
      if isNew {
        sessions := sessions[m.session := Session(m, map[], 0, now)];
      }
    }

    /** A clip-manifest message: only a valid one opens a session. */
    method ReceiveManifest(m: Manifest, now: int) returns (ghost swept: Sessions)
      modifies this
      ensures Legal(old(sessions), ManifestIn(m, now, swept))
      ensures sessions == HubStep(old(sessions), ManifestIn(m, now, swept))
    {
      swept := sessions;
      if ValidManifest(m) {
        var isNew;
        isNew, swept := Begin(m, now);
      }
    }

    method Add(c: ClipChunk, now: int) returns (out: Option<Pushed>)
      modifies this
      ensures sessions == AfterAdd(old(sessions), c, now)
      ensures out == PushOf(rules, old(sessions), c, now)
    {
      if !ValidChunk(c) || c.session !in sessions {
        return None;
      }
      var s := sessions[c.session];
      if c.totalChunks != s.manifest.totalChunks || c.totalRaw != s.manifest.totalRaw {
        sessions := sessions - {c.session};
        return None;
      }
      if c.index in s.chunks {
        return None;
      }
      s := Stored(s, c, now);
      sessions := sessions[c.session := s];
      if s.received != s.manifest.totalChunks {
        return None;
      }
      sessions := sessions - {c.session};
      assert sessions == old(sessions) - {c.session};
      out := Join(s);
    }

    /** Put the chunks together in order and verify the result. */
    method Join(s: Session) returns (out: Option<Pushed>)
      ensures out == Completed(rules, s)
    {
      var assembled: Data := [];
      var i := 0;
      while i < s.manifest.totalChunks
        invariant 0 <= i <= s.manifest.totalChunks
        invariant Joined(s.chunks, i) == Some(assembled)
      {
        if i !in s.chunks {
          JoinedNeedsAll(s.chunks, i + 1, s.manifest.totalChunks);
          return None;
        }
        assembled := assembled + s.chunks[i];
        i := i + 1;
      }
      if |assembled| != s.manifest.totalRaw {
        return None;
      }
      if !Download.EqualFold(rules.hash(assembled), s.manifest.contentHash) || !rules.image(assembled) {
        return None;
      }
      out := Some(Pushed(s.manifest, assembled));
    }
  }

  lemma FewerKeys(a: Sessions, b: Sessions)
    requires a.Keys <= b.Keys
    ensures |a| <= |b|
  {
    FiniteSets.SubsetIsNoLarger(a.Keys, b.Keys);
    assert |a| == |a.Keys| && |b| == |b.Keys|;
  }

  lemma {:induction false} JoinedNeedsAll(chunks: map<nat, Data>, k: nat, n: nat)
    requires k <= n && Joined(chunks, k).None?
    ensures Joined(chunks, n).None?
  {
    if k < n {
      JoinedNeedsAll(chunks, k, n - 1);
    }
  }

  // ---------------------------------------------------------------- the sending side

  /** splitClipBytes: one-mebibyte pieces, and a single empty one for no bytes at all. */
  method SplitClipBytes(raw: Data) returns (chunks: seq<Data>)
    ensures |chunks| == TotalChunks(|raw|, CLIP_STRIDE)
    ensures forall i :: 0 <= i < |chunks| ==> i * CLIP_STRIDE <= |raw| && chunks[i] == Piece(raw, CLIP_STRIDE, i)
  {
    chunks := [];
    var off := 0;
    CountCoversFile(|raw|, CLIP_STRIDE);
    while off < |raw|
      invariant off == |chunks| * CLIP_STRIDE && |chunks| <= TotalChunks(|raw|, CLIP_STRIDE)
      invariant |raw| == 0 ==> chunks == []
      invariant forall i :: 0 <= i < |chunks| ==> i * CLIP_STRIDE <= |raw| && chunks[i] == Piece(raw, CLIP_STRIDE, i)
      decreases |raw| - off
    {
      var end := Min(off + CLIP_STRIDE, |raw|);
      chunks := chunks + [raw[off..end]];
      off := off + CLIP_STRIDE;
    }
    if |chunks| == 0 {
      chunks := [[]];
    }
  }

  function ManifestOf(r: Rules, id: string, raw: Data): Manifest
    requires TotalChunks(|raw|, CLIP_STRIDE) >= 0
  {
    Manifest(id, |raw|, TotalChunks(|raw|, CLIP_STRIDE), r.hash(raw))
  }

  /** Chunk i of an image. */
  ghost predicate IsChunkOf(c: ClipChunk, raw: Data, i: nat) {
    && c.totalChunks == TotalChunks(|raw|, CLIP_STRIDE) && c.totalRaw == |raw| && c.index == i < c.totalChunks
    && c.offset == i * CLIP_STRIDE <= |raw| && c.raw == Piece(raw, CLIP_STRIDE, i)
  }

  // ---------------------------------------------------------------- order independence

  datatype Arrival = Arrival(chunk: ClipChunk, now: int)

  function Run(h: Sessions, arrivals: seq<Arrival>): Sessions {
    if arrivals == [] then h
    else
      var a := arrivals[|arrivals| - 1];
      AfterAdd(Run(h, arrivals[..|arrivals| - 1]), a.chunk, a.now)
  }

  function Emitted(p: Option<Pushed>): seq<Pushed> {
    if p.Some? then [p.value] else []
  }

  /** The pushes that a run of arrivals hands on for one session, in order. */
  function Pushes(r: Rules, h: Sessions, arrivals: seq<Arrival>, id: string): seq<Pushed> {
    if arrivals == [] then []
    else
      var before, a := arrivals[..|arrivals| - 1], arrivals[|arrivals| - 1];
      if a.chunk.session != id then Pushes(r, h, before, id)
      else Pushes(r, h, before, id) + Emitted(PushOf(r, Run(h, before), a.chunk, a.now))
  }

  /** All chunks that arrive for the session are chunks of the image; those of other sessions are arbitrary. */
  ghost predicate Delivers(arrivals: seq<Arrival>, id: string, raw: Data) {
    forall k :: 0 <= k < |arrivals| && arrivals[k].chunk.session == id ==>
      IsChunkOf(arrivals[k].chunk, raw, arrivals[k].chunk.index)
  }

  /** The indices that have arrived for the session. */
  function Arrived(arrivals: seq<Arrival>, id: string): set<nat> {
    if arrivals == [] then {}
    else
      var c := arrivals[|arrivals| - 1].chunk;
      if c.session != id then Arrived(arrivals[..|arrivals| - 1], id)
      else Arrived(arrivals[..|arrivals| - 1], id) + {c.index}
  }

  function Below(n: nat): (s: set<nat>)
    ensures forall i: nat :: i in s <==> i < n
    ensures |s| == n
  {
    if n == 0 then {} else Below(n - 1) + {n - 1}
  }

  lemma {:induction false} ArrivedIsBelow(arrivals: seq<Arrival>, id: string, raw: Data)
    requires Delivers(arrivals, id, raw)
    ensures forall i :: i in Arrived(arrivals, id) ==> i < TotalChunks(|raw|, CLIP_STRIDE)
  {
    if arrivals != [] {
      ArrivedIsBelow(arrivals[..|arrivals| - 1], id, raw);
    }
  }

  /** The session holds exactly the image's chunks in `got`. */
  ghost predicate Holds(s: Session, raw: Data, m: Manifest, got: set<nat>) {
    && s.manifest == m && s.chunks.Keys == got && s.received == |got|
    && forall i :: i in s.chunks ==> i * CLIP_STRIDE <= |raw| && s.chunks[i] == Piece(raw, CLIP_STRIDE, i)
  }

  lemma {:induction false} JoinedIsLaid(chunks: map<nat, Data>, raw: Data, k: nat)
    requires k <= TotalChunks(|raw|, CLIP_STRIDE)
    requires forall i: nat :: i < k ==>
      i in chunks && i * CLIP_STRIDE <= |raw| && chunks[i] == Piece(raw, CLIP_STRIDE, i)
    ensures Joined(chunks, k) == Some(Laid(raw, CLIP_STRIDE, k))
  {
    if k != 0 {
      JoinedIsLaid(chunks, raw, k - 1);
      PieceFits(|raw|, CLIP_STRIDE, k - 1);
    }
  }

  /** With every chunk there, the image itself comes out. */
  lemma FullSessionYieldsImage(r: Rules, s: Session, raw: Data, id: string)
    requires TotalChunks(|raw|, CLIP_STRIDE) >= 0 && r.image(raw)
    requires Holds(s, raw, ManifestOf(r, id, raw), Below(TotalChunks(|raw|, CLIP_STRIDE)))
    ensures Completed(r, s) == Some(Pushed(s.manifest, raw))
  {
    var n := TotalChunks(|raw|, CLIP_STRIDE);
    assert forall i: nat :: i < n ==> i in Below(n);
    JoinedIsLaid(s.chunks, raw, n);
    ChunksTileFile(raw, CLIP_STRIDE);
  }

  lemma ImageChunkIsValid(c: ClipChunk, raw: Data, i: nat)
    requires IsChunkOf(c, raw, i) && MAX_INLINE < |raw| <= MAX_TOTAL
    ensures ValidChunk(c)
  {
    PieceFits(|raw|, CLIP_STRIDE, i);
    CountCoversFile(|raw|, CLIP_STRIDE);
    EarlierChunkStarts(i, c.totalChunks, CLIP_STRIDE);
  }

  /** The state of the session after some arrivals: open with exactly what arrived, or, once everything arrived,
      closed with the image handed on once. */
  ghost predicate Progress(open: Option<Session>, outs: seq<Pushed>, raw: Data, m: Manifest, got: set<nat>) {
    if got == Below(m.totalChunks) then open.None? && outs == [Pushed(m, raw)]
    else open.Some? && Holds(open.value, raw, m, got) && outs == []
  }

  function Look(h: Sessions, id: string): Option<Session> {
    if id in h then Some(h[id]) else None
  }

  lemma NewChunkStep(r: Rules, h: Sessions, c: ClipChunk, now: int, raw: Data, id: string, got: set<nat>)
    requires MAX_INLINE < |raw| <= MAX_TOTAL && r.image(raw) && TotalChunks(|raw|, CLIP_STRIDE) >= 0
    requires id in h && Holds(h[id], raw, ManifestOf(r, id, raw), got) && c.session == id && c.index !in got
    requires IsChunkOf(c, raw, c.index) && ValidChunk(c) && got <= Below(TotalChunks(|raw|, CLIP_STRIDE))
    ensures Progress(Look(AfterAdd(h, c, now), id), Emitted(PushOf(r, h, c, now)), raw, ManifestOf(r, id, raw),
                     got + {c.index})
  {
    var n := TotalChunks(|raw|, CLIP_STRIDE);
    var s := Stored(h[id], c, now);
    assert Holds(s, raw, ManifestOf(r, id, raw), got + {c.index});
    FullExactly(got + {c.index}, n);
    if got + {c.index} == Below(n) {
      FullSessionYieldsImage(r, s, raw, id);
    }
  }

  /** n different indices below n are all of them. */
  lemma FullExactly(got: set<nat>, n: nat)
    requires got <= Below(n)
    ensures |got| == n <==> got == Below(n)
  {
    if Below(n) - got != {} {
      var x :| x in Below(n) - got;
      FiniteSets.SubsetIsNoLarger(got, Below(n) - {x});
    }
  }

  lemma OwnStep(r: Rules, h: Sessions, outs: seq<Pushed>, c: ClipChunk, now: int, raw: Data, id: string, got: set<nat>)
    requires MAX_INLINE < |raw| <= MAX_TOTAL && r.image(raw) && TotalChunks(|raw|, CLIP_STRIDE) >= 0
    requires Progress(Look(h, id), outs, raw, ManifestOf(r, id, raw), got)
    requires got <= Below(TotalChunks(|raw|, CLIP_STRIDE))
    requires c.session == id && IsChunkOf(c, raw, c.index) && ValidChunk(c)
    ensures Progress(Look(AfterAdd(h, c, now), id), outs + Emitted(PushOf(r, h, c, now)), raw, ManifestOf(r, id, raw),
                     got + {c.index})
  {
    if c.index in got || got == Below(TotalChunks(|raw|, CLIP_STRIDE)) {
      RepeatStep(r, h, outs, c, now, raw, ManifestOf(r, id, raw), got);
      assert outs + [] == outs;
    } else {
      NewChunkStep(r, h, c, now, raw, id, got);
      assert [] + Emitted(PushOf(r, h, c, now)) == Emitted(PushOf(r, h, c, now));
    }
  }

  lemma RepeatStep(r: Rules, h: Sessions, outs: seq<Pushed>, c: ClipChunk, now: int, raw: Data, m: Manifest,
                   got: set<nat>)
    requires Progress(Look(h, m.session), outs, raw, m, got) && c.session == m.session
    requires c.totalChunks == m.totalChunks && c.totalRaw == m.totalRaw && c.index < m.totalChunks
    requires c.index in got || got == Below(m.totalChunks)
    ensures PushOf(r, h, c, now).None? && AfterAdd(h, c, now) == h && got + {c.index} == got
  {
  }

  lemma OthersAreUntouched(h: Sessions, c: ClipChunk, now: int, id: string)
    requires c.session != id
    ensures Look(AfterAdd(h, c, now), id) == Look(h, id)
  {
  }

  lemma {:induction false} ArrivalsProgress(r: Rules, h: Sessions, raw: Data, id: string, arrivals: seq<Arrival>,
                                            start: int)
    requires MAX_INLINE < |raw| <= MAX_TOTAL && r.image(raw) && TotalChunks(|raw|, CLIP_STRIDE) >= 1
    requires id in h && h[id] == Session(ManifestOf(r, id, raw), map[], 0, start) && Delivers(arrivals, id, raw)
    ensures Progress(Look(Run(h, arrivals), id), Pushes(r, h, arrivals, id), raw, ManifestOf(r, id, raw),
                     Arrived(arrivals, id))
  {
    if arrivals == [] {
      assert 0 in Below(TotalChunks(|raw|, CLIP_STRIDE));
    } else {
      var k := |arrivals| - 1;
      ArrivalsProgress(r, h, raw, id, arrivals[..k], start);
      ArrivedIsBelow(arrivals[..k], id, raw);
      var g, c := Run(h, arrivals[..k]), arrivals[k].chunk;
      if c.session == id {
        ImageChunkIsValid(c, raw, c.index);
        OwnStep(r, g, Pushes(r, h, arrivals[..k], id), c, arrivals[k].now, raw, id, Arrived(arrivals[..k], id));
      } else {
        OthersAreUntouched(g, c, arrivals[k].now, id);
      }
    }
  }

  /** Main result. After its manifest, an image's chunks may come in any order, any number of times and mixed with
      anything for other sessions: as soon as each has come once, the image has been handed on exactly once, byte
      for byte, and until then nothing has. */
  lemma DeliveredOnceInAnyOrder(r: Rules, h: Sessions, raw: Data, id: string, arrivals: seq<Arrival>, start: int)
    requires MAX_INLINE < |raw| <= MAX_TOTAL && r.image(raw) && TotalChunks(|raw|, CLIP_STRIDE) >= 1
    requires id in h && h[id] == Session(ManifestOf(r, id, raw), map[], 0, start) && Delivers(arrivals, id, raw)
    ensures Pushes(r, h, arrivals, id) ==
      if Arrived(arrivals, id) == Below(TotalChunks(|raw|, CLIP_STRIDE)) then [Pushed(ManifestOf(r, id, raw), raw)]
      else []
  {
    ArrivalsProgress(r, h, raw, id, arrivals, start);
  }

  // ---------------------------------------------------------------- safety, over every run of the hub

  /** A manifest comes with what the sweep before it leaves. */
  datatype HubEvent = ManifestIn(m: Manifest, at: int, swept: Sessions) | ChunkIn(c: ClipChunk, at: int)

  ghost predicate Legal(h: Sessions, e: HubEvent) {
    e.ManifestIn? && ValidManifest(e.m) ==> Swept(h, e.swept, e.at)
  }

  function HubStep(h: Sessions, e: HubEvent): Sessions {
    match e
    case ManifestIn(m, at, swept) =>
      if !ValidManifest(m) then h
      else if m.session in swept then swept
      else swept[m.session := Session(m, map[], 0, at)]
    case ChunkIn(c, at) => AfterAdd(h, c, at)
  }

  function HubRun(evs: seq<HubEvent>): Sessions {
    if evs == [] then map[] else HubStep(HubRun(evs[..|evs| - 1]), evs[|evs| - 1])
  }

  ghost predicate LegalRun(evs: seq<HubEvent>) {
    evs == [] || (LegalRun(evs[..|evs| - 1]) && Legal(HubRun(evs[..|evs| - 1]), evs[|evs| - 1]))
  }

  /** Everything the hub hands on in a run, with the session it was for. */
  function HubPushes(r: Rules, evs: seq<HubEvent>): seq<(string, Pushed)> {
    if evs == [] then []
    else
      var before, e := evs[..|evs| - 1], evs[|evs| - 1];
      if e.ManifestIn? || PushOf(r, HubRun(before), e.c, e.at).None? then HubPushes(r, before)
      else HubPushes(r, before) + [(e.c.session, PushOf(r, HubRun(before), e.c, e.at).value)]
  }

  /** The valid manifests that came in. */
  function Announced(evs: seq<HubEvent>): set<Manifest> {
    if evs == [] then {}
    else
      var e := evs[|evs| - 1];
      Announced(evs[..|evs| - 1]) + if e.ManifestIn? && ValidManifest(e.m) then {e.m} else {}
  }

  ghost predicate HubInv(h: Sessions, announced: set<Manifest>) {
    && |h| <= MAX_SESSIONS + 1
    && forall id :: id in h ==> h[id].manifest.session == id && h[id].manifest in announced
  }

  lemma SweptIsSmall(h: Sessions, t: Sessions, now: int)
    requires |h| <= MAX_SESSIONS + 1 && Swept(h, t, now)
    ensures |t| <= MAX_SESSIONS && forall id :: id in t ==> id in h && t[id] == h[id]
  {
    var live := map id | id in h && now - h[id].updated <= EXPIRY :: h[id];
    FewerKeys(live, h);
    if |live| > MAX_SESSIONS {
      var id :| id in live && (forall o :: o in live ==> live[id].updated <= live[o].updated) && t == live - {id};
      assert t.Keys == live.Keys - {id};
    }
  }

  lemma AddKeepsInv(h: Sessions, announced: set<Manifest>, c: ClipChunk, now: int)
    requires HubInv(h, announced)
    ensures HubInv(AfterAdd(h, c, now), announced)
  {
    var t := AfterAdd(h, c, now);
    assert t.Keys <= h.Keys;
    FewerKeys(t, h);
  }

  lemma HubStepKeepsInv(h: Sessions, announced: set<Manifest>, e: HubEvent)
    requires HubInv(h, announced) && Legal(h, e)
    ensures HubInv(HubStep(h, e), announced + if e.ManifestIn? && ValidManifest(e.m) then {e.m} else {})
  {
    if e.ChunkIn? {
      AddKeepsInv(h, announced, e.c, e.at);
    } else if ValidManifest(e.m) {
      SweptIsSmall(h, e.swept, e.at);
    }
  }

  /** At most nine sessions are ever open, each under the id and with a manifest that was announced. */
  lemma {:induction false} HubRunKeepsInv(evs: seq<HubEvent>)
    requires LegalRun(evs)
    ensures HubInv(HubRun(evs), Announced(evs))
  {
    if evs != [] {
      HubRunKeepsInv(evs[..|evs| - 1]);
      HubStepKeepsInv(HubRun(evs[..|evs| - 1]), Announced(evs[..|evs| - 1]), evs[|evs| - 1]);
    }
  }

  /** A push is what its session's manifest announced. */
  ghost predicate Genuine(r: Rules, id: string, p: Pushed, announced: set<Manifest>) {
    && p.manifest in announced && p.manifest.session == id && |p.data| == p.manifest.totalRaw
    && Download.EqualFold(r.hash(p.data), p.manifest.contentHash) && r.image(p.data)
  }

  lemma PushIsGenuine(r: Rules, h: Sessions, announced: set<Manifest>, c: ClipChunk, now: int)
    requires HubInv(h, announced) && PushOf(r, h, c, now).Some?
    ensures Genuine(r, c.session, PushOf(r, h, c, now).value, announced)
  {
  }

  /** Main result, safety. Over every run of manifests, sweeps and chunks, whatever arrives: everything handed on was
      announced by a valid manifest of its session, and has that manifest's length and hash. */
  lemma {:induction false} PushesMatchManifest(r: Rules, evs: seq<HubEvent>)
    requires LegalRun(evs)
    ensures forall i :: 0 <= i < |HubPushes(r, evs)| ==>
      Genuine(r, HubPushes(r, evs)[i].0, HubPushes(r, evs)[i].1, Announced(evs))
  {
    if evs != [] {
      var before, e := evs[..|evs| - 1], evs[|evs| - 1];
      PushesMatchManifest(r, before);
      HubRunKeepsInv(before);
      if e.ChunkIn? && PushOf(r, HubRun(before), e.c, e.at).Some? {
        PushIsGenuine(r, HubRun(before), Announced(before), e.c, e.at);
      }
    }
  }

  // ---------------------------------------------------------------- end to end

  /** An image that is too large to go inline announces itself by a valid manifest. */
  lemma ImageManifestIsValid(r: Rules, id: string, raw: Data)
    requires MAX_INLINE < |raw| <= MAX_TOTAL && |r.hash(raw)| == 64
    ensures TotalChunks(|raw|, CLIP_STRIDE) >= 2 && ValidManifest(ManifestOf(r, id, raw))
  {
    CountCoversFile(|raw|, CLIP_STRIDE);
  }

  /** Main result. From any state of the hub: an image's own manifest opens a session unless one of that id is open,
      and its chunks, in any order and any number, then hand the image on exactly once, byte for byte. */
  lemma ImageIsDelivered(
      r: Rules, h: Sessions, raw: Data, id: string, at: int, swept: Sessions, arrivals: seq<Arrival>)
    requires MAX_INLINE < |raw| <= MAX_TOTAL && |r.hash(raw)| == 64 && r.image(raw)
    requires Swept(h, swept, at) && id !in swept && Delivers(arrivals, id, raw)
    ensures TotalChunks(|raw|, CLIP_STRIDE) >= 2
    ensures var e := ManifestIn(ManifestOf(r, id, raw), at, swept);
      && Legal(h, e)
      && Pushes(r, HubStep(h, e), arrivals, id) ==
           if Arrived(arrivals, id) == Below(TotalChunks(|raw|, CLIP_STRIDE)) then [Pushed(ManifestOf(r, id, raw), raw)]
           else []
  {
    ImageManifestIsValid(r, id, raw);
    var e := ManifestIn(ManifestOf(r, id, raw), at, swept);
    DeliveredOnceInAnyOrder(r, HubStep(h, e), raw, id, arrivals, at);
  }

  /** What a sweep does to one session. It keeps its contents if it stays; an idle one goes; and an active one goes only
      when more than eight are active, as the only one, and none that stays was updated before it. */
  lemma SweptExactly(h: Sessions, t: Sessions, now: int, id: string)
    requires Swept(h, t, now) && id in h
    ensures id in t ==> t[id] == h[id] && now - h[id].updated <= 300
    ensures now - h[id].updated <= 300 && id !in t ==>
      && |t| >= 8
      && (forall o :: o in t ==> h[id].updated <= t[o].updated)
      && (forall o :: o in h && o != id && now - h[o].updated <= 300 ==> o in t)
  {
    var live := map o | o in h && now - h[o].updated <= EXPIRY :: h[o];
    if |live| > MAX_SESSIONS {
      var gone :| gone in live && (forall o :: o in live ==> live[gone].updated <= live[o].updated)
                  && t == live - {gone};
      assert t.Keys == live.Keys - {gone};
      assert |t| == |t.Keys| && |live| == |live.Keys|;
    }
  }

  /** A chunk that announces other totals than its session's manifest closes that session, and only that one; nothing is
      handed on. */
  lemma MismatchCloses(r: Rules, h: Sessions, c: ClipChunk, now: int, id: string)
    requires ValidChunk(c) && c.session in h && id in h
    requires c.totalChunks != h[c.session].manifest.totalChunks || c.totalRaw != h[c.session].manifest.totalRaw
    ensures Look(AfterAdd(h, c, now), id) == (if id == c.session then None else Some(h[id]))
    ensures PushOf(r, h, c, now) == None
  {
  }
}
