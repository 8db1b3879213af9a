/** The clipboard store: a hybrid logical clock orders copies made on both devices, and a bounded window of nonces
    catches redeliveries. */
module ClipStore {
  import opened Ints
  import opened Options
  import Dedup
  import opened Seqs
  import Origin

  // ---------------------------------------------------------------- stamps

  datatype Stamp = Stamp(l: int, c: int)

  predicate Less(a: Stamp, b: Stamp) {
    a.l < b.l || (a.l == b.l && a.c < b.c)
  }

  predicate AtMost(a: Stamp, b: Stamp) {
    a == b || Less(a, b)
  }

  /** CompareClipStamps */
  function Compare(a: Stamp, b: Stamp): (r: int)
    ensures (r == -1 <==> Less(a, b)) && (r == 0 <==> a == b) && (r == 1 <==> Less(b, a))
  {
    if a.l != b.l then (if a.l < b.l then -1 else 1)
    else if a.c != b.c then (if a.c < b.c then -1 else 1)
    else 0
  }

  /** RemoteClipWinsEx */
  predicate RemoteWins(local: Stamp, remote: Stamp)
    ensures RemoteWins(local, remote) <==> remote.l > 0 && Less(local, remote)
  {
    if remote.l <= 0 then false
    else if remote.l != local.l then remote.l > local.l
    else remote.c > local.c
  }

  /** ClipStampNext: always after what was stored. */
  function Next(stored: Stamp, wall: int): (n: Stamp)
    ensures Less(stored, n) && n.l >= wall
  {
    var w := if wall < 0 then 0 else wall;
    if w > stored.l then Stamp(w, 0)
    else Stamp(stored.l, stored.c + 1)
  }

  /** ClipStampOnReceive: always after both clocks. */
  function OnReceive(local: Stamp, remote: Stamp, wall: int): (n: Stamp)
    ensures Less(local, n) && Less(remote, n) && n.l >= wall
  {
    var l := Max(Max(local.l, remote.l), wall);
    Stamp(l,
          if l == local.l && l == remote.l then Max(local.c, remote.c) + 1
          else if l == local.l then local.c + 1
          else if l == remote.l then remote.c + 1
          else 0)
  }

  // ---------------------------------------------------------------- the store

  const NONCE_WINDOW: nat := 256

  datatype Clip = Text(text: string) | Image(b64: string, mime: string, filename: string)

  datatype Push = Push(nonce: string, stamp: Stamp, origin: string, clip: Clip, contentHash: string, sensitive: bool)

  /** The checks on content (size, mime, image magic) and its hash, which the store takes as given. */
  datatype Rules = Rules(sane: Clip -> bool, hash: Clip -> string)

  datatype Held = Held(clip: Clip, hash: string, origin: string, sensitive: bool)

  /** stamp: of the held clip, (0, 0) before there is one. noted: every nonce ever recorded. */
  datatype Store = Store(
    held: Option<Held>, stamp: Stamp, hlc: Stamp, pending: bool, lastHash: string, noted: seq<string>)

  function Empty(): Store {
    Store(None, Stamp(0, 0), Stamp(0, 0), false, "", [])
  }

  /** The stamp of a local copy. */
  function LocalStamp(s: Store, wall: int): Stamp {
    var stored := if s.held.Some? && Less(s.hlc, s.stamp) then s.stamp else s.hlc;
    Next(stored, Max(Max(wall, 0), s.stamp.l))
  }

  /** SetLocalWithMeta and SetLocalImageWithMeta; the clip is already canonical. */
  function SetLocal(r: Rules, s: Store, clip: Clip, wall: int, sensitive: bool): Store {
    if !r.sane(clip) || (s.held.Some? && s.held.value.clip == clip) then s
    else
      var stamp := LocalStamp(s, wall);
      Store(Some(Held(clip, r.hash(clip), "mac", sensitive)), stamp, stamp, true, r.hash(clip), s.noted)
  }

  predicate ValidPush(r: Rules, p: Push) {
    p.nonce != "" && p.stamp.l >= 0 && p.stamp.c >= 0 && r.sane(p.clip)
  }

  predicate Repeated(s: Store, p: Push) {
    p.nonce in Last(s.noted, NONCE_WINDOW)
  }

  /** Dropped although its stamp would win: an echo of a Mac copy, or content that is already there. */
  predicate Echo(s: Store, p: Push) {
    Origin.Normalize(p.origin) == "mac" || (p.contentHash != "" && p.contentHash == s.lastHash && s.held.Some?)
  }

  predicate Adopts(r: Rules, s: Store, p: Push) {
    ValidPush(r, p) && !Repeated(s, p) && RemoteWins(s.stamp, p.stamp) && !Echo(s, p)
  }

  function ApplyRemote(r: Rules, s: Store, p: Push): Store {
    if !ValidPush(r, p) || Repeated(s, p) then s
    else if !Adopts(r, s, p) then s.(noted := s.noted + [p.nonce])
    else
      var hash := if p.contentHash != "" then p.contentHash else r.hash(p.clip);
      var origin := Origin.Normalize(p.origin);
      Store(Some(Held(p.clip, hash, if origin == "" then "android" else origin, p.sensitive)), p.stamp,
            OnReceive(s.hlc, p.stamp, p.stamp.l), false, hash, s.noted + [p.nonce])
  }

  class Clipboard {
    const rules: Rules
    var held: Option<Held>
    var changedAt: int
    var changedC: int
    var hlc: Stamp
    var pending: bool
    var lastHash: string
    var seen: set<string>
    var seenOrder: seq<string>
    ghost var noted: seq<string>

    ghost predicate Valid()
      reads this
    {
      && seenOrder == Last(noted, NONCE_WINDOW) && Distinct(seenOrder)
      && seen == Dedup.Keys(seenOrder) && Dedup.History(noted, NONCE_WINDOW)
    }

    ghost function View(): Store
      reads this
    {
      Store(held, Stamp(changedAt, changedC), hlc, pending, lastHash, noted)
    }

    constructor (rules: Rules)
      ensures Valid() && View() == Empty() && this.rules == rules
    {
      this.rules := rules;
      held, changedAt, changedC, hlc, pending, lastHash := None, 0, 0, Stamp(0, 0), false, "";
      seen, seenOrder, noted := {}, [], [];
    }

    /** nextStampLocked */
    method NextStamp(wallHint: int) returns (next: Stamp)
      modifies this`hlc
      ensures next == LocalStamp(old(View()), wallHint) && hlc == next
    {
      var wall := if wallHint < 0 then 0 else wallHint;
      if wall <= changedAt {
        wall := changedAt;
      }
      var stored := hlc;
      if held.Some? && (changedAt > stored.l || (changedAt == stored.l && changedC > stored.c)) {
        stored := Stamp(changedAt, changedC);
      }
      next := Next(stored, wall);
      hlc := next;
    }

    /** noteSeenLocked: the window holds the last 256 different nonces. */
    method NoteSeen(nonce: string) returns (dup: bool)
      requires Valid()
      modifies this`seen, this`seenOrder, this`noted
      ensures Valid()
      ensures dup <==> nonce != "" && nonce in Last(old(noted), NONCE_WINDOW)
      ensures noted == if nonce == "" || dup then old(noted) else old(noted) + [nonce]
    {
      if nonce == "" {
        return false;
      }
      if nonce in seen {
        return true;
      }
      Dedup.KeysOfSnoc(seenOrder, nonce);
      Dedup.LastOfSnoc(noted, NONCE_WINDOW, nonce);
      Dedup.HistoryGrows(noted, NONCE_WINDOW, nonce);
      seen := seen + {nonce};
      seenOrder := seenOrder + [nonce];
      noted := noted + [nonce];
      if |seenOrder| > NONCE_WINDOW {
        Dedup.KeysOfTail(seenOrder, 0);
        assert seenOrder[0..] == seenOrder;
        seen := seen - {seenOrder[0]};
        seenOrder := seenOrder[1..];
      }
      dup := false;
    }

    /** SetLocalWithMeta and SetLocalImageWithMeta */
    method CopyLocal(clip: Clip, wall: int, sensitive: bool) returns (ok: bool)
      requires Valid()
      modifies this`held, this`changedAt, this`changedC, this`hlc, this`pending, this`lastHash
      ensures Valid() && View() == SetLocal(rules, old(View()), clip, wall, sensitive)
      ensures ok <==> rules.sane(clip)
    {
      if !rules.sane(clip) {
        return false;
      }
      if held.Some? && held.value.clip == clip {
        return true;
      }
      var stamp := NextStamp(wall);
      held := Some(Held(clip, rules.hash(clip), "mac", sensitive));
      changedAt, changedC, pending := stamp.l, stamp.c, true;
      lastHash := rules.hash(clip);
      ok := true;
    }

    method ReceivePush(p: Push) returns (adopted: bool)
      requires Valid()
      modifies this
      ensures Valid() && View() == ApplyRemote(rules, old(View()), p)
      ensures adopted <==> Adopts(rules, old(View()), p)
    {
      if p.nonce == "" || p.stamp.l < 0 || p.stamp.c < 0 || !rules.sane(p.clip) {
        return false;
      }
      var dup := NoteSeen(p.nonce);
      if dup || !RemoteWins(Stamp(changedAt, changedC), p.stamp) {
        return false;
      }
      var origin := Origin.Normalize(p.origin);
      if origin == "" {
        origin := "android";
      }
      if origin == "mac" {
        return false;
      }
      if p.contentHash != "" && p.contentHash == lastHash && held.Some? {
        return false;
      }
      Adopt(p, origin);
      adopted := true;
    }

    method Adopt(p: Push, origin: string)
      modifies this`held, this`changedAt, this`changedC, this`hlc, this`pending, this`lastHash
      ensures lastHash == (if p.contentHash != "" then p.contentHash else rules.hash(p.clip))
      ensures held == Some(Held(p.clip, lastHash, origin, p.sensitive))
      ensures changedAt == p.stamp.l && changedC == p.stamp.c && !pending
      ensures hlc == OnReceive(old(hlc), p.stamp, p.stamp.l)
    {
      lastHash := if p.contentHash != "" then p.contentHash else rules.hash(p.clip);
      held := Some(Held(p.clip, lastHash, origin, p.sensitive));
      changedAt, changedC, pending := p.stamp.l, p.stamp.c, false;
      hlc := OnReceive(hlc, p.stamp, p.stamp.l);
    }

    /** TakePending: the held clip, once. */
    method TakePending() returns (out: Option<Held>)
      modifies this`pending
      ensures View() == Step(rules, old(View()), Taken)
      ensures out == (if old(pending) then held else None)
    {
      if !pending || held.None? {
        return None;
      }
      pending := false;
      out := held;
    }
  }

  // ---------------------------------------------------------------- stamps over every run

  datatype Event = Local(clip: Clip, wall: int, sensitive: bool) | Remote(push: Push) | Taken

  function Step(r: Rules, s: Store, e: Event): Store {
    match e
    case Local(clip, wall, sensitive) => SetLocal(r, s, clip, wall, sensitive)
    case Remote(p) => ApplyRemote(r, s, p)
    case Taken => s.(pending := s.pending && s.held.None?)
  }

  function Run(r: Rules, evs: seq<Event>): Store {
    if evs == [] then Empty() else Step(r, Run(r, evs[..|evs| - 1]), evs[|evs| - 1])
  }

  /** The clock never lags behind the held clip. */
  ghost predicate Inv(s: Store) {
    && AtMost(s.stamp, s.hlc) && (s.held.None? ==> s.stamp == Stamp(0, 0))
    && s.stamp.c >= 0 && s.stamp.l >= 0 && s.hlc.c >= 0
  }

  /** Every step keeps that, and either leaves clip and stamp alone or moves the stamp strictly forward. */
  lemma StepAdvances(r: Rules, s: Store, e: Event)
    requires Inv(s)
    ensures var t := Step(r, s, e);
      && Inv(t) && AtMost(s.hlc, t.hlc)
      && ((t.held == s.held && t.stamp == s.stamp) || Less(s.stamp, t.stamp))
  {
    if e.Local? {
      var stamp := LocalStamp(s, e.wall);
      assert Less(s.hlc, stamp) && Less(s.stamp, stamp);
    }
  }

  lemma {:induction false} RunKeepsInv(r: Rules, evs: seq<Event>)
    ensures Inv(Run(r, evs))
  {
    if evs != [] {
      RunKeepsInv(r, evs[..|evs| - 1]);
      StepAdvances(r, Run(r, evs[..|evs| - 1]), evs[|evs| - 1]);
    }
  }

  /** Main result. Over every run of copies and pushes, the held stamp and the clock never regress, and between two
      moments of the run either the clip was never touched or the stamp has strictly grown. */
  lemma {:induction false} StampsNeverRegress(r: Rules, evs: seq<Event>, i: nat)
    requires i <= |evs|
    ensures var a, b := Run(r, evs[..i]), Run(r, evs);
      && AtMost(b.stamp, b.hlc) && AtMost(a.hlc, b.hlc)
      && ((b.held == a.held && b.stamp == a.stamp) || Less(a.stamp, b.stamp))
    decreases |evs|
  {
    RunKeepsInv(r, evs);
    if i == |evs| {
      assert evs[..i] == evs;
    } else {
      var k := |evs| - 1;
      assert evs[..k][..i] == evs[..i];
      StampsNeverRegress(r, evs[..k], i);
      RunKeepsInv(r, evs[..k]);
      StepAdvances(r, Run(r, evs[..k]), evs[k]);
    }
  }

  /** Event i of the run is a push that was adopted. */
  ghost predicate AdoptedAt(r: Rules, evs: seq<Event>, i: nat)
    requires i < |evs|
  {
    evs[i].Remote? && Adopts(r, Run(r, evs[..i]), evs[i].push)
  }

  /** An adopted push is what is held afterwards: its content, its stamp, its hash or else the content's, its side,
      and nothing left to send. */
  lemma AdoptedIsHeld(r: Rules, evs: seq<Event>, i: nat)
    requires i < |evs| && AdoptedAt(r, evs, i)
    ensures Run(r, evs[..i + 1]).stamp == evs[i].push.stamp && Less(Run(r, evs[..i]).stamp, evs[i].push.stamp)
    ensures var p, t := evs[i].push, Run(r, evs[..i + 1]);
      && t.held.Some? && t.held.value.clip == p.clip && t.held.value.sensitive == p.sensitive && !t.pending
      && t.held.value.hash == t.lastHash
      && t.lastHash == (if p.contentHash == "" then r.hash(p.clip) else p.contentHash)
      && t.held.value.origin != "mac" && t.held.value.origin != ""
      && (Origin.Normalize(p.origin) != "" ==> t.held.value.origin == Origin.Normalize(p.origin))
      && p.nonce in Last(t.noted, NONCE_WINDOW)
  {
    assert evs[..i + 1][..i] == evs[..i];
    var t := Run(r, evs[..i + 1]);
    Dedup.LastOfSnoc(Run(r, evs[..i]).noted, NONCE_WINDOW, evs[i].push.nonce);
    assert t.noted == Run(r, evs[..i]).noted + [evs[i].push.nonce];
    assert t.noted[|t.noted| - 1] == evs[i].push.nonce;
  }

  /** A local copy of something else is what is held afterwards: from the Mac, still to be sent, under a stamp later
      than the held one and the clock. */
  lemma LocalIsHeld(r: Rules, evs: seq<Event>, i: nat)
    requires i < |evs| && evs[i].Local? && r.sane(evs[i].clip)
    requires var s := Run(r, evs[..i]); s.held.Some? ==> s.held.value.clip != evs[i].clip
    ensures var e, s, t := evs[i], Run(r, evs[..i]), Run(r, evs[..i + 1]);
      && t.held == Some(Held(e.clip, r.hash(e.clip), "mac", e.sensitive)) && t.pending
      && t.lastHash == r.hash(e.clip) && t.noted == s.noted
      && t.hlc == t.stamp && Less(s.stamp, t.stamp) && Less(s.hlc, t.stamp) && t.stamp.l >= e.wall
  {
    assert evs[..i + 1][..i] == evs[..i];
    RunKeepsInv(r, evs[..i]);
  }

  /** A local stamp is the least one that is later than what was stored and not before the wall clock. */
  lemma NextIsLeast(stored: Stamp, wall: int, other: Stamp)
    requires stored.c >= 0 && Less(stored, other) && other.l >= Max(wall, 0) && other.c >= 0
    ensures AtMost(Next(stored, wall), other)
  {
  }

  lemma OnReceiveIsLeast(local: Stamp, remote: Stamp, wall: int, other: Stamp)
    requires Less(local, other) && Less(remote, other) && other.l >= wall && other.c >= 0
    ensures AtMost(OnReceive(local, remote, wall), other)
  {
  }

  /** Main result. The stamps of adopted pushes strictly grow along the run, so no remote stamp is adopted twice,
      not even when its nonce has long left the window. */
  lemma AdoptedAtMostOnce(r: Rules, evs: seq<Event>, i: nat, j: nat)
    requires i < j < |evs| && AdoptedAt(r, evs, i) && AdoptedAt(r, evs, j)
    ensures Less(evs[i].push.stamp, evs[j].push.stamp)
  {
    AdoptedIsHeld(r, evs, i);
    AdoptedIsHeld(r, evs, j);
    StampsNeverRegress(r, evs[..j], i + 1);
    assert evs[..j][..i + 1] == evs[..i + 1];
  }

  // ---------------------------------------------------------------- what waits to be sent

  /** Event i of the run is a local copy of something new. */
  ghost predicate CopiedAt(r: Rules, evs: seq<Event>, i: nat)
    requires i < |evs|
  {
    && evs[i].Local? && r.sane(evs[i].clip)
    && var s := Run(r, evs[..i]); (s.held.Some? ==> s.held.value.clip != evs[i].clip)
  }

  /** A local copy was made, and since then neither taken for sending nor replaced from the phone. */
  ghost predicate CopyWaits(r: Rules, evs: seq<Event>) {
    exists i :: 0 <= i < |evs| && CopiedAt(r, evs, i) && Undisturbed(r, evs, i)
  }

  ghost predicate Undisturbed(r: Rules, evs: seq<Event>, i: nat) {
    forall j :: i < j < |evs| ==> !evs[j].Taken? && !AdoptedAt(r, evs, j)
  }

  lemma SameBefore(r: Rules, evs: seq<Event>, k: nat, i: nat)
    requires i < k <= |evs|
    ensures CopiedAt(r, evs[..k], i) <==> CopiedAt(r, evs, i)
    ensures AdoptedAt(r, evs[..k], i) <==> AdoptedAt(r, evs, i)
  {
    assert evs[..k][..i] == evs[..i];
  }

  /** A copy that still waits after event k has waited before it, unless it is event k itself. */
  lemma WaitedBefore(r: Rules, evs: seq<Event>, k: nat)
    requires k + 1 == |evs| && CopyWaits(r, evs) && !CopiedAt(r, evs, k)
    ensures CopyWaits(r, evs[..k]) && !evs[k].Taken? && !AdoptedAt(r, evs, k)
  {
    var i :| 0 <= i < |evs| && CopiedAt(r, evs, i) && Undisturbed(r, evs, i);
    SameBefore(r, evs, k, i);
    forall j | i < j < k ensures !evs[..k][j].Taken? && !AdoptedAt(r, evs[..k], j) {
      SameBefore(r, evs, k, j);
    }
    assert Undisturbed(r, evs[..k], i);
  }

  lemma WaitsOn(r: Rules, evs: seq<Event>, k: nat)
    requires k + 1 == |evs| && CopyWaits(r, evs[..k]) && !evs[k].Taken? && !AdoptedAt(r, evs, k)
    ensures CopyWaits(r, evs)
  {
    var i :| 0 <= i < k && CopiedAt(r, evs[..k], i) && Undisturbed(r, evs[..k], i);
    SameBefore(r, evs, k, i);
    forall j | i < j < |evs| ensures !evs[j].Taken? && !AdoptedAt(r, evs, j) {
      if j < k {
        SameBefore(r, evs, k, j);
        assert !evs[..k][j].Taken?;
      }
    }
    assert Undisturbed(r, evs, i);
  }

  lemma CopyWaitsStep(r: Rules, evs: seq<Event>, k: nat)
    requires k + 1 == |evs|
    ensures CopyWaits(r, evs) <==>
      CopiedAt(r, evs, k) || (CopyWaits(r, evs[..k]) && !evs[k].Taken? && !AdoptedAt(r, evs, k))
  {
    if CopiedAt(r, evs, k) {
      assert Undisturbed(r, evs, k);
    } else if CopyWaits(r, evs) {
      WaitedBefore(r, evs, k);
    } else if CopyWaits(r, evs[..k]) && !evs[k].Taken? && !AdoptedAt(r, evs, k) {
      WaitsOn(r, evs, k);
      assert false;
    }
  }

  /** Main result. Over every run, a clip waits to be sent exactly when the last thing that happened to it was a local
      copy: made, not yet taken, and not replaced from the phone. */
  lemma {:induction false} PendingExactly(r: Rules, evs: seq<Event>)
    ensures Run(r, evs).pending <==> CopyWaits(r, evs)
    ensures Run(r, evs).pending ==> Run(r, evs).held.Some?
  {
    if evs != [] {
      PendingExactly(r, evs[..|evs| - 1]);
      CopyWaitsStep(r, evs, |evs| - 1);
    }
  }

  // ---------------------------------------------------------------- local copies after a push

  /** A local copy made after a push is stamped later than it exactly when the clock has reached the push's stamp
      or the wall clock is past it. */
  lemma NextLocalExceedsExactly(s: Store, p: Push, wall: int)
    requires Inv(s) && p.stamp.l >= 0 && p.stamp.c >= 0
    ensures Less(p.stamp, LocalStamp(s, wall)) <==> AtMost(p.stamp, s.hlc) || wall > p.stamp.l
  {
  }

  /** A push that is processed and is no echo brings the clock to its stamp: it is adopted and absorbed, or it loses to
      a stamp that the clock has already reached. The one exception is a stamp of time zero, which never wins. */
  lemma ReceivedIsAbsorbedExactly(r: Rules, s: Store, p: Push)
    requires Inv(s) && ValidPush(r, p) && !Repeated(s, p) && !Echo(s, p)
    ensures AtMost(p.stamp, ApplyRemote(r, s, p).hlc) <==> p.stamp.l > 0 || AtMost(p.stamp, s.hlc)
  {
  }

  /** An echo is not absorbed. Holding some content at second 5, refusing the same content stamped at second 9, and
      then copying something else at second 7 mints a stamp that the phone will refuse as older than its own. */
  lemma EchoIsNotAbsorbed(r: Rules, a: Clip, b: Clip, nonce: string)
    requires r.sane(a) && r.sane(b) && a != b && nonce != "" && r.hash(a) != ""
    ensures var p := Push(nonce, Stamp(9, 0), "android", a, r.hash(a), false);
      var s := Run(r, [Local(a, 5, false), Remote(p), Local(b, 7, false)]);
      s.held.Some? && s.held.value.clip == b && s.stamp == Stamp(7, 0) && Less(s.stamp, p.stamp)
  {
    var p := Push(nonce, Stamp(9, 0), "android", a, r.hash(a), false);
    RunOfThree(r, Local(a, 5, false), Remote(p), Local(b, 7, false));
    var s1 := Step(r, Empty(), Local(a, 5, false));
    assert s1 == Store(Some(Held(a, r.hash(a), "mac", false)), Stamp(5, 0), Stamp(5, 0), true, r.hash(a), []);
    var s2 := Step(r, s1, Remote(p));
    assert Echo(s1, p);
    assert s2 == s1.(noted := [nonce]) || s2 == s1;
  }

  lemma RunOfThree(r: Rules, a: Event, b: Event, c: Event)
    ensures Run(r, [a, b, c]) == Step(r, Step(r, Step(r, Empty(), a), b), c)
  {
    RunSnoc(r, [], a);
    RunSnoc(r, [a], b);
    RunSnoc(r, [a, b], c);
    assert [] + [a] == [a] && [a] + [b] == [a, b] && [a, b] + [c] == [a, b, c];
  }

  lemma RunSnoc(r: Rules, evs: seq<Event>, e: Event)
    ensures Run(r, evs + [e]) == Step(r, Run(r, evs), e)
  {
    assert (evs + [e])[..|evs|] == evs;
  }
}
