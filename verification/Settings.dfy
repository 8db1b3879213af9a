/** Synchronised settings: the newest blob wins, and the Mac wins ties. */
module Settings {
  import opened Options
  import FilterList
  import Origin

  /** The four enumerated choices. */
  datatype Modes = Modes(clipboard: string, notif: string, playback: string, output: string)

  datatype Blob = Blob(
    notifications: Option<bool>, allowSensitive: Option<bool>, modes: Modes, muted: seq<string>, allowed: seq<string>,
    updatedUnix: int, updatedBy: string)

  datatype AppSettings = AppSettings(
    notifications: bool, allowSensitive: bool, modes: Modes, muted: seq<string>, allowed: seq<string>,
    updatedUnix: int, updatedBy: string)

  /** How a package name is cleaned and the modes are canonicalised. */
  datatype Rules = Rules(clean: string -> string, canonical: Modes -> Modes)

  /** SanitizeSettings, for a blob whose timestamp is not negative. */
  function Sanitized(r: Rules, b: Blob): Blob {
    b.(updatedBy := Origin.Normalize(b.updatedBy), modes := r.canonical(b.modes),
       muted := FilterList.Sanitize(r.clean, b.muted), allowed := FilterList.Sanitize(r.clean, b.allowed))
  }

  predicate IsMac(side: string) {
    Origin.Normalize(side) == "mac"
  }

  /** RemoteSettingsWins */
  predicate RemoteWins(localUnix: int, localBy: string, remoteUnix: int, remoteBy: string) {
    if remoteUnix != localUnix then remoteUnix > localUnix
    else if IsMac(remoteBy) != IsMac(localBy) then IsMac(remoteBy)
    else false
  }

  /** The settings after adopting a blob: a switch that the blob leaves out keeps its value. */
  function Adopted(r: Rules, cur: AppSettings, b: Blob): AppSettings {
    var s := Sanitized(r, b);
    AppSettings(if s.notifications.Some? then s.notifications.value else cur.notifications,
                if s.allowSensitive.Some? then s.allowSensitive.value else cur.allowSensitive,
                s.modes, s.muted, s.allowed, s.updatedUnix, Origin.Normalize(s.updatedBy))
  }

  predicate Adopts(r: Rules, cur: AppSettings, b: Blob) {
    b.updatedUnix >= 0 && RemoteWins(cur.updatedUnix, cur.updatedBy, b.updatedUnix, Sanitized(r, b).updatedBy)
  }

  function Apply(r: Rules, cur: AppSettings, b: Blob): AppSettings {
    if Adopts(r, cur, b) then Adopted(r, cur, b) else cur
  }

  class SettingsStore {
    const rules: Rules
    var cur: AppSettings
    var pending: bool

    constructor (rules: Rules, cur: AppSettings)
      ensures this.rules == rules && this.cur == cur && !pending
    {
      this.rules, this.cur, pending := rules, cur, false;
    }

    method ApplyRemote(b: Blob) returns (adopted: bool)
      modifies this
      ensures cur == Apply(rules, old(cur), b)
      ensures adopted <==> Adopts(rules, old(cur), b)
      ensures pending == (old(pending) && !adopted)
    {
      if b.updatedUnix < 0 {
        return false;
      }
      var muted := FilterList.SanitizeList(rules.clean, b.muted);
      var allowed := FilterList.SanitizeList(rules.clean, b.allowed);
      var side := Origin.Normalize(b.updatedBy);
      if !RemoteWins(cur.updatedUnix, cur.updatedBy, b.updatedUnix, side) {
        return false;
      }
      if b.notifications.Some? {
        cur := cur.(notifications := b.notifications.value);
      }
      if b.allowSensitive.Some? {
        cur := cur.(allowSensitive := b.allowSensitive.value);
      }
      cur := cur.(modes := rules.canonical(b.modes), muted := muted, allowed := allowed);
      cur := cur.(updatedUnix := b.updatedUnix, updatedBy := Origin.Normalize(side));
      pending := false;
      adopted := true;
    }
  }

  // ---------------------------------------------------------------- the order behind it

  /** Twice the timestamp, plus one for the Mac: winning is having the larger key. */
  function Key(unix: int, side: string): int {
    2 * unix + if IsMac(side) then 1 else 0
  }

  function KeyOf(s: AppSettings): int {
    Key(s.updatedUnix, s.updatedBy)
  }

  function BlobKey(b: Blob): int {
    Key(b.updatedUnix, b.updatedBy)
  }

  lemma WinningIsLargerKey(localUnix: int, localBy: string, remoteUnix: int, remoteBy: string)
    ensures RemoteWins(localUnix, localBy, remoteUnix, remoteBy) <==>
            Key(localUnix, localBy) < Key(remoteUnix, remoteBy)
  {
  }

  lemma AdoptsExactly(r: Rules, cur: AppSettings, b: Blob)
    ensures Adopts(r, cur, b) <==> b.updatedUnix >= 0 && KeyOf(cur) < BlobKey(b)
    ensures Adopts(r, cur, b) ==> KeyOf(Apply(r, cur, b)) == BlobKey(b)
  {
    Origin.NormalizeIsIdempotent(b.updatedBy);
    Origin.NormalizeIsIdempotent(Origin.Normalize(b.updatedBy));
    WinningIsLargerKey(cur.updatedUnix, cur.updatedBy, b.updatedUnix, Sanitized(r, b).updatedBy);
  }

  /** What an adopted blob leaves behind, item by item: each switch it names, its modes, its time and side, and in each
      list its own apps, sorted and no others; with at most a hundred, all of them. */
  lemma AdoptedSaysWhatTheBlobSays(r: Rules, cur: AppSettings, b: Blob)
    requires Adopts(r, cur, b)
    ensures var t := Apply(r, cur, b);
      && t.notifications == (if b.notifications == None then cur.notifications else b.notifications.value)
      && t.allowSensitive == (if b.allowSensitive == None then cur.allowSensitive else b.allowSensitive.value)
      && t.modes == r.canonical(b.modes) && t.updatedUnix == b.updatedUnix
      && t.updatedBy == Origin.Normalize(b.updatedBy)
      && IsListOf(r, t.muted, b.muted) && IsListOf(r, t.allowed, b.allowed)
  {
    Origin.NormalizeIsIdempotent(b.updatedBy);
    Origin.NormalizeIsIdempotent(Origin.Normalize(b.updatedBy));
    SanitizedIsListOf(r, b.muted);
    SanitizedIsListOf(r, b.allowed);
  }

  lemma SanitizedIsListOf(r: Rules, names: seq<string>)
    ensures IsListOf(r, FilterList.Sanitize(r.clean, names), names)
  {
    var list := FilterList.Sanitize(r.clean, names);
    FilterList.SanitizedIsCanonical(r.clean, names);
    forall app | app in list ensures app != "" && exists n :: n in names && r.clean(n) == app {
      assert app in FilterList.Names(list);
      assert app in FilterList.Cleaned(r.clean, names);
    }
    if |FilterList.Cleaned(r.clean, names)| <= FilterList.MAX_APPS {
      forall n | n in names && r.clean(n) != "" ensures r.clean(n) in list {
        assert r.clean(n) in FilterList.Cleaned(r.clean, names);
        assert r.clean(n) in FilterList.Names(list);
      }
    }
  }

  /** The apps that the names stand for, in order and at most a hundred of them. */
  ghost predicate IsListOf(r: Rules, list: seq<string>, names: seq<string>) {
    && FilterList.StrictlySorted(list) && |list| <= FilterList.MAX_APPS
    && (forall app :: app in list ==> app != "" && exists n :: n in names && r.clean(n) == app)
    && (|FilterList.Cleaned(r.clean, names)| <= FilterList.MAX_APPS ==>
          forall n :: n in names && r.clean(n) != "" ==> r.clean(n) in list)
  }

  // ---------------------------------------------------------------- convergence

  function ApplyAll(r: Rules, cur: AppSettings, blobs: seq<Blob>): AppSettings {
    if blobs == [] then cur else Apply(r, ApplyAll(r, cur, blobs[..|blobs| - 1]), blobs[|blobs| - 1])
  }

  /** Blobs that carry both optional switches, and whose key determines what they say. */
  ghost predicate Coherent(r: Rules, blobs: set<Blob>) {
    && (forall b :: b in blobs ==> b.notifications.Some? && b.allowSensitive.Some?)
    && (forall a, b :: a in blobs && b in blobs && BlobKey(a) == BlobKey(b) ==> Sanitized(r, a) == Sanitized(r, b))
  }

  /** Blob b has been adopted last, and no valid blob has a larger key. */
  ghost predicate IsWinner(r: Rules, cur: AppSettings, blobs: set<Blob>, s: AppSettings, b: Blob) {
    && b in blobs && b.updatedUnix >= 0 && KeyOf(cur) < BlobKey(b) && s == Adopted(r, cur, b)
    && forall o :: o in blobs && o.updatedUnix >= 0 ==> BlobKey(o) <= BlobKey(b)
  }

  /** No blob is valid and newer than the start. */
  ghost predicate NoneWins(cur: AppSettings, blobs: set<Blob>) {
    forall o :: o in blobs && o.updatedUnix >= 0 ==> BlobKey(o) <= KeyOf(cur)
  }

  function Blobs(s: seq<Blob>): set<Blob> {
    set b | b in s
  }

  lemma BlobsOfSnoc(s: seq<Blob>)
    requires s != []
    ensures Blobs(s) == Blobs(s[..|s| - 1]) + {s[|s| - 1]}
  {
    assert s == s[..|s| - 1] + [s[|s| - 1]];
  }

  lemma FullBlobIgnoresCurrent(r: Rules, a: AppSettings, c: AppSettings, b: Blob)
    requires b.notifications.Some? && b.allowSensitive.Some?
    ensures Adopted(r, a, b) == Adopted(r, c, b)
  {
  }

  /** Main result. Whatever the order and however often each blob arrives, the settings end as the blob with the
      largest (time, side) key, sanitized, or stay as they were when none is newer. */
  lemma {:induction false} EndsAtTheLargestKey(r: Rules, cur: AppSettings, blobs: seq<Blob>)
    returns (winner: Option<Blob>)
    requires Coherent(r, Blobs(blobs))
    ensures winner.Some? ==> IsWinner(r, cur, Blobs(blobs), ApplyAll(r, cur, blobs), winner.value)
    ensures winner.None? ==> NoneWins(cur, Blobs(blobs)) && ApplyAll(r, cur, blobs) == cur
    ensures KeyOf(ApplyAll(r, cur, blobs)) == if winner.Some? then BlobKey(winner.value) else KeyOf(cur)
  {
    if blobs == [] {
      return None;
    }
    var k := |blobs| - 1;
    BlobsOfSnoc(blobs);
    winner := EndsAtTheLargestKey(r, cur, blobs[..k]);
    var s := ApplyAll(r, cur, blobs[..k]);
    AdoptsExactly(r, s, blobs[k]);
    if Adopts(r, s, blobs[k]) {
      FullBlobIgnoresCurrent(r, s, cur, blobs[k]);
      winner := Some(blobs[k]);
    }
  }

  /** Main result. So two stores that receive the same blobs, in different orders and with different repeats, end
      with the same settings. */
  lemma SettingsConverge(r: Rules, cur: AppSettings, a: seq<Blob>, b: seq<Blob>)
    requires Blobs(a) == Blobs(b) && Coherent(r, Blobs(a))
    ensures ApplyAll(r, cur, a) == ApplyAll(r, cur, b)
  {
    var x := EndsAtTheLargestKey(r, cur, a);
    var y := EndsAtTheLargestKey(r, cur, b);
    if x.Some? && y.Some? {
      assert Sanitized(r, x.value) == Sanitized(r, y.value);
    }
  }

  /** The switches are needed: a later blob that leaves one out lets an earlier one show through, in one order but
      not in the other. The two orders of two winning blobs agree exactly when that makes no difference. */
  lemma TwoOrdersAgreeExactly(r: Rules, cur: AppSettings, a: Blob, b: Blob)
    requires 0 <= a.updatedUnix && 0 <= b.updatedUnix && KeyOf(cur) < BlobKey(a) < BlobKey(b)
    ensures Apply(r, Apply(r, cur, a), b) == Apply(r, Apply(r, cur, b), a) <==>
      && (b.notifications.Some? || a.notifications.None? || a.notifications.value == cur.notifications)
      && (b.allowSensitive.Some? || a.allowSensitive.None? || a.allowSensitive.value == cur.allowSensitive)
  {
    AdoptsExactly(r, cur, a);
    AdoptsExactly(r, Apply(r, cur, a), b);
    AdoptsExactly(r, cur, b);
    AdoptsExactly(r, Apply(r, cur, b), a);
  }
}
