/** What a drop feeds, told from the local tree alone: every reached file and folder with an accepted path, each exactly
    once, and hence what a finished upload has put on the wire. */
module UploadFeed {
  import opened Options
  import opened Sums
  import opened RemotePath
  import opened UploadGate
  import GoText
  import CleanPath
  import UploadPool
  import UploadOrder

  // ---------------------------------------------------------------- places in a tree

  /** A place below an entry: which child, which child of that, and so on; [] is the entry itself. */
  type Place = seq<nat>

  function NodeAt(e: Entry, q: Place): Option<Entry>
    decreases |q|
  {
    if q == [] then Some(e)
    else if e.Dir? && q[0] < |e.children| then NodeAt(e.children[q[0]], q[1..])
    else None
  }

  /** The names on the way down to a place, the entry's own left out. */
  function NamesTo(e: Entry, q: Place): seq<string>
    requires NodeAt(e, q).Some?
    decreases |q|
  {
    if q == [] then [] else [e.children[q[0]].name] + NamesTo(e.children[q[0]], q[1..])
  }

  function Joined(base: string, names: seq<string>): string
    decreases |names|
  {
    if names == [] then base else Joined(base + "/" + names[0], names[1..])
  }

  /** Every place below an entry. */
  ghost function Places(e: Entry): (ps: set<Place>)
    ensures forall q :: q in ps <==> NodeAt(e, q).Some?
  {
    if e.File? then {[]}
    else
      var inner := set i, q | 0 <= i < |e.children| && q in Places(e.children[i]) :: [i] + q;
      PlacesBelow(e, inner);
      {[]} + inner
  }

  lemma PlacesBelow(e: Entry, inner: set<Place>)
    requires e.Dir?
    requires forall q :: q in inner <==>
      exists i, p :: 0 <= i < |e.children| && NodeAt(e.children[i], p).Some? && q == [i] + p
    ensures forall q :: q != [] ==> (q in inner <==> NodeAt(e, q).Some?)
    ensures [] !in inner
  {
    forall q: Place | q != [] ensures q in inner <==> NodeAt(e, q).Some? {
      assert q == [q[0]] + q[1..];
      if q in inner {
        var i, p :| 0 <= i < |e.children| && NodeAt(e.children[i], p).Some? && q == [i] + p;
        assert q[1..] == p;
      }
    }
  }

  // ---------------------------------------------------------------- what is due for a place

  /** An accepted folder is announced, an accepted file is fed. */
  function EventOf(path: string, e: Entry): Option<Event> {
    if !Valid(path) then None
    else if e.File? then Some(Feed(Task(path, e.chunks)))
    else Some(Mkdir(path))
  }

  function EventAt(p: string, e: Entry, q: Place): Option<Event>
    requires NodeAt(e, q).Some?
  {
    EventOf(Joined(p, NamesTo(e, q)), NodeAt(e, q).value)
  }

  lemma EventBelow(p: string, e: Entry, i: nat, q: Place)
    requires e.Dir? && i < |e.children| && NodeAt(e.children[i], q).Some?
    ensures NodeAt(e, [i] + q).Some?
    ensures EventAt(p, e, [i] + q) == EventAt(p + "/" + e.children[i].name, e.children[i], q)
  {
    assert ([i] + q)[1..] == q;
    var names := NamesTo(e, [i] + q);
    assert names[1..] == NamesTo(e.children[i], q);
  }

  /** One unit for each unit of weight of what is due for a place. */
  ghost function Owed(p: string, e: Entry, w: Event -> nat): set<(Place, nat)> {
    set q, j | q in Places(e) && EventAt(p, e, q).Some? && 0 <= j < w(EventAt(p, e, q).value) :: (q, j)
  }

  ghost function OwnUnits(p: string, e: Entry, w: Event -> nat): set<(Place, nat)> {
    if EventOf(p, e).None? then {} else Units(w(EventOf(p, e).value))
  }

  ghost function Units(n: nat): set<(Place, nat)> {
    set j | 0 <= j < n :: ([], j)
  }

  /** The units of a row of entries, each tagged with its position. */
  ghost function Family(us: seq<set<(Place, nat)>>): set<(Place, nat)> {
    set i, x | 0 <= i < |us| && x in us[i] :: Tagged(i, x)
  }

  /** What is owed by each of a folder's entries. */
  ghost function OwedEach(p: string, es: seq<Entry>, w: Event -> nat): (us: seq<set<(Place, nat)>>)
    ensures |us| == |es| && forall i :: 0 <= i < |es| ==> us[i] == Owed(p + "/" + es[i].name, es[i], w)
  {
    seq(|es|, i requires 0 <= i < |es| => Owed(p + "/" + es[i].name, es[i], w))
  }

  function Tagged(i: nat, x: (Place, nat)): (Place, nat) {
    ([i] + x.0, x.1)
  }

  lemma {:induction false} UnitsCount(n: nat)
    ensures |Units(n)| == n
  {
    if n > 0 {
      UnitsCount(n - 1);
      assert Units(n) == Units(n - 1) + {([], n - 1)};
    }
  }

  lemma {:induction false} TaggedCount(s: set<(Place, nat)>, i: nat)
    ensures |set x | x in s :: Tagged(i, x)| == |s|
  {
    if s != {} {
      var x :| x in s;
      TaggedCount(s - {x}, i);
      var rest := set y | y in s - {x} :: Tagged(i, y);
      assert (set y | y in s :: Tagged(i, y)) == rest + {Tagged(i, x)};
      forall y | y in s - {x} ensures Tagged(i, y) != Tagged(i, x) {
        assert ([i] + y.0)[1..] == y.0 && ([i] + x.0)[1..] == x.0;
      }
    }
  }

  lemma FamilySnoc(us: seq<set<(Place, nat)>>, u: set<(Place, nat)>)
    ensures |Family(us + [u])| == |Family(us)| + |u|
  {
    var n, before, all := |us|, Family(us), Family(us + [u]);
    var more := set x | x in u :: Tagged(n, x);
    TaggedCount(u, n);
    FamilySplits(us, u);
    forall y | y in before ensures y !in more {
      assert y.0[0] < n;
    }
  }

  lemma FamilySplits(us: seq<set<(Place, nat)>>, u: set<(Place, nat)>)
    ensures Family(us + [u]) == Family(us) + set x | x in u :: Tagged(|us|, x)
  {
    var n, all := |us|, us + [u];
    var more := set x | x in u :: Tagged(n, x);
    forall y | y in Family(all) ensures y in Family(us) + more {
      var i, x :| 0 <= i < |all| && x in all[i] && y == Tagged(i, x);
      assert i < n ==> us[i] == all[i];
    }
    forall y | y in Family(us) ensures y in Family(all) {
      var i, x :| 0 <= i < |us| && x in us[i] && y == Tagged(i, x);
      assert x in all[i];
    }
    forall y | y in more ensures y in Family(all) {
      var x :| x in u && y == Tagged(n, x);
      assert x in all[n];
    }
  }

  lemma OwedIsBelow(p: string, e: Entry, w: Event -> nat, x: (Place, nat))
    requires e.Dir? && x in Owed(p, e, w) && x.0 != []
    ensures x in Family(OwedEach(p, e.children, w))
  {
    var q := x.0;
    assert q == [q[0]] + q[1..];
    EventBelow(p, e, q[0], q[1..]);
    var us := OwedEach(p, e.children, w);
    assert (q[1..], x.1) in us[q[0]];
    assert Tagged(q[0], (q[1..], x.1)) == x;
  }

  lemma OwedFromBelow(p: string, e: Entry, w: Event -> nat)
    requires e.Dir?
    ensures forall x :: x in Family(OwedEach(p, e.children, w)) ==> x in Owed(p, e, w) && x.0 != []
  {
    var us := OwedEach(p, e.children, w);
    forall x | x in Family(us) ensures x in Owed(p, e, w) && x.0 != [] {
      var i, y :| 0 <= i < |us| && y in us[i] && x == Tagged(i, y);
      EventBelow(p, e, i, y.0);
    }
  }

  /** What is owed below a folder is owed by its entries. */
  lemma OwedSplits(p: string, e: Entry, w: Event -> nat)
    ensures |Owed(p, e, w)| ==
      |OwnUnits(p, e, w)| + if e.Dir? then |Family(OwedEach(p, e.children, w))| else 0
  {
    var own := OwnUnits(p, e, w);
    if e.Dir? {
      var below := Family(OwedEach(p, e.children, w));
      OwedFromBelow(p, e, w);
      forall x | x in Owed(p, e, w) ensures x in own + below {
        if x.0 != [] {
          OwedIsBelow(p, e, w, x);
        }
      }
      assert Owed(p, e, w) == own + below;
      assert own !! below;
    } else {
      assert Owed(p, e, w) == own;
    }
  }

  // ---------------------------------------------------------------- the walk pays what is owed

  /** The events for an entry whose remote path is p. */
  function EntryEvents(p: string, e: Entry): seq<Event> {
    Own(p, e) + if e.Dir? then WalkAll(p, e.children) else []
  }

  function Own(p: string, e: Entry): seq<Event> {
    if EventOf(p, e).Some? then [EventOf(p, e).value] else []
  }

  lemma {:induction false} TotalConcat<T>(a: seq<T>, b: seq<T>, f: T -> nat)
    ensures Total(a + b, f) == Total(a, f) + Total(b, f)
  {
    if a == [] {
      assert a + b == b;
    } else {
      assert (a + b)[1..] == a[1..] + b;
      TotalConcat(a[1..], b, f);
    }
  }

  function Flat(parts: seq<seq<Event>>): seq<Event> {
    if parts == [] then [] else parts[0] + Flat(parts[1..])
  }

  lemma {:induction false} FlatSnoc(parts: seq<seq<Event>>, part: seq<Event>)
    ensures Flat(parts + [part]) == Flat(parts) + part
  {
    if parts == [] {
      assert parts + [part] == [part];
      assert Flat([part]) == part + Flat([]);
    } else {
      assert (parts + [part])[1..] == parts[1..] + [part];
      FlatSnoc(parts[1..], part);
    }
  }

  /** If every part pays what is owed, so do all together. */
  lemma {:induction false} FlatPays(parts: seq<seq<Event>>, us: seq<set<(Place, nat)>>, w: Event -> nat)
    requires |parts| == |us| && forall i :: 0 <= i < |us| ==> Total(parts[i], w) == |us[i]|
    ensures Total(Flat(parts), w) == |Family(us)|
  {
    if parts != [] {
      var n := |us| - 1;
      FlatPays(parts[..n], us[..n], w);
      assert parts == parts[..n] + [parts[n]] && us == us[..n] + [us[n]];
      FlatSnoc(parts[..n], parts[n]);
      FamilySnoc(us[..n], us[n]);
      TotalConcat(Flat(parts[..n]), parts[n], w);
    }
  }

  function WalkParts(r: string, es: seq<Entry>): (parts: seq<seq<Event>>)
    ensures |parts| == |es| && forall i :: 0 <= i < |es| ==> parts[i] == WalkEntry(r, es[i])
  {
    seq(|es|, i requires 0 <= i < |es| => WalkEntry(r, es[i]))
  }

  lemma {:induction false} WalkIsFlat(r: string, es: seq<Entry>)
    ensures WalkAll(r, es) == Flat(WalkParts(r, es))
  {
    if es != [] {
      WalkIsFlat(r, es[1..]);
      assert WalkParts(r, es)[1..] == WalkParts(r, es[1..]);
    }
  }

  lemma {:induction false} EntryPays(p: string, e: Entry, w: Event -> nat)
    ensures Total(EntryEvents(p, e), w) == |Owed(p, e, w)|
    decreases e, 0
  {
    OwedSplits(p, e, w);
    OwnPays(p, e, w);
    if e.Dir? {
      ChildrenPay(p, e.children, w);
      TotalConcat(Own(p, e), WalkAll(p, e.children), w);
    } else {
      assert Own(p, e) + [] == Own(p, e);
    }
  }

  lemma OwnPays(p: string, e: Entry, w: Event -> nat)
    ensures Total(Own(p, e), w) == |OwnUnits(p, e, w)|
  {
    if EventOf(p, e).Some? {
      UnitsCount(w(EventOf(p, e).value));
      assert Total([EventOf(p, e).value][1..], w) == 0;
    }
  }

  lemma {:induction false} ChildrenPay(p: string, es: seq<Entry>, w: Event -> nat)
    ensures Total(WalkAll(p, es), w) == |Family(OwedEach(p, es, w))|
    decreases es, 1
  {
    var parts, us := WalkParts(p, es), OwedEach(p, es, w);
    forall i | 0 <= i < |es| ensures Total(parts[i], w) == |us[i]| {
      EntryPays(p + "/" + es[i].name, es[i], w);
      WalkIsEntryEvents(p, es[i]);
    }
    FlatPays(parts, us, w);
    WalkIsFlat(p, es);
  }

  lemma WalkIsEntryEvents(r: string, e: Entry)
    ensures WalkEntry(r, e) == EntryEvents(r + "/" + e.name, e)
  {
  }

  // ---------------------------------------------------------------- a whole drop

  /** The remote path of a dropped item; a name that would be refused gives way to a stock one. */
  function TopPath(remoteDir: string, e: Entry): string {
    Under(remoteDir, if ValidName(e.name) then e.name else if e.File? then "file" else "folder")
  }

  /** Neither this item nor any before it has a refused path. */
  predicate Reached(remoteDir: string, items: seq<Entry>, i: nat)
    requires i < |items|
  {
    forall k :: 0 <= k <= i ==> Valid(TopPath(remoteDir, items[k]))
  }

  ghost function DropEach(remoteDir: string, items: seq<Entry>, w: Event -> nat): (us: seq<set<(Place, nat)>>)
    ensures |us| == |items|
    ensures forall i :: 0 <= i < |items| ==>
      us[i] == if Reached(remoteDir, items, i) then Owed(TopPath(remoteDir, items[i]), items[i], w) else {}
  {
    seq(|items|, i requires 0 <= i < |items| =>
      if Reached(remoteDir, items, i) then Owed(TopPath(remoteDir, items[i]), items[i], w) else {})
  }

  function DropPart(remoteDir: string, items: seq<Entry>, i: nat): seq<Event>
    requires i < |items|
  {
    if Reached(remoteDir, items, i) then EntryEvents(TopPath(remoteDir, items[i]), items[i]) else []
  }

  function DropParts(remoteDir: string, items: seq<Entry>): (parts: seq<seq<Event>>)
    ensures |parts| == |items| && forall i :: 0 <= i < |items| ==> parts[i] == DropPart(remoteDir, items, i)
  {
    seq(|items|, i requires 0 <= i < |items| => DropPart(remoteDir, items, i))
  }

  lemma DropFirst(remoteDir: string, items: seq<Entry>)
    requires items != []
    ensures DropEvents(remoteDir, items) ==
      var p := TopPath(remoteDir, items[0]);
      if Valid(p) then EntryEvents(p, items[0]) + DropEvents(remoteDir, items[1..]) else []
  {
  }

  lemma ReachedAfterFirst(remoteDir: string, items: seq<Entry>, i: nat)
    requires 0 < i < |items|
    ensures Reached(remoteDir, items, i) <==>
      Valid(TopPath(remoteDir, items[0])) && Reached(remoteDir, items[1..], i - 1)
  {
    assert forall k :: 0 < k <= i ==> items[k] == items[1..][k - 1];
  }

  lemma PartAfterFirst(remoteDir: string, items: seq<Entry>, i: nat)
    requires 0 < i < |items|
    ensures DropPart(remoteDir, items, i) ==
      if Valid(TopPath(remoteDir, items[0])) then DropPart(remoteDir, items[1..], i - 1) else []
  {
    ReachedAfterFirst(remoteDir, items, i);
  }

  lemma FirstPart(remoteDir: string, items: seq<Entry>)
    requires items != []
    ensures DropPart(remoteDir, items, 0) ==
      if Valid(TopPath(remoteDir, items[0])) then EntryEvents(TopPath(remoteDir, items[0]), items[0]) else []
  {
  }

  lemma Consed(all: seq<seq<Event>>, first: seq<Event>, rest: seq<seq<Event>>)
    requires |all| == |rest| + 1 && all[0] == first && forall i :: 0 <= i < |rest| ==> all[i + 1] == rest[i]
    ensures all == [first] + rest
  {
  }

  lemma PartsAfterFirst(remoteDir: string, items: seq<Entry>)
    requires items != [] && Valid(TopPath(remoteDir, items[0]))
    ensures DropParts(remoteDir, items) ==
            [EntryEvents(TopPath(remoteDir, items[0]), items[0])] + DropParts(remoteDir, items[1..])
  {
    var all, rest := DropParts(remoteDir, items), DropParts(remoteDir, items[1..]);
    FirstPart(remoteDir, items);
    forall i | 0 <= i < |rest| ensures all[i + 1] == rest[i] {
      PartAfterFirst(remoteDir, items, i + 1);
    }
    Consed(all, all[0], rest);
  }

  lemma NoPartsAfterRefusal(remoteDir: string, items: seq<Entry>)
    requires items != [] && !Valid(TopPath(remoteDir, items[0]))
    ensures forall i :: 0 <= i < |items| ==> DropParts(remoteDir, items)[i] == []
  {
    FirstPart(remoteDir, items);
    forall i | 0 <= i < |items| ensures DropPart(remoteDir, items, i) == [] {
      if i > 0 {
        PartAfterFirst(remoteDir, items, i);
      }
    }
  }

  lemma {:induction false} FlatOfNothing(parts: seq<seq<Event>>)
    requires forall i :: 0 <= i < |parts| ==> parts[i] == []
    ensures Flat(parts) == []
  {
    if parts != [] {
      FlatOfNothing(parts[1..]);
    }
  }

  lemma {:induction false} DropIsFlat(remoteDir: string, items: seq<Entry>)
    ensures DropEvents(remoteDir, items) == Flat(DropParts(remoteDir, items))
  {
    if items != [] {
      DropFirst(remoteDir, items);
      if Valid(TopPath(remoteDir, items[0])) {
        PartsAfterFirst(remoteDir, items);
        DropIsFlat(remoteDir, items[1..]);
      } else {
        NoPartsAfterRefusal(remoteDir, items);
        FlatOfNothing(DropParts(remoteDir, items));
      }
    }
  }

  lemma {:induction false} DropPays(remoteDir: string, items: seq<Entry>, w: Event -> nat)
    ensures Total(DropEvents(remoteDir, items), w) == |Family(DropEach(remoteDir, items, w))|
  {
    var parts, us := DropParts(remoteDir, items), DropEach(remoteDir, items, w);
    forall i | 0 <= i < |items| ensures Total(parts[i], w) == |us[i]| {
      EntryPays(TopPath(remoteDir, items[i]), items[i], w);
    }
    FlatPays(parts, us, w);
    DropIsFlat(remoteDir, items);
  }

  // ---------------------------------------------------------------- what is fed, announced and sent

  /** A place in a drop: which item, and where below it. */
  ghost function DropPlaces(items: seq<Entry>): (ps: set<Place>)
    ensures forall q :: q in ps <==> q != [] && q[0] < |items| && NodeAt(items[q[0]], q[1..]).Some?
  {
    var ps := set i, q | 0 <= i < |items| && q in Places(items[i]) :: [i] + q;
    DropPlacesExactly(items, ps);
    ps
  }

  lemma DropPlacesExactly(items: seq<Entry>, ps: set<Place>)
    requires forall q :: q in ps <==>
      exists i, p :: 0 <= i < |items| && NodeAt(items[i], p).Some? && q == [i] + p
    ensures forall q :: q in ps <==> q != [] && q[0] < |items| && NodeAt(items[q[0]], q[1..]).Some?
  {
    forall q: Place ensures q in ps <==> q != [] && q[0] < |items| && NodeAt(items[q[0]], q[1..]).Some? {
      assert q != [] ==> q == [q[0]] + q[1..];
      if q in ps {
        var i, p :| 0 <= i < |items| && NodeAt(items[i], p).Some? && q == [i] + p;
        assert q[1..] == p;
      }
    }
  }

  function EntryOf(items: seq<Entry>, q: Place): Entry
    requires q != [] && q[0] < |items| && NodeAt(items[q[0]], q[1..]).Some?
  {
    NodeAt(items[q[0]], q[1..]).value
  }

  /** The remote path of a place: the item's own, and the names below it. */
  function PathOf(remoteDir: string, items: seq<Entry>, q: Place): string
    requires q != [] && q[0] < |items| && NodeAt(items[q[0]], q[1..]).Some?
  {
    Joined(TopPath(remoteDir, items[q[0]]), NamesTo(items[q[0]], q[1..]))
  }

  /** The places of the files with this path that the walk reaches and accepts. */
  ghost function FilesAt(remoteDir: string, items: seq<Entry>, path: string): set<Place> {
    set q | q in DropPlaces(items) && Reached(remoteDir, items, q[0]) && EntryOf(items, q).File?
            && PathOf(remoteDir, items, q) == path && Valid(path)
  }

  ghost function FoldersAt(remoteDir: string, items: seq<Entry>, path: string): set<Place> {
    set q | q in DropPlaces(items) && Reached(remoteDir, items, q[0]) && EntryOf(items, q).Dir?
            && PathOf(remoteDir, items, q) == path && Valid(path)
  }

  lemma DropUnit(remoteDir: string, items: seq<Entry>, w: Event -> nat, x: (Place, nat))
    ensures x in Family(DropEach(remoteDir, items, w)) <==>
      && x.0 in DropPlaces(items) && Reached(remoteDir, items, x.0[0])
      && var ev := EventOf(PathOf(remoteDir, items, x.0), EntryOf(items, x.0));
      && ev.Some? && x.1 < w(ev.value)
  {
    var us, q := DropEach(remoteDir, items, w), x.0;
    if x in Family(us) {
      var i, y :| 0 <= i < |us| && y in us[i] && x == Tagged(i, y);
      assert q[1..] == y.0;
    } else if q in DropPlaces(items) && Reached(remoteDir, items, q[0]) {
      assert q == [q[0]] + q[1..];
      assert Tagged(q[0], (q[1..], x.1)) == x;
      assert (q[1..], x.1) !in us[q[0]];
    }
  }

  function Is(ev: Event): Event -> nat {
    (e: Event) => if e == ev then 1 else 0
  }

  lemma {:induction false} TotalIsCount(evs: seq<Event>, ev: Event)
    ensures Total(evs, Is(ev)) == multiset(evs)[ev]
  {
    if evs != [] {
      TotalIsCount(evs[1..], ev);
      assert evs == [evs[0]] + evs[1..];
    }
  }

  lemma {:induction false} FirstUnits(ps: set<Place>)
    ensures |set q | q in ps :: (q, 0)| == |ps|
  {
    if ps != {} {
      var p :| p in ps;
      FirstUnits(ps - {p});
      assert (set q | q in ps :: (q, 0)) == (set q | q in ps - {p} :: (q, 0)) + {(p, 0)};
    }
  }

  /** The places where an event is due. */
  ghost function Due(remoteDir: string, items: seq<Entry>, ev: Event): set<Place> {
    set q | q in DropPlaces(items) && Reached(remoteDir, items, q[0])
            && EventOf(PathOf(remoteDir, items, q), EntryOf(items, q)) == Some(ev)
  }

  lemma DueExactly(remoteDir: string, items: seq<Entry>, ev: Event)
    ensures multiset(DropEvents(remoteDir, items))[ev] == |Due(remoteDir, items, ev)|
  {
    DropPays(remoteDir, items, Is(ev));
    TotalIsCount(DropEvents(remoteDir, items), ev);
    FirstUnits(Due(remoteDir, items, ev));
    UnitsAreDue(remoteDir, items, ev);
  }

  lemma UnitsAreDue(remoteDir: string, items: seq<Entry>, ev: Event)
    ensures Family(DropEach(remoteDir, items, Is(ev))) == set q | q in Due(remoteDir, items, ev) :: (q, 0)
  {
    var due, units := Due(remoteDir, items, ev), Family(DropEach(remoteDir, items, Is(ev)));
    forall x: (Place, nat) ensures x in units <==> x.0 in due && x.1 == 0 {
      DropUnit(remoteDir, items, Is(ev), x);
    }
  }

  /** Main result. A task is fed exactly as often as there are files of that path and size which the walk reaches and
      accepts: each once, and nothing else. */
  lemma FedExactly(remoteDir: string, items: seq<Entry>, t: Task)
    ensures multiset(DropEvents(remoteDir, items))[Feed(t)] ==
      |set q | q in FilesAt(remoteDir, items, t.path) && EntryOf(items, q).chunks == t.chunks|
  {
    DueExactly(remoteDir, items, Feed(t));
    assert Due(remoteDir, items, Feed(t)) ==
      set q | q in FilesAt(remoteDir, items, t.path) && EntryOf(items, q).chunks == t.chunks;
  }

  /** A folder is announced exactly as often as the walk reaches and accepts one of that path. */
  lemma MkdirExactly(remoteDir: string, items: seq<Entry>, dir: string)
    ensures multiset(DropEvents(remoteDir, items))[Mkdir(dir)] == |FoldersAt(remoteDir, items, dir)|
  {
    DueExactly(remoteDir, items, Mkdir(dir));
    assert Due(remoteDir, items, Mkdir(dir)) == FoldersAt(remoteDir, items, dir);
  }

  /** One for every chunk of every file at a path. */
  ghost function ChunksAt(remoteDir: string, items: seq<Entry>, path: string): set<(Place, nat)> {
    set q, j | q in FilesAt(remoteDir, items, path) && 0 <= j < EntryOf(items, q).chunks :: (q, j)
  }

  lemma OwedIsChunks(remoteDir: string, items: seq<Entry>, path: string)
    ensures UploadOrder.Fed(DropEvents(remoteDir, items), path) == |ChunksAt(remoteDir, items, path)|
  {
    var w := UploadOrder.EventOwes(path);
    DropPays(remoteDir, items, w);
    forall x: (Place, nat)
      ensures x in Family(DropEach(remoteDir, items, w)) <==> x in ChunksAt(remoteDir, items, path)
    {
      DropUnit(remoteDir, items, w, x);
    }
    assert Family(DropEach(remoteDir, items, w)) == ChunksAt(remoteDir, items, path);
  }

  /** Main result. Once an upload of a drop has finished without cancels and failures, the wire carries, for every
      path, exactly the chunks of the accepted files at that path; and no run ever carries more. */
  lemma DropSendsExactly(
      remoteDir: string, items: seq<Entry>, lost: set<string>, acts: seq<UploadPool.Action>, path: string)
    ensures var s := UploadPool.Run(UploadPool.Init(DropEvents(remoteDir, items), remoteDir, lost), acts);
      && UploadOrder.FramesOf(s.wire, path) <= |ChunksAt(remoteDir, items, path)|
      && (UploadPool.AllProper(acts) && UploadPool.Finished(s) ==>
            UploadOrder.FramesOf(s.wire, path) == |ChunksAt(remoteDir, items, path)|)
  {
    OwedIsChunks(remoteDir, items, path);
    UploadOrder.FinishedHasSentAll(DropEvents(remoteDir, items), remoteDir, lost, acts, path);
  }

  // ---------------------------------------------------------------- the mkdir frames

  function MkdirsOf(wire: seq<UploadPool.Frame>, dir: string): nat {
    multiset(wire)[UploadPool.MkdirFrame(dir)]
  }

  /** Mkdir frames of a folder on the wire and still to come. */
  function MkdirAccount(s: UploadPool.Pool, dir: string): nat {
    MkdirsOf(s.wire, dir) + if dir in s.lost then 0 else multiset(s.todo)[Mkdir(dir)]
  }

  lemma WalkerKeepsMkdirs(s: UploadPool.Pool, a: UploadPool.Action, dir: string)
    requires a.Announce? || a.Push?
    ensures MkdirAccount(UploadPool.Apply(s, a), dir) == MkdirAccount(s, dir)
  {
    if s.todo != [] {
      assert s.todo == [s.todo[0]] + s.todo[1..];
    }
  }

  lemma OthersKeepMkdirs(s: UploadPool.Pool, a: UploadPool.Action)
    requires !a.Announce? && !a.Push? && !a.CancelWalk?
    ensures var t := UploadPool.Apply(s, a);
      && t.todo == s.todo && t.lost == s.lost
      && (t.wire == s.wire || exists path :: t.wire == s.wire + [UploadPool.ChunkFrame(path)])
  {
  }

  lemma StepKeepsMkdirs(s: UploadPool.Pool, a: UploadPool.Action, dir: string)
    requires UploadPool.Proper(a)
    ensures MkdirAccount(UploadPool.Apply(s, a), dir) == MkdirAccount(s, dir)
  {
    if a.Announce? || a.Push? {
      WalkerKeepsMkdirs(s, a, dir);
    } else {
      OthersKeepMkdirs(s, a);
    }
  }

  lemma {:induction false} RunKeepsMkdirs(s: UploadPool.Pool, acts: seq<UploadPool.Action>, dir: string)
    requires UploadPool.AllProper(acts)
    ensures MkdirAccount(UploadPool.Run(s, acts), dir) == MkdirAccount(s, dir)
    ensures UploadPool.Run(s, acts).lost == s.lost
  {
    if acts != [] {
      var n := |acts| - 1;
      RunKeepsMkdirs(s, acts[..n], dir);
      StepKeepsMkdirs(UploadPool.Run(s, acts[..n]), acts[n], dir);
      UploadPool.StepKeepsLost(UploadPool.Run(s, acts[..n]), acts[n]);
    }
  }

  /** A finished upload without cancels and failures has sent one mkdir frame for every accepted folder, except those
      whose frame could not be written. */
  lemma DropAnnouncesExactly(
      remoteDir: string, items: seq<Entry>, lost: set<string>, acts: seq<UploadPool.Action>, dir: string)
    requires UploadPool.AllProper(acts)
    requires UploadPool.Finished(UploadPool.Run(UploadPool.Init(DropEvents(remoteDir, items), remoteDir, lost), acts))
    ensures MkdirsOf(UploadPool.Run(UploadPool.Init(DropEvents(remoteDir, items), remoteDir, lost), acts).wire, dir) ==
            if dir in lost then 0 else |FoldersAt(remoteDir, items, dir)|
  {
    MkdirExactly(remoteDir, items, dir);
    RunKeepsMkdirs(UploadPool.Init(DropEvents(remoteDir, items), remoteDir, lost), acts, dir);
  }

  // ---------------------------------------------------------------- acknowledgements

  function IsFeed(): Event -> nat {
    (e: Event) => if e.Feed? then 1 else 0
  }

  /** The tasks that are not yet confirmed: to be fed, in the channel, taken, in a slot, or sent. */
  function Unconfirmed(s: UploadPool.Pool): nat {
    Total(s.todo, IsFeed()) + |s.queue| + (if s.held.Some? then 1 else 0) + |s.slots| + s.acks
  }

  /** The confirmations, or timeouts in their place, that a run has seen. */
  function Confirmed(s: UploadPool.Pool, acts: seq<UploadPool.Action>): nat {
    if acts == [] then 0
    else
      var k := |acts| - 1;
      Confirmed(s, acts[..k]) + if acts[k].Acked? && UploadPool.Run(s, acts[..k]).acks > 0 then 1 else 0
  }

  lemma StepCountsTasks(s: UploadPool.Pool, a: UploadPool.Action)
    requires UploadPool.Proper(a)
    ensures Unconfirmed(UploadPool.Apply(s, a)) + (if a.Acked? && s.acks > 0 then 1 else 0) == Unconfirmed(s)
  {
  }

  lemma {:induction false} RunCountsTasks(s: UploadPool.Pool, acts: seq<UploadPool.Action>)
    requires UploadPool.AllProper(acts)
    ensures Unconfirmed(UploadPool.Run(s, acts)) + Confirmed(s, acts) == Unconfirmed(s)
  {
    if acts != [] {
      var k := |acts| - 1;
      RunCountsTasks(s, acts[..k]);
      StepCountsTasks(UploadPool.Run(s, acts[..k]), acts[k]);
    }
  }

  /** Every file that the walk reaches and accepts. */
  ghost function AcceptedFiles(remoteDir: string, items: seq<Entry>): set<Place> {
    set q | q in DropPlaces(items) && Reached(remoteDir, items, q[0]) && EntryOf(items, q).File?
            && Valid(PathOf(remoteDir, items, q))
  }

  lemma FeedsAreFiles(remoteDir: string, items: seq<Entry>)
    ensures Total(DropEvents(remoteDir, items), IsFeed()) == |AcceptedFiles(remoteDir, items)|
  {
    DropPays(remoteDir, items, IsFeed());
    FirstUnits(AcceptedFiles(remoteDir, items));
    UnitsAreFiles(remoteDir, items);
  }

  lemma UnitsAreFiles(remoteDir: string, items: seq<Entry>)
    ensures Family(DropEach(remoteDir, items, IsFeed())) == set q | q in AcceptedFiles(remoteDir, items) :: (q, 0)
  {
    var files, units := AcceptedFiles(remoteDir, items), Family(DropEach(remoteDir, items, IsFeed()));
    forall x: (Place, nat) ensures x in units <==> x.0 in files && x.1 == 0 {
      DropUnit(remoteDir, items, IsFeed(), x);
    }
  }

  /** A finished upload without cancels and failures has waited for exactly one confirmation per accepted file. */
  lemma DropIsConfirmedExactly(remoteDir: string, items: seq<Entry>, lost: set<string>, acts: seq<UploadPool.Action>)
    requires UploadPool.AllProper(acts)
    requires UploadPool.Finished(UploadPool.Run(UploadPool.Init(DropEvents(remoteDir, items), remoteDir, lost), acts))
    ensures Confirmed(UploadPool.Init(DropEvents(remoteDir, items), remoteDir, lost), acts) ==
            |AcceptedFiles(remoteDir, items)|
  {
    FeedsAreFiles(remoteDir, items);
    RunCountsTasks(UploadPool.Init(DropEvents(remoteDir, items), remoteDir, lost), acts);
  }

  // ---------------------------------------------------------------- ordinary drops

  /** A name that begins and ends in a printable character and is fit to be a path element. */
  predicate OrdinaryName(name: string) {
    GoodPart(name) && '/' !in name && '!' <= name[0] <= '~' && '!' <= name[|name| - 1] <= '~'
  }

  lemma KeptName(dir: string, e: Entry)
    requires OrdinaryName(e.name)
    ensures TopPath(dir, e) == if dir == "" then e.name else dir + "/" + e.name
  {
    GoText.TrimSpaceOfPlain(e.name);
  }

  /** An item of such a name is put under that name in the folder it was dropped on, and accepted there. */
  lemma OrdinaryItemIsAccepted(dir: string, e: Entry)
    requires OrdinaryName(e.name) && CleanPath.IsClean(dir) && '!' <= dir[0] <= '~'
    requires |dir| + 1 + |e.name| <= MAX_PATH_LEN
    ensures TopPath(dir, e) == dir + "/" + e.name && Valid(TopPath(dir, e))
  {
    KeptName(dir, e);
    CleanPath.EntryOfCleanFolder(dir, e.name);
    var p := dir + "/" + e.name;
    assert p[0] == dir[0] && p[|p| - 1] == e.name[|e.name| - 1];
    GoText.TrimSpaceOfPlain(p);
    CleanPath.CleanPassesUnchanged(p);
  }

  /** And into the root under its bare name. */
  lemma OrdinaryItemInRoot(e: Entry)
    requires OrdinaryName(e.name) && !GoText.HasPrefix(e.name, "..")
    ensures TopPath("", e) == e.name && Valid(e.name)
  {
    KeptName("", e);
    CleanPath.SingleIsClean(e.name);
    GoText.TrimSpaceOfPlain(e.name);
    CleanPath.CleanPassesUnchanged(e.name);
  }
}
