/** The contacts directory under the same generation guard, the rule that filtered pages stay out of it, and what
    connecting and disconnecting does to both sides. */
module ContactsSync {
  import opened Options
  import opened RowMerge
  import opened Seqs
  import MessagesSync

  datatype Contact = Contact(contactId: string, name: string, avatar: string, photoVersion: string)

  datatype ListMeta = ListMeta(query: string, cursor: string, gen: int)

  datatype Kind = ListReq | AvatarReq | DeleteReq

  datatype Directory = Directory(
    gen: int, contacts: seq<Contact>, listReqs: set<string>, listMeta: map<string, ListMeta>,
    avatarReqs: set<string>, deleteReqs: set<string>)

  datatype Event =
    | AskList(id: string, query: string, cursor: string)
    | AskOther(kind: Kind, id: string)
    | Finish(kind: Kind, id: string)
    | ListPage(id: string, error: bool, entries: seq<Contact>, next: string)
    | AvatarPage(id: string, usable: bool, contactId: string, avatar: string, photoVersion: string)
    | Deleted(contactId: string)                     // the phone confirmed a deletion
    | Wipe                                           // contacts-changed, or a reconnect
    | Disconnect
    | Forget

  function ContactKey(c: Contact): Option<string> {
    Some(c.contactId)
  }

  predicate Stale(meta: map<string, ListMeta>, id: string, gen: int) {
    id in meta && meta[id].gen != gen
  }

  predicate Filtered(meta: map<string, ListMeta>, id: string) {
    id in meta && meta[id].query != ""
  }

  predicate Replaces(meta: map<string, ListMeta>, id: string, next: string) {
    if id in meta then meta[id].cursor == "" else next == ""
  }

  function PageOfList(s: Directory, id: string, error: bool, rows: seq<Contact>, next: string): Directory {
    if id !in s.listReqs || error || Stale(s.listMeta, id, s.gen) || Filtered(s.listMeta, id) then s
    else
      s.(contacts := if Replaces(s.listMeta, id, next) then rows else Merged(s.contacts, rows, ContactKey))
  }

  function IndexOf(cs: seq<Contact>, id: string): (i: nat)
    ensures i <= |cs| && (i < |cs| ==> cs[i].contactId == id)
    ensures forall j :: 0 <= j < i ==> cs[j].contactId != id
  {
    if cs == [] || cs[0].contactId == id then 0 else 1 + IndexOf(cs[1..], id)
  }

  function Patched(cs: seq<Contact>, id: string, avatar: string, version: string): seq<Contact> {
    var i := IndexOf(cs, id);
    if i < |cs| then cs[i := cs[i].(avatar := avatar, photoVersion := version)] else cs
  }

  function Without(cs: seq<Contact>, id: string): seq<Contact> {
    var i := IndexOf(cs, id);
    if i < |cs| then cs[..i] + cs[i + 1..] else cs
  }

  function Invalidated(s: Directory): Directory {
    s.(gen := s.gen + 1, contacts := [])
  }

  function Disconnected(s: Directory): Directory {
    s.(listReqs := {}, listMeta := s.listMeta - s.listReqs, avatarReqs := {}, deleteReqs := {})
  }

  function Advance(s: Directory, e: Event): Directory {
    match e
    case AskList(id, query, cursor) =>
      s.(listReqs := s.listReqs + {id}, listMeta := s.listMeta[id := ListMeta(query, cursor, s.gen)])
    case AskOther(kind, id) =>
      if kind == AvatarReq then s.(avatarReqs := s.avatarReqs + {id})
      else if kind == DeleteReq then s.(deleteReqs := s.deleteReqs + {id})
      else s
    case Finish(kind, id) =>
      (match kind
       case ListReq => s.(listReqs := s.listReqs - {id}, listMeta := s.listMeta - {id})
       case AvatarReq => s.(avatarReqs := s.avatarReqs - {id})
       case DeleteReq => s.(deleteReqs := s.deleteReqs - {id}))
    case ListPage(id, error, rows, next) => PageOfList(s, id, error, rows, next)
    case AvatarPage(id, usable, contactId, avatar, version) =>
      if id in s.avatarReqs && usable then s.(contacts := Patched(s.contacts, contactId, avatar, version)) else s
    case Deleted(contactId) => s.(contacts := Without(s.contacts, contactId))
    case Wipe => Invalidated(s)
    case Disconnect => Disconnected(s)
    case Forget => s.(contacts := [])
  }

  ghost predicate Valid(s: Directory) {
    s.listMeta.Keys == s.listReqs
  }

  class ContactsService {
    var gen: int
    var contacts: seq<Contact>
    var listReqs: set<string>
    var listMeta: map<string, ListMeta>
    var avatarReqs: set<string>
    var deleteReqs: set<string>

    ghost function View(): Directory
      reads this
    {
      Directory(gen, contacts, listReqs, listMeta, avatarReqs, deleteReqs)
    }

    constructor (contacts: seq<Contact>)
      ensures Valid(View()) && View() == Directory(0, contacts, {}, map[], {}, {})
    {
      gen, this.contacts, listReqs, listMeta, avatarReqs, deleteReqs := 0, contacts, {}, map[], {}, {};
    }

    /** A contacts-list-resp message; the waiter of a filtered page still gets its rows. */
    method IngestListPage(id: string, error: bool, rows: seq<Contact>, next: string) returns (answered: bool)
      modifies this`contacts
      ensures View() == PageOfList(old(View()), id, error, rows, next)
      ensures answered <==> id in listReqs && (error || !Stale(listMeta, id, gen))
    {
      answered := id in listReqs;
      if answered && !error {
        if id in listMeta && listMeta[id].gen != gen {
          answered := false;
        } else if id in listMeta && listMeta[id].query != "" {
        } else if id in listMeta && listMeta[id].cursor == "" {
          contacts := rows;
        } else if next == "" && (id !in listMeta || listMeta[id].cursor == "") {
          contacts := rows;
        } else {
          contacts := MergeRows(contacts, rows, ContactKey);
        }
      }
    }

    /** A contacts-changed message, and likewise a reconnect. */
    method Invalidate()
      modifies this`gen, this`contacts
      ensures View() == Invalidated(old(View()))
    {
      gen := gen + 1;
      contacts := [];
    }

    /** failPendingContactsLists */
    method FailPendingLists() returns (told: set<string>)
      requires Valid(View())
      modifies this`listReqs, this`listMeta
      ensures told == old(listReqs) && listReqs == {} && listMeta == map[]
    {
      told := {};
      while listReqs != {}
        invariant told + listReqs == old(listReqs) && listMeta.Keys == listReqs
        decreases listReqs
      {
        var id :| id in listReqs;
        told := told + {id};
        listReqs := listReqs - {id};
        listMeta := listMeta - {id};
      }
    }
  }

  /** Both sides of the phone session. */
  class Session {
    const messages: MessagesSync.MessagesService
    const contacts: ContactsService

    constructor (messages: MessagesSync.MessagesService, contacts: ContactsService)
      ensures this.messages == messages && this.contacts == contacts
    {
      this.messages, this.contacts := messages, contacts;
    }

    /** OnWSConnect: each side starts a new generation with nothing cached. */
    method OnConnect()
      modifies messages, contacts
      ensures messages.View() == MessagesSync.Invalidated(old(messages.View()))
      ensures contacts.View() == Invalidated(old(contacts.View()))
    {
      messages.Invalidate();
      contacts.Invalidate();
    }

    /** OnWSDisconnect: every sync waiter is told, none is left pending, and no cache is touched. */
    method OnDisconnect() returns (told: set<string>)
      requires Valid(contacts.View()) && MessagesSync.Valid(messages.View())
      modifies messages, contacts
      ensures contacts.View() == Disconnected(old(contacts.View()))
      ensures messages.View() == MessagesSync.Disconnected(old(messages.View()))
      ensures contacts.listReqs == contacts.avatarReqs == contacts.deleteReqs == {}
      ensures messages.threadsReqs == messages.messagesReqs == messages.sendReqs == messages.markReadReqs == {}
      ensures contacts.contacts == old(contacts.contacts) && contacts.gen == old(contacts.gen)
      ensures messages.threads == old(messages.threads) && messages.messages == old(messages.messages)
      ensures told ==
        old(contacts.listReqs) + old(contacts.avatarReqs) + old(contacts.deleteReqs) +
        old(messages.threadsReqs) + old(messages.messagesReqs) + old(messages.sendReqs) + old(messages.markReadReqs)
    {
      var lists := contacts.FailPendingLists();
      var others := contacts.avatarReqs + contacts.deleteReqs;
      contacts.avatarReqs, contacts.deleteReqs := {}, {};
      var sms := messages.FailPending();
      told := lists + others + sms;
    }
  }

  // ---------------------------------------------------------------- late and filtered pages, over every run

  function Run(s: Directory, evs: seq<Event>): Directory {
    if evs == [] then s else Advance(Run(s, evs[..|evs| - 1]), evs[|evs| - 1])
  }

  lemma AdvanceKeepsValid(s: Directory, e: Event)
    requires Valid(s)
    ensures Valid(Advance(s, e))
  {
  }

  /** In every reachable state exactly the live listings have a meta record. */
  lemma {:induction false} RunKeepsValid(s: Directory, evs: seq<Event>)
    requires Valid(s)
    ensures Valid(Run(s, evs))
  {
    if evs != [] {
      RunKeepsValid(s, evs[..|evs| - 1]);
      AdvanceKeepsValid(Run(s, evs[..|evs| - 1]), evs[|evs| - 1]);
    }
  }

  ghost predicate ListDone(evs: seq<Event>, id: string) {
    Finish(ListReq, id) in evs || Disconnect in evs
  }

  ghost predicate NotAskedAgain(evs: seq<Event>, id: string) {
    forall i :: 0 <= i < |evs| ==> !(evs[i].AskList? && evs[i].id == id)
  }

  lemma ListRequestStep(s: Directory, id: string, e: Event)
    requires id in s.listReqs ==> id in s.listMeta
    requires !(e.AskList? && e.id == id)
    ensures var t := Advance(s, e);
      && t.gen == s.gen + (if e == Wipe then 1 else 0)
      && (id in t.listReqs <==> id in s.listReqs && e != Finish(ListReq, id) && e != Disconnect)
      && (id in t.listReqs ==> id in t.listMeta && t.listMeta[id] == s.listMeta[id])
  {
  }

  lemma {:induction false} ListRequestTracked(s: Directory, id: string, evs: seq<Event>)
    requires id in s.listReqs && id in s.listMeta && NotAskedAgain(evs, id)
    ensures var t := Run(s, evs);
      && t.gen >= s.gen && (t.gen == s.gen <==> Wipe !in evs)
      && (id in t.listReqs <==> !ListDone(evs, id))
      && (id in t.listReqs ==> id in t.listMeta && t.listMeta[id] == s.listMeta[id])
  {
    if evs != [] {
      var k := |evs| - 1;
      ListRequestTracked(s, id, evs[..k]);
      ListRequestStep(Run(s, evs[..k]), id, evs[k]);
      InSnoc(evs, Wipe);
      InSnoc(evs, Disconnect);
      InSnoc(evs, Finish(ListReq, id));
    }
  }

  /** Main result. A page of contacts takes effect exactly when it is unfiltered, its waiter is still there and no
      invalidation or reconnect came since it was asked for. */
  lemma ListPageExactly(s: Directory, id: string, query: string, cursor: string, evs: seq<Event>, rows: seq<Contact>,
                        next: string)
    requires NotAskedAgain(evs, id)
    ensures var t := Run(Advance(s, AskList(id, query, cursor)), evs);
      var after := Advance(t, ListPage(id, false, rows, next));
      if query != "" || ListDone(evs, id) || Wipe in evs then after == t
      else after == t.(contacts := if cursor == "" then rows else Merged(t.contacts, rows, ContactKey))
  {
    ListRequestTracked(Advance(s, AskList(id, query, cursor)), id, evs);
  }

  // ---------------------------------------------------------------- avatar answers

  ghost predicate AvatarDone(evs: seq<Event>, id: string) {
    Finish(AvatarReq, id) in evs || Disconnect in evs
  }

  lemma {:induction false} AvatarRequestTracked(s: Directory, id: string, evs: seq<Event>)
    requires id in s.avatarReqs && AskOther(AvatarReq, id) !in evs
    ensures id in Run(s, evs).avatarReqs <==> !AvatarDone(evs, id)
  {
    if evs != [] {
      var k := |evs| - 1;
      InSnoc(evs, AskOther(AvatarReq, id));
      InSnoc(evs, Disconnect);
      InSnoc(evs, Finish(AvatarReq, id));
      AvatarRequestTracked(s, id, evs[..k]);
    }
  }

  /** An avatar answer has no generation guard: whatever happened since it was asked for, invalidations and reconnects
      included, a usable one takes effect exactly when its waiter is still there. */
  lemma AvatarPageExactly(s: Directory, id: string, evs: seq<Event>, usable: bool, who: string, avatar: string,
                          version: string)
    requires AskOther(AvatarReq, id) !in evs
    ensures var t := Run(Advance(s, AskOther(AvatarReq, id)), evs);
      Advance(t, AvatarPage(id, usable, who, avatar, version)) ==
      if usable && !AvatarDone(evs, id) then t.(contacts := Patched(t.contacts, who, avatar, version)) else t
  {
    AvatarRequestTracked(Advance(s, AskOther(AvatarReq, id)), id, evs);
  }

  /** And then it changes the photo of exactly one entry, the first of that contact. */
  lemma PatchedExactly(cs: seq<Contact>, who: string, avatar: string, version: string, j: nat)
    requires j < |cs|
    ensures var after := Patched(cs, who, avatar, version);
      && |after| == |cs|
      && after[j] ==
         if cs[j].contactId == who && (forall i :: 0 <= i < j ==> cs[i].contactId != who)
         then cs[j].(avatar := avatar, photoVersion := version) else cs[j]
  {
  }

  // ---------------------------------------------------------------- where entries and their photos come from

  /** A contact up to its photo, which an avatar answer may patch. */
  function Unpictured(c: Contact): Contact {
    c.(avatar := "", photoVersion := "")
  }

  function RowsOf(cs: seq<Contact>): set<Contact> {
    set c | c in cs :: Unpictured(c)
  }

  /** The ids last used for an unfiltered listing, since the last invalidation. */
  function AskedPlain(evs: seq<Event>): set<string> {
    if evs == [] then {}
    else
      var before, e := AskedPlain(evs[..|evs| - 1]), evs[|evs| - 1];
      if e.Wipe? then {}
      else if e.AskList? then (if e.query == "" then before + {e.id} else before - {e.id})
      else before
  }

  /** What pages asked for without a filter, since the last invalidation, have offered. */
  function Offered(initial: set<Contact>, evs: seq<Event>): set<Contact> {
    if evs == [] then initial
    else
      var before, e := evs[..|evs| - 1], evs[|evs| - 1];
      if e.Wipe? then {}
      else Offered(initial, before) + if e.ListPage? && e.id in AskedPlain(before) then RowsOf(e.entries) else {}
  }

  datatype Photo = Photo(contactId: string, avatar: string, photoVersion: string)

  function PhotoOf(c: Contact): Photo {
    Photo(c.contactId, c.avatar, c.photoVersion)
  }

  function PhotosOf(cs: seq<Contact>): set<Photo> {
    set c | c in cs :: PhotoOf(c)
  }

  /** What one event offers in photos: an unfiltered page asked for recently, or a usable avatar answer. */
  function OffersPhotos(asked: set<string>, e: Event): set<Photo> {
    if e.ListPage? && e.id in asked then PhotosOf(e.entries)
    else if e.AvatarPage? && e.usable then {Photo(e.contactId, e.avatar, e.photoVersion)}
    else {}
  }

  function OfferedPhotos(initial: set<Photo>, evs: seq<Event>): set<Photo> {
    if evs == [] then initial
    else
      var before, e := evs[..|evs| - 1], evs[|evs| - 1];
      if e.Wipe? then {} else OfferedPhotos(initial, before) + OffersPhotos(AskedPlain(before), e)
  }

  ghost predicate CurrentIsPlain(s: Directory, asked: set<string>) {
    forall id :: id in s.listReqs ==>
      && id in s.listMeta && s.listMeta[id].gen <= s.gen
      && (s.listMeta[id].gen == s.gen && s.listMeta[id].query == "" ==> id in asked)
  }

  lemma CurrentStep(s: Directory, evs: seq<Event>, e: Event)
    requires CurrentIsPlain(s, AskedPlain(evs))
    ensures CurrentIsPlain(Advance(s, e), AskedPlain(evs + [e]))
  {
    assert (evs + [e])[..|evs|] == evs;
  }

  lemma RowsOfPatched(cs: seq<Contact>, id: string, avatar: string, version: string)
    ensures RowsOf(Patched(cs, id, avatar, version)) <= RowsOf(cs)
  {
    var after := Patched(cs, id, avatar, version);
    forall c | c in after ensures Unpictured(c) in RowsOf(cs) {
      var i :| 0 <= i < |after| && after[i] == c;
      assert Unpictured(cs[i]) == Unpictured(c) && cs[i] in cs;
    }
  }

  lemma RowsOfPage(s: Directory, asked: set<string>, e: Event)
    requires e.ListPage? && CurrentIsPlain(s, asked)
    ensures RowsOf(Advance(s, e).contacts) <= RowsOf(s.contacts) + if e.id in asked then RowsOf(e.entries) else {}
  {
    MergedKeepsAndAdds(s.contacts, e.entries, ContactKey);
  }

  lemma OfferedStep(s: Directory, asked: set<string>, offered: set<Contact>, e: Event)
    requires CurrentIsPlain(s, asked) && RowsOf(s.contacts) <= offered
    ensures RowsOf(Advance(s, e).contacts) <=
      if e.Wipe? then {} else offered + if e.ListPage? && e.id in asked then RowsOf(e.entries) else {}
  {
    if e.ListPage? {
      RowsOfPage(s, asked, e);
    } else if e.AvatarPage? {
      RowsOfPatched(s.contacts, e.contactId, e.avatar, e.photoVersion);
    }
  }

  lemma PhotosOfPatched(cs: seq<Contact>, who: string, avatar: string, version: string)
    ensures PhotosOf(Patched(cs, who, avatar, version)) <= PhotosOf(cs) + {Photo(who, avatar, version)}
  {
    var after := Patched(cs, who, avatar, version);
    forall c | c in after ensures PhotoOf(c) in PhotosOf(cs) + {Photo(who, avatar, version)} {
      var i :| 0 <= i < |after| && after[i] == c;
      assert cs[i] in cs;
    }
  }

  lemma PhotosStep(s: Directory, asked: set<string>, offered: set<Photo>, e: Event)
    requires CurrentIsPlain(s, asked) && PhotosOf(s.contacts) <= offered
    ensures PhotosOf(Advance(s, e).contacts) <= if e.Wipe? then {} else offered + OffersPhotos(asked, e)
  {
    if e.ListPage? {
      MergedKeepsAndAdds(s.contacts, e.entries, ContactKey);
    } else if e.AvatarPage? {
      PhotosOfPatched(s.contacts, e.contactId, e.avatar, e.photoVersion);
    }
  }

  /** Main result. Over every run, each entry of the directory was offered by an unfiltered page that was asked for
      since the last invalidation or reconnect (or was there at the start): no filtered page, no late page. */
  lemma {:induction false} DirectoryIsRecentAndUnfiltered(s: Directory, evs: seq<Event>)
    requires s.listReqs == {}
    ensures CurrentIsPlain(Run(s, evs), AskedPlain(evs))
    ensures RowsOf(Run(s, evs).contacts) <= Offered(RowsOf(s.contacts), evs)
  {
    if evs != [] {
      var k := |evs| - 1;
      DirectoryIsRecentAndUnfiltered(s, evs[..k]);
      assert evs == evs[..k] + [evs[k]];
      CurrentStep(Run(s, evs[..k]), evs[..k], evs[k]);
      OfferedStep(Run(s, evs[..k]), AskedPlain(evs[..k]), Offered(RowsOf(s.contacts), evs[..k]), evs[k]);
    }
  }

  /** And each photo came with such a page too, or in an avatar answer that arrived since then. */
  lemma {:induction false} PhotosAreRecent(s: Directory, evs: seq<Event>)
    requires s.listReqs == {}
    ensures PhotosOf(Run(s, evs).contacts) <= OfferedPhotos(PhotosOf(s.contacts), evs)
  {
    if evs != [] {
      var k := |evs| - 1;
      PhotosAreRecent(s, evs[..k]);
      DirectoryIsRecentAndUnfiltered(s, evs[..k]);
      PhotosStep(Run(s, evs[..k]), AskedPlain(evs[..k]), OfferedPhotos(PhotosOf(s.contacts), evs[..k]), evs[k]);
    }
  }
}
