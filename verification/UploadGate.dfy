/** The walk of a folder upload: which folders it announces, which file tasks it feeds, and exactly when each task
    comes after its folder's announcement. */
module UploadGate {
  import opened GoText
  import opened RemotePath

  /** What the walk finds on the local disk; chunks is how many frames a file takes. */
  datatype Entry = File(name: string, chunks: nat) | Dir(name: string, children: seq<Entry>)

  datatype Task = Task(path: string, chunks: nat)

  datatype Event = Mkdir(dir: string) | Feed(task: Task)

  // ---------------------------------------------------------------- the walk

  /** parentRemoteDir */
  function Parent(path: string): string {
    var i := LastIndex(path, '/');
    if i < 0 then "" else path[..i]
  }

  /** WalkDir below remote folder r: a folder before its entries, refused paths skipped but still descended. */
  function WalkEntry(r: string, e: Entry): seq<Event>
    decreases e, 0
  {
    var p := r + "/" + e.name;
    match e
    case File(_, chunks) => if Valid(p) then [Feed(Task(p, chunks))] else []
    case Dir(_, children) => (if Valid(p) then [Mkdir(p)] else []) + WalkAll(p, children)
  }

  function WalkAll(r: string, es: seq<Entry>): seq<Event>
    decreases es, 1
  {
    if es == [] then [] else WalkEntry(r, es[0]) + WalkAll(r, es[1..])
  }

  /** expandOneFolderStreaming for a target that passed the sanitizer. */
  function FolderEvents(target: string, es: seq<Entry>): seq<Event> {
    [Mkdir(target)] + WalkAll(target, es)
  }

  /** Names as a file system gives them out. */
  ghost predicate NoSlash(e: Entry) {
    '/' !in e.name && (e.Dir? ==> forall i :: 0 <= i < |e.children| ==> NoSlash(e.children[i]))
  }

  /** No file is called ".." followed by white space. */
  ghost predicate NoDotDotFile(e: Entry) {
    match e
    case File(name, _) => TrimRight(name) != ".."
    case Dir(_, children) => forall i :: 0 <= i < |children| ==> NoDotDotFile(children[i])
  }

  ghost predicate Tame(es: seq<Entry>) {
    forall i :: 0 <= i < |es| ==> NoSlash(es[i]) && NoDotDotFile(es[i])
  }

  /** The folders announced by a stretch of events. */
  function Marked(evs: seq<Event>): set<string> {
    if evs == [] then {} else (if evs[0].Mkdir? then {evs[0].dir} else {}) + Marked(evs[1..])
  }

  predicate Open(gates: set<string>, path: string) {
    Parent(path) == "" || Parent(path) in gates
  }

  /** Every task is fed only after its parent folder was announced. */
  predicate Gated(evs: seq<Event>, gates: set<string>) {
    if evs == [] then true
    else match evs[0]
         case Mkdir(dir) => Gated(evs[1..], gates + {dir})
         case Feed(task) => Open(gates, task.path) && Gated(evs[1..], gates)
  }

  /** One stretch of events after another: the second may rely on what the first announced. */
  lemma {:induction false} GatedConcat(a: seq<Event>, b: seq<Event>, gates: set<string>)
    ensures Gated(a + b, gates) <==> Gated(a, gates) && Gated(b, gates + Marked(a))
  {
    if a == [] {
      assert a + b == b && gates + Marked(a) == gates;
    } else {
      assert (a + b)[1..] == a[1..] + b;
      match a[0]
      case Mkdir(dir) =>
        GatedConcat(a[1..], b, gates + {dir});
        assert gates + {dir} + Marked(a[1..]) == gates + Marked(a);
      case Feed(_) =>
        GatedConcat(a[1..], b, gates);
        assert Marked(a) == Marked(a[1..]);
    }
  }

  lemma {:induction false} MarkedConcat(a: seq<Event>, b: seq<Event>)
    ensures Marked(a + b) == Marked(a) + Marked(b)
  {
    if a == [] {
      assert a + b == b;
    } else {
      assert (a + b)[1..] == a[1..] + b;
      MarkedConcat(a[1..], b);
    }
  }

  lemma ParentOfJoin(r: string, name: string)
    requires '/' !in name
    ensures Parent(r + "/" + name) == r
  {
    LastIndexOfJoin(r, '/', name);
    assert r + "/" + name == r + ['/'] + name;
    assert (r + "/" + name)[..|r|] == r;
  }

  // ---------------------------------------------------------------- exactly which trees keep the discipline

  /** No file with an accepted path lies in a refused folder: what a caller can check on the tree beforehand. */
  predicate Sound(r: string, e: Entry)
    decreases e, 0
  {
    var p := r + "/" + e.name;
    match e
    case File(_, _) => Valid(p) ==> Valid(r)
    case Dir(_, children) => SoundAll(p, children)
  }

  predicate SoundAll(r: string, es: seq<Entry>)
    decreases es, 1
  {
    es == [] || (Sound(r, es[0]) && SoundAll(r, es[1..]))
  }

  ghost predicate NoSlashes(es: seq<Entry>) {
    forall i :: 0 <= i < |es| ==> NoSlash(es[i])
  }

  /** Only accepted folders are ever announced by a walk. */
  ghost predicate AllValid(dirs: set<string>) {
    forall d :: d in dirs ==> Valid(d)
  }

  lemma {:induction false} EntryMarksValid(r: string, e: Entry)
    ensures AllValid(Marked(WalkEntry(r, e)))
    decreases e, 0
  {
    var p := r + "/" + e.name;
    if e.Dir? {
      WalkMarksValid(p, e.children);
      MarkedConcat(if Valid(p) then [Mkdir(p)] else [], WalkAll(p, e.children));
    }
  }

  lemma {:induction false} WalkMarksValid(r: string, es: seq<Entry>)
    ensures AllValid(Marked(WalkAll(r, es)))
    decreases es, 1
  {
    if es != [] {
      EntryMarksValid(r, es[0]);
      WalkMarksValid(r, es[1..]);
      MarkedConcat(WalkEntry(r, es[0]), WalkAll(r, es[1..]));
    }
  }

  /** Of paths longer than n, only accepted ones have their gate open. */
  ghost predicate Sane(gates: set<string>, n: nat) {
    forall g :: g in gates && |g| > n ==> Valid(g)
  }

  lemma {:induction false} EntryGatedExactly(r: string, e: Entry, gates: set<string>, n: nat)
    requires NoSlash(e) && |r| > n && Sane(gates, n) && (Valid(r) ==> r in gates)
    ensures Gated(WalkEntry(r, e), gates) <==> Sound(r, e)
    decreases e, 0
  {
    var p := r + "/" + e.name;
    match e
    case File(name, chunks) =>
      ParentOfJoin(r, name);
      if Valid(p) {
        assert Gated([Feed(Task(p, chunks))], gates) <==> Open(gates, p);
      }
    case Dir(_, children) =>
      if Valid(p) {
        ChildrenGatedExactly(p, children, gates + {p}, n);
        assert ([Mkdir(p)] + WalkAll(p, children))[1..] == WalkAll(p, children);
      } else {
        ChildrenGatedExactly(p, children, gates, n);
        assert [] + WalkAll(p, children) == WalkAll(p, children);
      }
  }

  lemma {:induction false} ChildrenGatedExactly(r: string, es: seq<Entry>, gates: set<string>, n: nat)
    requires NoSlashes(es) && |r| > n && Sane(gates, n) && (Valid(r) ==> r in gates)
    ensures Gated(WalkAll(r, es), gates) <==> SoundAll(r, es)
    decreases es, 1
  {
    if es != [] {
      var first := WalkEntry(r, es[0]);
      EntryMarksValid(r, es[0]);
      EntryGatedExactly(r, es[0], gates, n);
      ChildrenGatedExactly(r, es[1..], gates + Marked(first), n);
      GatedConcat(first, WalkAll(r, es[1..]), gates);
    }
  }

  /** Main result. A folder's walk feeds each file after its parent's mkdir if and only if no file with an accepted
      path lies in a refused folder. The gates open before may be any, as long as no refused path as long as the
      target is among them. */
  lemma FolderGatedExactly(target: string, es: seq<Entry>, gates: set<string>)
    requires Valid(target) && target != "" && NoSlashes(es) && Sane(gates, |target| - 1)
    ensures Gated(FolderEvents(target, es), gates) <==> SoundAll(target, es)
  {
    ChildrenGatedExactly(target, es, gates + {target}, |target| - 1);
    assert FolderEvents(target, es)[1..] == WalkAll(target, es);
  }

  /** In particular it does when no file's name trims to "..". */
  lemma {:induction false} TameIsSound(r: string, es: seq<Entry>)
    requires Tame(es)
    ensures SoundAll(r, es)
    decreases es, 1
  {
    if es != [] {
      TameEntryIsSound(r, es[0]);
      TameIsSound(r, es[1..]);
    }
  }

  lemma {:induction false} TameEntryIsSound(r: string, e: Entry)
    requires NoSlash(e) && NoDotDotFile(e)
    ensures Sound(r, e)
    decreases e, 0
  {
    match e
    case File(name, _) =>
      if !Valid(r) {
        EntryOfRefusedFolder(r, name);
      }
    case Dir(name, children) =>
      TameIsSound(r + "/" + name, children);
  }

  /** The tree that breaks the discipline: such a file inside a folder whose name is too long. */
  function BadTree(name: string, chunks: nat): seq<Entry> {
    [Dir(LongName(), [File(name, chunks)])]
  }

  lemma BadTreeEvents(name: string, chunks: nat)
    requires '/' !in name && TrimRight(name) == ".."
    ensures var p := "t" + "/" + LongName();
      && FolderEvents("t", BadTree(name, chunks)) == [Mkdir("t"), Feed(Task(p + "/" + name, chunks))]
      && Parent(p + "/" + name) == p && p != "t" && p != ""
  {
    var p := "t" + "/" + LongName();
    DotDotEscapesRefusal(name);
    ParentOfJoin(p, name);
    var f := File(name, chunks);
    assert WalkAll(p, [f]) == WalkEntry(p, f) + WalkAll(p, []);
    assert WalkEntry("t", Dir(LongName(), [f])) == [] + WalkAll(p, [f]);
    assert WalkAll("t", BadTree(name, chunks)) == WalkEntry("t", BadTree(name, chunks)[0]) + WalkAll("t", []);
  }

  lemma BadTreeIsUnsound(name: string, chunks: nat)
    requires '/' !in name && TrimRight(name) == ".."
    ensures !SoundAll("t", BadTree(name, chunks))
  {
    DotDotEscapesRefusal(name);
    var p := "t" + "/" + LongName();
    assert !Sound(p, File(name, chunks));
    assert !SoundAll(p, [File(name, chunks)]);
    assert !Sound("t", Dir(LongName(), [File(name, chunks)]));
  }

  // ---------------------------------------------------------------- a whole drop of files and folders

  /** SanitizeFileName */
  predicate ValidName(s: string) {
    var t := TrimSpace(s);
    t != "" && |t| <= MAX_NAME_LEN && '/' !in t && Plain(t) && t != "." && t != ".."
  }

  function Under(remoteDir: string, name: string): string {
    if remoteDir == "" then name else remoteDir + "/" + name
  }

  /** expandUploadTasksStreaming: a refused top-level path ends the walk, everything fed so far still streams. */
  function DropEvents(remoteDir: string, items: seq<Entry>): seq<Event> {
    if items == [] then []
    else
      match items[0]
      case File(name, chunks) =>
        var p := Under(remoteDir, if ValidName(name) then name else "file");
        if !Valid(p) then [] else [Feed(Task(p, chunks))] + DropEvents(remoteDir, items[1..])
      case Dir(name, children) =>
        var target := Under(remoteDir, if ValidName(name) then name else "folder");
        if !Valid(target) then [] else FolderEvents(target, children) + DropEvents(remoteDir, items[1..])
  }

  /** The same for a whole drop, up to the refused top-level path that would end the walk. */
  predicate SoundDrop(remoteDir: string, items: seq<Entry>) {
    if items == [] then true
    else
      match items[0]
      case File(name, _) =>
        !Valid(Under(remoteDir, if ValidName(name) then name else "file")) || SoundDrop(remoteDir, items[1..])
      case Dir(name, children) =>
        var target := Under(remoteDir, if ValidName(name) then name else "folder");
        !Valid(target) || (SoundAll(target, children) && SoundDrop(remoteDir, items[1..]))
  }

  lemma LooseFileIsOpen(remoteDir: string, name: string, gates: set<string>)
    requires '/' !in name && remoteDir in gates
    ensures Open(gates, Under(remoteDir, name))
  {
    if remoteDir != "" {
      ParentOfJoin(remoteDir, name);
    }
  }

  lemma TargetIsLonger(remoteDir: string, name: string)
    requires name != ""
    ensures |Under(remoteDir, name)| > |remoteDir|
  {
  }

  lemma FolderMarksValid(target: string, es: seq<Entry>)
    requires Valid(target)
    ensures AllValid(Marked(FolderEvents(target, es)))
  {
    WalkMarksValid(target, es);
    MarkedConcat([Mkdir(target)], WalkAll(target, es));
    assert Marked([Mkdir(target)]) == {target};
  }

  lemma {:induction false} DropMarksValid(remoteDir: string, items: seq<Entry>)
    ensures AllValid(Marked(DropEvents(remoteDir, items)))
  {
    if items != [] {
      DropMarksValid(remoteDir, items[1..]);
      match items[0]
      case File(name, chunks) =>
        MarkedConcat([Feed(Task(Under(remoteDir, if ValidName(name) then name else "file"), chunks))],
                     DropEvents(remoteDir, items[1..]));
      case Dir(name, children) =>
        var target := Under(remoteDir, if ValidName(name) then name else "folder");
        if Valid(target) {
          FolderMarksValid(target, children);
          MarkedConcat(FolderEvents(target, children), DropEvents(remoteDir, items[1..]));
        }
    }
  }

  /** Main result, for a whole drop of files and folders into a folder whose gate is open from the start. */
  lemma {:induction false} DropGatedExactly(remoteDir: string, items: seq<Entry>, gates: set<string>)
    requires NoSlashes(items) && remoteDir in gates && Sane(gates, |remoteDir|)
    ensures Gated(DropEvents(remoteDir, items), gates) <==> SoundDrop(remoteDir, items)
  {
    if items != [] {
      match items[0]
      case File(name, chunks) =>
        LooseFileIsOpen(remoteDir, if ValidName(name) then name else "file", gates);
        DropGatedExactly(remoteDir, items[1..], gates);
        FeedFirst(Task(Under(remoteDir, if ValidName(name) then name else "file"), chunks),
                  DropEvents(remoteDir, items[1..]), gates);
      case Dir(name, children) =>
        FolderOfDropExactly(remoteDir, name, children, items[1..], gates);
        var n := if ValidName(name) then name else "folder";
        if Valid(Under(remoteDir, n)) {
          FolderMarksValid(Under(remoteDir, n), children);
          DropGatedExactly(remoteDir, items[1..], gates + Marked(FolderEvents(Under(remoteDir, n), children)));
        }
    }
  }

  lemma FeedFirst(t: Task, rest: seq<Event>, gates: set<string>)
    ensures Gated([Feed(t)] + rest, gates) <==> Open(gates, t.path) && Gated(rest, gates)
  {
    assert ([Feed(t)] + rest)[1..] == rest;
  }

  lemma FolderOfDropExactly(remoteDir: string, name: string, children: seq<Entry>, rest: seq<Entry>, gates: set<string>)
    requires NoSlashes(children) && Sane(gates, |remoteDir|)
    ensures var target := Under(remoteDir, if ValidName(name) then name else "folder");
      var folder, more := FolderEvents(target, children), DropEvents(remoteDir, rest);
      Valid(target) ==>
        (Gated(folder + more, gates) <==> SoundAll(target, children) && Gated(more, gates + Marked(folder)))
  {
    var n := if ValidName(name) then name else "folder";
    var target := Under(remoteDir, n);
    if Valid(target) {
      TargetIsLonger(remoteDir, n);
      FolderGatedExactly(target, children, gates);
      GatedConcat(FolderEvents(target, children), DropEvents(remoteDir, rest), gates);
    }
  }

  // ---------------------------------------------------------------- what breaks it

  /** The task's folder is refused, and longer than n. */
  predicate Orphan(t: Task, n: nat) {
    !Valid(Parent(t.path)) && |Parent(t.path)| > n
  }

  lemma {:induction false} UnsoundEntryHasOrphan(r: string, e: Entry, n: nat) returns (t: Task)
    requires NoSlash(e) && |r| > n && !Sound(r, e)
    ensures Feed(t) in WalkEntry(r, e) && Orphan(t, n)
    decreases e, 0
  {
    var p := r + "/" + e.name;
    match e
    case File(name, chunks) =>
      ParentOfJoin(r, name);
      t := Task(p, chunks);
    case Dir(_, children) =>
      t := UnsoundWalkHasOrphan(p, children, n);
  }

  lemma {:induction false} UnsoundWalkHasOrphan(r: string, es: seq<Entry>, n: nat) returns (t: Task)
    requires NoSlashes(es) && |r| > n && !SoundAll(r, es)
    ensures Feed(t) in WalkAll(r, es) && Orphan(t, n)
    decreases es, 1
  {
    if !Sound(r, es[0]) {
      t := UnsoundEntryHasOrphan(r, es[0], n);
    } else {
      t := UnsoundWalkHasOrphan(r, es[1..], n);
    }
  }

  /** A drop that is not sound feeds a task whose folder is refused, hence announced by nobody. */
  lemma {:induction false} UnsoundDropHasOrphan(remoteDir: string, items: seq<Entry>) returns (t: Task)
    requires NoSlashes(items) && !SoundDrop(remoteDir, items)
    ensures Feed(t) in DropEvents(remoteDir, items) && Orphan(t, |remoteDir|)
  {
    match items[0]
    case File(name, _) =>
      t := UnsoundDropHasOrphan(remoteDir, items[1..]);
    case Dir(name, children) =>
      var n := if ValidName(name) then name else "folder";
      TargetIsLonger(remoteDir, n);
      if SoundAll(Under(remoteDir, n), children) {
        t := UnsoundDropHasOrphan(remoteDir, items[1..]);
      } else {
        t := UnsoundWalkHasOrphan(Under(remoteDir, n), children, |remoteDir|);
      }
  }
}
