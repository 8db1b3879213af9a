/** What a finished upload has put on the wire, and exactly when every file's chunks come after its folder. */
module UploadOrder {
  import opened Options
  import opened Sums
  import opened UploadGate
  import opened UploadPool

  // ---------------------------------------------------------------- frames are conserved

  function ChunksOf(t: Task, path: string): nat {
    if t.path == path then t.chunks else 0
  }

  function EventOwes(path: string): Event -> nat {
    (e: Event) => if e.Feed? then ChunksOf(e.task, path) else 0
  }

  function TaskOwes(path: string): Task -> nat {
    (t: Task) => ChunksOf(t, path)
  }

  function WorkerOwes(path: string): Worker -> nat {
    (w: Worker) => if w.Sending? then (if w.task.path == path then w.left else 0) else ChunksOf(w.task, path)
  }

  function IsFrameOf(path: string): Frame -> nat {
    (f: Frame) => if f == ChunkFrame(path) then 1 else 0
  }

  /** The chunk frames that a feed owes for a path, and those that a wire carries. */
  function Fed(events: seq<Event>, path: string): nat {
    Total(events, EventOwes(path))
  }

  function FramesOf(wire: seq<Frame>, path: string): nat {
    Total(wire, IsFrameOf(path))
  }

  /** Frames of a path on the wire, and still owed by walker, channel, dispatcher and workers. */
  function Account(s: Pool, path: string): nat {
    FramesOf(s.wire, path) + Fed(s.todo, path) + Total(s.queue, TaskOwes(path))
    + (if s.held.Some? then ChunksOf(s.held.value, path) else 0) + Total(s.slots, WorkerOwes(path))
  }

  lemma WalkerStepConserves(s: Pool, a: Action, path: string)
    requires !ByWorker(a)
    ensures Account(Apply(s, a), path) <= Account(s, path)
    ensures Proper(a) ==> Account(Apply(s, a), path) == Account(s, path)
  {
    if a.Announce? && s.todo != [] && s.todo[0].Mkdir? {
      TotalSnoc(s.wire, MkdirFrame(s.todo[0].dir), IsFrameOf(path));
    } else if a.Push? && s.todo != [] && s.todo[0].Feed? {
      TotalSnoc(s.queue, s.todo[0].task, TaskOwes(path));
    } else if a.Acquire? && s.held.Some? {
      TotalSnoc(s.slots, Starting(s.held.value), WorkerOwes(path));
    }
  }

  lemma WorkerStepConserves(s: Pool, i: nat, path: string)
    requires i < |s.slots|
    ensures Account(Apply(s, Approach(i)), path) == Account(s, path)
    ensures Account(Apply(s, Pass(i)), path) == Account(s, path)
  {
    var w := s.slots[i];
    TotalUpdate(s.slots, i, Blocked(w.task), WorkerOwes(path));
    TotalUpdate(s.slots, i, Sending(w.task, w.task.chunks), WorkerOwes(path));
  }

  lemma SendConserves(s: Pool, i: nat, path: string)
    requires i < |s.slots|
    ensures Account(Apply(s, Send(i)), path) == Account(s, path)
  {
    var w := s.slots[i];
    if w.Sending? && w.left > 0 {
      TotalUpdate(s.slots, i, Sending(w.task, w.left - 1), WorkerOwes(path));
      TotalSnoc(s.wire, ChunkFrame(w.task.path), IsFrameOf(path));
    }
  }

  lemma LeavingConserves(s: Pool, i: nat, path: string)
    requires i < |s.slots|
    ensures Account(Apply(s, Release(i)), path) == Account(s, path)
    ensures Account(Apply(s, Fail(i)), path) <= Account(s, path)
  {
    TotalUpdate(s.slots, i, s.slots[i], WorkerOwes(path));
  }

  /** No step adds to the account, and a proper step keeps it. */
  lemma StepConserves(s: Pool, a: Action, path: string)
    ensures Account(Apply(s, a), path) <= Account(s, path)
    ensures Proper(a) ==> Account(Apply(s, a), path) == Account(s, path)
  {
    if !ByWorker(a) {
      WalkerStepConserves(s, a, path);
    } else if a.i < |s.slots| {
      WorkerStepConserves(s, a.i, path);
      SendConserves(s, a.i, path);
      LeavingConserves(s, a.i, path);
    }
  }

  lemma {:induction false} RunConserves(s: Pool, acts: seq<Action>, path: string)
    ensures Account(Run(s, acts), path) <= Account(s, path)
    ensures AllProper(acts) ==> Account(Run(s, acts), path) == Account(s, path)
  {
    if acts != [] {
      var n := |acts| - 1;
      RunConserves(s, acts[..n], path);
      StepConserves(Run(s, acts[..n]), acts[n], path);
      assert AllProper(acts) ==> Proper(acts[n]);
    }
  }

  /** Main result. No run ever sends more chunk frames of a path than were fed for it, and a finished run without
      cancels and failures has sent exactly those. */
  lemma FinishedHasSentAll(events: seq<Event>, root: string, lost: set<string>, acts: seq<Action>, path: string)
    ensures var s := Run(Init(events, root, lost), acts);
      && FramesOf(s.wire, path) <= Fed(events, path)
      && (AllProper(acts) && Finished(s) ==> FramesOf(s.wire, path) == Fed(events, path))
  {
    RunConserves(Init(events, root, lost), acts, path);
  }

  // ---------------------------------------------------------------- exactly when chunks stay behind their folder

  /** Some file with chunks to send is fed whose folder's mkdir frame is lost. */
  ghost predicate FeedsIntoLost(events: seq<Event>, root: string, lost: set<string>) {
    exists t: Task :: Feed(t) in events && t.chunks > 0 && NeedsLost(t.path, root, lost)
  }

  ghost predicate NeedsLost(path: string, root: string, lost: set<string>) {
    Parent(path) != "" && Parent(path) != root && Parent(path) in lost
  }

  /** A lost frame is never on the wire. */
  ghost predicate NothingLost(wire: seq<Frame>, lost: set<string>) {
    forall j :: 0 <= j < |wire| && wire[j].MkdirFrame? ==> wire[j].dir !in lost
  }

  lemma {:induction false} LostStaysLost(events: seq<Event>, root: string, lost: set<string>, acts: seq<Action>)
    ensures NothingLost(Run(Init(events, root, lost), acts).wire, lost)
    ensures Run(Init(events, root, lost), acts).lost == lost
  {
    if acts != [] {
      LostStaysLost(events, root, lost, acts[..|acts| - 1]);
    }
  }

  /** A frame that was sent was owed, so its file was fed with chunks to send. */
  lemma FrameWasFed(events: seq<Event>, root: string, lost: set<string>, acts: seq<Action>, j: nat) returns (t: Task)
    requires j < |Run(Init(events, root, lost), acts).wire| && Run(Init(events, root, lost), acts).wire[j].ChunkFrame?
    ensures t.path == Run(Init(events, root, lost), acts).wire[j].path && t.chunks > 0 && Feed(t) in events
  {
    var s := Run(Init(events, root, lost), acts);
    var path := s.wire[j].path;
    EntryWithinTotal(s.wire, j, IsFrameOf(path));
    FinishedHasSentAll(events, root, lost, acts, path);
    var i := PositiveTotal(events, EventOwes(path));
    t := events[i].task;
  }

  /** If no such file is fed, chunks stay behind their folders in every run. */
  lemma OrderHolds(events: seq<Event>, root: string, lost: set<string>, acts: seq<Action>)
    requires !FeedsIntoLost(events, root, lost)
    ensures InOrder(Run(Init(events, root, lost), acts).wire, root)
  {
    var wire := Run(Init(events, root, lost), acts).wire;
    NoOvertaking(events, root, lost, acts);
    forall j | 0 <= j < |wire| && wire[j].ChunkFrame? ensures Announced(wire[..j], root, Parent(wire[j].path)) {
      var t := FrameWasFed(events, root, lost, acts, j);
      assert !NeedsLost(t.path, root, lost);
    }
  }

  /** A chunk frame whose folder's frame is lost is out of order wherever it stands. */
  lemma LostBreaksOrder(wire: seq<Frame>, root: string, lost: set<string>, path: string)
    requires NothingLost(wire, lost) && NeedsLost(path, root, lost) && FramesOf(wire, path) > 0
    ensures !InOrder(wire, root)
  {
    var j := PositiveTotal(wire, IsFrameOf(path));
    assert wire[j] == ChunkFrame(path);
    forall k | 0 <= k < j ensures wire[..j][k] != MkdirFrame(Parent(path)) {
      assert wire[..j][k] == wire[k];
    }
    assert !Announced(wire[..j], root, Parent(path));
  }

  /** If one is fed, the run that finishes sends it. */
  lemma OrderFails(events: seq<Event>, root: string, lost: set<string>) returns (acts: seq<Action>)
    requires Gated(events, {root}) && FeedsIntoLost(events, root, lost)
    ensures !InOrder(Run(Init(events, root, lost), acts).wire, root)
  {
    var t: Task :| Feed(t) in events && t.chunks > 0 && NeedsLost(t.path, root, lost);
    acts := NoDeadlock(events, root, lost, []);
    assert Run(Init(events, root, lost), []) == Init(events, root, lost);
    FinishedHasSentAll(events, root, lost, acts, t.path);
    var i :| 0 <= i < |events| && events[i] == Feed(t);
    EntryWithinTotal(events, i, EventOwes(t.path));
    LostStaysLost(events, root, lost, acts);
    LostBreaksOrder(Run(Init(events, root, lost), acts).wire, root, lost, t.path);
  }

  /** In every run no chunk frame precedes its folder's mkdir frame. */
  ghost predicate AlwaysInOrder(events: seq<Event>, root: string, lost: set<string>) {
    forall acts: seq<Action> :: InOrder(Run(Init(events, root, lost), acts).wire, root)
  }

  /** Main result. With a gated feed, chunks stay behind their folders in every run if and only if no file with chunks
      to send is fed into a folder whose mkdir write fails. */
  lemma OrderExactly(events: seq<Event>, root: string, lost: set<string>)
    requires Gated(events, {root})
    ensures AlwaysInOrder(events, root, lost) <==> !FeedsIntoLost(events, root, lost)
  {
    if FeedsIntoLost(events, root, lost) {
      var acts := OrderFails(events, root, lost);
    } else {
      forall acts: seq<Action> ensures InOrder(Run(Init(events, root, lost), acts).wire, root) {
        OrderHolds(events, root, lost, acts);
      }
    }
  }

  /** For a drop: if no accepted file lies in a refused folder, then exactly so. */
  lemma DropOrderExactly(remoteDir: string, items: seq<Entry>, lost: set<string>)
    requires NoSlashes(items) && SoundDrop(remoteDir, items)
    ensures var events := DropEvents(remoteDir, items);
      AlwaysInOrder(events, remoteDir, lost) <==> !FeedsIntoLost(events, remoteDir, lost)
  {
    DropGatedExactly(remoteDir, items, {remoteDir});
    OrderExactly(DropEvents(remoteDir, items), remoteDir, lost);
  }

  /** The failing run: a folder whose mkdir write fails, with one file of one chunk. The gate opens all the same, and
      the chunk goes out alone. */
  lemma LostMkdirIsOvertaken()
    ensures var task := Task("t/f", 1);
      var wire := Run(Init([Mkdir("t"), Feed(task)], "", {"t"}),
                      [Announce, OpenGate, Push, Take, Acquire, Approach(0), Pass(0), Send(0)]).wire;
      wire == [ChunkFrame("t/f")] && !InOrder(wire, "")
  {
    var task, lost := Task("t/f", 1), {"t"};
    var s := Init([Mkdir("t"), Feed(task)], "", lost);
    var acts := [Announce, OpenGate, Push, Take, Acquire, Approach(0)];
    ParentOfJoin("t", "f");
    assert "t" + "/" + "f" == "t/f";
    ReachesGate("t", task, lost);
    RunStep(s, acts, Pass(0), acts + [Pass(0)]);
    PassOpensTheWay("t", task, [], lost);
    RunStep(s, acts + [Pass(0)], Send(0), acts + [Pass(0)] + [Send(0)]);
    SendWrites("t", task, [], lost);
    assert acts + [Pass(0)] + [Send(0)] == [Announce, OpenGate, Push, Take, Acquire, Approach(0), Pass(0), Send(0)];
    LostBreaksOrder([ChunkFrame("t/f")], "", lost, "t/f");
  }

  lemma PassOpensTheWay(dir: string, task: Task, wire: seq<Frame>, lost: set<string>)
    requires Parent(task.path) == dir
    ensures Apply(Walked(dir, None, [Blocked(task)], wire, lost), Pass(0)) ==
            Walked(dir, None, [Sending(task, task.chunks)], wire, lost)
  {
  }

  lemma SendWrites(dir: string, task: Task, wire: seq<Frame>, lost: set<string>)
    requires task.chunks > 0
    ensures Apply(Walked(dir, None, [Sending(task, task.chunks)], wire, lost), Send(0)).wire ==
            wire + [ChunkFrame(task.path)]
  {
  }
}
