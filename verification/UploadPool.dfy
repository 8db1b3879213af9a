/** The running upload: walker, bounded task channel, dispatcher, eight send slots and pending acknowledgements,
    interleaved in every possible way. */
module UploadPool {
  import opened Options
  import opened UploadGate
  import GoText
  import RemotePath
  import opened Seqs
  import opened Sums

  const SLOTS := 8
  const BUFFER := 64

  /** A frame on the shared socket. */
  datatype Frame = MkdirFrame(dir: string) | ChunkFrame(path: string)

  /** A worker holds a send slot: about to open its file, then waiting at its gate, then sending `left` more
      chunks. */
  datatype Worker = Starting(task: Task) | Blocked(task: Task) | Sending(task: Task, left: nat)

  /** lost: the folders whose mkdir frame cannot be written. The error is only logged, and the gate opens all the
      same. announced: the walker is past this mkdir and about to open its gate. */
  datatype Pool = Pool(
    todo: seq<Event>, announced: Option<string>, gates: set<string>, queue: seq<Task>, held: Option<Task>,
    slots: seq<Worker>, acks: nat, wire: seq<Frame>, lost: set<string>)

  datatype Action =
    | Announce                // walker: write the mkdir frame, or fail to
    | OpenGate                // walker: markSent
    | Push                    // walker: feed a task into the channel
    | Take                    // dispatcher: receive a task
    | Acquire                 // dispatcher: get a send slot and start the worker
    | Approach(i: nat)        // worker: file opened, now at its parent's gate
    | Pass(i: nat)            // worker: its parent's gate is open
    | Send(i: nat)            // worker: one chunk frame
    | Release(i: nat)         // worker: all chunks sent, slot given back
    | Fail(i: nat)            // worker: cancelled start, unreadable file, failed send; the slot is given back
    | Acked                   // some finished file is confirmed, or its confirmation times out
    | CancelWalk              // the batch is cancelled or the walk fails: nothing more is discovered
    | Skip                    // dispatcher: drop the received task of a cancelled batch

  function Init(events: seq<Event>, root: string, lost: set<string>): Pool {
    Pool(events, None, {root}, [], None, [], 0, [], lost)
  }

  /** The socket after an attempt to write a mkdir frame. */
  function AfterMkdir(wire: seq<Frame>, dir: string, lost: set<string>): seq<Frame> {
    if dir in lost then wire else wire + [MkdirFrame(dir)]
  }

  function Apply(s: Pool, a: Action): Pool {
    match a
    case Announce =>
      if s.announced.None? && s.todo != [] && s.todo[0].Mkdir? then
        s.(announced := Some(s.todo[0].dir), todo := s.todo[1..], wire := AfterMkdir(s.wire, s.todo[0].dir, s.lost))
      else s
    case OpenGate =>
      if s.announced.Some? then s.(announced := None, gates := s.gates + {s.announced.value}) else s
    case Push =>
      if s.announced.None? && s.todo != [] && s.todo[0].Feed? && |s.queue| < BUFFER then
        s.(queue := s.queue + [s.todo[0].task], todo := s.todo[1..])
      else s
    case Take =>
      if s.held.None? && s.queue != [] then s.(held := Some(s.queue[0]), queue := s.queue[1..]) else s
    case Acquire =>
      if s.held.Some? && |s.slots| < SLOTS then s.(held := None, slots := s.slots + [Starting(s.held.value)]) else s
    case Approach(i) =>
      if i < |s.slots| && s.slots[i].Starting? then s.(slots := s.slots[i := Blocked(s.slots[i].task)]) else s
    case Pass(i) =>
      if i < |s.slots| && s.slots[i].Blocked? && Open(s.gates, s.slots[i].task.path) then
        s.(slots := s.slots[i := Sending(s.slots[i].task, s.slots[i].task.chunks)])
      else s
    case Send(i) =>
      if i < |s.slots| && s.slots[i].Sending? && s.slots[i].left > 0 then
        s.(slots := s.slots[i := Sending(s.slots[i].task, s.slots[i].left - 1)],
           wire := s.wire + [ChunkFrame(s.slots[i].task.path)])
      else s
    case Release(i) =>
      if i < |s.slots| && s.slots[i].Sending? && s.slots[i].left == 0 then
        s.(slots := s.slots[..i] + s.slots[i + 1..], acks := s.acks + 1)
      else s
    case Fail(i) =>
      if i < |s.slots| && !s.slots[i].Blocked? then s.(slots := s.slots[..i] + s.slots[i + 1..]) else s
    case Acked => if s.acks > 0 then s.(acks := s.acks - 1) else s
    case CancelWalk => s.(todo := [])
    case Skip => if s.held.Some? then s.(held := None) else s
  }

  predicate ByWorker(a: Action) {
    a.Approach? || a.Pass? || a.Send? || a.Release? || a.Fail?
  }

  function Run(s: Pool, acts: seq<Action>): Pool {
    if acts == [] then s else Apply(Run(s, acts[..|acts| - 1]), acts[|acts| - 1])
  }

  predicate Finished(s: Pool) {
    s.todo == [] && s.announced.None? && s.queue == [] && s.held.None? && s.slots == [] && s.acks == 0
  }

  // ---------------------------------------------------------------- what every step keeps

  ghost predicate Announced(wire: seq<Frame>, root: string, dir: string) {
    dir == "" || dir == root || MkdirFrame(dir) in wire
  }

  /** Every chunk frame comes after the mkdir frame of its folder, unless that folder's frame was lost. */
  ghost predicate OrderedBut(wire: seq<Frame>, root: string, lost: set<string>) {
    forall j :: 0 <= j < |wire| && wire[j].ChunkFrame? ==>
      Parent(wire[j].path) in lost || Announced(wire[..j], root, Parent(wire[j].path))
  }

  /** No chunk overtakes its folder. */
  ghost predicate InOrder(wire: seq<Frame>, root: string) {
    OrderedBut(wire, root, {})
  }

  /** What holds whatever the walker feeds. */
  ghost predicate Safe(s: Pool, root: string) {
    && |s.slots| <= SLOTS && |s.queue| <= BUFFER
    && (forall i :: 0 <= i < |s.slots| && s.slots[i].Sending? ==> Open(s.gates, s.slots[i].task.path))
    && (forall d :: d in s.gates && d !in s.lost ==> Announced(s.wire, root, d))
    && (s.announced.Some? && s.announced.value !in s.lost ==> Announced(s.wire, root, s.announced.value))
    && OrderedBut(s.wire, root, s.lost)
  }

  lemma WireGrows(wire: seq<Frame>, f: Frame, root: string, lost: set<string>)
    requires OrderedBut(wire, root, lost)
    requires f.ChunkFrame? ==> Parent(f.path) in lost || Announced(wire, root, Parent(f.path))
    ensures OrderedBut(wire + [f], root, lost)
    ensures forall d :: Announced(wire, root, d) ==> Announced(wire + [f], root, d)
  {
    var w := wire + [f];
    forall j | 0 <= j < |w| && w[j].ChunkFrame?
      ensures Parent(w[j].path) in lost || Announced(w[..j], root, Parent(w[j].path))
    {
      if j < |wire| {
        assert w[..j] == wire[..j] && w[j] == wire[j];
      } else {
        assert w[..j] == wire;
      }
    }
  }

  lemma AnnounceKeepsSafe(s: Pool, root: string)
    requires Safe(s, root)
    ensures Safe(Apply(s, Announce), root)
  {
    if s.announced.None? && s.todo != [] && s.todo[0].Mkdir? {
      WireGrows(s.wire, MkdirFrame(s.todo[0].dir), root, s.lost);
      assert MkdirFrame(s.todo[0].dir) in s.wire + [MkdirFrame(s.todo[0].dir)];
    }
  }

  lemma SendKeepsSafe(s: Pool, i: nat, root: string)
    requires Safe(s, root)
    ensures Safe(Apply(s, Send(i)), root)
  {
    if i < |s.slots| && s.slots[i].Sending? && s.slots[i].left > 0 {
      assert Open(s.gates, s.slots[i].task.path);
      WireGrows(s.wire, ChunkFrame(s.slots[i].task.path), root, s.lost);
    }
  }

  lemma OpenGateKeepsSafe(s: Pool, root: string)
    requires Safe(s, root)
    ensures Safe(Apply(s, OpenGate), root)
  {
  }

  /** A worker that moves without sending touches neither gates nor wire. */
  lemma WorkerKeepsSafe(s: Pool, a: Action, root: string)
    requires Safe(s, root) && ByWorker(a) && !a.Send?
    ensures Safe(Apply(s, a), root)
  {
    var t := Apply(s, a);
    assert t.wire == s.wire && t.gates == s.gates && t.lost == s.lost && t.announced == s.announced;
  }

  lemma StepKeepsSafe(s: Pool, a: Action, root: string)
    requires Safe(s, root)
    ensures Safe(Apply(s, a), root)
  {
    if a.Announce? {
      AnnounceKeepsSafe(s, root);
    } else if a.OpenGate? {
      OpenGateKeepsSafe(s, root);
    } else if a.Send? {
      SendKeepsSafe(s, a.i, root);
    } else if ByWorker(a) {
      WorkerKeepsSafe(s, a, root);
    } else {
      var t := Apply(s, a);
      assert t.wire == s.wire && t.gates == s.gates && t.lost == s.lost && t.announced == s.announced;
    }
  }

  lemma StepKeepsLost(s: Pool, a: Action)
    ensures Apply(s, a).lost == s.lost
  {
  }

  lemma {:induction false} RunKeepsSafe(events: seq<Event>, root: string, lost: set<string>, acts: seq<Action>)
    ensures Safe(Run(Init(events, root, lost), acts), root) && Run(Init(events, root, lost), acts).lost == lost
  {
    if acts != [] {
      RunKeepsSafe(events, root, lost, acts[..|acts| - 1]);
      StepKeepsSafe(Run(Init(events, root, lost), acts[..|acts| - 1]), acts[|acts| - 1], root);
      StepKeepsLost(Run(Init(events, root, lost), acts[..|acts| - 1]), acts[|acts| - 1]);
    }
  }

  /** Main result, safety. Whatever is fed and whatever mkdir writes fail, in every reachable state at most eight sends
      are in flight, and every chunk frame has its folder's mkdir frame before it, unless that write failed. */
  lemma NoOvertaking(events: seq<Event>, root: string, lost: set<string>, acts: seq<Action>)
    ensures var s := Run(Init(events, root, lost), acts);
      && |s.slots| <= SLOTS && |s.queue| <= BUFFER
      && (forall j :: 0 <= j < |s.wire| && s.wire[j].ChunkFrame? ==>
            Parent(s.wire[j].path) in lost || Announced(s.wire[..j], root, Parent(s.wire[j].path)))
  {
    RunKeepsSafe(events, root, lost, acts);
  }

  /** What holds of a gated feed: every task that was discovered has its parent's gate open. */
  ghost predicate AllOpen(s: Pool) {
    && Gated(s.todo, s.gates + (if s.announced.Some? then {s.announced.value} else {}))
    && (forall i :: 0 <= i < |s.queue| ==> Open(s.gates, s.queue[i].path))
    && (s.held.Some? ==> Open(s.gates, s.held.value.path))
    && (forall i :: 0 <= i < |s.slots| ==> Open(s.gates, s.slots[i].task.path))
  }

  lemma StepKeepsOpen(s: Pool, a: Action)
    requires AllOpen(s)
    ensures AllOpen(Apply(s, a))
  {
    if a.Announce? || a.Push? {
      assert s.gates + {} == s.gates;
    } else if a.OpenGate? && s.announced.Some? {
      assert (s.gates + {s.announced.value}) + {} == s.gates + {s.announced.value};
    }
  }

  lemma {:induction false} RunKeepsOpen(events: seq<Event>, root: string, lost: set<string>, acts: seq<Action>)
    requires Gated(events, {root})
    ensures AllOpen(Run(Init(events, root, lost), acts))
  {
    if acts == [] {
      assert {root} + {} == {root};
    } else {
      RunKeepsOpen(events, root, lost, acts[..|acts| - 1]);
      StepKeepsOpen(Run(Init(events, root, lost), acts[..|acts| - 1]), acts[|acts| - 1]);
    }
  }

  /** With a gated feed no worker ever has to wait: every discovered task finds its gate open. */
  lemma DiscoveredGatesAreOpen(events: seq<Event>, root: string, lost: set<string>, acts: seq<Action>)
    requires Gated(events, {root})
    ensures var s := Run(Init(events, root, lost), acts);
      && (forall i :: 0 <= i < |s.queue| ==> Open(s.gates, s.queue[i].path))
      && (s.held.Some? ==> Open(s.gates, s.held.value.path))
      && (forall i :: 0 <= i < |s.slots| ==> Open(s.gates, s.slots[i].task.path))
  {
    RunKeepsOpen(events, root, lost, acts);
  }

  // ---------------------------------------------------------------- progress

  function EventWeight(e: Event): nat {
    match e
    case Mkdir(_) => 2
    case Feed(t) => t.chunks + 7
  }

  function TaskWeight(t: Task): nat {
    t.chunks + 6
  }

  function WorkerWeight(w: Worker): nat {
    match w
    case Starting(t) => t.chunks + 4
    case Blocked(t) => t.chunks + 3
    case Sending(_, left) => left + 2
  }

  /** Work left to do. */
  function Weight(s: Pool): nat {
    Total(s.todo, EventWeight) + (if s.announced.Some? then 1 else 0) + Total(s.queue, TaskWeight)
    + (if s.held.Some? then s.held.value.chunks + 5 else 0) + Total(s.slots, WorkerWeight) + s.acks
  }

  lemma SlotReplaced(s: Pool, i: nat, w: Worker, wire: seq<Frame>)
    requires i < |s.slots| && WorkerWeight(w) < WorkerWeight(s.slots[i])
    ensures Weight(s.(slots := s.slots[i := w], wire := wire)) < Weight(s)
  {
    TotalUpdate(s.slots, i, w, WorkerWeight);
  }

  lemma SlotFreed(s: Pool, i: nat, acks: nat)
    requires i < |s.slots| && acks <= s.acks + 1
    ensures Weight(s.(slots := s.slots[..i] + s.slots[i + 1..], acks := acks)) < Weight(s)
  {
    TotalUpdate(s.slots, i, s.slots[i], WorkerWeight);
  }

  lemma WorkerStepsAreFinite(s: Pool, i: nat)
    requires i < |s.slots|
    ensures Apply(s, Approach(i)) != s ==> Weight(Apply(s, Approach(i))) < Weight(s)
    ensures Apply(s, Pass(i)) != s ==> Weight(Apply(s, Pass(i))) < Weight(s)
    ensures Apply(s, Send(i)) != s ==> Weight(Apply(s, Send(i))) < Weight(s)
  {
    var w := s.slots[i];
    if w.Starting? {
      SlotReplaced(s, i, Blocked(w.task), s.wire);
    } else if w.Blocked? {
      SlotReplaced(s, i, Sending(w.task, w.task.chunks), s.wire);
    } else if w.left > 0 {
      SlotReplaced(s, i, Sending(w.task, w.left - 1), s.wire + [ChunkFrame(w.task.path)]);
    }
  }

  lemma LeavingStepsAreFinite(s: Pool, i: nat)
    requires i < |s.slots|
    ensures Apply(s, Release(i)) != s ==> Weight(Apply(s, Release(i))) < Weight(s)
    ensures Apply(s, Fail(i)) != s ==> Weight(Apply(s, Fail(i))) < Weight(s)
  {
    SlotFreed(s, i, s.acks + 1);
    SlotFreed(s, i, s.acks);
  }

  /** Every step that does anything uses up work, so no run of real steps goes on for ever. */
  lemma StepsAreFinite(s: Pool, a: Action)
    ensures Apply(s, a) != s ==> Weight(Apply(s, a)) < Weight(s)
  {
    if ByWorker(a) {
      if a.i < |s.slots| {
        WorkerStepsAreFinite(s, a.i);
        LeavingStepsAreFinite(s, a.i);
      }
    } else if a.Push? && s.todo != [] && s.todo[0].Feed? {
      TotalSnoc(s.queue, s.todo[0].task, TaskWeight);
    } else if a.Acquire? && s.held.Some? {
      TotalSnoc(s.slots, Starting(s.held.value), WorkerWeight);
    }
  }

  /** The upload proper: nothing is cancelled and nothing fails. */
  predicate Proper(a: Action) {
    !a.CancelWalk? && !a.Skip? && !a.Fail?
  }

  predicate AllProper(acts: seq<Action>) {
    forall i :: 0 <= i < |acts| ==> Proper(acts[i])
  }

  /** Some step of the upload proper that can be taken. */
  function NextStep(s: Pool): (a: Action)
    ensures Proper(a)
  {
    if s.slots != [] then
      (match s.slots[0]
       case Starting(_) => Approach(0)
       case Blocked(_) => Pass(0)
       case Sending(_, left) => if left > 0 then Send(0) else Release(0))
    else if s.held.Some? then Acquire
    else if s.queue != [] then Take
    else if s.announced.Some? then OpenGate
    else if s.todo != [] then (if s.todo[0].Mkdir? then Announce else Push)
    else Acked
  }

  lemma StepMoves(s: Pool)
    requires AllOpen(s) && !Finished(s)
    ensures Apply(s, NextStep(s)) != s
  {
    if s.slots != [] {
      assert Open(s.gates, s.slots[0].task.path);
      var t := Apply(s, NextStep(s));
      assert |t.slots| != |s.slots| || t.slots[0] != s.slots[0];
    } else if s.held.Some? {
    } else if s.queue != [] {
    } else if s.announced.Some? {
    } else if s.todo != [] {
      assert |Apply(s, NextStep(s)).todo| < |s.todo|;
    }
  }

  lemma RunSnoc(s: Pool, acts: seq<Action>, a: Action)
    ensures Run(s, acts + [a]) == Apply(Run(s, acts), a)
  {
    assert (acts + [a])[..|acts|] == acts;
  }

  lemma SameLastStep(s: Pool, p: seq<Action>, t: Pool, q: seq<Action>)
    requires p != [] && q != [] && p[|p| - 1] == q[|q| - 1]
    requires Run(s, p[..|p| - 1]) == Run(t, q[..|q| - 1])
    ensures Run(s, p) == Run(t, q)
  {
  }

  lemma ButLastOfConcat(first: seq<Action>, acts: seq<Action>)
    requires acts != []
    ensures var all := first + acts;
      all[..|all| - 1] == first + acts[..|acts| - 1] && all[|all| - 1] == acts[|acts| - 1]
  {
  }

  /** A run in two parts. */
  lemma {:induction false} RunConcat(s: Pool, first: seq<Action>, t: Pool, acts: seq<Action>)
    requires Run(s, first) == t
    ensures Run(s, first + acts) == Run(t, acts)
  {
    if acts == [] {
      assert first + acts == first;
    } else {
      RunConcat(s, first, t, acts[..|acts| - 1]);
      ButLastOfConcat(first, acts);
      SameLastStep(s, first + acts, t, acts);
    }
  }

  /** From a state in which all discovered gates are open, the upload proper can be carried to its end. */
  lemma {:induction false} CanFinish(s: Pool) returns (acts: seq<Action>)
    requires AllOpen(s)
    ensures AllProper(acts) && Finished(Run(s, acts))
    decreases Weight(s)
  {
    if Finished(s) {
      acts := [];
    } else {
      var a := NextStep(s);
      StepMoves(s);
      StepsAreFinite(s, a);
      StepKeepsOpen(s, a);
      var rest := CanFinish(Apply(s, a));
      RunStep(s, [], a, [a]);
      RunConcat(s, [a], Apply(s, a), rest);
      acts := [a] + rest;
    }
  }

  /** Main result, progress. With a gated feed no reachable state is stuck, whatever was cancelled or failed on the
      way: unless everything is finished some proper step uses up work, and proper steps alone lead to the end. */
  lemma NoDeadlock(events: seq<Event>, root: string, lost: set<string>, acts: seq<Action>)
    returns (more: seq<Action>)
    requires Gated(events, {root})
    ensures var s := Run(Init(events, root, lost), acts);
      && (Finished(s) || Weight(Apply(s, NextStep(s))) < Weight(s))
      && AllProper(more) && Finished(Run(s, more))
  {
    var s := Run(Init(events, root, lost), acts);
    RunKeepsOpen(events, root, lost, acts);
    if !Finished(s) {
      StepMoves(s);
      StepsAreFinite(s, NextStep(s));
    }
    more := CanFinish(s);
  }

  // ---------------------------------------------------------------- deadlock

  /** Nobody will open this folder's gate any more. */
  ghost predicate Sealed(s: Pool, dir: string) {
    dir != "" && dir !in s.gates && s.announced != Some(dir) && dir !in Marked(s.todo)
  }

  lemma StepKeepsSealed(s: Pool, a: Action, dir: string)
    requires Sealed(s, dir)
    ensures Sealed(Apply(s, a), dir)
  {
  }

  lemma StepKeepsWaiting(s: Pool, a: Action, task: Task)
    requires Sealed(s, Parent(task.path)) && Blocked(task) in s.slots
    ensures Blocked(task) in Apply(s, a).slots
  {
    var t := Apply(s, a);
    if ByWorker(a) && t.slots != s.slots {
      assert s.slots[a.i] != Blocked(task);
      KeptInUpdate(s.slots, Blocked(task), a.i, if |t.slots| == |s.slots| then t.slots[a.i] else Blocked(task));
    }
  }

  /** Once a worker stands at a gate that nobody will open, nothing whatever ends the upload: not a cancel, not a
      failure of others. */
  lemma {:induction false} WaitsForever(s: Pool, task: Task, acts: seq<Action>)
    requires Sealed(s, Parent(task.path)) && Blocked(task) in s.slots
    ensures Sealed(Run(s, acts), Parent(task.path)) && Blocked(task) in Run(s, acts).slots && !Finished(Run(s, acts))
  {
    if acts != [] {
      var n := |acts| - 1;
      WaitsForever(s, task, acts[..n]);
      StepKeepsSealed(Run(s, acts[..n]), acts[n], Parent(task.path));
      StepKeepsWaiting(Run(s, acts[..n]), acts[n], task);
    }
  }

  /** The task is somewhere between the walker and its gate. */
  ghost predicate Unsent(s: Pool, task: Task) {
    || Feed(task) in s.todo || task in s.queue || s.held == Some(task)
    || Starting(task) in s.slots || Blocked(task) in s.slots
  }

  lemma WalkerKeepsUnsent(s: Pool, a: Action, task: Task)
    requires Unsent(s, task) && (a.Announce? || a.OpenGate? || a.Push? || a.Take? || a.Acquire? || a.Acked?)
    ensures Unsent(Apply(s, a), task)
  {
    if s.todo != [] && Feed(task) in s.todo && s.todo[0] != Feed(task) {
      KeptInTail(s.todo, Feed(task));
    }
    if a.Push? && s.todo != [] && s.todo[0] == Feed(task) {
      assert task in s.queue + [task];
    }
    if s.queue != [] && task in s.queue && s.queue[0] != task {
      KeptInTail(s.queue, task);
    }
    if a.Acquire? && s.held == Some(task) {
      assert Starting(task) in s.slots + [Starting(task)];
    }
  }

  lemma WorkerKeepsUnsent(s: Pool, a: Action, task: Task)
    requires Sealed(s, Parent(task.path)) && Unsent(s, task)
    requires (a.Approach? || a.Pass? || a.Send? || a.Release?) && a.i < |s.slots|
    ensures Unsent(Apply(s, a), task)
  {
    var w, t := s.slots[a.i], Apply(s, a);
    if t.slots != s.slots && (Starting(task) in s.slots || Blocked(task) in s.slots) {
      if w == Starting(task) {
        assert t.slots[a.i] == Blocked(task);
      } else {
        assert w != Blocked(task);
        var x := if Starting(task) in s.slots then Starting(task) else Blocked(task);
        KeptInUpdate(s.slots, x, a.i, if |t.slots| == |s.slots| then t.slots[a.i] else x);
      }
    }
  }

  /** A task whose folder nobody announces is never sent, so no proper run ends. */
  lemma {:induction false} OrphanIsNeverSent(events: seq<Event>, root: string, lost: set<string>, task: Task,
                                               acts: seq<Action>)
    requires Feed(task) in events && AllProper(acts)
    requires Parent(task.path) != "" && Parent(task.path) != root && Parent(task.path) !in Marked(events)
    ensures var s := Run(Init(events, root, lost), acts);
      Sealed(s, Parent(task.path)) && Unsent(s, task) && !Finished(s)
  {
    if acts != [] {
      var n := |acts| - 1;
      OrphanIsNeverSent(events, root, lost, task, acts[..n]);
      var s, a := Run(Init(events, root, lost), acts[..n]), acts[n];
      assert Proper(a);
      StepKeepsSealed(s, a, Parent(task.path));
      if !(a.Approach? || a.Pass? || a.Send? || a.Release?) {
        WalkerKeepsUnsent(s, a, task);
      } else if a.i < |s.slots| {
        WorkerKeepsUnsent(s, a, task);
      }
    }
  }

  /** Some run in which nothing is cancelled and nothing fails reaches the end. */
  ghost predicate Finishes(s: Pool) {
    exists acts: seq<Action> :: AllProper(acts) && Finished(Run(s, acts))
  }

  /** Main result. The upload of a drop can be carried to its end, with nothing cancelled and no worker failing, if and
      only if no file with an accepted path lies in a refused folder. Otherwise, since real steps are finite, every
      such run gets stuck. */
  lemma DropFinishesExactly(remoteDir: string, items: seq<Entry>, lost: set<string>)
    requires NoSlashes(items)
    ensures Finishes(Init(DropEvents(remoteDir, items), remoteDir, lost)) <==> SoundDrop(remoteDir, items)
  {
    var events := DropEvents(remoteDir, items);
    DropGatedExactly(remoteDir, items, {remoteDir});
    if SoundDrop(remoteDir, items) {
      var acts := NoDeadlock(events, remoteDir, lost, []);
      assert Run(Init(events, remoteDir, lost), []) == Init(events, remoteDir, lost);
      assert AllProper(acts) && Finished(Run(Init(events, remoteDir, lost), acts));
    } else {
      var task := UnsoundDropHasOrphan(remoteDir, items);
      DropMarksValid(remoteDir, items);
      forall acts: seq<Action> | AllProper(acts) ensures !Finished(Run(Init(events, remoteDir, lost), acts)) {
        OrphanIsNeverSent(events, remoteDir, lost, task, acts);
      }
    }
  }

  // ---------------------------------------------------------------- a drop that deadlocks

  /** One folder and one file in it, as far as the walk has come. */
  ghost function Walking(todo: seq<Event>, announced: Option<string>, gates: set<string>, wire: seq<Frame>,
                         lost: set<string>): Pool
  {
    Pool(todo, announced, gates, [], None, [], 0, wire, lost)
  }

  /** The walk is done, and the file is held or has a worker. */
  ghost function Walked(dir: string, held: Option<Task>, slots: seq<Worker>, wire: seq<Frame>, lost: set<string>): Pool
  {
    Pool([], None, {"", dir}, [], held, slots, 0, wire, lost)
  }

  lemma AfterAnnounce(dir: string, task: Task, lost: set<string>)
    ensures Apply(Init([Mkdir(dir), Feed(task)], "", lost), Announce) ==
            Walking([Feed(task)], Some(dir), {""}, AfterMkdir([], dir, lost), lost)
  {
    assert [Mkdir(dir), Feed(task)][1..] == [Feed(task)];
  }

  lemma AfterOpenGate(dir: string, task: Task, wire: seq<Frame>, lost: set<string>)
    ensures Apply(Walking([Feed(task)], Some(dir), {""}, wire, lost), OpenGate) ==
            Walking([Feed(task)], None, {"", dir}, wire, lost)
  {
  }

  lemma AfterPush(dir: string, task: Task, wire: seq<Frame>, lost: set<string>)
    ensures Apply(Walking([Feed(task)], None, {"", dir}, wire, lost), Push) ==
            Walking([], None, {"", dir}, wire, lost).(queue := [task])
  {
  }

  lemma AfterTake(dir: string, task: Task, wire: seq<Frame>, lost: set<string>)
    ensures Apply(Walking([], None, {"", dir}, wire, lost).(queue := [task]), Take) ==
            Walked(dir, Some(task), [], wire, lost)
  {
  }

  lemma AfterAcquire(dir: string, task: Task, wire: seq<Frame>, lost: set<string>)
    ensures Apply(Walked(dir, Some(task), [], wire, lost), Acquire) ==
            Walked(dir, None, [Starting(task)], wire, lost)
  {
  }

  /** The walk of one folder with one file brings a worker to the file's gate. */
  lemma ReachesGate(dir: string, task: Task, lost: set<string>)
    ensures Run(Init([Mkdir(dir), Feed(task)], "", lost), [Announce, OpenGate, Push, Take, Acquire, Approach(0)])
            == Walked(dir, None, [Blocked(task)], AfterMkdir([], dir, lost), lost)
  {
    var s, wire := Init([Mkdir(dir), Feed(task)], "", lost), AfterMkdir([], dir, lost);
    AfterAnnounce(dir, task, lost);
    RunStep(s, [], Announce, [Announce]);
    AfterOpenGate(dir, task, wire, lost);
    RunStep(s, [Announce], OpenGate, [Announce, OpenGate]);
    AfterPush(dir, task, wire, lost);
    RunStep(s, [Announce, OpenGate], Push, [Announce, OpenGate, Push]);
    AfterTake(dir, task, wire, lost);
    RunStep(s, [Announce, OpenGate, Push], Take, [Announce, OpenGate, Push, Take]);
    AfterAcquire(dir, task, wire, lost);
    RunStep(s, [Announce, OpenGate, Push, Take], Acquire, [Announce, OpenGate, Push, Take, Acquire]);
    RunStep(s, [Announce, OpenGate, Push, Take, Acquire], Approach(0),
            [Announce, OpenGate, Push, Take, Acquire, Approach(0)]);
  }

  lemma RunStep(s: Pool, acts: seq<Action>, a: Action, all: seq<Action>)
    requires all == acts + [a]
    ensures Run(s, all) == Apply(Run(s, acts), a)
  {
    RunSnoc(s, acts, a);
  }

  lemma NothingMoves(dir: string, task: Task, wire: seq<Frame>, lost: set<string>)
    requires !Open({"", dir}, task.path)
    ensures var s := Walked(dir, None, [Blocked(task)], wire, lost);
      !Finished(s) && forall a: Action :: Apply(s, a) == s
  {
    var s := Walked(dir, None, [Blocked(task)], wire, lost);
    forall a: Action ensures Apply(s, a) == s {
      BlockedStays(s, a, task);
    }
  }

  /** Nothing is left to do but a worker at a closed gate. */
  lemma BlockedStays(s: Pool, a: Action, task: Task)
    requires s.slots == [Blocked(task)] && !Open(s.gates, task.path)
    requires s.todo == [] && s.announced.None? && s.queue == [] && s.held.None? && s.acks == 0
    ensures Apply(s, a) == s
  {
  }

  /** Such a drop: a file whose name trims to "..", inside a folder with an over-long name. Its upload reaches a state
      that is not finished and that no step, by anyone, can ever change. */
  lemma DotDotDeadlocks(name: string, chunks: nat, lost: set<string>)
    requires '/' !in name && GoText.TrimRight(name) == ".."
    ensures !SoundAll("t", BadTree(name, chunks))
    ensures var s := Run(Init(FolderEvents("t", BadTree(name, chunks)), "", lost),
                         [Announce, OpenGate, Push, Take, Acquire, Approach(0)]);
      !Finished(s) && forall a: Action :: Apply(s, a) == s
  {
    BadTreeIsUnsound(name, chunks);
    BadTreeEvents(name, chunks);
    var p := "t" + "/" + RemotePath.LongName();
    ReachesGate("t", Task(p + "/" + name, chunks), lost);
    NothingMoves("t", Task(p + "/" + name, chunks), AfterMkdir([], "t", lost), lost);
  }
}
