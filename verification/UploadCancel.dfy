/** Cancelling an upload: it can always end at once, with nothing more on the wire. */
module UploadCancel {
  import opened Options
  import opened UploadGate
  import opened UploadPool

  /** The next step of a cancelled upload: a worker at its gate passes it, any other gives up; what was received is
      dropped. */
  function QuietStep(s: Pool): Action {
    if s.slots != [] then (if s.slots[0].Blocked? then Pass(0) else Fail(0))
    else if s.held.Some? then Skip
    else if s.queue != [] then Take
    else if s.announced.Some? then OpenGate
    else Acked
  }

  lemma QuietStepMoves(s: Pool)
    requires AllOpen(s) && s.todo == [] && !Finished(s)
    ensures var t := Apply(s, QuietStep(s)); t != s && t.todo == [] && t.wire == s.wire
  {
    if s.slots != [] {
      assert Open(s.gates, s.slots[0].task.path);
      var t := Apply(s, QuietStep(s));
      assert |t.slots| != |s.slots| || t.slots[0] != s.slots[0];
    }
  }

  lemma {:induction false} CanDrain(s: Pool) returns (acts: seq<Action>)
    requires AllOpen(s) && s.todo == []
    ensures Finished(Run(s, acts)) && Run(s, acts).wire == s.wire
    decreases Weight(s)
  {
    if Finished(s) {
      acts := [];
    } else {
      var a := QuietStep(s);
      QuietStepMoves(s);
      StepsAreFinite(s, a);
      StepKeepsOpen(s, a);
      var rest := CanDrain(Apply(s, a));
      RunStep(s, [], a, [a]);
      RunConcat(s, [a], Apply(s, a), rest);
      acts := [a] + rest;
    }
  }

  /** Main result. With a gated feed, a cancel in any reachable state lets the upload end without another frame: the
      walk stops, received tasks are dropped, workers give up, and what was sent is confirmed or times out. */
  lemma CancelledUploadEnds(events: seq<Event>, root: string, lost: set<string>, acts: seq<Action>)
    returns (more: seq<Action>)
    requires Gated(events, {root})
    ensures var s := Run(Init(events, root, lost), acts);
      var t := Run(Apply(s, CancelWalk), more);
      Finished(t) && t.wire == s.wire
  {
    var s := Run(Init(events, root, lost), acts);
    RunKeepsOpen(events, root, lost, acts);
    StepKeepsOpen(s, CancelWalk);
    more := CanDrain(Apply(s, CancelWalk));
  }
}
