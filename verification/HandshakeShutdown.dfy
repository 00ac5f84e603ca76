/**
 * How a run of the signal benchmark ends. The harness's SIGINT takes a remote out of sigtimedwait; if it was
 * handled on the way there, the timeout does. Either way every run can be brought to its end.
 */
module HandshakeShutdown {
  import opened Wrappers
  import opened Handshake
  import opened HandshakeLaws
  import Harness

  // ----- a SIGINT in sigtimedwait, and the end of the run -----

  ghost predicate Leaving(s: State, i: nat) {
    Reachable(s) && Indexed(s) && !s.aborted && s.h.stop && Running(s, i)
  }

  /** A step of remote i, or nothing but the failure of its sigtimedwait. */
  function ExitStep(s: State, i: nat): Label
    requires Indexed(s) && i < |s.rp|
  {
    if s.rp[i].Waiting? then WaitFails(i) else RemoteStep(s, i)
  }

  lemma ExitStepEnabled(s: State, i: nat)
    requires Leaving(s, i)
    ensures IsOwnStep(ExitStep(s, i), i) && Next(s, ExitStep(s, i)).Some?
    ensures var t := Next(s, ExitStep(s, i)).value;
      && Reachable(t) && t.h.stop && !t.aborted && t.h.main == s.h.main && |t.rp| == |s.rp|
      && !t.rp[i].Waiting? && StepsLeft(t, i) < StepsLeft(s, i)
      && (!Running(t, i) ==> t.h.threads[i].Exited?)
  {
    OwnStepEnabled(s, i);
    OwnStepDecreases(s, ExitStep(s, i), i);
    ReachableStep(s, ExitStep(s, i));
  }

  /** Once it is past sigtimedwait a remote leaves its loop by its own statements, without any timeout. */
  lemma {:induction false} ExitSchedule(s: State, i: nat) returns (ls: seq<Label>)
    requires Leaving(s, i) && !s.rp[i].Waiting?
    ensures Exec(s, ls).Some? && i < |s.rp| == |Exec(s, ls).value.rp| && Exec(s, ls).value.h.threads[i].Exited?
    ensures forall l | l in ls :: l == Remote(i) || l == Run(Harness.LoopTest(i))
    decreases StepsLeft(s, i)
  {
    var l := ExitStep(s, i);
    ExitStepEnabled(s, i);
    var t := Next(s, l).value;
    if Running(t, i) {
      var rest := ExitSchedule(t, i);
      ls := [l] + rest;
    } else {
      ls := [l];
      ExecOne(s, l);
    }
  }

  /** The harness's SIGINT takes a remote out of sigtimedwait at once, and from there its own statements take
      it out of its loop: no timeout has to expire. */
  lemma SigintInWaitExits(s: State, i: nat) returns (ls: seq<Label>)
    requires Reachable(s) && Indexed(s) && Next(s, Interrupt(i, true)).Some? && s.rp[i].Waiting?
    ensures var awake := Next(s, Interrupt(i, true)).value;
      && awake.rp[i].Woken? && i !in awake.h.pending
      && Exec(awake, ls).Some? && i < |Exec(awake, ls).value.h.threads| && Exec(awake, ls).value.h.threads[i].Exited?
    ensures forall l | l in ls :: l == Remote(i) || l == Run(Harness.LoopTest(i))
  {
    ReachableInv(s);
    ReachableStep(s, Interrupt(i, true));
    ls := ExitSchedule(Next(s, Interrupt(i, true)).value, i);
  }

  // ----- from the beginning of a run to its end -----

  ghost predicate EndsOrAborts(s: State, ls: seq<Label>)
    requires Indexed(s)
  {
    Exec(s, ls).Some? && (Exec(s, ls).value.h.main.Between? || Exec(s, ls).value.aborted)
  }

  ghost predicate RunInProgress(s: State) {
    Reachable(s) && Indexed(s) && !s.aborted && !s.h.main.Between?
  }

  /** The main thread waits for remote i and the remote has not left its loop. */
  predicate Awaits(s: State, i: nat)
    requires Indexed(s)
  {
    s.h.main == Harness.Joining(i) && Running(s, i)
  }

  function AwaitedSteps(s: State): nat
    requires Indexed(s)
  {
    if s.h.main.Joining? && s.h.main.tid < |s.rp| then StepsLeft(s, s.h.main.tid) else 0
  }

  lemma HarnessStepLifts(s: State, step: Harness.Label)
    requires Reachable(s) && Indexed(s) && !s.aborted && Harness.Next(s.h, step).Some?
    requires step.MainStep? || step.MeasurerStep? || step.UserSigint? || step.AlarmExpires?
    ensures Next(s, Run(step)).Some?
    ensures var t := Next(s, Run(step)).value;
      Reachable(t) && Indexed(t) && !t.aborted && |t.rp| == |s.rp| && Harness.Next(s.h, step) == Some(t.h)
  {
    HarnessNotHeldUp(s, step, 0, false, 0);
    HarnessProjection(s, Run(step));
    ReachableStep(s, Run(step));
  }

  lemma HarnessAdvances(s: State)
    requires RunInProgress(s) && !s.h.measurer.InOp? && !(s.h.main.Joining? && Awaits(s, s.h.main.tid))
    ensures Next(s, Run(Harness.EndStep(s.h))).Some?
    ensures var t := Next(s, Run(Harness.EndStep(s.h))).value;
      && Reachable(t) && Indexed(t) && !t.aborted && |t.rp| == |s.rp|
      && (Harness.MainLeft(t.h.main, |t.rp|) < Harness.MainLeft(s.h.main, |s.rp|)
          || (t.h.main == s.h.main && !s.h.main.Joining?
              && Harness.MeasurerLeft(t.h) < Harness.MeasurerLeft(s.h)))
  {
    ReachableInv(s);
    if s.h.main.JoinMeasurer? && !s.h.measurer.Returned? {
      Harness.MeasurerStepEnds(s.h);
    } else {
      Harness.MainStepEnds(s.h);
    }
    HarnessStepLifts(s, Harness.EndStep(s.h));
  }

  lemma OperationAdvances(h: Harness.State, h': Harness.State)
    requires Harness.Inv(h) && h.main.JoinMeasurer? && OneOperationLater(h, h')
    ensures h'.main == h.main && Harness.MeasurerLeft(h') < Harness.MeasurerLeft(h)
  {
    Harness.MeasurerStepEnds(h);
  }

  lemma AwaitedAdvances(s: State, i: nat)
    requires RunInProgress(s) && Awaits(s, i)
    ensures Next(s, ExitStep(s, i)).Some? && RunInProgress(Next(s, ExitStep(s, i)).value)
    ensures var t := Next(s, ExitStep(s, i)).value;
      && t.h.main == s.h.main && |t.rp| == |s.rp| && AwaitedSteps(t) < AwaitedSteps(s)
      && Harness.MeasurerLeft(t.h) == Harness.MeasurerLeft(s.h)
  {
    ReachableInv(s);
    ExitStepEnabled(s, i);
  }

  /** From wherever a run is, from its first statement to its last, some schedule ends it, or fails the time
      assertion. */
  lemma {:induction false} RunCanEnd(s: State) returns (ls: seq<Label>)
    requires RunInProgress(s)
    ensures EndsOrAborts(s, ls)
    decreases Harness.MainLeft(s.h.main, |s.rp|), Harness.MeasurerLeft(s.h), AwaitedSteps(s)
  {
    ReachableInv(s);
    var first, rest := [], [];
    if s.h.measurer.InOp? {
      first := RoundCompletes(s);
      var t := Exec(s, first).value;
      if !t.aborted {
        OperationAdvances(s.h, t.h);
        rest := RunCanEnd(t);
      }
    } else if s.h.main.Joining? && Awaits(s, s.h.main.tid) {
      var l := ExitStep(s, s.h.main.tid);
      AwaitedAdvances(s, s.h.main.tid);
      first := [l];
      ExecOne(s, l);
      rest := RunCanEnd(Next(s, l).value);
    } else {
      var l := Run(Harness.EndStep(s.h));
      HarnessAdvances(s);
      first := [l];
      ExecOne(s, l);
      if !Next(s, l).value.h.main.Between? {
        rest := RunCanEnd(Next(s, l).value);
      }
    }
    ls := first + rest;
    ExecConcat(s, first, rest);
  }
}
