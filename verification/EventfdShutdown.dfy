/**
 * How an eventfd run ends. Once `stop` is stored nobody has a request outstanding; the main thread
 * sends SIGINT to every remote and joins it. A polling remote always leaves its loop. A blocking one
 * leaves it unless its SIGINT was handled after it had tested `stop` and before it slept in the read.
 */
module EventfdShutdown {
  import opened Wrappers
  import opened Eventfd
  import opened EventfdLaws
  import Harness

  /** The main thread has sent remote i its SIGINT and has not joined it yet. */
  predicate Kicked(s: State, i: nat) {
    match s.h.main
    case Kicking(t) => i < t
    case Joining(t) => t <= i
    case _ => false
  }

  predicate Running(s: State, i: nat)
    requires Indexed(s)
  {
    i < |s.rp| && Harness.Alive(s.h.threads[i])
  }

  predicate Reading(pc: RemoteOp) {
    pc.AtRead? || pc.Blocked?
  }

  /** The remotes in `early` are exactly the ones whose SIGINT is spent while they are on their way into
      the read. */
  ghost predicate EarlyInv(s: State)
    requires Indexed(s)
  {
    && (forall i | i in s.early ::
          !s.nonblock && Running(s, i) && Kicked(s, i) && i !in s.h.pending && Reading(s.rp[i]))
    && (forall i | 0 <= i < |s.rp| && Running(s, i) && Kicked(s, i) && i !in s.h.pending && Reading(s.rp[i]) ::
          !s.nonblock ==> i in s.early)
  }

  lemma StopMeansIdle(s: State)
    requires Inv(s) && s.h.stop
    ensures s.mp.Idle? && s.local == 0
    ensures forall i | 0 <= i < |s.rp| :: NoToken(s, i)
  {
  }

  lemma EarlyRun(s: State, step: Harness.Label)
    requires Inv(s) && EarlyInv(s) && RunNext(s, step).Some?
    requires !step.MainStep? && !step.BeginRun? && !step.LoopTest?
    ensures EarlyInv(RunNext(s, step).value)
  {
  }

  lemma EarlyBegin(s: State, step: Harness.Label)
    requires Inv(s) && EarlyInv(s) && step.BeginRun? && RunNext(s, step).Some?
    ensures EarlyInv(RunNext(s, step).value)
  {
  }

  lemma EarlyLoopTest(s: State, i: nat)
    requires Inv(s) && EarlyInv(s) && RunNext(s, Harness.LoopTest(i)).Some?
    ensures EarlyInv(RunNext(s, Harness.LoopTest(i)).value)
  {
  }

  lemma EarlyMain(s: State)
    requires Inv(s) && EarlyInv(s) && RunNext(s, Harness.MainStep).Some?
    ensures EarlyInv(RunNext(s, Harness.MainStep).value)
  {
  }

  lemma EarlyInterrupt(s: State, i: nat, inRead: bool)
    requires Inv(s) && EarlyInv(s) && InterruptNext(s, i, inRead).Some?
    ensures EarlyInv(InterruptNext(s, i, inRead).value)
  {
  }

  lemma EarlyMeasurer(s: State, l: Label)
    requires Inv(s) && EarlyInv(s) && MeasurerNext(s, l).Some?
    ensures EarlyInv(MeasurerNext(s, l).value)
  {
  }

  lemma EarlyRemote(s: State, l: Label, i: nat)
    requires Inv(s) && EarlyInv(s) && i < |s.rp| && RemoteNext(s, l, i).Some?
    ensures EarlyInv(RemoteNext(s, l, i).value)
  {
    if Kicked(s, i) {
      StopMeansIdle(s);
      assert NoToken(s, i);
    }
  }

  lemma EarlyHarness(s: State, step: Harness.Label)
    requires Inv(s) && EarlyInv(s) && RunNext(s, step).Some?
    ensures EarlyInv(RunNext(s, step).value)
  {
    match step
    case BeginRun(_, _) => EarlyBegin(s, step);
    case MainStep => EarlyMain(s);
    case LoopTest(i) => EarlyLoopTest(s, i);
    case _ => EarlyRun(s, step);
  }

  lemma EarlyStep(s: State, l: Label)
    requires Inv(s) && EarlyInv(s) && Next(s, l).Some?
    ensures EarlyInv(Next(s, l).value)
  {
    match l
    case Run(step) => EarlyHarness(s, step);
    case Interrupt(i, inRead) => EarlyInterrupt(s, i, inRead);
    case Tick(d) =>
    case EnterRead(i) => EarlyRemote(s, l, i);
    case Wake(i) => EarlyRemote(s, l, i);
    case ReadClock(i) => EarlyRemote(s, l, i);
    case WriteReply(i) => EarlyRemote(s, l, i);
    case Return(i) => EarlyRemote(s, l, i);
    case _ => EarlyMeasurer(s, l);
  }

  lemma {:induction false} EarlyExec(s: State, ls: seq<Label>)
    requires Inv(s) && EarlyInv(s) && Exec(s, ls).Some?
    ensures EarlyInv(Exec(s, ls).value)
    decreases |ls|
  {
    if ls != [] {
      EarlyStep(s, ls[0]);
      StepPreserves(s, ls[0]);
      EarlyExec(Next(s, ls[0]).value, ls[1..]);
    }
  }

  lemma ReachableEarly(s: State)
    requires Reachable(s)
    ensures Inv(s) && EarlyInv(s)
  {
    var s0: State, n: nat, ls: seq<Label> :| Init(s0, n) && Exec(s0, ls) == Some(s);
    ReachableInv(s);
    InitInv(s0, n);
    EarlyExec(s0, ls);
  }

  // ----- every remote that is not caught early leaves its loop -----

  function Rank(pc: RemoteOp): nat {
    match pc
    case Out => 1
    case AtReturn => 2
    case Blocked => 3
    case AtRead => 4
    case AtWrite(_, _) => 5
    case AtClock(_) => 6
  }

  /** A bound on the steps remote i still takes itself. */
  function StepsLeft(s: State, i: nat): nat
    requires Indexed(s) && i < |s.rp|
  {
    if Running(s, i) then 2 * Rank(s.rp[i]) + Count(Harness.SigintDue(s.h, i)) else 0
  }

  predicate IsOwnStep(l: Label, i: nat) {
    match l
    case Run(step) => step == Harness.LoopTest(i)
    case Interrupt(j, _) => j == i
    case EnterRead(j) => j == i
    case Wake(j) => j == i
    case ReadClock(j) => j == i
    case WriteReply(j) => j == i
    case Return(j) => j == i
    case _ => false
  }

  /** Once `stop` is stored, each step of remote i uses up the bound. */
  lemma OwnStepDecreases(s: State, l: Label, i: nat)
    requires Reachable(s) && Indexed(s) && s.h.stop && Running(s, i)
    requires IsOwnStep(l, i) && Next(s, l).Some?
    ensures StepsLeft(Next(s, l).value, i) < StepsLeft(s, i)
  {
    ReachableInv(s);
    StopMeansIdle(s);
    assert NoToken(s, i);
  }

  lemma RemoteKeeps(s: State, l: Label, j: nat, i: nat)
    requires Inv(s) && s.h.stop && Running(s, i) && j < |s.rp| && j != i && RemoteNext(s, l, j).Some?
    ensures RemoteNext(s, l, j).value.h.stop
    ensures StepsLeft(RemoteNext(s, l, j).value, i) <= StepsLeft(s, i)
  {
  }

  lemma RunKeeps(s: State, step: Harness.Label, i: nat)
    requires Inv(s) && s.h.stop && Running(s, i) && RunNext(s, step).Some?
    requires !step.MainStep? && step != Harness.LoopTest(i)
    ensures RunNext(s, step).value.h.stop
    ensures StepsLeft(RunNext(s, step).value, i) <= StepsLeft(s, i)
  {
  }

  lemma InterruptKeeps(s: State, j: nat, inRead: bool, i: nat)
    requires Inv(s) && s.h.stop && Running(s, i) && j != i && InterruptNext(s, j, inRead).Some?
    ensures InterruptNext(s, j, inRead).value.h.stop
    ensures StepsLeft(InterruptNext(s, j, inRead).value, i) <= StepsLeft(s, i)
  {
  }

  /** And nobody else's step adds to it, or takes `stop` back while the remote runs. */
  lemma OtherStepKeeps(s: State, l: Label, i: nat)
    requires Reachable(s) && Indexed(s) && s.h.stop && Running(s, i)
    requires !IsOwnStep(l, i) && Next(s, l).Some?
    ensures Next(s, l).value.h.stop
    ensures StepsLeft(Next(s, l).value, i) <= StepsLeft(s, i)
  {
    ReachableEarly(s);
    match l
    case Run(step) =>
      if step.MainStep? {
        MainKeeps(s, i);
      } else {
        RunKeeps(s, step, i);
      }
    case Interrupt(j, inRead) => InterruptKeeps(s, j, inRead, i);
    case Tick(_) =>
    case EnterRead(j) => RemoteKeeps(s, l, j, i);
    case Wake(j) => RemoteKeeps(s, l, j, i);
    case ReadClock(j) => RemoteKeeps(s, l, j, i);
    case WriteReply(j) => RemoteKeeps(s, l, j, i);
    case Return(j) => RemoteKeeps(s, l, j, i);
    case _ => StopMeansIdle(s);
  }

  lemma MainKeeps(s: State, i: nat)
    requires Inv(s) && s.h.stop && Running(s, i) && RunNext(s, Harness.MainStep).Some?
    ensures RunNext(s, Harness.MainStep).value.h.stop
    ensures StepsLeft(RunNext(s, Harness.MainStep).value, i) <= StepsLeft(s, i)
  {
  }

  predicate Enabled(s: State, i: nat)
    requires Indexed(s) && i < |s.rp|
  {
    Next(s, RemoteStep(s, i)).Some? || Next(s, Interrupt(i, true)).Some?
  }

  /** A polling remote can always go on, so it exits within StepsLeft of its own steps. */
  lemma PollingExits(s: State, i: nat)
    requires Reachable(s) && Indexed(s) && s.nonblock && s.fault.NoFault? && s.h.stop && Running(s, i)
    ensures Next(s, RemoteStep(s, i)).Some?
  {
    ReachableEarly(s);
    StopMeansIdle(s);
    assert NoToken(s, i);
  }

  /** A blocking remote that has been kicked can go on iff it is not asleep with its SIGINT spent, and
      then it is one that was caught early. */
  lemma BlockingExitsUnlessEarly(s: State, i: nat)
    requires Reachable(s) && Indexed(s) && !s.nonblock && s.fault.NoFault? && s.h.stop
    requires Running(s, i) && Kicked(s, i)
    ensures Enabled(s, i) <==> !(i in s.early && s.rp[i].Blocked?)
    ensures i in s.early <==> i !in s.h.pending && Reading(s.rp[i])
  {
    ReachableEarly(s);
    StopMeansIdle(s);
    assert NoToken(s, i);
  }

  /** A SIGINT that lands while the remote sleeps in the read takes it out of the read for good: it returns
      from other_operation, tests `stop`, and has left its loop. */
  lemma SigintInReadExits(s: State, i: nat, inRead: bool)
    requires Reachable(s) && Indexed(s) && Next(s, Interrupt(i, inRead)).Some? && s.rp[i].Blocked?
    ensures var awake := Next(s, Interrupt(i, inRead)).value;
      && i !in awake.early && Next(awake, Return(i)).Some?
      && var out := Next(awake, Return(i)).value;
         && Next(out, Run(Harness.LoopTest(i))).Some?
         && Next(out, Run(Harness.LoopTest(i))).value.h.threads[i].Exited?
  {
    ReachableEarly(s);
    var awake := Next(s, Interrupt(i, inRead)).value;
    assert awake.h.stop && awake.rp[i] == AtReturn && awake.h.threads[i].InOther?;
  }

  // ----- the remaining case hangs -----

  lemma {:induction false} EarlyForever(s: State, i: nat, ls: seq<Label>)
    requires Inv(s) && EarlyInv(s) && i in s.early && Exec(s, ls).Some?
    ensures i in Exec(s, ls).value.early
    decreases |ls|
  {
    if ls != [] {
      EarlyStep(s, ls[0]);
      StepPreserves(s, ls[0]);
      StaysEarly(s, ls[0], i);
      EarlyForever(Next(s, ls[0]).value, i, ls[1..]);
    }
  }

  lemma StaysEarly(s: State, l: Label, i: nat)
    requires Inv(s) && EarlyInv(s) && i in s.early && Next(s, l).Some?
    ensures i in Next(s, l).value.early && Next(s, l).value.h.run == s.h.run
  {
    HarnessProjection(s, l);
    assert !s.h.main.Between?;
  }

  /** Whatever happens afterwards, a remote caught early stays in its read and its run is never over. */
  lemma EarlyHangs(s: State, i: nat, ls: seq<Label>)
    requires Reachable(s) && Indexed(s) && i in s.early && Exec(s, ls).Some?
    ensures var t := Exec(s, ls).value;
      i < |t.rp| && Reading(t.rp[i]) && Kicked(t, i) && !t.h.main.Destroying? && t.h.run == s.h.run
  {
    ReachableEarly(s);
    EarlyForever(s, i, ls);
    EarlyExec(s, ls);
    SameRun(s, i, ls);
  }

  lemma {:induction false} SameRun(s: State, i: nat, ls: seq<Label>)
    requires Inv(s) && EarlyInv(s) && i in s.early && Exec(s, ls).Some?
    ensures Exec(s, ls).value.h.run == s.h.run
    decreases |ls|
  {
    if ls != [] {
      var s' := Next(s, ls[0]).value;
      EarlyStep(s, ls[0]);
      StepPreserves(s, ls[0]);
      StaysEarly(s, ls[0], i);
      SameRun(s', i, ls[1..]);
    }
  }

  // ----- so a remote, and with it the run, can end exactly when nobody was caught early -----

  ghost predicate Exits(s: State, ls: seq<Label>, i: nat)
    requires Indexed(s)
  {
    Exec(s, ls).Some? && !Running(Exec(s, ls).value, i)
  }

  ghost predicate Leaving(s: State, i: nat) {
    Reachable(s) && Indexed(s) && s.fault.NoFault? && s.h.stop && Running(s, i) && Kicked(s, i)
  }

  /** A sleeping remote takes its SIGINT; otherwise the remote goes on. */
  function ExitStep(s: State, i: nat): Label
    requires Indexed(s) && i < |s.rp|
  {
    if s.rp[i].Blocked? then Interrupt(i, true) else RemoteStep(s, i)
  }

  lemma ExitStepEnabled(s: State, i: nat)
    requires Leaving(s, i) && i !in s.early
    ensures IsOwnStep(ExitStep(s, i), i) && Next(s, ExitStep(s, i)).Some?
    ensures var s' := Next(s, ExitStep(s, i)).value;
      s'.early == s.early && s'.h.main == s.h.main && s'.h.stop && s'.fault.NoFault?
  {
    ReachableEarly(s);
    StopMeansIdle(s);
    assert NoToken(s, i);
  }

  lemma {:induction false} ExitSchedule(s: State, i: nat) returns (ls: seq<Label>)
    requires Leaving(s, i) && i !in s.early
    ensures Exits(s, ls, i)
    decreases StepsLeft(s, i)
  {
    var l := ExitStep(s, i);
    ExitStepEnabled(s, i);
    var s' := Next(s, l).value;
    if Running(s', i) {
      OwnStepDecreases(s, l, i);
      ReachableStep(s, l);
      var rest := ExitSchedule(s', i);
      ls := [l] + rest;
    } else {
      ls := [l];
      ExecOne(s, l);
    }
  }

  /** After its SIGINT was sent, some schedule takes a remote out of its loop if and only if that SIGINT was
      not spent between the test of `stop` and the sleep in the read. */
  lemma ExitsIff(s: State, i: nat)
    requires Leaving(s, i)
    ensures (exists ls :: Exits(s, ls, i)) <==> i !in s.early
  {
    if i in s.early {
      ReachableEarly(s);
      forall ls | Exec(s, ls).Some? ensures !Exits(s, ls, i) {
        EarlyForever(s, i, ls);
        EarlyExec(s, ls);
      }
    } else {
      var ls := ExitSchedule(s, i);
    }
  }

  /** `stop` has been stored in the run in progress, which is not over. */
  ghost predicate Stopping(s: State) {
    && Reachable(s) && Indexed(s) && s.fault.NoFault? && s.h.stop
    && WindingUp(s.h.main)
  }

  predicate WindingUp(main: Harness.MainPc) {
    main.JoinMeasurer? || main.Kicking? || main.Joining? || main.Destroying?
  }

  ghost predicate Ends(s: State, ls: seq<Label>)
    requires Indexed(s)
  {
    Exec(s, ls).Some? && Exec(s, ls).value.h.main.Between?
  }

  /** Statements the main thread still has to execute in this run. */
  function MainLeft(main: Harness.MainPc, n: nat): nat {
    match main
    case JoinMeasurer => 2 * n + 4
    case Kicking(t) => if t <= n then 2 * n - t + 3 else 0
    case Joining(t) => if t <= n then n - t + 2 else 0
    case Destroying => 1
    case _ => 0
  }

  /** The main thread waits for remote i and the remote has not left its loop. */
  predicate Awaits(s: State, i: nat)
    requires Indexed(s)
  {
    s.h.main == Harness.Joining(i) && Running(s, i)
  }

  lemma MainStepEnds(s: State)
    requires Stopping(s) && !(s.h.main.Joining? && Awaits(s, s.h.main.tid))
    ensures Next(s, Run(Harness.MainStep)).Some?
    ensures var s' := Next(s, Run(Harness.MainStep)).value;
      && s'.early == s.early && s'.fault.NoFault?
      && (s'.h.main.Between? || (WindingUp(s'.h.main) && s'.h.stop))
      && MainLeft(s'.h.main, |s'.rp|) < MainLeft(s.h.main, |s.rp|)
  {
    ReachableInv(s);
  }

  lemma AwaitedStepEnds(s: State, i: nat)
    requires Stopping(s) && s.early == {} && Awaits(s, i)
    ensures Next(s, ExitStep(s, i)).Some? && Stopping(Next(s, ExitStep(s, i)).value)
    ensures var s' := Next(s, ExitStep(s, i)).value;
      s'.early == {} && s'.h.main == s.h.main && |s'.rp| == |s.rp| && StepsLeft(s', i) < StepsLeft(s, i)
  {
    ExitStepEnabled(s, i);
    OwnStepDecreases(s, ExitStep(s, i), i);
    ReachableStep(s, ExitStep(s, i));
  }

  function AwaitedSteps(s: State): nat
    requires Indexed(s)
  {
    if s.h.main.Joining? && s.h.main.tid < |s.rp| then StepsLeft(s, s.h.main.tid) else 0
  }

  lemma {:induction false} EndSchedule(s: State) returns (ls: seq<Label>)
    requires Stopping(s) && s.early == {}
    ensures Ends(s, ls)
    decreases MainLeft(s.h.main, |s.rp|), AwaitedSteps(s)
  {
    if s.h.main.Joining? && Awaits(s, s.h.main.tid) {
      var l := ExitStep(s, s.h.main.tid);
      AwaitedStepEnds(s, s.h.main.tid);
      var rest := EndSchedule(Next(s, l).value);
      ls := [l] + rest;
    } else {
      var l := Run(Harness.MainStep);
      MainStepEnds(s);
      var rest := [];
      if !Next(s, l).value.h.main.Between? {
        ReachableStep(s, l);
        rest := EndSchedule(Next(s, l).value);
      }
      ls := [l] + rest;
    }
  }

  /** A run that has stored `stop` can still end if and only if no remote was caught early. */
  lemma RunEndsIff(s: State)
    requires Stopping(s)
    ensures (exists ls :: Ends(s, ls)) <==> s.early == {}
  {
    if s.early == {} {
      var ls := EndSchedule(s);
    } else {
      var i :| i in s.early;
      forall ls | Exec(s, ls).Some? ensures !Ends(s, ls) {
        EarlyHangs(s, i, ls);
      }
    }
  }

  /** A polling run can therefore always end. */
  lemma PollingRunEnds(s: State)
    requires Stopping(s) && s.nonblock
    ensures exists ls :: Ends(s, ls)
  {
    ReachableEarly(s);
    RunEndsIff(s);
  }

  // ----- from the beginning of a run to its end -----

  lemma EarlyOnlyWhenKicked(s: State)
    requires Reachable(s) && !s.h.main.Kicking? && !s.h.main.Joining?
    ensures s.early == {}
  {
    ReachableEarly(s);
    assert forall i | i in s.early :: Kicked(s, i);
  }

  ghost predicate EndsOrAborts(s: State, ls: seq<Label>)
    requires Indexed(s)
  {
    Exec(s, ls).Some? && (Exec(s, ls).value.h.main.Between? || Exec(s, ls).value.fault.TimeAssertion?)
  }

  ghost predicate RunInProgress(s: State) {
    Reachable(s) && Indexed(s) && s.fault.NoFault? && !s.h.main.Between?
  }

  lemma HarnessStepLifts(s: State, step: Harness.Label)
    requires Reachable(s) && Indexed(s) && s.fault.NoFault? && Harness.Next(s.h, step).Some?
    requires step.MainStep? || step.MeasurerStep? || step.UserSigint? || step.AlarmExpires?
    ensures Next(s, Run(step)).Some?
    ensures var t := Next(s, Run(step)).value;
      Reachable(t) && Indexed(t) && t.fault.NoFault? && |t.rp| == |s.rp| && Harness.Next(s.h, step) == Some(t.h)
  {
    HarnessNotHeldUp(s, step, 0, false, 0);
    HarnessProjection(s, Run(step));
    ReachableStep(s, Run(step));
  }

  lemma HarnessAdvances(s: State)
    requires RunInProgress(s) && !s.h.measurer.InOp? && !(s.h.stop && WindingUp(s.h.main))
    ensures Next(s, Run(Harness.EndStep(s.h))).Some?
    ensures var t := Next(s, Run(Harness.EndStep(s.h))).value;
      && RunInProgress(t) && |t.rp| == |s.rp|
      && (Harness.MainLeft(t.h.main, |t.rp|) < Harness.MainLeft(s.h.main, |s.rp|)
          || (t.h.main == s.h.main && Harness.MeasurerLeft(t.h) < Harness.MeasurerLeft(s.h)))
  {
    ReachableInv(s);
    var step := Harness.EndStep(s.h);
    if s.h.main.JoinMeasurer? {
      Harness.MeasurerStepEnds(s.h);
    } else {
      Harness.MainStepEnds(s.h);
    }
    HarnessStepLifts(s, step);
  }

  lemma OperationAdvances(h: Harness.State, h': Harness.State)
    requires Harness.Inv(h) && h.main.JoinMeasurer? && OneOperationLater(h, h')
    ensures h'.main == h.main && Harness.MeasurerLeft(h') < Harness.MeasurerLeft(h)
  {
    Harness.MeasurerStepEnds(h);
  }

  lemma {:induction false} RunEndSchedule(s: State) returns (ls: seq<Label>)
    requires RunInProgress(s) && s.early == {}
    ensures EndsOrAborts(s, ls)
    decreases Harness.MainLeft(s.h.main, |s.rp|), Harness.MeasurerLeft(s.h)
  {
    ReachableInv(s);
    if s.h.stop && WindingUp(s.h.main) {
      ls := EndSchedule(s);
    } else if s.h.measurer.InOp? {
      var round := RoundCompletes(s);
      var t := Exec(s, round).value;
      var rest := [];
      if t.fault.NoFault? {
        OperationAdvances(s.h, t.h);
        rest := RunEndSchedule(t);
      }
      ls := round + rest;
      ExecConcat(s, round, rest);
    } else {
      var l := Run(Harness.EndStep(s.h));
      HarnessAdvances(s);
      var t := Next(s, l).value;
      if !WindingUp(t.h.main) || t.h.main.JoinMeasurer? {
        EarlyOnlyWhenKicked(t);
      }
      var rest := RunEndSchedule(t);
      ls := [l] + rest;
    }
  }

  /** From wherever a run is, from its first statement to its last, some schedule ends it (or fails a time
      assertion) if and only if no remote was caught early. */
  lemma RunCanEndIff(s: State)
    requires RunInProgress(s)
    ensures (exists ls :: EndsOrAborts(s, ls)) <==> s.early == {}
  {
    if s.early == {} {
      var ls := RunEndSchedule(s);
    } else {
      var i :| i in s.early;
      forall ls | Exec(s, ls).Some? ensures !EndsOrAborts(s, ls) {
        EarlyNeverEnds(s, i, ls);
      }
    }
  }

  lemma EarlyNeverEnds(s: State, i: nat, ls: seq<Label>)
    requires RunInProgress(s) && i in s.early && Exec(s, ls).Some?
    ensures !EndsOrAborts(s, ls)
  {
    ReachableEarly(s);
    StoppedDoesNotAbort(s, i, ls);
    EarlyHangs(s, i, ls);
  }

  lemma {:induction false} StoppedDoesNotAbort(s: State, i: nat, ls: seq<Label>)
    requires Inv(s) && EarlyInv(s) && i in s.early && s.fault.NoFault? && Exec(s, ls).Some?
    ensures Exec(s, ls).value.fault.NoFault?
    decreases |ls|
  {
    if ls != [] {
      var s' := Next(s, ls[0]).value;
      EarlyStep(s, ls[0]);
      StepPreserves(s, ls[0]);
      StaysEarly(s, ls[0], i);
      NobodyAborts(s, ls[0], i);
      StoppedDoesNotAbort(s', i, ls[1..]);
    }
  }

  lemma NobodyAborts(s: State, l: Label, i: nat)
    requires Inv(s) && EarlyInv(s) && i in s.early && s.fault.NoFault? && Next(s, l).Some?
    ensures Next(s, l).value.fault.NoFault?
  {
    assert Kicked(s, i);
    OpPreserved(s, l);
  }
}
