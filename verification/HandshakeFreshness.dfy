/**
 * Freshness of the signal benchmark's timestamps. In a run in which sigtimedwait never returns -1 while
 * the measurer is active there is at most one SIGUSR1 in the system, the timestamp read after the mutex
 * is released was written in this very round, and the run refines the rendezvous specification. One
 * timeout is enough to break it.
 */
module HandshakeFreshness {
  import opened Wrappers
  import opened TimeArithmetic
  import opened Handshake
  import Harness
  import R = Rendezvous

  /** From the start of the run until the measuring thread has stored `stop`. */
  predicate Active(s: State) {
    s.h.main.ResetFlags? || (Harness.Spawned(s.h) && !s.h.measurer.Returned?)
  }

  /** sigtimedwait does not return -1 while the measurer is active. */
  predicate QuietStep(s: State, l: Label) {
    l.WaitFails? ==> !Active(s)
  }

  predicate QuietSchedule(s: State, ls: seq<Label>)
    requires Indexed(s)
    decreases |ls|
  {
    ls == []
    || (QuietStep(s, ls[0]) && (Next(s, ls[0]).Some? ==> QuietSchedule(Next(s, ls[0]).value, ls[1..])))
  }

  /** Remote i is between two rounds: no signal is on its way to it or through it. */
  predicate Resting(s: State, i: nat)
    requires Indexed(s) && i < |s.rp|
  {
    !s.usr1[i] && Idling(s.rp[i])
  }

  predicate Idling(op: RemoteOp) {
    op.Out? || op.Waiting? || op.Returning?
  }

  /** The one signal of the round: pending, taken, stamped, or delivered. */
  predicate Pending(s: State)
    requires Indexed(s)
  {
    !s.signaled[s.tid] && s.usr1[s.tid] && Idling(s.rp[s.tid])
  }

  predicate Taken(s: State)
    requires Indexed(s)
  {
    !s.signaled[s.tid] && !s.usr1[s.tid] && s.rp[s.tid].Woken?
  }

  predicate Stamped(s: State)
    requires Indexed(s)
  {
    !s.signaled[s.tid] && !s.usr1[s.tid] && (s.rp[s.tid].Stamping? || s.rp[s.tid].Locking? || s.rp[s.tid].Setting?)
  }

  predicate Delivered(s: State)
    requires Indexed(s)
  {
    s.signaled[s.tid] && !s.usr1[s.tid]
    && (s.rp[s.tid].Signalling? || s.rp[s.tid].Unlocking? || Idling(s.rp[s.tid]))
  }

  ghost predicate FreshInv(s: State)
    requires Indexed(s)
  {
    Active(s) ==>
      && (forall i | 0 <= i < |s.rp| && i != s.tid :: Resting(s, i))
      && (Requested(s.mp) ==> Pending(s) || Taken(s) || Stamped(s) || Delivered(s))
      && (!Requested(s.mp) ==> Resting(s, s.tid))
  }

  /** What a step that leaves the signals and the measurer alone does to the invariant. */
  lemma SignalsUntouched(s: State, s': State)
    requires Indexed(s) && Indexed(s') && FreshInv(s) && (Active(s') ==> Active(s))
    requires s'.usr1 == s.usr1 && s'.signaled == s.signaled && s'.tid == s.tid && |s'.rp| == |s.rp|
    requires Requested(s'.mp) == Requested(s.mp)
    requires forall i | 0 <= i < |s.rp| :: s'.rp[i] == s.rp[i] || (Idling(s'.rp[i]) && Idling(s.rp[i]))
    ensures FreshInv(s')
  {
    forall i | 0 <= i < |s.rp| ensures Resting(s, i) ==> Resting(s', i) {
    }
  }

  lemma RunKeepsFresh(s: State, step: Harness.Label)
    requires OpInv(s) && Harness.FlagsInv(s.h) && Harness.ThreadsInv(s.h) && FreshInv(s)
    requires RunNext(s, step).Some? && !s.aborted
    ensures FreshInv(RunNext(s, step).value)
  {
    var s' := RunNext(s, step).value;
    match step
    case BeginRun(_, _) =>
    case MainStep => SignalsUntouched(s, s');
    case MeasurerStep => assert s.mp.Idle?; SignalsUntouched(s, s');
    case MsrFails => SignalsUntouched(s, s');
    case LoopTest(i) =>
      if s.h.stop {
        assert !Active(s');
      } else {
        SignalsUntouched(s, s');
      }
    case UserSigint => SignalsUntouched(s, s');
    case AlarmExpires => SignalsUntouched(s, s');
    case _ =>
  }

  lemma InterruptKeepsFresh(s: State, i: nat, inWait: bool)
    requires Inv(s) && FreshInv(s) && InterruptNext(s, i, inWait).Some?
    ensures FreshInv(InterruptNext(s, i, inWait).value)
  {
  }

  lemma MeasurerKeepsFresh(s: State)
    requires Indexed(s) && MutexInv(s) && WakeInv(s) && FreshInv(s)
    requires Active(s) && MeasurerNext(s).Some? && !s.mp.AtRecord?
    ensures FreshInv(MeasurerNext(s).value)
  {
    var s' := MeasurerNext(s).value;
    assert MutexOk(s, s.tid);
    forall i | 0 <= i < |s.rp| && i != s.tid ensures Resting(s', i) {
      assert Resting(s, i);
    }
  }

  lemma RecordKeepsFresh(s: State)
    requires Indexed(s) && FreshInv(s) && Active(s) && MeasurerNext(s).Some? && s.mp.AtRecord?
    ensures FreshInv(MeasurerNext(s).value)
  {
    var s' := MeasurerNext(s).value;
    forall i | 0 <= i < |s.rp| ensures Resting(s', i) {
      assert Resting(s, i);
    }
  }

  lemma RemoteKeepsFresh(s: State, i: nat)
    requires Indexed(s) && FreshInv(s) && Active(s) && i < |s.rp| && RemoteNext(s, i).Some?
    ensures FreshInv(RemoteNext(s, i).value)
  {
    var s' := RemoteNext(s, i).value;
    assert i == s.tid || Resting(s, i);
    forall j | 0 <= j < |s.rp| && j != s.tid ensures Resting(s', j) {
      assert Resting(s, j);
    }
  }

  lemma InactiveStays(s: State, l: Label)
    requires Inv(s) && !Active(s) && Next(s, l).Some? && !l.Run?
    ensures !Active(Next(s, l).value)
  {
  }

  lemma OpIsActive(s: State)
    requires Inv(s) && !s.mp.Idle?
    ensures Active(s)
  {
  }

  lemma StepKeepsFresh(s: State, l: Label)
    requires Inv(s) && FreshInv(s) && QuietStep(s, l) && Next(s, l).Some?
    ensures FreshInv(Next(s, l).value)
  {
    if !l.Run? && !Active(s) {
      InactiveStays(s, l);
    } else {
      match l
      case Run(step) => RunKeepsFresh(s, step);
      case Interrupt(i, inWait) => InterruptKeepsFresh(s, i, inWait);
      case Tick(_) => SignalsUntouched(s, Next(s, l).value);
      case Measurer => if s.mp.AtRecord? { RecordKeepsFresh(s); } else { MeasurerKeepsFresh(s); }
      case SpuriousWake => SignalsUntouched(s, Next(s, l).value);
      case Remote(i) => RemoteKeepsFresh(s, i);
      case WaitFails(_) =>
    }
  }

  // ----- refinement -----

  function AbsPhase(s: State): R.Phase
    requires Indexed(s)
  {
    match s.mp
    case Idle => R.Idle
    case AtStart => R.Idle
    case AtLock(start) => R.Started(start)
    case AtClear(start) => R.Started(start)
    case AtKill(start) => R.Started(start)
    case AtCheck(start) => WaitPhase(s, start)
    case Parked(start) => WaitPhase(s, start)
    case AtRelock(start) => WaitPhase(s, start)
    case AtUnlock(start) => R.Stamped(start, s.stamps[s.tid])
    case AtReadStamp(start) => R.Stamped(start, s.stamps[s.tid])
    case AtRecord(start, end) => R.Stamped(start, end)
  }

  function WaitPhase(s: State, start: Option<nat>): R.Phase
    requires Indexed(s)
  {
    if s.usr1[s.tid] || s.rp[s.tid].Woken? then R.Started(start)
    else if s.rp[s.tid].Stamping? then R.Stamped(start, s.rp[s.tid].stamp)
    else R.Stamped(start, s.stamps[s.tid])
  }

  function Abs(s: State): R.State
    requires Indexed(s)
  {
    R.State(|s.mutex|, s.now, s.lastRead, AbsPhase(s), s.rounds)
  }

  /** The steps of the specification that one step of the protocol performs; [] is a stutter. */
  function AbsLabels(s: State, l: Label): seq<R.Label> {
    match l
    case Run(step) =>
      if step.BeginRun? then [R.Reset]
      else if step.MeasurerStep? && s.h.measurer.TestAlarm? && s.h.alarmFired.None? && s.h.mode.Energy?
      then [R.Begin(false)]
      else []
    case Tick(d) => [R.Tick(d)]
    case Measurer =>
      if s.mp.AtStart? then [R.Begin(true)]
      else if s.mp.AtRecord? && !(s.mp.start.Some? && s.mp.end <= s.mp.start.value) then [R.Finish]
      else []
    case Remote(i) =>
      if i < |s.rp| && s.rp[i].Woken? then [if Active(s) then R.Stamp(i) else R.Look] else []
    case _ => []
  }

  function AbsTrace(s: State, ls: seq<Label>): seq<R.Label>
    requires Indexed(s)
    decreases |ls|
  {
    if ls == [] || Next(s, ls[0]).None? then []
    else AbsLabels(s, ls[0]) + AbsTrace(Next(s, ls[0]).value, ls[1..])
  }

  lemma RunRefines(s: State, step: Harness.Label)
    requires OpInv(s) && Harness.FlagsInv(s.h) && FreshInv(s) && RunNext(s, step).Some?
    ensures R.Exec(Abs(s), AbsLabels(s, Run(step))) == Some(Abs(RunNext(s, step).value))
  {
  }

  lemma MeasurerRefines(s: State)
    requires Indexed(s) && LinkInv(s) && MutexInv(s) && WakeInv(s) && FreshInv(s) && Active(s) && MeasurerNext(s).Some?
    ensures R.Exec(Abs(s), AbsLabels(s, Measurer)) == Some(Abs(MeasurerNext(s).value))
  {
  }

  lemma ClockRefines(s: State, i: nat)
    requires Indexed(s) && LinkInv(s) && FreshInv(s) && Active(s) && i < |s.rp| && s.rp[i].Woken?
    ensures R.Exec(Abs(s), AbsLabels(s, Remote(i))) == Some(Abs(RemoteNext(s, i).value))
  {
    assert i == s.tid || Resting(s, i);
  }

  lemma RemoteStutters(s: State, i: nat)
    requires Indexed(s) && FreshInv(s) && Active(s) && i < |s.rp| && !s.rp[i].Woken? && RemoteNext(s, i).Some?
    ensures Abs(s) == Abs(RemoteNext(s, i).value)
  {
  }

  lemma RemoteRefines(s: State, i: nat)
    requires Indexed(s) && LinkInv(s) && FreshInv(s) && Active(s) && i < |s.rp| && RemoteNext(s, i).Some?
    ensures R.Exec(Abs(s), AbsLabels(s, Remote(i))) == Some(Abs(RemoteNext(s, i).value))
  {
    if s.rp[i].Woken? {
      ClockRefines(s, i);
    } else {
      RemoteStutters(s, i);
    }
  }

  lemma RemoteOutsideRounds(s: State, i: nat)
    requires Indexed(s) && s.mp.Idle? && !Active(s) && i < |s.rp| && RemoteNext(s, i).Some?
    ensures R.Exec(Abs(s), AbsLabels(s, Remote(i))) == Some(Abs(RemoteNext(s, i).value))
  {
  }

  lemma StepRefines(s: State, l: Label)
    requires Inv(s) && FreshInv(s) && QuietStep(s, l) && Next(s, l).Some?
    ensures R.Exec(Abs(s), AbsLabels(s, l)) == Some(Abs(Next(s, l).value))
  {
    match l
    case Run(step) => RunRefines(s, step);
    case Interrupt(_, _) => assert s.mp.Idle?;
    case Tick(d) =>
    case Measurer => OpIsActive(s); MeasurerRefines(s);
    case SpuriousWake =>
    case Remote(i) => if Active(s) { RemoteRefines(s, i); } else { RemoteOutsideRounds(s, i); }
    case WaitFails(i) => assert s.mp.Idle?;
  }

  /** Every quiet schedule of the signal handshake is a schedule of the specification. */
  lemma {:induction false} HandshakeRefines(s: State, ls: seq<Label>)
    requires Inv(s) && FreshInv(s) && Exec(s, ls).Some? && QuietSchedule(s, ls)
    ensures R.Exec(Abs(s), AbsTrace(s, ls)) == Some(Abs(Exec(s, ls).value))
    ensures FreshInv(Exec(s, ls).value)
    decreases |ls|
  {
    if ls != [] {
      var s' := Next(s, ls[0]).value;
      StepRefines(s, ls[0]);
      StepPreserves(s, ls[0]);
      StepKeepsFresh(s, ls[0]);
      HandshakeRefines(s', ls[1..]);
      R.ExecConcat(Abs(s), AbsLabels(s, ls[0]), AbsTrace(s', ls[1..]));
    }
  }

  // ----- what a quiet run guarantees -----

  /** Reachable by a schedule that was quiet ever since the last run began. */
  ghost predicate QuietlyReachable(s: State) {
    exists s0: State, ls: seq<Label> ::
      Reachable(s0) && Indexed(s0) && s0.h.main.ResetFlags? && QuietSchedule(s0, ls) && Exec(s0, ls) == Some(s)
  }

  lemma RunStartsFresh(s: State)
    requires Reachable(s) && s.h.main.ResetFlags?
    ensures Inv(s) && FreshInv(s) && R.Inv(Abs(s))
  {
    ReachableInv(s);
    ReachableResting(s);
  }

  /** When a run begins nothing of earlier runs is left: no pending signal, no thread, no round. */
  predicate NewRun(s: State)
    requires Indexed(s)
  {
    s.h.main.ResetFlags? ==> s.rounds == [] && forall i | 0 <= i < |s.rp| :: Resting(s, i)
  }

  lemma NewRunQuiet(s: State, l: Label)
    requires Inv(s) && NewRun(s) && s.h.main.ResetFlags? && Next(s, l).Some? && !l.Run?
    ensures Next(s, l).value.rp == s.rp && Next(s, l).value.usr1 == s.usr1 && Next(s, l).value.rounds == s.rounds
  {
  }

  lemma NewRunHarness(s: State, step: Harness.Label)
    requires Indexed(s) && Harness.ThreadsInv(s.h) && NewRun(s) && RunNext(s, step).Some?
    ensures NewRun(RunNext(s, step).value)
  {
    var s' := RunNext(s, step).value;
    if s'.h.main.ResetFlags? && s.h.main.ResetFlags? {
      assert forall i | 0 <= i < |s.rp| :: s.h.threads[i].Unborn?;
      assert forall i | 0 <= i < |s.rp| :: Resting(s, i) ==> Resting(s', i);
    }
  }

  lemma NewRunStep(s: State, l: Label)
    requires Inv(s) && NewRun(s) && Next(s, l).Some?
    ensures NewRun(Next(s, l).value)
  {
    var s' := Next(s, l).value;
    if l.Run? {
      NewRunHarness(s, l.step);
    } else if s'.h.main.ResetFlags? && s.h.main.ResetFlags? {
      NewRunQuiet(s, l);
      assert forall i | 0 <= i < |s.rp| :: Resting(s, i) ==> Resting(s', i);
    }
  }

  lemma {:induction false} NewRunExec(s: State, ls: seq<Label>)
    requires Inv(s) && NewRun(s) && Exec(s, ls).Some?
    ensures NewRun(Exec(s, ls).value)
    decreases |ls|
  {
    if ls != [] {
      NewRunStep(s, ls[0]);
      StepPreserves(s, ls[0]);
      NewRunExec(Next(s, ls[0]).value, ls[1..]);
    }
  }

  lemma ReachableResting(s: State)
    requires Reachable(s)
    ensures Indexed(s) && NewRun(s)
  {
    var s0: State, n: nat, ls: seq<Label> :| Init(s0, n) && Exec(s0, ls) == Some(s);
    InitInv(s0, n);
    NewRunExec(s0, ls);
  }

  lemma QuietAbs(s: State)
    requires QuietlyReachable(s)
    ensures Inv(s) && FreshInv(s) && R.Inv(Abs(s))
  {
    var s0: State, ls: seq<Label> :|
      Reachable(s0) && Indexed(s0) && s0.h.main.ResetFlags? && QuietSchedule(s0, ls) && Exec(s0, ls) == Some(s);
    RunStartsFresh(s0);
    HandshakeRefines(s0, ls);
    ExecInv(s0, ls);
    R.ExecInv(Abs(s0), AbsTrace(s0, ls));
  }

  /** At most one SIGUSR1 is in the system: only the awaited remote can have it pending or have taken it,
      not both, and between two rounds nobody has. */
  lemma OneSignal(s: State, i: nat)
    requires QuietlyReachable(s) && Indexed(s) && Active(s) && i < |s.rp| && !Resting(s, i)
    ensures i == s.tid && Requested(s.mp)
    ensures !(s.usr1[i] && Coming(s.rp[i])) && !(s.signaled[i] && (s.usr1[i] || Coming(s.rp[i])))
  {
    QuietAbs(s);
  }

  /** The timestamp the measurer reads after releasing the mutex was taken in this very round: not before
      the round's start, and it is the latest clock reading of all. */
  lemma FreshTimestamp(s: State)
    requires QuietlyReachable(s) && Indexed(s) && s.mp.AtReadStamp?
    ensures s.stamps[s.tid] == R.Reading(s.lastRead)
    ensures R.NotLater(s.mp.start, s.stamps[s.tid])
    ensures R.LastStamp(s.rounds) <= s.stamps[s.tid]
    ensures R.NotEarlier(s.mp.start, R.LastStamp(s.rounds))
  {
    QuietAbs(s);
  }

  /** In every quiet run each round starts before its stamp, which comes before the next round's start. */
  lemma RoundsOrdered(s: State)
    requires QuietlyReachable(s) && Indexed(s)
    ensures R.Ordered(s.rounds)
  {
    QuietAbs(s);
  }

  /** In a quiet run the assertion end_ns > start_ns fails only if both readings are the same number. */
  lemma TimeAssertionIff(s: State)
    requires QuietlyReachable(s) && Indexed(s) && s.mp.AtRecord? && Next(s, Measurer).Some?
    ensures Next(s, Measurer).value.aborted
       <==> s.mp.start.Some? && s.mp.start.value == s.mp.end
  {
    QuietAbs(s);
  }

  /** Every remote reads a clock that has advanced since the previous reading. */
  predicate Advancing(s: State, ls: seq<Label>)
    requires Indexed(s)
    decreases |ls|
  {
    ls == []
    || ((ls[0].Remote? && ls[0].i < |s.rp| && s.rp[ls[0].i].Woken? ==> s.lastRead < s.now)
        && (Next(s, ls[0]).Some? ==> Advancing(Next(s, ls[0]).value, ls[1..])))
  }

  predicate StampedLater(s: State)
    requires Indexed(s)
  {
    !s.aborted && R.Later(AbsPhase(s))
  }

  lemma ClockNeverFalls(s: State, l: Label)
    requires Indexed(s) && Next(s, l).Some?
    ensures s.now <= Next(s, l).value.now
  {
  }

  lemma {:induction false} ExecClock(s: State, ls: seq<Label>)
    requires Indexed(s) && Exec(s, ls).Some?
    ensures s.now <= Exec(s, ls).value.now
    decreases |ls|
  {
    if ls != [] {
      ClockNeverFalls(s, ls[0]);
      ExecClock(Next(s, ls[0]).value, ls[1..]);
    }
  }

  lemma StampedLaterStep(s: State, l: Label)
    requires Inv(s) && FreshInv(s) && R.Inv(Abs(s)) && StampedLater(s) && QuietStep(s, l) && Next(s, l).Some?
    requires l.Remote? && l.i < |s.rp| && s.rp[l.i].Woken? ==> s.lastRead < s.now < TWO53
    ensures StampedLater(Next(s, l).value)
  {
    StepRefines(s, l);
    R.LaterExec(Abs(s), AbsLabels(s, l));
    if Next(s, l).value.aborted {
      AbortsOnlyOnRecord(s, l);
    }
  }

  lemma AbortsOnlyOnRecord(s: State, l: Label)
    requires Indexed(s) && Next(s, l).Some? && !s.aborted && Next(s, l).value.aborted
    ensures s.mp.AtRecord? && s.mp.start.Some? && s.mp.end <= s.mp.start.value
  {
  }

  /** In a quiet run, on a clock that advances between readings, below 2^53 ns of uptime, the assertion of
      the measuring thread never fails. */
  lemma {:induction false} NoAssertionFails(s: State, ls: seq<Label>)
    requires Inv(s) && FreshInv(s) && R.Inv(Abs(s)) && StampedLater(s)
    requires Exec(s, ls).Some? && QuietSchedule(s, ls) && Advancing(s, ls) && Exec(s, ls).value.now < TWO53
    ensures !Exec(s, ls).value.aborted
    decreases |ls|
  {
    if ls != [] {
      var s' := Next(s, ls[0]).value;
      StepPreserves(s, ls[0]);
      StepKeepsFresh(s, ls[0]);
      StepRefines(s, ls[0]);
      R.ExecInv(Abs(s), AbsLabels(s, ls[0]));
      ClockNeverFalls(s, ls[0]);
      ExecClock(s', ls[1..]);
      StampedLaterStep(s, ls[0]);
      NoAssertionFails(s', ls[1..]);
    }
  }
}
