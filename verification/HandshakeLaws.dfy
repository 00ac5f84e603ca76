/**
 * What every run of the signal benchmark guarantees, with arbitrary timeouts and spurious wakeups: no
 * wakeup is lost, the signal has a live target, and every remote leaves its loop after `stop`.
 */
module HandshakeLaws {
  import opened Wrappers
  import opened TimeArithmetic
  import opened Handshake
  import Harness
  import R = Rendezvous

  // ----- lost-wakeup freedom -----

  /** Once SIGUSR1 has been sent in a round, and the flag is not set, the awaited remote is in its loop
      and either has the signal pending or is on its way to setting the flag. If the measurer sleeps
      although the flag is set, the remote holds the mutex and is about to signal. */
  lemma NoLostWakeup(s: State)
    requires Reachable(s) && Indexed(s) && Requested(s.mp)
    ensures !s.h.stop && Harness.Alive(s.h.threads[s.tid])
    ensures !s.signaled[s.tid] ==> s.usr1[s.tid] || Coming(s.rp[s.tid])
    ensures s.mp.Parked? && s.signaled[s.tid] ==> s.rp[s.tid].Signalling? && s.mutex[s.tid].ByRemote?
  {
    ReachableInv(s);
    assert MutexOk(s, s.tid);
  }

  /** Statements the awaited remote still has to execute before the flag is set. */
  function WakeDistance(op: RemoteOp): nat {
    match op
    case Setting => 1
    case Locking => 2
    case Stamping(_) => 3
    case Woken => 4
    case Waiting => 5
    case Out => 6
    case Returning => 7
    case Unlocking => 8
    case Signalling => 9
  }

  /** The next statement of remote i. */
  function RemoteStep(s: State, i: nat): Label
    requires Indexed(s) && i < |s.rp|
  {
    if s.rp[i].Out? then Run(Harness.LoopTest(i)) else Remote(i)
  }

  /** While the measurer sleeps and the flag is clear, the awaited remote has a statement to execute and
      each brings the wakeup nearer; with the flag set its next statement wakes the measurer. */
  lemma WakeupComes(s: State)
    requires Reachable(s) && Indexed(s) && !s.aborted && s.mp.Parked?
    ensures Next(s, RemoteStep(s, s.tid)).Some?
    ensures var s' := Next(s, RemoteStep(s, s.tid)).value;
      if s.signaled[s.tid] then s'.mp == AtRelock(s.mp.start)
      else s'.signaled[s.tid] || WakeDistance(s'.rp[s.tid]) < WakeDistance(s.rp[s.tid])
  {
    ReachableInv(s);
    Harness.PeersAlive(s.h, s.tid);
    assert MutexOk(s, s.tid);
  }

  lemma RunDoesNotDelay(s: State, step: Harness.Label)
    requires OpInv(s) && RunNext(s, step).Some? && Requested(s.mp) && !step.BeginRun?
    ensures WakeDistance(RunNext(s, step).value.rp[s.tid]) <= WakeDistance(s.rp[s.tid])
  {
  }

  lemma RemoteDoesNotDelay(s: State, i: nat)
    requires Indexed(s) && MutexInv(s) && WakeInv(s) && Requested(s.mp) && i < |s.rp| && RemoteNext(s, i).Some?
    requires !s.signaled[s.tid] && !RemoteNext(s, i).value.signaled[s.tid]
    ensures WakeDistance(RemoteNext(s, i).value.rp[s.tid]) <= WakeDistance(s.rp[s.tid])
  {
  }

  /** Nothing takes the wakeup further away, neither timeouts nor signals nor spurious wakeups. */
  lemma NothingDelays(s: State, l: Label)
    requires Reachable(s) && Indexed(s) && Requested(s.mp) && !s.signaled[s.tid]
    requires Next(s, l).Some? && Requested(Next(s, l).value.mp) && !Next(s, l).value.signaled[s.tid]
    ensures WakeDistance(Next(s, l).value.rp[s.tid]) <= WakeDistance(s.rp[s.tid])
  {
    ReachableInv(s);
    match l
    case Run(step) => if !step.BeginRun? { RunDoesNotDelay(s, step); }
    case Remote(i) => RemoteDoesNotDelay(s, i);
    case _ =>
  }

  // ----- the target of pthread_kill -----

  /** The signal always goes to a thread that was spawned, moved into its slot, and has neither left its
      loop nor been joined; the index is within the static vectors and the thread vector alike. */
  lemma SignalTargetValid(s: State)
    requires Reachable(s)
    ensures Indexed(s) && s.tid < |s.mutex| == |s.stamps| == |s.h.threads| == |s.h.slots|
    ensures s.mp.AtKill? ==>
              s.h.slots[s.tid] && Harness.Alive(s.h.threads[s.tid]) && s.h.joins[s.tid] == 0 && s.h.frame
  {
    ReachableInv(s);
    if s.mp.AtKill? {
      Harness.PeersAlive(s.h, s.tid);
    }
  }

  /** Mutual exclusion: at most one thread is inside a critical section of one mutex, and the thread that
      is there holds it; between runs every mutex is free. */
  lemma MutualExclusion(s: State, i: nat)
    requires Reachable(s) && Indexed(s) && i < |s.mutex|
    ensures !(RemoteHolds(s.rp[i]) && i == s.tid && MeasurerHolds(s.mp))
    ensures s.mutex[i].Free? <==> !RemoteHolds(s.rp[i]) && !(i == s.tid && MeasurerHolds(s.mp))
    ensures s.h.main.Between? ==> s.mutex[i].Free?
  {
    ReachableInv(s);
    assert MutexOk(s, i);
  }

  // ----- who can go on -----

  /** The measuring thread waits only asleep for the flag, or for the mutex while the remote holds it. */
  lemma MeasurerBlockedIff(s: State)
    requires Reachable(s) && Indexed(s) && !s.aborted && !s.mp.Idle?
    ensures Next(s, Measurer).None? <==>
              s.mp.Parked? || ((s.mp.AtLock? || s.mp.AtRelock?) && RemoteHolds(s.rp[s.tid]))
    ensures Next(s, SpuriousWake).Some? <==> s.mp.Parked?
  {
    ReachableInv(s);
    assert MutexOk(s, s.tid);
  }

  /** A remote in its loop waits only in sigtimedwait without a signal, where it can also fail, or for the
      mutex while the measurer holds it. */
  lemma RemoteBlockedIff(s: State, i: nat)
    requires Reachable(s) && Indexed(s) && !s.aborted && i < |s.rp| && Harness.Alive(s.h.threads[i])
    ensures Next(s, RemoteStep(s, i)).None? <==>
              || (s.rp[i].Waiting? && !s.usr1[i])
              || (s.rp[i].Locking? && i == s.tid && MeasurerHolds(s.mp))
    ensures Next(s, WaitFails(i)).Some? <==> s.rp[i].Waiting?
    ensures s.rp[i].Waiting? ==> Next(s, WaitFails(i)).value.rp[i].Woken?
    ensures s.rp[i].Waiting? && s.usr1[i] ==> Next(s, Remote(i)).value.rp[i].Woken?
  {
    ReachableInv(s);
    assert MutexOk(s, i);
  }

  /** The steps of the harness outside the operations, the signals and the clock are not held up by the
      protocol. */
  lemma HarnessNotHeldUp(s: State, step: Harness.Label, i: nat, inWait: bool, d: nat)
    requires Reachable(s) && Indexed(s) && !s.aborted
    requires !step.OpDone? && !step.OtherDone? && !step.TakeSigint? && (step.BeginRun? ==> step.n == |s.mutex|)
    ensures Next(s, Run(step)).Some? <==> Harness.Next(s.h, step).Some?
    ensures Next(s, Interrupt(i, inWait)).Some? <==> Harness.Next(s.h, Harness.TakeSigint(i)).Some?
    ensures Next(s, Tick(d)).Some? <==> s.now + d < TWO62
  {
  }

  /** What brings the operation in progress nearer to its end. */
  function RoundStep(s: State): Label
    requires Indexed(s)
  {
    if s.mp.Parked? || ((s.mp.AtLock? || s.mp.AtRelock?) && RemoteHolds(s.rp[s.tid]))
    then RemoteStep(s, s.tid)
    else Measurer
  }

  function Held(op: RemoteOp): nat {
    match op
    case Setting => 3
    case Signalling => 2
    case Unlocking => 1
    case _ => 0
  }

  /** Before the request, waiting for the flag, the flag is set, and after. */
  function RoundStage(s: State): nat
    requires Indexed(s)
  {
    if Requested(s.mp) then (if s.signaled[s.tid] then 1 else 2)
    else if s.mp.AtStart? || s.mp.AtLock? || s.mp.AtClear? || s.mp.AtKill? then 3
    else 0
  }

  function StageLeft(s: State): nat
    requires Indexed(s)
  {
    match s.mp
    case AtStart => 9
    case AtLock(_) => 3 + Held(s.rp[s.tid])
    case AtClear(_) => 2
    case AtKill(_) => 1
    case AtCheck(_) => if s.signaled[s.tid] then 1 else WakeDistance(s.rp[s.tid])
    case Parked(_) => if s.signaled[s.tid] then 9 else WakeDistance(s.rp[s.tid])
    case AtRelock(_) => if s.signaled[s.tid] then 3 + Held(s.rp[s.tid]) else WakeDistance(s.rp[s.tid])
    case AtUnlock(_) => 3
    case AtReadStamp(_) => 2
    case AtRecord(_, _) => 1
    case Idle => 0
  }

  function CheckLeft(op: MeasurerOp): nat {
    if op.AtRelock? then 2 else if op.AtCheck? then 1 else 0
  }

  /** h' is h after one more operation; interfering threads may have gone round their loops. */
  predicate OneOperationLater(h: Harness.State, h': Harness.State) {
    Harness.FinishOp(h).Some? && h' == Harness.FinishOp(h).value.(threads := h'.threads)
  }

  ghost predicate InRound(s: State) {
    Reachable(s) && Indexed(s) && !s.aborted && !s.mp.Idle?
  }

  predicate RoundGoesOn(s: State, t: State) {
    && Indexed(s) && Indexed(t) && !t.aborted && !t.mp.Idle?
    && t.h == s.h.(threads := t.h.threads) && t.rounds == s.rounds
    && (RoundStage(t) < RoundStage(s)
        || (RoundStage(t) == RoundStage(s) && StageLeft(t) < StageLeft(s))
        || (RoundStage(t) == RoundStage(s) && StageLeft(t) == StageLeft(s) && CheckLeft(t.mp) < CheckLeft(s.mp)))
  }

  lemma StatementAdvances(s: State)
    requires InRound(s) && RoundStep(s) == Measurer && !s.mp.AtRecord?
    ensures Next(s, Measurer).Some? && RoundGoesOn(s, Next(s, Measurer).value)
  {
    MeasurerBlockedIff(s);
    ReachableInv(s);
    assert MutexOk(s, s.tid);
  }

  lemma WakeupAdvances(s: State)
    requires InRound(s) && s.mp.Parked?
    ensures Next(s, RoundStep(s)).Some? && RoundGoesOn(s, Next(s, RoundStep(s)).value)
  {
    WakeupComes(s);
    NoLostWakeup(s);
  }

  lemma UnlockAdvances(s: State)
    requires InRound(s) && !s.mp.Parked? && RoundStep(s) != Measurer
    ensures Next(s, RoundStep(s)).Some? && RoundGoesOn(s, Next(s, RoundStep(s)).value)
  {
    ReachableInv(s);
  }

  lemma RoundAdvances(s: State)
    requires InRound(s) && !s.mp.AtRecord?
    ensures Next(s, RoundStep(s)).Some?
    ensures RoundGoesOn(s, Next(s, RoundStep(s)).value) && InRound(Next(s, RoundStep(s)).value)
  {
    if RoundStep(s) == Measurer {
      StatementAdvances(s);
    } else if s.mp.Parked? {
      WakeupAdvances(s);
    } else {
      UnlockAdvances(s);
    }
    ReachableStep(s, RoundStep(s));
  }

  ghost predicate RoundOver(s: State, t: State) {
    && Reachable(t) && Indexed(t)
    && (t.aborted || (t.mp.Idle? && |t.rounds| == |s.rounds| + 1 && OneOperationLater(s.h, t.h)))
  }

  lemma RecordEnds(s: State)
    requires InRound(s) && s.mp.AtRecord?
    ensures Next(s, Measurer).Some? && RoundOver(s, Next(s, Measurer).value)
  {
    MeasurerBlockedIff(s);
    ReachableStep(s, Measurer);
  }

  /** From every point of an operation some schedule without a timeout or a spurious wakeup ends it: one
      more round, or a failed time assertion. */
  lemma {:induction false} RoundCompletes(s: State) returns (ls: seq<Label>)
    requires InRound(s)
    ensures Exec(s, ls).Some? && RoundOver(s, Exec(s, ls).value)
    ensures forall l | l in ls :: !l.WaitFails? && !l.SpuriousWake?
    decreases RoundStage(s), StageLeft(s), CheckLeft(s.mp)
  {
    var l := RoundStep(s);
    if s.mp.AtRecord? {
      RecordEnds(s);
      ls := [l];
      ExecOne(s, l);
    } else {
      RoundAdvances(s);
      var rest := RoundCompletes(Next(s, l).value);
      ls := [l] + rest;
    }
  }

  // ----- conservation -----

  /** In every run, whatever times out, the rounds visit the remotes in turn, each remote has served exactly
      its share, and the rounds are what the harness counted and the histogram recorded. */
  lemma RoundLaws(s: State, i: nat, j: nat)
    requires Reachable(s) && Indexed(s) && i <= j < |s.mutex|
    ensures R.RoundRobin(s.rounds, |s.mutex|)
    ensures R.Served(s.rounds, i) == R.Share(|s.rounds|, i, |s.mutex|)
    ensures R.Served(s.rounds, j) <= R.Served(s.rounds, i) <= R.Served(s.rounds, j) + 1
    ensures |s.rounds| == s.h.ops && s.tid == |s.rounds| % |s.mutex|
    ensures Harness.Counted(s.h) ==> |s.hist| == |s.rounds| == s.h.count
    ensures s.h.mode.Latency? ==> forall k | 0 <= k < |s.hist| ::
              k < |s.rounds| && R.Recorded(s.rounds[k], s.hist[k])
  {
    ReachableInv(s);
    R.RoundRobinConservation(s.rounds, |s.mutex|, i);
    R.SharesBalanced(s.rounds, i, j, |s.mutex|);
  }

  // ----- lifetime -----

  /** A statement of an operation, which touches the locals of run or what they own. */
  predicate IsOperationStep(l: Label) {
    !l.Run? && !l.Tick?
  }

  /** Whenever a thread executes a statement of an operation, `action`, its descriptors, `stop` and the
      topology are alive, and the thread is one that was spawned and has not been joined. */
  lemma OperationLifetime(s: State, l: Label)
    requires Reachable(s) && Indexed(s) && IsOperationStep(l) && Next(s, l).Some?
    ensures s.h.frame && !s.h.main.Destroying?
    ensures l.Measurer? || l.SpuriousWake? ==> s.h.main.JoinMeasurer? && s.h.measurer.InOp?
    ensures l.Remote? || l.WaitFails? || l.Interrupt? ==>
              l.i < |s.h.threads| && Harness.Alive(s.h.threads[l.i]) && s.h.joins[l.i] == 0
  {
    ReachableInv(s);
  }

  // ----- shutdown -----

  function Rank(op: RemoteOp): nat {
    match op
    case Out => 1
    case Returning => 2
    case Unlocking => 3
    case Signalling => 4
    case Setting => 5
    case Locking => 6
    case Stamping(_) => 7
    case Woken => 8
    case Waiting => 9
  }

  predicate Running(s: State, i: nat)
    requires Indexed(s)
  {
    i < |s.rp| && Harness.Alive(s.h.threads[i])
  }

  /** A bound on the steps remote i still takes itself. */
  function StepsLeft(s: State, i: nat): nat
    requires Indexed(s) && i < |s.rp|
  {
    if Running(s, i) then 2 * Rank(s.rp[i]) + (if Harness.SigintDue(s.h, i) then 1 else 0) else 0
  }

  predicate IsOwnStep(l: Label, i: nat) {
    match l
    case Run(step) => step == Harness.LoopTest(i)
    case Interrupt(j, _) => j == i
    case Remote(j) => j == i
    case WaitFails(j) => j == i
    case _ => false
  }

  /** Once `stop` is stored, remote i can always go on: sigtimedwait times out if nothing else happens. */
  lemma OwnStepEnabled(s: State, i: nat)
    requires Reachable(s) && Indexed(s) && !s.aborted && s.h.stop && Running(s, i)
    ensures if s.rp[i].Waiting? then Next(s, WaitFails(i)).Some? else Next(s, RemoteStep(s, i)).Some?
  {
    ReachableInv(s);
    assert MutexOk(s, i);
  }

  lemma OwnStepDecreases(s: State, l: Label, i: nat)
    requires Reachable(s) && Indexed(s) && s.h.stop && Running(s, i)
    requires IsOwnStep(l, i) && Next(s, l).Some?
    ensures StepsLeft(Next(s, l).value, i) < StepsLeft(s, i)
  {
    ReachableInv(s);
  }

  lemma MainKeeps(s: State, i: nat)
    requires Inv(s) && s.h.stop && Running(s, i) && RunNext(s, Harness.MainStep).Some?
    ensures RunNext(s, Harness.MainStep).value.h.stop
    ensures StepsLeft(RunNext(s, Harness.MainStep).value, i) <= StepsLeft(s, i)
  {
  }

  lemma RunKeeps(s: State, step: Harness.Label, i: nat)
    requires Inv(s) && s.h.stop && Running(s, i) && RunNext(s, step).Some?
    requires !step.MainStep? && step != Harness.LoopTest(i)
    ensures RunNext(s, step).value.h.stop
    ensures StepsLeft(RunNext(s, step).value, i) <= StepsLeft(s, i)
  {
  }

  lemma RemoteKeeps(s: State, j: nat, i: nat)
    requires Inv(s) && s.h.stop && Running(s, i) && j < |s.rp| && j != i && RemoteNext(s, j).Some?
    ensures RemoteNext(s, j).value.h.stop
    ensures StepsLeft(RemoteNext(s, j).value, i) <= StepsLeft(s, i)
  {
  }

  /** Each step of its own uses up the bound, nobody else's adds to it, and no request is outstanding. */
  lemma OtherStepKeeps(s: State, l: Label, i: nat)
    requires Reachable(s) && Indexed(s) && s.h.stop && Running(s, i)
    requires !IsOwnStep(l, i) && Next(s, l).Some?
    ensures s.mp.Idle? && Next(s, l).value.h.stop
    ensures StepsLeft(Next(s, l).value, i) <= StepsLeft(s, i)
  {
    ReachableInv(s);
    match l
    case Run(step) =>
      if step.MainStep? {
        MainKeeps(s, i);
      } else {
        RunKeeps(s, step, i);
      }
    case Remote(j) => RemoteKeeps(s, j, i);
    case _ =>
  }
}
