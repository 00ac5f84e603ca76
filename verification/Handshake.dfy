/**
 * bench-pthread-kill.cpp inside the harness, for n remote threads. The measuring thread clears
 * signaled[tid] under mutexes[tid], sends SIGUSR1 to remote tid and waits on its condition variable;
 * the remote takes the signal with sigtimedwait, stores the time, and sets the flag under the mutex.
 * sigtimedwait may also return -1 (timeout, or EINTR), which the code treats like the signal, and
 * pthread_cond_wait may return spuriously.
 */
module Handshake {
  import opened Wrappers
  import opened TimeArithmetic
  import Harness
  import Rendezvous

  type Round = Rendezvous.Round

  datatype Owner = Free | ByMeasurer | ByRemote

  /** Where the measuring thread is inside measured_operation, or raw_operation if `start` is None. */
  datatype MeasurerOp =
    | Idle
    | AtStart                                // clock_gettime(&start)
    | AtLock(start: Option<nat>)             // pthread_mutex_lock
    | AtClear(start: Option<nat>)            // signaled[tid] = false
    | AtKill(start: Option<nat>)             // pthread_kill(SIGUSR1)
    | AtCheck(start: Option<nat>)            // while (!signaled[tid])
    | Parked(start: Option<nat>)             // asleep in pthread_cond_wait, mutex released
    | AtRelock(start: Option<nat>)           // woken, taking the mutex again
    | AtUnlock(start: Option<nat>)           // pthread_mutex_unlock
    | AtReadStamp(start: Option<nat>)        // remote_timestamps[tid], which raw_operation skips
    | AtRecord(start: Option<nat>, end: nat) // next index, assertion, difference

  /** Where a remote is inside other_operation. */
  datatype RemoteOp =
    | Out
    | Waiting              // sigtimedwait
    | Woken                // clock_gettime(&now)
    | Stamping(stamp: nat) // remote_timestamps[tid] = now
    | Locking              // pthread_mutex_lock
    | Setting              // signaled[tid] = true
    | Signalling           // pthread_cond_signal
    | Unlocking            // pthread_mutex_unlock
    | Returning

  /** `usr1` says which threads have SIGUSR1 pending; a standard signal does not queue. The mutexes,
      flags and timestamps are static and survive a run. */
  datatype State = State(
    h: Harness.State,
    now: nat,
    lastRead: nat,
    mutex: seq<Owner>,
    signaled: seq<bool>,
    stamps: seq<nat>,
    usr1: seq<bool>,
    tid: nat,
    mp: MeasurerOp,
    rp: seq<RemoteOp>,
    rounds: seq<Round>,
    hist: seq<nat>,
    aborted: bool)

  /** Measurer and Remote perform the one statement their thread is at. */
  datatype Label =
    | Run(step: Harness.Label)
    | Interrupt(i: nat, inWait: bool) // remote i takes its SIGINT, inside sigtimedwait (EINTR) or on the way there
    | Tick(d: nat)
    | Measurer
    | SpuriousWake
    | Remote(i: nat)        // in sigtimedwait: takes SIGUSR1
    | WaitFails(i: nat)     // sigtimedwait returns -1

  ghost predicate Init(s: State, n: nat) {
    && n > 0
    && Harness.Init(s.h, n)
    && 0 < s.now < TWO62 && s.lastRead <= s.now
    && s.mutex == Repeat(n, Free) && s.signaled == Repeat(n, false)
    && s.stamps == Repeat(n, 0) && s.usr1 == Repeat(n, false)
    && s.tid == 0 && s.mp.Idle? && s.rp == Repeat(n, Out)
    && s.rounds == [] && s.hist == [] && !s.aborted
    && s.h.ops == 0
  }

  predicate Indexed(s: State) {
    && Harness.Indexed(s.h)
    && |s.h.threads| == |s.mutex| == |s.signaled| == |s.stamps| == |s.usr1| == |s.rp|
    && s.tid < |s.mutex|
  }

  /** A new Action starts at remote_tid 0, and new threads have no signal pending. */
  function NewAction(s: State): State {
    s.(tid := 0, mp := Idle, rp := Repeat(|s.rp|, Out), usr1 := Repeat(|s.usr1|, false), rounds := [], hist := [])
  }

  function FirstStep(mode: Harness.Mode): MeasurerOp {
    if mode.Latency? then AtStart else AtLock(None)
  }

  function RunNext(s: State, step: Harness.Label): (r: Option<State>)
    requires Indexed(s)
    ensures r.Some? ==> Indexed(r.value) && |r.value.mutex| == |s.mutex|
  {
    match Harness.Next(s.h, step)
    case None => None
    case Some(h') =>
      match step
      case BeginRun(mode, n) => if n == |s.mutex| then Some(NewAction(s).(h := h')) else None
      case MeasurerStep =>
        Some(s.(h := h', mp := if h'.measurer.InOp? then FirstStep(s.h.mode) else s.mp))
      case LoopTest(i) =>
        if s.h.stop
        then Some(s.(h := h', usr1 := s.usr1[i := false]))
        else Some(s.(h := h', rp := s.rp[i := Waiting]))
      case OpDone => None
      case OtherDone(_) => None
      case TakeSigint(_) => None
      case _ => Some(s.(h := h'))
  }

  function InterruptNext(s: State, i: nat, inWait: bool): (r: Option<State>)
    requires Indexed(s)
    ensures r.Some? ==> Indexed(r.value) && |r.value.mutex| == |s.mutex|
  {
    match Harness.HandleSigint(s.h, i)
    case None => None
    case Some(h') => Some(s.(h := h', rp := if s.rp[i].Waiting? && inWait then s.rp[i := Woken] else s.rp))
  }

  function MeasurerNext(s: State): (r: Option<State>)
    requires Indexed(s)
    ensures r.Some? ==> Indexed(r.value) && |r.value.mutex| == |s.mutex|
  {
    match s.mp
    case Idle => None
    case AtStart => Some(s.(mp := AtLock(Some(Rendezvous.Reading(s.now))), lastRead := s.now))
    case AtLock(start) =>
      if s.mutex[s.tid].Free? then Some(s.(mutex := s.mutex[s.tid := ByMeasurer], mp := AtClear(start))) else None
    case AtClear(start) => Some(s.(signaled := s.signaled[s.tid := false], mp := AtKill(start)))
    case AtKill(start) => Some(s.(usr1 := s.usr1[s.tid := true], mp := AtCheck(start)))
    case AtCheck(start) =>
      if s.signaled[s.tid]
      then Some(s.(mp := AtUnlock(start)))
      else Some(s.(mutex := s.mutex[s.tid := Free], mp := Parked(start)))
    case Parked(_) => None
    case AtRelock(start) =>
      if s.mutex[s.tid].Free? then Some(s.(mutex := s.mutex[s.tid := ByMeasurer], mp := AtCheck(start))) else None
    case AtUnlock(start) => Some(s.(mutex := s.mutex[s.tid := Free], mp := AtReadStamp(start)))
    case AtReadStamp(start) => Some(s.(mp := AtRecord(start, s.stamps[s.tid])))
    case AtRecord(start, end) =>
      if start.Some? && end <= start.value then
        Some(s.(aborted := true))
      else
        match Harness.FinishOp(s.h)
        case None => None
        case Some(h') =>
          Some(s.(h := h', mp := Idle, tid := (s.tid + 1) % |s.mutex|,
                  rounds := s.rounds + [Rendezvous.Round(s.tid, start, end)],
                  hist := Rendezvous.Recording(s.hist, start, end)))
  }

  function RemoteNext(s: State, i: nat): (r: Option<State>)
    requires Indexed(s) && i < |s.rp|
    ensures r.Some? ==> Indexed(r.value) && |r.value.mutex| == |s.mutex|
  {
    match s.rp[i]
    case Out => None
    case Waiting => if s.usr1[i] then Some(s.(usr1 := s.usr1[i := false], rp := s.rp[i := Woken])) else None
    case Woken => Some(s.(rp := s.rp[i := Stamping(Rendezvous.Reading(s.now))], lastRead := s.now))
    case Stamping(stamp) => Some(s.(stamps := s.stamps[i := stamp], rp := s.rp[i := Locking]))
    case Locking =>
      if s.mutex[i].Free? then Some(s.(mutex := s.mutex[i := ByRemote], rp := s.rp[i := Setting])) else None
    case Setting => Some(s.(signaled := s.signaled[i := true], rp := s.rp[i := Signalling]))
    case Signalling =>
      Some(s.(mp := if s.mp.Parked? && s.tid == i then AtRelock(s.mp.start) else s.mp, rp := s.rp[i := Unlocking]))
    case Unlocking => Some(s.(mutex := s.mutex[i := Free], rp := s.rp[i := Returning]))
    case Returning =>
      match Harness.FinishOther(s.h, i)
      case None => None
      case Some(h') => Some(s.(h := h', rp := s.rp[i := Out]))
  }

  function Next(s: State, l: Label): (r: Option<State>)
    requires Indexed(s)
    ensures r.Some? ==> Indexed(r.value) && |r.value.mutex| == |s.mutex|
  {
    if s.aborted then None
    else match l
      case Run(step) => RunNext(s, step)
      case Interrupt(i, inWait) => InterruptNext(s, i, inWait)
      case Tick(d) => if s.now + d < TWO62 then Some(s.(now := s.now + d)) else None
      case Measurer => MeasurerNext(s)
      case SpuriousWake => if s.mp.Parked? then Some(s.(mp := AtRelock(s.mp.start))) else None
      case Remote(i) => if i < |s.rp| then RemoteNext(s, i) else None
      case WaitFails(i) => if i < |s.rp| && s.rp[i].Waiting? then Some(s.(rp := s.rp[i := Woken])) else None
  }

  // ----- what the statements touch -----

  /** The measuring thread touches the mutex, flag and signal of the current remote, and no timestamp. */
  lemma MeasurerFrame(s: State)
    requires Indexed(s) && Next(s, Measurer).Some?
    ensures var t := Next(s, Measurer).value;
      && t.rp == s.rp && t.stamps == s.stamps && t.now == s.now && t.h.threads == s.h.threads
      && (forall j | 0 <= j < |s.mutex| && j != s.tid ::
            t.mutex[j] == s.mutex[j] && t.signaled[j] == s.signaled[j] && t.usr1[j] == s.usr1[j])
      && (!s.mp.AtRecord? ==> t.h == s.h && t.tid == s.tid && t.rounds == s.rounds && t.hist == s.hist)
      && (!s.mp.AtClear? ==> t.signaled == s.signaled) && (!s.mp.AtKill? ==> t.usr1 == s.usr1)
      && (!s.mp.AtStart? ==> t.lastRead == s.lastRead)
  {
  }

  /** Remote i touches its own mutex, flag, timestamp and signal; of the measuring thread, only its sleep on
      remote i's own condition variable. */
  lemma RemoteFrame(s: State, l: Label)
    requires Indexed(s) && Next(s, l).Some? && (l.Remote? || l.WaitFails? || l.Interrupt?)
    ensures var t := Next(s, l).value;
      && t.tid == s.tid && t.now == s.now && t.rounds == s.rounds && t.hist == s.hist
      && (t.mp == s.mp
          || (l == Remote(s.tid) && s.mp.Parked? && s.rp[s.tid].Signalling? && t.mp == AtRelock(s.mp.start)))
      && (forall j | 0 <= j < |s.mutex| && j != l.i ::
            t.mutex[j] == s.mutex[j] && t.signaled[j] == s.signaled[j] && t.stamps[j] == s.stamps[j]
            && t.usr1[j] == s.usr1[j] && t.rp[j] == s.rp[j])
      && (!l.Remote? ==>
            t.mutex == s.mutex && t.signaled == s.signaled && t.stamps == s.stamps && t.usr1 == s.usr1
            && t.lastRead == s.lastRead)
  {
  }

  function Exec(s: State, ls: seq<Label>): (r: Option<State>)
    requires Indexed(s)
    ensures r.Some? ==> Indexed(r.value)
    decreases |ls|
  {
    if ls == [] then Some(s)
    else match Next(s, ls[0])
      case None => None
      case Some(s') => Exec(s', ls[1..])
  }

  lemma {:induction false} ExecConcat(s: State, a: seq<Label>, b: seq<Label>)
    requires Indexed(s) && Exec(s, a).Some?
    ensures Exec(s, a + b) == Exec(Exec(s, a).value, b)
    decreases |a|
  {
    if a == [] {
      assert a + b == b;
    } else {
      assert (a + b)[0] == a[0] && (a + b)[1..] == a[1..] + b;
      ExecConcat(Next(s, a[0]).value, a[1..], b);
    }
  }

  // ----- the invariant: any timeouts, any spurious wakeups -----

  predicate MeasurerHolds(op: MeasurerOp) {
    op.AtClear? || op.AtKill? || op.AtCheck? || op.AtUnlock?
  }

  predicate RemoteHolds(op: RemoteOp) {
    op.Setting? || op.Signalling? || op.Unlocking?
  }

  /** pthread_kill has been issued in this round and the measurer has not yet seen the flag. */
  predicate Requested(op: MeasurerOp) {
    op.AtCheck? || op.Parked? || op.AtRelock?
  }

  /** Past sigtimedwait, and the flag is still to be set. */
  predicate Coming(op: RemoteOp) {
    op.Woken? || op.Stamping? || op.Locking? || op.Setting?
  }

  ghost predicate LinkInv(s: State)
    requires Indexed(s)
  {
    && (s.mp.Idle? <==> !s.h.measurer.InOp?)
    && (forall i | 0 <= i < |s.rp| :: s.rp[i].Out? <==> !s.h.threads[i].InOther?)
    && s.lastRead <= s.now < TWO62
    && |s.rounds| == s.h.ops
    && s.tid == s.h.ops % |s.mutex|
    && Rendezvous.RoundRobin(s.rounds, |s.mutex|)
  }

  /** Each mutex is held by exactly the thread that is between its lock and its unlock. */
  ghost predicate MutexInv(s: State)
    requires Indexed(s)
  {
    forall i | 0 <= i < |s.rp| :: MutexOk(s, i)
  }

  predicate MutexOk(s: State, i: nat)
    requires Indexed(s) && i < |s.rp|
  {
    && (s.mutex[i].ByMeasurer? <==> (i == s.tid && MeasurerHolds(s.mp)))
    && (s.mutex[i].ByRemote? <==> RemoteHolds(s.rp[i]))
  }

  ghost predicate WakeInv(s: State)
    requires Indexed(s)
  {
    && (Requested(s.mp) && !s.signaled[s.tid] ==> s.usr1[s.tid] || Coming(s.rp[s.tid]))
    && (s.mp.Parked? && s.signaled[s.tid] ==> s.rp[s.tid].Signalling?)
    && (s.mp.AtKill? ==> !s.signaled[s.tid])
  }

  predicate Timed(op: MeasurerOp) {
    op.AtStart? || (!op.Idle? && op.start.Some?)
  }

  ghost predicate HistInv(s: State) {
    && (s.h.mode.Latency? ==>
          && |s.hist| == |s.rounds|
          && (forall k | 0 <= k < |s.rounds| :: Rendezvous.Recorded(s.rounds[k], s.hist[k])))
    && (s.h.mode.Energy? ==> s.hist == [])
    && (!s.mp.Idle? ==> (Timed(s.mp) <==> s.h.mode.Latency?))
  }

  ghost predicate OpInv(s: State) {
    Indexed(s) && LinkInv(s) && MutexInv(s) && WakeInv(s) && HistInv(s)
  }

  ghost predicate Inv(s: State) {
    OpInv(s) && Harness.Inv(s.h)
  }

  lemma InitInv(s: State, n: nat)
    requires Init(s, n)
    ensures Inv(s)
  {
  }

  /** Projected to the harness, every step is a step of the harness or leaves it alone. */
  function HarnessLabel(s: State, l: Label): Option<Harness.Label> {
    match l
    case Run(step) => Some(step)
    case Interrupt(i, _) => Some(Harness.TakeSigint(i))
    case Measurer =>
      if s.mp.AtRecord? && !(s.mp.start.Some? && s.mp.end <= s.mp.start.value) then Some(Harness.OpDone) else None
    case Remote(i) => if i < |s.rp| && s.rp[i].Returning? then Some(Harness.OtherDone(i)) else None
    case _ => None
  }

  lemma HarnessProjection(s: State, l: Label)
    requires Indexed(s) && Next(s, l).Some?
    ensures match HarnessLabel(s, l)
            case None => Next(s, l).value.h == s.h
            case Some(hl) => Harness.Next(s.h, hl) == Some(Next(s, l).value.h)
  {
  }

  lemma HarnessPreserved(s: State, l: Label)
    requires Indexed(s) && Harness.Inv(s.h) && Next(s, l).Some?
    ensures Harness.Inv(Next(s, l).value.h)
  {
    HarnessProjection(s, l);
    var hl := HarnessLabel(s, l);
    if hl.Some? {
      Harness.StepPreserves(s.h, hl.value);
    }
  }

  /** Steps outside the critical sections leave the mutexes as they are. */
  lemma MutexesUntouched(s: State, s': State)
    requires Indexed(s) && Indexed(s') && MutexInv(s) && s'.mutex == s.mutex
    requires s'.tid == s.tid && MeasurerHolds(s'.mp) == MeasurerHolds(s.mp)
    requires forall i | 0 <= i < |s.rp| :: RemoteHolds(s'.rp[i]) == RemoteHolds(s.rp[i])
    ensures MutexInv(s')
  {
    forall i | 0 <= i < |s.rp| ensures MutexOk(s', i) {
      assert MutexOk(s, i);
    }
  }

  lemma BeginPreserves(s: State, step: Harness.Label)
    requires OpInv(s) && Harness.FlagsInv(s.h) && step.BeginRun? && RunNext(s, step).Some?
    requires forall i | 0 <= i < |s.rp| :: !s.h.threads[i].InOther?
    ensures OpInv(RunNext(s, step).value)
  {
    var s' := RunNext(s, step).value;
    forall i | 0 <= i < |s.rp| ensures MutexOk(s', i) {
      assert MutexOk(s, i) && s.rp[i].Out?;
    }
  }

  lemma MainPreserves(s: State)
    requires OpInv(s) && Harness.FlagsInv(s.h) && RunNext(s, Harness.MainStep).Some?
    requires forall i | 0 <= i < |s.h.threads| ::
               Harness.MainNext(s.h).value.threads[i].InOther? <==> s.h.threads[i].InOther?
    ensures OpInv(RunNext(s, Harness.MainStep).value)
  {
    var s' := RunNext(s, Harness.MainStep).value;
    assert s' == s.(h := s'.h);
    MutexesUntouched(s, s');
  }

  lemma LoopTestPreserves(s: State, i: nat)
    requires OpInv(s) && RunNext(s, Harness.LoopTest(i)).Some?
    requires s.h.measurer.InOp? ==> !s.h.stop
    ensures OpInv(RunNext(s, Harness.LoopTest(i)).value)
  {
    var s' := RunNext(s, Harness.LoopTest(i)).value;
    MutexesUntouched(s, s');
  }

  lemma MeasurerLoopPreserves(s: State)
    requires OpInv(s) && RunNext(s, Harness.MeasurerStep).Some?
    ensures OpInv(RunNext(s, Harness.MeasurerStep).value)
  {
    var s' := RunNext(s, Harness.MeasurerStep).value;
    assert s.mp.Idle?;
    MutexesUntouched(s, s');
  }

  lemma OtherRunPreserves(s: State, step: Harness.Label)
    requires OpInv(s) && RunNext(s, step).Some?
    requires step.MsrFails? || step.UserSigint? || step.AlarmExpires?
    ensures OpInv(RunNext(s, step).value)
  {
    var s' := RunNext(s, step).value;
    MutexesUntouched(s, s');
  }

  lemma InterruptPreserves(s: State, i: nat, inWait: bool)
    requires OpInv(s) && InterruptNext(s, i, inWait).Some?
    ensures OpInv(InterruptNext(s, i, inWait).value)
  {
    var s' := InterruptNext(s, i, inWait).value;
    MutexesUntouched(s, s');
  }

  lemma LockStepKeepsMutexes(s: State)
    requires Indexed(s) && MutexInv(s) && MeasurerNext(s).Some? && !s.mp.AtRecord?
    ensures MutexInv(MeasurerNext(s).value)
  {
    var s' := MeasurerNext(s).value;
    forall i | 0 <= i < |s.rp| ensures MutexOk(s', i) {
      assert MutexOk(s, i);
    }
  }

  lemma LockStepKeepsWake(s: State)
    requires Indexed(s) && MutexInv(s) && WakeInv(s) && MeasurerNext(s).Some? && !s.mp.AtRecord?
    ensures WakeInv(MeasurerNext(s).value)
  {
  }

  lemma LockStepPreserves(s: State)
    requires OpInv(s) && MeasurerNext(s).Some? && !s.mp.AtRecord?
    ensures OpInv(MeasurerNext(s).value)
  {
    LockStepKeepsMutexes(s);
    LockStepKeepsWake(s);
    assert s.h == MeasurerNext(s).value.h;
  }

  lemma RecordKeepsHist(s: State)
    requires Indexed(s) && HistInv(s) && s.mp.AtRecord? && MeasurerNext(s).Some?
    ensures HistInv(MeasurerNext(s).value)
  {
  }

  lemma RecordKeepsMutexes(s: State)
    requires Indexed(s) && MutexInv(s) && s.mp.AtRecord? && MeasurerNext(s).Some?
    ensures MutexInv(MeasurerNext(s).value) && WakeInv(MeasurerNext(s).value)
  {
    var s' := MeasurerNext(s).value;
    forall i | 0 <= i < |s.rp| ensures MutexOk(s', i) {
      assert MutexOk(s, i);
    }
  }

  lemma RecordKeepsLinks(s: State)
    requires Indexed(s) && LinkInv(s) && s.mp.AtRecord? && MeasurerNext(s).Some?
    ensures LinkInv(MeasurerNext(s).value)
  {
    Rendezvous.NextIndex(s.h.ops, |s.mutex|);
    if s.mp.start.None? || s.mp.end > s.mp.start.value {
      var r := Rendezvous.Round(s.tid, s.mp.start, s.mp.end);
      Rendezvous.RoundRobinAppend(s.rounds, r, |s.mutex|);
    }
  }

  lemma RemoteKeepsMutexes(s: State, i: nat)
    requires Indexed(s) && MutexInv(s) && i < |s.rp| && RemoteNext(s, i).Some?
    ensures MutexInv(RemoteNext(s, i).value)
  {
    var s' := RemoteNext(s, i).value;
    forall j | 0 <= j < |s.rp| ensures MutexOk(s', j) {
      assert MutexOk(s, j);
    }
  }

  lemma RemoteKeepsWake(s: State, i: nat)
    requires Indexed(s) && MutexInv(s) && WakeInv(s) && i < |s.rp| && RemoteNext(s, i).Some?
    ensures WakeInv(RemoteNext(s, i).value)
  {
    assert MutexOk(s, i);
  }

  lemma RemoteKeepsLinks(s: State, i: nat)
    requires Indexed(s) && LinkInv(s) && HistInv(s) && i < |s.rp| && !s.rp[i].Returning? && RemoteNext(s, i).Some?
    ensures LinkInv(RemoteNext(s, i).value) && HistInv(RemoteNext(s, i).value)
  {
  }

  lemma ReturnKeepsLinks(s: State, i: nat)
    requires Indexed(s) && LinkInv(s) && HistInv(s) && i < |s.rp| && s.rp[i].Returning? && RemoteNext(s, i).Some?
    ensures LinkInv(RemoteNext(s, i).value) && HistInv(RemoteNext(s, i).value)
  {
  }

  /** A round that passes its assertion is counted once, everywhere, and the next index is its number. */
  lemma RoundRecorded(s: State)
    requires Inv(s) && s.mp.AtRecord? && MeasurerNext(s).Some?
    ensures var s' := MeasurerNext(s).value;
      !s'.aborted ==>
        && s'.rounds == s.rounds + [Rendezvous.Round(s.tid, s.mp.start, s.mp.end)]
        && s'.tid == |s'.rounds| % |s.mutex|
        && (s.h.mode.Latency? ==>
              |s'.hist| == |s'.rounds| == s'.h.count && s.hist <= s'.hist
              && Rendezvous.Recorded(s'.rounds[|s.rounds|], s'.hist[|s.rounds|]))
  {
    RecordKeepsLinks(s);
    RecordKeepsHist(s);
  }

  lemma RemotePreserves(s: State, i: nat)
    requires OpInv(s) && i < |s.rp| && RemoteNext(s, i).Some?
    ensures OpInv(RemoteNext(s, i).value)
  {
    RemoteKeepsMutexes(s, i);
    RemoteKeepsWake(s, i);
    if s.rp[i].Returning? {
      ReturnKeepsLinks(s, i);
    } else {
      RemoteKeepsLinks(s, i);
    }
  }

  lemma RunPreserves(s: State, step: Harness.Label)
    requires Inv(s) && RunNext(s, step).Some?
    ensures OpInv(RunNext(s, step).value)
  {
    match step
    case BeginRun(_, _) => BeginPreserves(s, step);
    case MainStep => Harness.MainLeavesOthers(s.h); MainPreserves(s);
    case LoopTest(i) => LoopTestPreserves(s, i);
    case MeasurerStep => MeasurerLoopPreserves(s);
    case MsrFails => OtherRunPreserves(s, step);
    case UserSigint => OtherRunPreserves(s, step);
    case AlarmExpires => OtherRunPreserves(s, step);
    case _ =>
  }

  lemma MeasurerPreserves(s: State)
    requires OpInv(s) && MeasurerNext(s).Some?
    ensures OpInv(MeasurerNext(s).value)
  {
    if s.mp.AtRecord? {
      RecordKeepsHist(s);
      RecordKeepsMutexes(s);
      RecordKeepsLinks(s);
    } else {
      LockStepPreserves(s);
    }
  }

  lemma OpPreserved(s: State, l: Label)
    requires Inv(s) && Next(s, l).Some?
    ensures OpInv(Next(s, l).value)
  {
    match l
    case Run(step) => RunPreserves(s, step);
    case Interrupt(i, inWait) => InterruptPreserves(s, i, inWait);
    case Tick(d) => MutexesUntouched(s, Next(s, l).value);
    case Measurer => MeasurerPreserves(s);
    case SpuriousWake => MutexesUntouched(s, Next(s, l).value);
    case Remote(i) => RemotePreserves(s, i);
    case WaitFails(i) => MutexesUntouched(s, Next(s, l).value);
  }

  lemma StepPreserves(s: State, l: Label)
    requires Inv(s) && Next(s, l).Some?
    ensures Inv(Next(s, l).value)
  {
    HarnessPreserved(s, l);
    OpPreserved(s, l);
  }

  lemma {:induction false} ExecInv(s: State, ls: seq<Label>)
    requires Inv(s) && Exec(s, ls).Some?
    ensures Inv(Exec(s, ls).value)
    decreases |ls|
  {
    if ls != [] {
      StepPreserves(s, ls[0]);
      ExecInv(Next(s, ls[0]).value, ls[1..]);
    }
  }

  /** Harness and benchmark take their steps together: a reachable benchmark contains a reachable harness. */
  lemma {:induction false} ExecProjects(s: State, ls: seq<Label>)
    requires Indexed(s) && Harness.Reachable(s.h) && Exec(s, ls).Some?
    ensures Harness.Reachable(Exec(s, ls).value.h)
    decreases |ls|
  {
    if ls != [] {
      StepProjects(s, ls[0]);
      ExecProjects(Next(s, ls[0]).value, ls[1..]);
    }
  }

  lemma StepProjects(s: State, l: Label)
    requires Indexed(s) && Harness.Reachable(s.h) && Next(s, l).Some?
    ensures Harness.Reachable(Next(s, l).value.h)
  {
    HarnessProjection(s, l);
    var hl := HarnessLabel(s, l);
    if hl.Some? {
      Harness.ReachableStep(s.h, hl.value);
    }
  }

  ghost predicate Reachable(s: State) {
    exists s0: State, n: nat, ls: seq<Label> :: Init(s0, n) && Exec(s0, ls) == Some(s)
  }

  lemma ReachableInv(s: State)
    requires Reachable(s)
    ensures Inv(s)
  {
    var s0: State, n: nat, ls: seq<Label> :| Init(s0, n) && Exec(s0, ls) == Some(s);
    InitInv(s0, n);
    ExecInv(s0, ls);
  }

  lemma HarnessReachable(s: State)
    requires Reachable(s)
    ensures Indexed(s) && Harness.Reachable(s.h)
  {
    var s0: State, n: nat, ls: seq<Label> :| Init(s0, n) && Exec(s0, ls) == Some(s);
    Harness.InitReachable(s0.h, n);
    ExecProjects(s0, ls);
  }

  lemma ExecOne(s: State, l: Label)
    requires Indexed(s)
    ensures Exec(s, [l]) == Next(s, l)
  {
  }

  lemma ExecSnoc(s: State, ls: seq<Label>, l: Label)
    requires Indexed(s) && Exec(s, ls).Some?
    ensures Exec(s, ls + [l]) == Next(Exec(s, ls).value, l)
  {
    ExecConcat(s, ls, [l]);
    var t := Exec(s, ls).value;
    assert [l][1..] == [];
    assert Exec(t, [l]) == Next(t, l);
  }

  lemma ReachableStep(s: State, l: Label)
    requires Reachable(s) && Indexed(s) && Next(s, l).Some?
    ensures Reachable(Next(s, l).value)
  {
    var s0: State, n: nat, ls: seq<Label> :| Init(s0, n) && Exec(s0, ls) == Some(s);
    ExecSnoc(s0, ls, l);
    assert Exec(s0, ls + [l]) == Some(Next(s, l).value);
  }
}
