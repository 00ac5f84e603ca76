/**
 * The life of LatencyBenchmark::run and EnergyBenchmark::run, over any sequence of runs: the main
 * thread spawns, kicks and joins; the measuring thread arms the alarm, loops and stores `stop`; the
 * interfering threads loop until they see it. One label is one atomic statement of one thread, and a
 * schedule is any sequence of labels.
 */
module Harness {
  import opened Wrappers

  /** cfg.duration in seconds, or cfg.nr_samples. */
  datatype Mode = Latency(duration: int) | Energy(nrSamples: int)

  datatype MainPc =
    | Between                // no run in progress
    | ResetFlags             // sigint_fired = false (latency only); stop = false
    | Spawning(tid: nat)     // head of the spawn loop
    | Moving(tid: nat)       // thread tid has started and is not yet in its slot
    | SpawnMeasurer
    | JoinMeasurer
    | Kicking(tid: nat)      // pthread_kill(SIGINT)
    | Joining(tid: nat)
    | Destroying

  datatype MeasurerPc =
    | Absent
    | OpenMsr                // energy: open /dev/cpu/N/msr
    | ClearEarly             // energy: alarm_fired = false before the sample loop
    | ArmEarly               // energy: alarm(1) before the sample loop
    | NextSample             // energy: j < nr_samples
    | Arm                    // alarm(duration) or alarm(1)
    | Clear                  // alarm_fired = false
    | TestSigint             // latency: !sigint_fired
    | TestAlarm              // !alarm_fired
    | InOp                   // inside measured_operation or raw_operation
    | StoreStop
    | Returned

  datatype RemotePc = Unborn | TestStop | InOther | Exited | Joined

  /** Which alarm() call a timer expiry belongs to, and who sent a SIGINT. */
  datatype Alarm = EarlyAlarm(run: nat) | LoopAlarm(run: nat, sample: nat)
  datatype SigintSource = FromUser(run: nat) | FromHarness(run: nat, tid: nat)

  /** The flags sigint_fired and alarm_fired are `Some` of what set them; `pending` holds the
      interfering threads with an undelivered SIGINT; `frame` says that the locals captured by the
      threads (action, stop, topology) are still alive. `ops` counts the operations of the run, `msrOpen`
      says that the MSR device was opened, `base` is `ops` when the alarm of the current loop was armed, and
      `samples` are the values of `iterations` that measure_energy has printed. */
  datatype State = State(
    run: nat,
    mode: Mode,
    main: MainPc,
    measurer: MeasurerPc,
    threads: seq<RemotePc>,
    slots: seq<bool>,
    joins: seq<nat>,
    frame: bool,
    stop: bool,
    sigintFired: Option<SigintSource>,
    alarmFired: Option<Alarm>,
    armed: Option<Alarm>,
    pending: set<nat>,
    sample: nat,
    count: nat,
    ops: nat,
    msrOpen: bool,
    base: nat,
    samples: seq<nat>)

  datatype Label =
    | BeginRun(mode: Mode, n: nat)
    | MainStep
    | MeasurerStep
    | MsrFails
    | OpDone
    | LoopTest(tid: nat)
    | OtherDone(tid: nat)
    | TakeSigint(tid: nat)
    | UserSigint
    | AlarmExpires

  ghost predicate Init(s: State, n: nat) {
    && s.main.Between? && s.measurer.Absent? && !s.frame
    && s.threads == Repeat(n, Joined) && s.slots == Repeat(n, false) && s.joins == Repeat(n, 1)
    && s.pending == {}
  }

  // ----- the main thread -----

  predicate Indexed(s: State) {
    |s.threads| == |s.slots| == |s.joins|
  }

  function Begin(s: State, mode: Mode, n: nat): Option<State> {
    if s.main.Between? then
      Some(s.(run := s.run + 1, mode := mode, main := ResetFlags, threads := Repeat(n, Unborn),
              slots := Repeat(n, false), joins := Repeat(n, 0), frame := true,
              sample := 0, count := 0, ops := 0, msrOpen := false, base := 0, samples := []))
    else
      None
  }

  function MainNext(s: State): (r: Option<State>)
    requires Indexed(s)
    ensures r.Some? ==> Indexed(r.value) && |r.value.threads| == |s.threads|
  {
    match s.main
    case Between => None
    case ResetFlags =>
      Some(s.(stop := false, sigintFired := if s.mode.Latency? then None else s.sigintFired, main := Spawning(0)))
    case Spawning(t) =>
      if t < |s.threads|
      then Some(s.(threads := s.threads[t := TestStop], main := Moving(t)))
      else Some(s.(main := SpawnMeasurer))
    case Moving(t) =>
      if t < |s.slots| then Some(s.(slots := s.slots[t := true], main := Spawning(t + 1))) else None
    case SpawnMeasurer =>
      Some(s.(measurer := if s.mode.Latency? then Arm else OpenMsr, main := JoinMeasurer))
    case JoinMeasurer =>
      if s.measurer.Returned? then Some(s.(measurer := Absent, main := Kicking(0))) else None
    case Kicking(t) =>
      if t < |s.threads|
      then Some(s.(pending := if s.threads[t].Exited? then s.pending else s.pending + {t}, main := Kicking(t + 1)))
      else Some(s.(main := Joining(0)))
    case Joining(t) =>
      if t == |s.threads| then Some(s.(main := Destroying))
      else if t < |s.threads| && s.threads[t].Exited?
      then Some(s.(threads := s.threads[t := Joined], joins := s.joins[t := s.joins[t] + 1], main := Joining(t + 1)))
      else None
    case Destroying => Some(s.(frame := false, main := Between))
  }

  // ----- the measuring thread -----

  function LoopHead(mode: Mode): MeasurerPc {
    if mode.Latency? then TestSigint else TestAlarm
  }

  /** alarm(0) cancels a running alarm and arms none. */
  function ArmedBy(s: State): Option<Alarm> {
    if s.mode.Latency? && s.mode.duration == 0 then None else Some(LoopAlarm(s.run, s.sample))
  }

  function MeasurerNext(s: State): (r: Option<State>)
    ensures r.Some? ==> r.value.threads == s.threads && r.value.slots == s.slots && r.value.joins == s.joins
  {
    match s.measurer
    case OpenMsr => Some(s.(msrOpen := true, measurer := ClearEarly))
    case ClearEarly => Some(s.(alarmFired := None, measurer := ArmEarly))
    case ArmEarly => Some(s.(armed := Some(EarlyAlarm(s.run)), measurer := NextSample))
    case NextSample =>
      if s.mode.Energy? && s.sample < s.mode.nrSamples
      then Some(s.(measurer := Arm))
      else Some(s.(measurer := StoreStop))
    case Arm => Some(s.(armed := ArmedBy(s), base := s.ops, measurer := Clear))
    case Clear => Some(s.(alarmFired := None, count := 0, measurer := LoopHead(s.mode)))
    case TestSigint => Some(s.(measurer := if s.sigintFired.Some? then StoreStop else TestAlarm))
    case TestAlarm =>
      if s.alarmFired.None? then Some(s.(measurer := InOp))
      else if s.mode.Latency? then Some(s.(measurer := StoreStop))
      else Some(s.(samples := s.samples + [s.count], sample := s.sample + 1, measurer := NextSample))
    case StoreStop => Some(s.(stop := true, measurer := Returned))
    case _ => None
  }

  // ----- everything else -----

  predicate Alive(pc: RemotePc) {
    pc.TestStop? || pc.InOther?
  }

  /** The operation returns: nr_samples++ or iterations++. */
  function FinishOp(s: State): Option<State> {
    if s.measurer.InOp?
    then Some(s.(count := s.count + 1, ops := s.ops + 1, measurer := LoopHead(s.mode)))
    else None
  }

  /** other_operation returns. */
  function FinishOther(s: State, i: nat): Option<State> {
    if i < |s.threads| && s.threads[i].InOther?
    then Some(s.(threads := s.threads[i := TestStop]))
    else None
  }

  /** Thread i runs signal_handler for the SIGINT that pthread_kill sent it. */
  function HandleSigint(s: State, i: nat): Option<State> {
    if i < |s.threads| && Alive(s.threads[i]) && i in s.pending
    then Some(s.(pending := s.pending - {i}, sigintFired := Some(FromHarness(s.run, i))))
    else None
  }

  function Next(s: State, l: Label): (r: Option<State>)
    requires Indexed(s)
    ensures r.Some? ==> Indexed(r.value)
    ensures r.Some? ==> |r.value.threads| == if l.BeginRun? then l.n else |s.threads|
  {
    match l
    case BeginRun(mode, n) => Begin(s, mode, n)
    case MainStep => MainNext(s)
    case MeasurerStep => MeasurerNext(s)
    case MsrFails => if s.measurer.OpenMsr? then Some(s.(measurer := StoreStop)) else None
    case OpDone => FinishOp(s)
    case LoopTest(i) =>
      if i < |s.threads| && s.threads[i].TestStop? then
        if s.stop
        then Some(s.(threads := s.threads[i := Exited], pending := s.pending - {i}))
        else Some(s.(threads := s.threads[i := InOther]))
      else None
    case OtherDone(i) => FinishOther(s, i)
    case TakeSigint(i) => HandleSigint(s, i)
    case UserSigint => Some(s.(sigintFired := Some(FromUser(s.run))))
    // A newly armed alarm does not expire before the next statement of the measuring thread.
    case AlarmExpires =>
      if s.armed.Some? && !s.measurer.Clear?
      then Some(s.(alarmFired := s.armed, armed := None))
      else None
  }

  // ----- what the steps touch -----

  /** A step of one thread leaves the others where they are, and only the thread itself takes its SIGINT. */
  lemma ThreadFrame(s: State, l: Label)
    requires Indexed(s) && Next(s, l).Some? && (l.LoopTest? || l.OtherDone? || l.TakeSigint?)
    ensures var t := Next(s, l).value;
      && t.main == s.main && t.measurer == s.measurer && t.stop == s.stop && t.joins == s.joins && t.slots == s.slots
      && t.alarmFired == s.alarmFired && t.armed == s.armed && t.ops == s.ops && t.count == s.count
      && (!l.TakeSigint? ==> t.sigintFired == s.sigintFired)
      && (forall j | 0 <= j < |s.threads| && j != l.tid ::
            t.threads[j] == s.threads[j] && (j in t.pending <==> j in s.pending))
  {
  }

  /** The measuring thread neither takes signals nor touches another thread. */
  lemma MeasurerFrame(s: State, l: Label)
    requires Indexed(s) && Next(s, l).Some? && (l.MeasurerStep? || l.OpDone? || l.MsrFails?)
    ensures var t := Next(s, l).value;
      && t.main == s.main && t.threads == s.threads && t.pending == s.pending && t.joins == s.joins
      && t.sigintFired == s.sigintFired && t.mode == s.mode && t.run == s.run
      && (!s.measurer.StoreStop? ==> t.stop == s.stop)
  {
  }

  /** The signal handlers of the process only set their flag. */
  lemma HandlerFrame(s: State)
    requires Indexed(s)
    ensures Next(s, UserSigint).Some? && Next(s, UserSigint).value == s.(sigintFired := Some(FromUser(s.run)))
    ensures Next(s, AlarmExpires).Some? ==>
              Next(s, AlarmExpires).value == s.(alarmFired := s.armed, armed := None) && s.armed.Some?
  {
  }

  // ----- the invariant -----

  predicate AliveOrExited(pc: RemotePc) {
    Alive(pc) || pc.Exited?
  }

  /** How far each thread is, given where the main thread is. */
  ghost predicate ThreadsInv(s: State)
    requires Indexed(s)
  {
    match s.main
    case Between =>
      forall i | 0 <= i < |s.threads| :: s.threads[i].Joined? && s.joins[i] == 1
    case ResetFlags =>
      forall i | 0 <= i < |s.threads| :: s.threads[i].Unborn? && s.joins[i] == 0
    case Spawning(t) =>
      && t <= |s.threads|
      && (forall i | 0 <= i < |s.threads| :: s.joins[i] == 0)
      && (forall i | 0 <= i < t :: Alive(s.threads[i]) && s.slots[i])
      && (forall i | t <= i < |s.threads| :: s.threads[i].Unborn?)
    case Moving(t) =>
      && t < |s.threads|
      && (forall i | 0 <= i < |s.threads| :: s.joins[i] == 0)
      && (forall i | 0 <= i < t :: s.slots[i])
      && (forall i | 0 <= i <= t :: Alive(s.threads[i]))
      && (forall i | t < i < |s.threads| :: s.threads[i].Unborn?)
    case SpawnMeasurer =>
      forall i | 0 <= i < |s.threads| :: Alive(s.threads[i]) && s.slots[i] && s.joins[i] == 0
    case JoinMeasurer =>
      && (forall i | 0 <= i < |s.threads| :: AliveOrExited(s.threads[i]) && s.slots[i] && s.joins[i] == 0)
      && (!s.stop ==> forall i | 0 <= i < |s.threads| :: Alive(s.threads[i]))
    case Kicking(t) =>
      && t <= |s.threads|
      && (forall i | 0 <= i < |s.threads| :: AliveOrExited(s.threads[i]) && s.joins[i] == 0)
    case Joining(t) =>
      && t <= |s.threads|
      && (forall i | 0 <= i < t :: s.threads[i].Joined? && s.joins[i] == 1)
      && (forall i | t <= i < |s.threads| :: AliveOrExited(s.threads[i]) && s.joins[i] == 0)
    case Destroying =>
      forall i | 0 <= i < |s.threads| :: s.threads[i].Joined? && s.joins[i] == 1
  }

  predicate Measuring(s: State) {
    s.main.JoinMeasurer?
  }

  predicate Spawned(s: State) {
    s.main.Spawning? || s.main.Moving? || s.main.SpawnMeasurer? || s.main.JoinMeasurer?
  }

  ghost predicate FlagsInv(s: State) {
    && (s.frame <==> !s.main.Between?)
    && (s.measurer.Absent? <==> !Measuring(s))
    && (Spawned(s) ==> (s.stop <==> s.measurer.Returned?))
    && (s.main.Kicking? || s.main.Joining? || s.main.Destroying? ==> s.stop)
    && (s.measurer.TestSigint? ==> s.mode.Latency?)
    && (s.measurer.OpenMsr? || s.measurer.ClearEarly? || s.measurer.ArmEarly? || s.measurer.NextSample? ==>
          s.mode.Energy?)
  }

  ghost predicate SigintInv(s: State) {
    && (forall i | i in s.pending :: i < |s.threads| && Alive(s.threads[i]))
    && (s.pending != {} ==> s.main.Kicking? || s.main.Joining?)
    && (s.main.Kicking? ==> forall i | i in s.pending :: i < s.main.tid)
    && (s.mode.Latency? && Spawned(s) && s.sigintFired.Some? ==> s.sigintFired.value == FromUser(s.run))
  }

  predicate InLoop(pc: MeasurerPc) {
    pc.TestSigint? || pc.TestAlarm? || pc.InOp?
  }

  /** A latency run from the first test of its loop until the measuring thread is joined. */
  predicate Counted(s: State) {
    s.mode.Latency? && (InLoop(s.measurer) || s.measurer.StoreStop? || s.measurer.Returned?)
  }

  /** While a loop runs its alarm is still to come or has set the flag; it is never lost. */
  ghost predicate AlarmInv(s: State) {
    && (s.measurer.Clear? ==> s.armed == ArmedBy(s))
    && (InLoop(s.measurer) ==>
          || (s.armed == ArmedBy(s) && s.alarmFired.None?)
          || (s.armed.None? && s.alarmFired == ArmedBy(s)))
    && (s.measurer.NextSample? && s.sample == 0 ==>
          || s.armed == Some(EarlyAlarm(s.run))
          || (s.armed.None? && s.alarmFired == Some(EarlyAlarm(s.run))))
  }

  function Sum(xs: seq<nat>): nat {
    if xs == [] then 0 else Sum(xs[..|xs| - 1]) + xs[|xs| - 1]
  }

  lemma SumAppend(xs: seq<nat>, x: nat)
    ensures Sum(xs + [x]) == Sum(xs) + x
  {
    assert (xs + [x])[..|xs|] == xs;
  }

  /** Before the measuring thread has decided anything. */
  predicate Fresh(s: State) {
    || s.main.ResetFlags? || s.main.Spawning? || s.main.Moving? || s.main.SpawnMeasurer?
    || s.measurer.OpenMsr?
  }

  /** The loops of the run are over. */
  predicate Finished(s: State) {
    || s.measurer.StoreStop? || s.measurer.Returned?
    || s.main.Kicking? || s.main.Joining? || s.main.Destroying?
  }

  predicate BetweenSamples(pc: MeasurerPc) {
    pc.ClearEarly? || pc.ArmEarly? || pc.NextSample? || pc.Arm?
  }

  /** The cfg.nr_samples samples that an energy run takes. */
  function Wanted(mode: Mode): nat {
    if mode.Energy? && mode.nrSamples > 0 then mode.nrSamples else 0
  }

  /** Every operation belongs to the sample, or the latency run, in whose loop it was done. */
  ghost predicate SampleInv(s: State) {
    && (s.main.Between? || s.sample == |s.samples|)
    && (Fresh(s) ==> !s.msrOpen && s.ops == 0 && s.samples == [])
    && (s.measurer.ClearEarly? || s.measurer.ArmEarly? ==> s.samples == [])
    && (InLoop(s.measurer) ==> s.ops == s.base + s.count)
    && (InLoop(s.measurer) || s.measurer.Clear? ==> s.base == Sum(s.samples))
    && (s.measurer.Clear? || BetweenSamples(s.measurer) ==> s.ops == Sum(s.samples))
    && (Counted(s) ==> s.count == s.ops)
    && (s.mode.Latency? && !s.main.Between? ==> s.samples == [])
    && (s.mode.Energy? && (BetweenSamples(s.measurer) || s.measurer.Clear? || InLoop(s.measurer)) ==>
          s.msrOpen && |s.samples| <= Wanted(s.mode))
    && (s.mode.Energy? && (s.measurer.Arm? || s.measurer.Clear? || InLoop(s.measurer)) ==>
          |s.samples| < Wanted(s.mode))
    && (s.mode.Energy? && Finished(s) ==>
          s.ops == Sum(s.samples) && |s.samples| == if s.msrOpen then Wanted(s.mode) else 0)
  }

  ghost predicate Inv(s: State) {
    Indexed(s) && ThreadsInv(s) && FlagsInv(s) && SigintInv(s) && AlarmInv(s) && SampleInv(s)
  }

  lemma InitInv(s: State, n: nat)
    requires Init(s, n)
    ensures Inv(s)
  {
  }

  lemma BeginPreserves(s: State, mode: Mode, n: nat)
    requires Inv(s) && Begin(s, mode, n).Some?
    ensures Inv(Begin(s, mode, n).value)
  {
  }

  lemma MainThreads(s: State)
    requires Indexed(s) && ThreadsInv(s) && FlagsInv(s) && MainNext(s).Some?
    ensures Indexed(MainNext(s).value) && ThreadsInv(MainNext(s).value)
  {
    match s.main
    case JoinMeasurer => assert s.stop;
    case _ =>
  }

  lemma MainFlags(s: State)
    requires Indexed(s) && FlagsInv(s) && AlarmInv(s) && SampleInv(s) && MainNext(s).Some?
    ensures FlagsInv(MainNext(s).value) && AlarmInv(MainNext(s).value) && SampleInv(MainNext(s).value)
  {
  }

  lemma MainSigint(s: State)
    requires Inv(s) && MainNext(s).Some?
    ensures SigintInv(MainNext(s).value)
  {
  }

  /** The main thread never touches a thread that is inside other_operation. */
  lemma MainLeavesOthers(s: State)
    requires Inv(s) && MainNext(s).Some?
    ensures forall i | 0 <= i < |s.threads| :: MainNext(s).value.threads[i].InOther? <==> s.threads[i].InOther?
  {
  }

  lemma MeasurerThreads(s: State)
    requires Indexed(s) && ThreadsInv(s) && FlagsInv(s) && MeasurerNext(s).Some?
    ensures Indexed(MeasurerNext(s).value) && ThreadsInv(MeasurerNext(s).value)
  {
    var s' := MeasurerNext(s).value;
    assert s'.main == s.main && s'.threads == s.threads;
  }

  lemma MeasurerFlags(s: State)
    requires FlagsInv(s) && SigintInv(s) && AlarmInv(s) && MeasurerNext(s).Some?
    ensures FlagsInv(MeasurerNext(s).value) && SigintInv(MeasurerNext(s).value) && AlarmInv(MeasurerNext(s).value)
  {
  }

  lemma SampleEnds(s: State)
    requires FlagsInv(s) && SampleInv(s) && s.measurer.TestAlarm? && s.mode.Energy? && s.alarmFired.Some?
    ensures SampleInv(MeasurerNext(s).value)
  {
    SumAppend(s.samples, s.count);
    assert MeasurerNext(s).value.samples == s.samples + [s.count];
  }

  lemma SampleGoesOn(s: State)
    requires FlagsInv(s) && SampleInv(s) && MeasurerNext(s).Some? && MeasurerNext(s).value.samples == s.samples
    ensures SampleInv(MeasurerNext(s).value)
  {
  }

  lemma MeasurerSamples(s: State)
    requires FlagsInv(s) && SampleInv(s) && MeasurerNext(s).Some?
    ensures SampleInv(MeasurerNext(s).value)
  {
    if s.measurer.TestAlarm? && s.mode.Energy? && s.alarmFired.Some? {
      SampleEnds(s);
    } else {
      SampleGoesOn(s);
    }
  }

  lemma LoopTestThreads(s: State, i: nat)
    requires Inv(s) && Next(s, LoopTest(i)).Some?
    ensures Indexed(Next(s, LoopTest(i)).value) && ThreadsInv(Next(s, LoopTest(i)).value)
  {
  }

  lemma LoopTestPreserves(s: State, i: nat)
    requires Inv(s) && Next(s, LoopTest(i)).Some?
    ensures Inv(Next(s, LoopTest(i)).value)
  {
    LoopTestThreads(s, i);
  }

  lemma OtherDoneThreads(s: State, i: nat)
    requires Indexed(s) && ThreadsInv(s) && Next(s, OtherDone(i)).Some?
    ensures Indexed(Next(s, OtherDone(i)).value) && ThreadsInv(Next(s, OtherDone(i)).value)
  {
  }

  lemma OtherDonePreserves(s: State, i: nat)
    requires Inv(s) && Next(s, OtherDone(i)).Some?
    ensures Inv(Next(s, OtherDone(i)).value)
  {
    OtherDoneThreads(s, i);
  }

  lemma FlagStepThreads(s: State, l: Label)
    requires Indexed(s) && ThreadsInv(s) && FlagsInv(s) && Next(s, l).Some?
    requires l.OpDone? || l.MsrFails? || l.TakeSigint? || l.UserSigint? || l.AlarmExpires?
    ensures Indexed(Next(s, l).value) && ThreadsInv(Next(s, l).value)
  {
    var s' := Next(s, l).value;
    assert s'.main == s.main && s'.threads == s.threads;
  }

  lemma FlagStepPreserves(s: State, l: Label)
    requires Inv(s) && Next(s, l).Some?
    requires l.OpDone? || l.MsrFails? || l.TakeSigint? || l.UserSigint? || l.AlarmExpires?
    ensures Inv(Next(s, l).value)
  {
    FlagStepThreads(s, l);
  }

  lemma StepPreserves(s: State, l: Label)
    requires Inv(s) && Next(s, l).Some?
    ensures Inv(Next(s, l).value)
  {
    match l
    case BeginRun(mode, n) => BeginPreserves(s, mode, n);
    case MainStep => MainThreads(s); MainFlags(s); MainSigint(s);
    case MeasurerStep => MeasurerThreads(s); MeasurerFlags(s); MeasurerSamples(s);
    case LoopTest(i) => LoopTestPreserves(s, i);
    case OtherDone(i) => OtherDonePreserves(s, i);
    case _ => FlagStepPreserves(s, l);
  }

  // ----- schedules -----

  /** Runs a whole schedule; None if some label is not enabled when its turn comes. */
  function Exec(s: State, ls: seq<Label>): Option<State>
    requires Indexed(s)
    decreases |ls|
  {
    if ls == [] then Some(s)
    else match Next(s, ls[0])
      case None => None
      case Some(s') => Exec(s', ls[1..])
  }

  lemma {:induction false} ExecInv(s: State, ls: seq<Label>)
    requires Inv(s) && Exec(s, ls).Some?
    ensures Inv(Exec(s, ls).value)
    decreases |ls|
  {
    if ls != [] {
      StepPreserves(s, ls[0]);
      ExecInv(Next(s, ls[0]).value, ls[1..]);
    }
  }

  lemma {:induction false} ExecSnoc(s: State, ls: seq<Label>, l: Label)
    requires Indexed(s) && Exec(s, ls).Some? && Indexed(Exec(s, ls).value)
    ensures Exec(s, ls + [l]) == Next(Exec(s, ls).value, l)
    decreases |ls|
  {
    if ls == [] {
      assert ls + [l] == [l] && [l][1..] == [];
    } else {
      assert (ls + [l])[0] == ls[0] && (ls + [l])[1..] == ls[1..] + [l];
      ExecSnoc(Next(s, ls[0]).value, ls[1..], l);
    }
  }

  ghost predicate Reachable(s: State) {
    exists s0: State, n: nat, ls: seq<Label> :: Init(s0, n) && Exec(s0, ls) == Some(s)
  }

  lemma ReachableInv(s: State)
    requires Reachable(s)
    ensures Inv(s)
  {
    var s0: State, n: nat, ls: seq<Label> :| Init(s0, n) && Exec(s0, ls) == Some(s);
    InitInv(s0, n);
    ExecInv(s0, ls);
  }

  lemma ReachableStep(s: State, l: Label)
    requires Reachable(s) && Indexed(s) && Next(s, l).Some?
    ensures Reachable(Next(s, l).value)
  {
    var s0: State, n: nat, ls: seq<Label> :| Init(s0, n) && Exec(s0, ls) == Some(s);
    ExecSnoc(s0, ls, l);
    assert Exec(s0, ls + [l]) == Some(Next(s, l).value);
  }

  lemma InitReachable(s: State, n: nat)
    requires Init(s, n)
    ensures Reachable(s)
  {
    assert Exec(s, []) == Some(s);
  }

  // ----- what every sequence of runs guarantees -----

  /** A loop that ends on alarm_fired ends because of the alarm armed for this very run and sample. */
  lemma AlarmGeneration(s: State)
    requires Reachable(s) && s.measurer.TestAlarm? && s.alarmFired.Some?
    ensures s.alarmFired.value == LoopAlarm(s.run, s.sample)
    ensures s.mode.Latency? ==> s.mode.duration != 0
  {
    ReachableInv(s);
  }

  /** And that alarm is never lost: as long as the loop runs it is armed, or it has set the flag. */
  lemma AlarmNotLost(s: State)
    requires Reachable(s) && Indexed(s) && InLoop(s.measurer) && (s.mode.Latency? ==> s.mode.duration != 0)
    ensures var alarm := Some(LoopAlarm(s.run, s.sample));
      (s.armed == alarm && s.alarmFired.None?) || (s.armed.None? && s.alarmFired == alarm)
    ensures s.armed.Some? ==> Next(s, AlarmExpires).Some? && Next(s, AlarmExpires).value.alarmFired.Some?
  {
    ReachableInv(s);
  }

  /** A latency loop leaves at the next test of a flag that is set, and at no other: it begins one more
      operation iff both flags were seen clear. */
  lemma LatencyLoopLeavesIff(s: State)
    requires Reachable(s) && s.mode.Latency? && (s.measurer.TestSigint? || s.measurer.TestAlarm?)
    ensures Indexed(s) && Next(s, MeasurerStep).Some?
    ensures var fired := if s.measurer.TestSigint? then s.sigintFired.Some? else s.alarmFired.Some?;
      var after := Next(s, MeasurerStep).value.measurer;
      && (after.StoreStop? <==> fired)
      && (!fired ==> after == if s.measurer.TestSigint? then TestAlarm else InOp)
  {
    ReachableInv(s);
  }

  /** In an energy run the sample ends iff its alarm has set the flag, and is then printed. */
  lemma SampleEndsIff(s: State)
    requires Reachable(s) && s.mode.Energy? && s.measurer.TestAlarm?
    ensures Indexed(s) && Next(s, MeasurerStep).Some?
    ensures var t := Next(s, MeasurerStep).value;
      && (s.alarmFired.Some? ==> t.measurer.NextSample? && t.samples == s.samples + [s.ops - s.base])
      && (s.alarmFired.None? ==> t.measurer.InOp? && t.samples == s.samples)
  {
    ReachableInv(s);
  }

  /** A flag that is set in a loop stays set: nobody but the measuring thread clears it, and not there. */
  lemma FlagsStaySet(s: State, l: Label)
    requires Reachable(s) && Indexed(s) && InLoop(s.measurer) && Next(s, l).Some?
    ensures InLoop(Next(s, l).value.measurer) ==>
              && (s.sigintFired.Some? ==> Next(s, l).value.sigintFired.Some?)
              && (s.alarmFired.Some? ==> Next(s, l).value.alarmFired.Some?)
  {
    ReachableInv(s);
  }

  /** A latency loop that ends on sigint_fired ends because the user interrupted this very run, and
      no harness SIGINT outlives the joins of its run. */
  lemma NoSigintLeak(s: State)
    requires Reachable(s)
    ensures s.measurer.TestSigint? && s.sigintFired.Some? ==> s.sigintFired.value == FromUser(s.run)
    ensures s.main.Destroying? || s.main.Between? ==> s.pending == {}
  {
    ReachableInv(s);
  }

  predicate IsThreadStep(l: Label) {
    !l.BeginRun? && !l.MainStep? && !l.UserSigint? && !l.AlarmExpires?
  }

  /** Every thread is joined exactly once before the topology is destroyed, and while a thread can
      still take a step the locals it captured are alive. */
  lemma LifetimeSafety(s: State, l: Label)
    requires Reachable(s) && Indexed(s)
    ensures s.main.Destroying? ==> s.measurer.Absent? && forall i | 0 <= i < |s.joins| :: s.joins[i] == 1
    ensures IsThreadStep(l) && Next(s, l).Some? ==> s.frame && !s.main.Destroying?
  {
    ReachableInv(s);
    match l
    case LoopTest(i) =>
    case _ =>
  }

  /** While an operation is in progress nobody has been told to stop: every interfering thread is in
      its slot and inside its loop. */
  lemma PeersAlive(s: State, i: nat)
    requires Inv(s) && s.measurer.InOp? && i < |s.threads|
    ensures !s.stop && s.frame && s.slots[i] && Alive(s.threads[i])
  {
  }

  /** An energy run whose device was opened takes exactly nr_samples samples, one that could not open it
      takes none, and every operation was counted in the sample in whose loop it was done. */
  lemma EnergySamples(s: State)
    requires Reachable(s) && s.mode.Energy? && Finished(s)
    ensures |s.samples| == if s.msrOpen && s.mode.nrSamples > 0 then s.mode.nrSamples else 0
    ensures Sum(s.samples) == s.ops
    ensures !s.msrOpen ==> s.ops == 0
  {
    ReachableInv(s);
  }

  /** In the loop of sample j there are j samples behind it, `iterations` is the number of operations since
      its alarm was armed, and the samples behind it hold all operations before that. */
  lemma IterationsCounted(s: State)
    requires Reachable(s) && s.mode.Energy? && InLoop(s.measurer)
    ensures s.sample == |s.samples| < s.mode.nrSamples && s.msrOpen
    ensures s.count == s.ops - s.base && s.base == Sum(s.samples)
  {
    ReachableInv(s);
  }

  lemma ArmStartsLoop(s: State)
    requires Reachable(s) && Indexed(s) && s.measurer.Arm?
    ensures Next(s, MeasurerStep).Some? && Next(s, MeasurerStep).value.base == s.ops
    ensures Next(s, MeasurerStep).value.armed == ArmedBy(s)
  {
  }

  /** nr_samples is the number of operations of a latency run, in its loop and when it is printed after
      `stop` has been stored. */
  lemma SamplesCounted(s: State)
    requires Reachable(s) && Counted(s)
    ensures s.count == s.ops
  {
    ReachableInv(s);
  }

  /** If the MSR device cannot be opened, the measuring thread stores `stop` and returns without a single
      operation, and the main thread can join it. */
  lemma MsrFailureStops(s: State)
    requires Reachable(s) && Indexed(s) && Next(s, MsrFails).Some?
    ensures var failed := Next(s, MsrFails).value;
      && Next(failed, MeasurerStep).Some?
      && var done := Next(failed, MeasurerStep).value;
         done.stop && done.measurer.Returned? && done.ops == 0 && Next(done, MainStep).Some?
  {
    ReachableInv(s);
  }

  /** The harness's SIGINT to thread i is pending or still to come. */
  predicate SigintDue(s: State, i: nat) {
    || i in s.pending
    || s.main.JoinMeasurer?
    || (s.main.Kicking? && s.main.tid <= i)
  }

  // ----- who can go on, and that every run can be brought to its end -----

  /** The main thread waits only in a join, for a thread that has not finished. */
  lemma MainBlockedIff(s: State)
    requires Reachable(s) && Indexed(s) && !s.main.Between?
    ensures Next(s, MainStep).None? <==>
              || (s.main.JoinMeasurer? && !s.measurer.Returned?)
              || (s.main.Joining? && s.main.tid < |s.threads| && Alive(s.threads[s.main.tid]))
  {
    ReachableInv(s);
  }

  /** The measuring thread waits only inside an operation. */
  lemma MeasurerBlockedIff(s: State)
    requires Reachable(s) && Indexed(s) && !s.measurer.Absent? && !s.measurer.Returned?
    ensures Next(s, MeasurerStep).None? <==> s.measurer.InOp?
    ensures s.measurer.InOp? <==> Next(s, OpDone).Some?
    ensures s.measurer.OpenMsr? <==> Next(s, MsrFails).Some?
  {
  }

  /** An interfering thread in its loop waits only inside other_operation, and can take a pending SIGINT. */
  lemma ThreadBlockedIff(s: State, i: nat)
    requires Reachable(s) && Indexed(s) && i < |s.threads| && Alive(s.threads[i])
    ensures Next(s, LoopTest(i)).None? <==> s.threads[i].InOther?
    ensures Next(s, OtherDone(i)).Some? <==> s.threads[i].InOther?
    ensures Next(s, TakeSigint(i)).Some? <==> i in s.pending
  {
  }

  /** run does what it was asked for, from a clean slate. */
  lemma RunBegins(s: State, mode: Mode, n: nat)
    requires Reachable(s) && Indexed(s)
    ensures Next(s, BeginRun(mode, n)).Some? <==> s.main.Between?
    ensures s.main.Between? ==>
              var t := Next(s, BeginRun(mode, n)).value;
              && t.mode == mode && |t.threads| == n && t.run == s.run + 1
              && t.ops == 0 && t.samples == [] && t.pending == {}
              && forall i | 0 <= i < n :: t.threads[i].Unborn?
  {
    ReachableInv(s);
  }

  /** What brings a run nearer to its end: the user interrupts a latency loop, an alarm expires. */
  function EndStep(s: State): Label
    requires Indexed(s)
  {
    if s.main.JoinMeasurer? then
      match s.measurer
      case Returned => MainStep
      case InOp => OpDone
      case TestSigint => if s.sigintFired.None? then UserSigint else MeasurerStep
      case TestAlarm => if s.mode.Energy? && s.alarmFired.None? then AlarmExpires else MeasurerStep
      case _ => MeasurerStep
    else if s.main.Joining? && s.main.tid < |s.threads| then
      match s.threads[s.main.tid]
      case TestStop => LoopTest(s.main.tid)
      case InOther => OtherDone(s.main.tid)
      case _ => MainStep
    else
      MainStep
  }

  function MainLeft(main: MainPc, n: nat): nat {
    match main
    case Between => 0
    case ResetFlags => 4 * n + 8
    case Spawning(t) => if t <= n then 4 * n - 2 * t + 7 else 0
    case Moving(t) => if t <= n then 4 * n - 2 * t + 6 else 0
    case SpawnMeasurer => 2 * n + 6
    case JoinMeasurer => 2 * n + 5
    case Kicking(t) => if t <= n then 2 * n - t + 3 else 0
    case Joining(t) => if t <= n then n - t + 2 else 0
    case Destroying => 1
  }

  function MeasurerLeft(s: State): nat {
    var k := if |s.samples| <= Wanted(s.mode) then Wanted(s.mode) - |s.samples| else 0;
    match s.measurer
    case OpenMsr => 20 * k + 15
    case ClearEarly => 20 * k + 14
    case ArmEarly => 20 * k + 13
    case NextSample => 20 * k + 12
    case Arm => 20 * k + 9
    case Clear => 20 * k + 8
    case TestAlarm => if s.mode.Latency? then 6 else if s.alarmFired.None? then 20 * k + 4 else 20 * k + 3
    case InOp => 20 * k + 5
    case TestSigint => if s.sigintFired.None? then 3 else 2
    case StoreStop => 1
    case _ => 0
  }

  function ThreadLeft(s: State): nat
    requires Indexed(s)
  {
    if s.main.Joining? && s.main.tid < |s.threads| then
      match s.threads[s.main.tid]
      case InOther => 2
      case TestStop => 1
      case _ => 0
    else 0
  }

  lemma MainStepEnds(s: State)
    requires Inv(s) && !s.main.Between? && MainNext(s).Some?
    ensures MainLeft(MainNext(s).value.main, |s.threads|) < MainLeft(s.main, |s.threads|)
    ensures MainNext(s).value.run == s.run
  {
  }

  lemma MeasurerStepEnds(s: State)
    requires Inv(s) && s.main.JoinMeasurer? && !s.measurer.Returned?
    ensures Next(s, EndStep(s)).Some?
    ensures var t := Next(s, EndStep(s)).value;
      t.run == s.run && t.main == s.main && t.threads == s.threads && MeasurerLeft(t) < MeasurerLeft(s)
  {
  }

  lemma ThreadStepEnds(s: State)
    requires Inv(s) && s.main.Joining? && s.main.tid < |s.threads| && Alive(s.threads[s.main.tid])
    ensures Next(s, EndStep(s)).Some?
    ensures var t := Next(s, EndStep(s)).value;
      t.run == s.run && t.main == s.main && |t.threads| == |s.threads| && MeasurerLeft(t) == MeasurerLeft(s)
      && ThreadLeft(t) < ThreadLeft(s)
  {
  }

  predicate Nearer(t: State, s: State)
    requires Indexed(t) && Indexed(s)
  {
    var a, b := MainLeft(t.main, |t.threads|), MainLeft(s.main, |s.threads|);
    a < b
    || (a == b && MeasurerLeft(t) < MeasurerLeft(s))
    || (a == b && MeasurerLeft(t) == MeasurerLeft(s) && ThreadLeft(t) < ThreadLeft(s))
  }

  lemma EndStepAdvances(s: State)
    requires Inv(s) && !s.main.Between?
    ensures Next(s, EndStep(s)).Some?
    ensures Next(s, EndStep(s)).value.run == s.run && Nearer(Next(s, EndStep(s)).value, s)
  {
    if s.main.JoinMeasurer? && !s.measurer.Returned? {
      MeasurerStepEnds(s);
    } else if s.main.Joining? && s.main.tid < |s.threads| && Alive(s.threads[s.main.tid]) {
      ThreadStepEnds(s);
    } else {
      assert EndStep(s) == MainStep && MainNext(s).Some?;
      MainStepEnds(s);
    }
  }

  /** From wherever a run is, some schedule brings it to its end: with operations that return, an alarm that
      expires, and a user who interrupts, nothing in the harness is ever stuck. */
  lemma {:induction false} RunCanEnd(s: State) returns (ls: seq<Label>)
    requires Inv(s) && !s.main.Between?
    ensures Exec(s, ls).Some? && Exec(s, ls).value.main.Between? && Exec(s, ls).value.run == s.run
    decreases MainLeft(s.main, |s.threads|), MeasurerLeft(s), ThreadLeft(s)
  {
    var l := EndStep(s);
    EndStepAdvances(s);
    var t := Next(s, l).value;
    var rest := [];
    if !t.main.Between? {
      StepPreserves(s, l);
      rest := RunCanEnd(t);
    }
    ls := [l] + rest;
  }
}
