/**
 * A remote does get to carry an old time into a round: one timeout of sigtimedwait before the first
 * measured operation is enough. The schedule up to that operation is written out state by state.
 */
module HandshakeStale {
  import opened Wrappers
  import opened Handshake
  import opened HandshakeStaleness
  import Harness
  import R = Rendezvous

  const ALARM := Harness.LoopAlarm(1, 0)

  /** The harness in the first run of a benchmark with one remote. */
  function FirstRun(main: Harness.MainPc, measurer: Harness.MeasurerPc, remote: Harness.RemotePc): Harness.State {
    var moved := main.JoinMeasurer? || main.SpawnMeasurer? || main == Harness.Spawning(1);
    var armed := if measurer.Absent? || measurer.Arm? then None else Some(ALARM);
    Harness.State(1, Harness.Latency(30), main, measurer, [remote], [moved], [0], true, false, None, None, armed, {},
                  0, 0, 0, false, 0, [])
  }

  function Before(main: Harness.MainPc, remote: Harness.RemotePc): State {
    State(FirstRun(main, Harness.Absent, remote), 1, 0, [Free], [false], [0], [false], 0, Idle, [Out], [], [], false)
  }

  function Looping(measurer: Harness.MeasurerPc, now: nat, lastRead: nat, mp: MeasurerOp, rp: RemoteOp): State {
    var remote := if rp.Out? then Harness.TestStop else Harness.InOther;
    State(FirstRun(Harness.JoinMeasurer, measurer, remote), now, lastRead, [Free], [false], [0], [false], 0, mp, [rp],
          [], [], false)
  }

  function NotYetRun(): State {
    var h := Harness.State(0, Harness.Latency(30), Harness.Between, Harness.Absent, [Harness.Joined], [false], [1],
                           false, false, None, None, None, {}, 0, 0, 0, false, 0, []);
    State(h, 1, 0, [Free], [false], [0], [false], 0, Idle, [Out], [], [], false)
  }

  /** The remote's old reading is of time 1; the measured operation starts at time 2. */
  const OLD: nat := 1

  const LAST: nat := 14

  function At(k: nat): State {
    match k
    case 0 => NotYetRun()
    case 1 => Before(Harness.ResetFlags, Harness.Unborn)
    case 2 => Before(Harness.Spawning(0), Harness.Unborn)
    case 3 => Before(Harness.Moving(0), Harness.TestStop)
    case 4 => Before(Harness.Spawning(1), Harness.TestStop)
    case 5 => Before(Harness.SpawnMeasurer, Harness.TestStop)
    case 6 => Looping(Harness.Arm, 1, 0, Idle, Out)
    case 7 => Looping(Harness.Arm, 1, 0, Idle, Waiting)
    case 8 => Looping(Harness.Arm, 1, 0, Idle, Woken)
    case 9 => Looping(Harness.Arm, 1, 1, Idle, Stamping(OLD))
    case 10 => Looping(Harness.Clear, 1, 1, Idle, Stamping(OLD))
    case 11 => Looping(Harness.TestSigint, 1, 1, Idle, Stamping(OLD))
    case 12 => Looping(Harness.TestAlarm, 1, 1, Idle, Stamping(OLD))
    case 13 => Looping(Harness.InOp, 1, 1, AtStart, Stamping(OLD))
    case _ => Looping(Harness.InOp, 2, 1, AtStart, Stamping(OLD))
  }

  function Schedule(k: nat): Label {
    if k == 0 then Run(Harness.BeginRun(Harness.Latency(30), 1))
    else if k <= 5 then Run(Harness.MainStep)
    else if k == 6 then Run(Harness.LoopTest(0))
    else if k == 7 then WaitFails(0)
    else if k == 8 then Remote(0)
    else if k <= 12 then Run(Harness.MeasurerStep)
    else Tick(1)
  }

  lemma Singletons<T>()
    ensures forall a: T, b: T :: [a][0 := b] == [b]
  {
  }

  ghost predicate StepOk(k: nat) {
    Indexed(At(k)) && Next(At(k), Schedule(k)) == Some(At(k + 1))
  }

  lemma RunBegins()
    ensures StepOk(0)
  {
    var s := Next(At(0), Schedule(0)).value;
    assert s.rp == [Out] && s.usr1 == [false];
    assert s.h.threads == [Harness.Unborn] && s.h.slots == [false] && s.h.joins == [0];
  }

  lemma SpawnRemote()
    ensures StepOk(1) && StepOk(2)
  {
    Singletons<Harness.RemotePc>();
  }

  lemma MoveRemote()
    ensures StepOk(3)
  {
    Singletons<bool>();
  }

  lemma SpawnDone()
    ensures StepOk(4)
  {
  }

  lemma SpawnMeasurer()
    ensures StepOk(5)
  {
  }

  lemma EnterWait()
    ensures StepOk(6)
  {
    Singletons<Harness.RemotePc>();
    Singletons<RemoteOp>();
  }

  lemma TimeOut()
    ensures StepOk(7)
  {
    Singletons<RemoteOp>();
  }

  lemma ReadOldTime()
    ensures StepOk(8)
  {
    assert R.Reading(1) == OLD by { R.ReadingMonotone(1, 2); }
    Singletons<RemoteOp>();
  }

  lemma EnterLoop()
    ensures StepOk(9) && StepOk(10)
  {
  }

  lemma TestFlags()
    ensures StepOk(11)
  {
  }

  lemma StartOperation()
    ensures StepOk(12)
  {
  }

  lemma TimePasses()
    ensures StepOk(13)
  {
  }

  lemma Begins()
    ensures Reachable(At(0))
  {
    assert Init(At(0), 1);
    assert Exec(At(0), []) == Some(At(0));
  }

  lemma Continues(s: State, l: Label, s': State)
    requires Reachable(s) && Indexed(s) && Next(s, l) == Some(s')
    ensures Reachable(s')
  {
    ReachableStep(s, l);
  }

  lemma {:induction false} ScheduleReaches(k: nat)
    requires k <= LAST && forall j | 0 <= j < k :: StepOk(j)
    ensures Reachable(At(k))
  {
    if k == 0 {
      Begins();
    } else {
      ScheduleReaches(k - 1);
      assert StepOk(k - 1);
      Continues(At(k - 1), Schedule(k - 1), At(k));
    }
  }

  lemma AllSteps()
    ensures forall k | 0 <= k < LAST :: StepOk(k)
  {
    RunBegins();
    SpawnRemote();
    MoveRemote();
    SpawnDone();
    SpawnMeasurer();
    EnterWait();
    TimeOut();
    ReadOldTime();
    EnterLoop();
    TestFlags();
    StartOperation();
    TimePasses();
  }

  lemma CarriesOld()
    ensures Reachable(At(LAST)) && CarriesOldStamp(At(LAST), R.Reading(2))
  {
    AllSteps();
    ScheduleReaches(LAST);
    R.ReadingMonotone(1, 2);
  }

  /** A round can end with a timestamp older than its start: the assertion then aborts the process. */
  lemma StaleTimestampReachable() returns (s: State)
    ensures Reachable(s) && Indexed(s) && s.mp.AtRecord? && s.mp.start.Some? && s.mp.end < s.mp.start.value
    ensures Next(s, Measurer).Some? && Next(s, Measurer).value.aborted
  {
    CarriesOld();
    s := OldStampAborts(At(LAST));
  }
}
