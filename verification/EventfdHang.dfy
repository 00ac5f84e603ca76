/**
 * The hang of the blocking eventfd benchmark is real: here is a schedule, written out state by state,
 * after which the interfering thread sleeps for ever and the main thread waits for it. The alarm expires
 * before the first round; the remote has already tested `stop` and handles its SIGINT on the way into
 * the read.
 */
module EventfdHang {
  import opened Wrappers
  import opened Eventfd
  import opened EventfdShutdown
  import Harness

  const ALARM := Harness.LoopAlarm(1, 0)
  const KICK := Some(Harness.FromHarness(1, 0))

  function NotYetRun(): State {
    var h := Harness.State(0, Harness.Latency(30), Harness.Between, Harness.Absent, [Harness.Joined], [false], [1],
                           false, false, None, None, None, {}, 0, 0, 0, false, 0, []);
    State(h, false, 1, 1, 3, 0, [0], 0, Idle, [Out], [], [], {}, NoFault)
  }

  /** In the first run of a benchmark with one remote, before the measuring thread starts. */
  function Before(main: Harness.MainPc, remote: Harness.RemotePc, moved: bool): State {
    var h := Harness.State(1, Harness.Latency(30), main, Harness.Absent, [remote], [moved], [0],
                           true, false, None, None, None, {}, 0, 0, 0, false, 0, []);
    State(h, false, 1, 1, 3, 0, [0], 0, Idle, [Out], [], [], {}, NoFault)
  }

  /** While the measuring thread is alive; the remote is at its loop test or about to read. */
  function Looping(measurer: Harness.MeasurerPc, fired: bool, armed: bool, pc: RemoteOp): State {
    var alarm := Some(ALARM);
    var h := Harness.State(1, Harness.Latency(30), Harness.JoinMeasurer, measurer,
                           [if pc.Out? then Harness.TestStop else Harness.InOther], [true], [0],
                           true, measurer.Returned?, None, if fired then alarm else None, if armed then alarm else None,
                           {}, 0, 0, 0, false, 0, []);
    State(h, false, 1, 1, 3, 0, [0], 0, Idle, [pc], [], [], {}, NoFault)
  }

  /** After `stop` has been stored. */
  function Stopping(main: Harness.MainPc, pending: set<nat>, handled: bool, pc: RemoteOp): State {
    var h := Harness.State(1, Harness.Latency(30), main, Harness.Absent, [Harness.InOther], [true], [0],
                           true, true, if handled then KICK else None, Some(ALARM), None, pending, 0, 0, 0,
                           false, 0, []);
    State(h, false, 1, 1, 3, 0, [0], 0, Idle, [pc], [], [], if handled then {0} else {}, NoFault)
  }

  const LAST: nat := 18

  function At(k: nat): State {
    match k
    case 0 => NotYetRun()
    case 1 => Before(Harness.ResetFlags, Harness.Unborn, false)
    case 2 => Before(Harness.Spawning(0), Harness.Unborn, false)
    case 3 => Before(Harness.Moving(0), Harness.TestStop, false)
    case 4 => Before(Harness.Spawning(1), Harness.TestStop, true)
    case 5 => Before(Harness.SpawnMeasurer, Harness.TestStop, true)
    case 6 => Looping(Harness.Arm, false, false, Out)
    case 7 => Looping(Harness.Arm, false, false, AtRead)
    case 8 => Looping(Harness.Clear, false, true, AtRead)
    case 9 => Looping(Harness.TestSigint, false, true, AtRead)
    case 10 => Looping(Harness.TestSigint, true, false, AtRead)
    case 11 => Looping(Harness.TestAlarm, true, false, AtRead)
    case 12 => Looping(Harness.StoreStop, true, false, AtRead)
    case 13 => Looping(Harness.Returned, true, false, AtRead)
    case 14 => Stopping(Harness.Kicking(0), {}, false, AtRead)
    case 15 => Stopping(Harness.Kicking(1), {0}, false, AtRead)
    case 16 => Stopping(Harness.Kicking(1), {}, true, AtRead)
    case 17 => Stopping(Harness.Joining(0), {}, true, AtRead)
    case _ => Stopping(Harness.Joining(0), {}, true, Blocked)
  }

  function Schedule(k: nat): Label {
    if k == 0 then Run(Harness.BeginRun(Harness.Latency(30), 1))
    else if k <= 5 then Run(Harness.MainStep)
    else if k == 6 then Run(Harness.LoopTest(0))
    else if k == 9 then Run(Harness.AlarmExpires)
    else if k <= 12 then Run(Harness.MeasurerStep)
    else if k <= 14 then Run(Harness.MainStep)
    else if k == 15 then Interrupt(0, false)
    else if k == 16 then Run(Harness.MainStep)
    else EnterRead(0)
  }

  ghost predicate StepOk(k: nat) {
    Indexed(At(k)) && Next(At(k), Schedule(k)) == Some(At(k + 1))
  }

  lemma Singletons<T>()
    ensures forall a: T, b: T :: [a][0 := b] == [b]
  {
  }

  lemma RunBegins()
    ensures StepOk(0)
  {
    var s := Next(At(0), Schedule(0)).value;
    assert s.remote == [0] && s.rp == [Out];
    assert s.h.threads == [Harness.Unborn] && s.h.slots == [false] && s.h.joins == [0];
  }

  lemma SpawnRemote()
    ensures StepOk(1) && StepOk(2)
  {
    Singletons<Harness.RemotePc>();
  }

  lemma MoveRemote()
    ensures StepOk(3)
  {
    Singletons<bool>();
  }

  lemma SpawnDone()
    ensures StepOk(4)
  {
  }

  lemma SpawnMeasurer()
    ensures StepOk(5)
  {
  }

  lemma RemoteTestsStop()
    ensures StepOk(6)
  {
    Singletons<Harness.RemotePc>();
    Singletons<RemoteOp>();
  }

  lemma ArmAlarm()
    ensures StepOk(7) && StepOk(8)
  {
  }

  lemma AlarmExpires()
    ensures StepOk(9) && StepOk(10)
  {
  }

  lemma LeaveLoop()
    ensures StepOk(11)
  {
  }

  lemma StoreStop()
    ensures StepOk(12)
  {
  }

  lemma JoinMeasurer()
    ensures StepOk(13)
  {
  }

  lemma Kick()
    ensures StepOk(14)
  {
    assert At(14).h.pending + {0} == {0};
  }

  lemma HandledEarly()
    ensures StepOk(15) && StepOk(16)
  {
    assert At(15).h.pending - {0} == {} && At(15).early + {0} == {0};
  }

  lemma FallsAsleep()
    ensures StepOk(17)
  {
    Singletons<RemoteOp>();
  }

  lemma Begins()
    ensures Reachable(At(0))
  {
    assert Init(At(0), 1);
    assert Exec(At(0), []) == Some(At(0));
  }

  lemma Continues(s: State, l: Label, s': State)
    requires Reachable(s) && Indexed(s) && Next(s, l) == Some(s')
    ensures Reachable(s')
  {
    ReachableStep(s, l);
  }

  lemma {:induction false} ScheduleReaches(k: nat)
    requires k <= LAST && forall j | 0 <= j < k :: StepOk(j)
    ensures Reachable(At(k))
  {
    if k == 0 {
      Begins();
    } else {
      ScheduleReaches(k - 1);
      assert StepOk(k - 1);
      Continues(At(k - 1), Schedule(k - 1), At(k));
    }
  }

  lemma AllSteps()
    ensures forall k | 0 <= k < LAST :: StepOk(k)
  {
    RunBegins();
    SpawnRemote();
    MoveRemote();
    SpawnDone();
    SpawnMeasurer();
    RemoteTestsStop();
    ArmAlarm();
    AlarmExpires();
    LeaveLoop();
    StoreStop();
    JoinMeasurer();
    Kick();
    HandledEarly();
    FallsAsleep();
  }

  /** There is a schedule after which the blocking remote can take no step and the run is never over,
      whatever is scheduled from then on. */
  lemma HangReachable() returns (s: State)
    ensures Reachable(s) && Indexed(s) && !s.nonblock && s.h.stop && Running(s, 0)
    ensures s.rp[0].Blocked? && !Enabled(s, 0)
    ensures forall ls | Exec(s, ls).Some? :: !Exec(s, ls).value.h.main.Destroying?
  {
    AllSteps();
    ScheduleReaches(LAST);
    s := At(LAST);
    forall ls | Exec(s, ls).Some? ensures !Exec(s, ls).value.h.main.Destroying? {
      EarlyHangs(s, 0, ls);
    }
  }
}
