/**
 * The harness as the code has it: one object that holds the flags, the thread vector and the counters of
 * LatencyBenchmark::run and EnergyBenchmark::run, updated in place. Each method is one statement of one
 * thread; it says whether it could be executed, and what it does is the transition of module Harness.
 */
module HarnessProcess {
  import opened Wrappers
  import opened Harness

  class Process {
    var runs: nat
    var mode: Mode
    var main: MainPc
    var measurer: MeasurerPc
    var threads: seq<RemotePc>
    ghost var slots: seq<bool>
    ghost var joins: seq<nat>
    ghost var frame: bool
    var stop: bool
    var sigintFired: Option<SigintSource>
    var alarmFired: Option<Alarm>
    var armed: Option<Alarm>
    var pending: set<nat>
    var sample: nat
    var count: nat
    ghost var ops: nat
    ghost var msrOpen: bool
    ghost var base: nat
    var samples: seq<nat>

    ghost function View(): State
      reads this
    {
      State(runs, mode, main, measurer, threads, slots, joins, frame, stop, sigintFired, alarmFired, armed, pending,
            sample, count, ops, msrOpen, base, samples)
    }

    ghost predicate Valid()
      reads this
    {
      Inv(View())
    }

    constructor ()
      ensures Valid() && Init(View(), 0)
    {
      runs, mode, main, measurer := 0, Latency(0), Between, Absent;
      threads, slots, joins, frame := [], [], [], false;
      stop, sigintFired, alarmFired, armed, pending := false, None, None, None, {};
      sample, count, ops := 0, 0, 0;
      msrOpen, base, samples := false, 0, [];
    }

    /** _interfering_threads.resize(nr_interfering_threads): none has started yet. */
    method ResizeThreads(n: nat)
      modifies this`threads, this`slots, this`joins
      ensures threads == Repeat(n, Unborn) && slots == Repeat(n, false) && joins == Repeat(n, 0)
    {
      threads := Repeat(n, Unborn);
      slots := Repeat(n, false);
      joins := Repeat(n, 0);
    }

    /** run is called with a scenario whose PU was found and n interfering threads (0 without a partner). */
    method BeginRun(mode: Mode, n: nat) returns (ok: bool)
      requires Indexed(View())
      modifies this
      ensures Performed(old(View()), Next(old(View()), Label.BeginRun(mode, n)), ok, View())
      ensures ok <==> old(main.Between?)
      ensures ok ==> this.mode == mode && |threads| == n && runs == old(runs) + 1 && ops == 0 && samples == []
    {
      ok := main.Between?;
      if ok {
        ResizeThreads(n);
        EnterRun(mode);
      }
    }

    /** The locals of run come to life and the counters start at zero. */
    method EnterRun(mode: Mode)
      modifies this`runs, this`mode, this`main, this`frame, this`sample, this`count, this`ops
      modifies this`msrOpen, this`base, this`samples
      ensures runs == old(runs) + 1 && this.mode == mode && main == ResetFlags
      ensures frame && sample == 0 && count == 0 && ops == 0
      ensures !msrOpen && base == 0 && samples == []
    {
      runs, this.mode, main := runs + 1, mode, ResetFlags;
      frame, sample, count, ops := true, 0, 0, 0;
      msrOpen, base, samples := false, 0, [];
    }

    // ----- the main thread -----

    /** The flags are reset before the first thread, and the measuring thread is started after the last. */
    method Start() returns (ok: bool)
      requires Valid() && (main.ResetFlags? || main.SpawnMeasurer?)
      modifies this`sigintFired, this`stop, this`main, this`measurer
      ensures Performed(old(View()), Next(old(View()), Label.MainStep), ok, View())
      ensures ok && !stop && pending == {}
      ensures old(main.ResetFlags?) ==> main == Spawning(0) && (mode.Latency? ==> sigintFired.None?)
      ensures old(main.SpawnMeasurer?) ==>
                && main.JoinMeasurer? && measurer == (if mode.Latency? then Arm else OpenMsr)
                && (mode.Latency? && sigintFired.Some? ==> sigintFired.value == FromUser(runs))
                && |slots| == |joins| == |threads|
                && forall i | 0 <= i < |threads| :: Alive(threads[i]) && slots[i] && joins[i] == 0
    {
      ok := true;
      if main.ResetFlags? {
        if mode.Latency? {
          sigintFired := None;
        }
        stop := false;
        main := Spawning(0);
      } else {
        measurer := if mode.Latency? then Arm else OpenMsr;
        main := JoinMeasurer;
      }
    }

    /** The spawn loop: thread tid starts, and is then moved into its slot. */
    method Spawn() returns (ok: bool)
      requires Valid() && (main.Spawning? || main.Moving?)
      modifies this`threads, this`slots, this`main
      ensures Performed(old(View()), Next(old(View()), Label.MainStep), ok, View())
      ensures ok && !stop && pending == {} && |slots| == |threads| == |old(threads)|
      ensures old(main.Spawning?) ==>
                main == if old(main.tid) < |threads| then Moving(old(main.tid)) else SpawnMeasurer
      ensures old(main.Moving?) ==> main == Spawning(old(main.tid) + 1)
      ensures main.Moving? ==> main.tid < |threads| && threads[main.tid].TestStop?
      ensures main.Spawning? ==> main.tid <= |threads| && forall i | 0 <= i < main.tid :: Alive(threads[i]) && slots[i]
    {
      ok := true;
      match main {
        case Spawning(tid) =>
          if tid < |threads| {
            threads := threads[tid := TestStop];
            main := Moving(tid);
          } else {
            main := SpawnMeasurer;
          }
        case Moving(tid) =>
          slots := slots[tid := true];
          main := Spawning(tid + 1);
      }
    }

    /** t.join(), then one SIGINT to each thread that is still in its loop. */
    method Kick() returns (ok: bool)
      requires Valid() && (main.JoinMeasurer? || main.Kicking?)
      modifies this`measurer, this`main, this`pending
      ensures Performed(old(View()), Next(old(View()), Label.MainStep), ok, View())
      ensures ok <==> !old(main.JoinMeasurer? && !measurer.Returned?)
      ensures ok ==> stop && measurer.Absent? && forall i | i in pending :: i < |threads| && Alive(threads[i])
      ensures old(main.Kicking?) && old(main.tid) < |threads| ==>
                main == Kicking(old(main.tid) + 1) && (threads[old(main.tid)].Exited? || old(main.tid) in pending)
      ensures old(main.Kicking?) && old(main.tid) >= |threads| ==> main == Joining(0)
    {
      ok := true;
      match main {
        case JoinMeasurer =>
          if measurer.Returned? {
            measurer, main := Absent, Kicking(0);
          } else {
            ok := false;
          }
        case Kicking(tid) =>
          if tid < |threads| {
            if !threads[tid].Exited? {
              pending := pending + {tid};
            }
            main := Kicking(tid + 1);
          } else {
            main := Joining(0);
          }
      }
    }

    /** Joins each thread, then destroys the topology. */
    method WindUp() returns (ok: bool)
      requires Valid() && (main.Joining? || main.Destroying?)
      modifies this`main, this`threads, this`joins, this`frame
      ensures Performed(old(View()), Next(old(View()), Label.MainStep), ok, View())
      ensures ok <==> !old(main.Joining? && main.tid < |threads| && Alive(threads[main.tid]))
      ensures ok && main.Joining? ==> main == Joining(old(main.tid) + 1) && main.tid <= |threads| == |joins|
      ensures ok && main.Joining? ==> threads[main.tid - 1].Joined? && joins[main.tid - 1] == 1
      ensures ok && main.Destroying? ==>
                pending == {} && frame && |joins| == |threads|
                && forall i | 0 <= i < |threads| :: threads[i].Joined? && joins[i] == 1
      ensures main.Between? ==> !frame && pending == {} && forall i | 0 <= i < |threads| :: threads[i].Joined?
    {
      ok := true;
      match main {
        case Joining(tid) =>
          if tid == |threads| {
            main := Destroying;
          } else if threads[tid].Exited? {
            threads := threads[tid := Joined];
            joins := joins[tid := joins[tid] + 1];
            main := Joining(tid + 1);
          } else {
            ok := false;
          }
        case Destroying =>
          frame, main := false, Between;
      }
    }

    method MainStep() returns (ok: bool)
      requires Valid()
      modifies this
      ensures Performed(old(View()), Next(old(View()), Label.MainStep), ok, View())
    {
      if main.Between? {
        ok := false;
      } else if main.ResetFlags? || main.SpawnMeasurer? {
        ok := Start();
      } else if main.Spawning? || main.Moving? {
        ok := Spawn();
      } else if main.JoinMeasurer? || main.Kicking? {
        ok := Kick();
      } else {
        ok := WindUp();
      }
    }

    // ----- the measuring thread -----

    /** The energy run opens the MSR device and arms an extra alarm. */
    method OpenDevice() returns (ok: bool)
      requires Valid() && (measurer.OpenMsr? || measurer.ClearEarly? || measurer.ArmEarly?)
      modifies this`msrOpen, this`measurer, this`alarmFired, this`armed
      ensures Performed(old(View()), Next(old(View()), Label.MeasurerStep), ok, View())
      ensures ok && msrOpen && samples == [] && ops == 0 && !measurer.InOp?
      ensures old(measurer.OpenMsr?) ==> measurer.ClearEarly?
      ensures old(measurer.ClearEarly?) ==> measurer.ArmEarly? && alarmFired.None?
      ensures old(measurer.ArmEarly?) ==> measurer.NextSample? && armed == Some(EarlyAlarm(runs))
    {
      ok := true;
      match measurer {
        case OpenMsr =>
          msrOpen := true;
          measurer := ClearEarly;
        case ClearEarly =>
          alarmFired := None;
          measurer := ArmEarly;
        case ArmEarly =>
          armed := Some(EarlyAlarm(runs));
          measurer := NextSample;
      }
    }

    /** The head of the sample loop; arming the alarm of a loop and clearing the flag, in this order. */
    method StartLoop() returns (ok: bool)
      requires Valid() && (measurer.NextSample? || measurer.Arm? || measurer.Clear?)
      modifies this`measurer, this`armed, this`base, this`alarmFired, this`count
      ensures Performed(old(View()), Next(old(View()), Label.MeasurerStep), ok, View())
      ensures ok && !measurer.InOp? && samples == old(samples)
      ensures old(measurer.NextSample?) ==> measurer == if |samples| < Wanted(mode) then Arm else StoreStop
      ensures old(measurer.Arm?) ==> measurer.Clear? && base == ops && armed == ArmedBy(View())
      ensures old(measurer.Clear?) ==>
                measurer == LoopHead(mode) && alarmFired.None? && armed == ArmedBy(View()) && count == 0 && base == ops
    {
      ok := true;
      match measurer {
        case NextSample =>
          measurer := if mode.Energy? && sample < mode.nrSamples then Arm else StoreStop;
        case Arm =>
          armed := if mode.Latency? && mode.duration == 0 then None else Some(LoopAlarm(runs, sample));
          base := ops;
          measurer := Clear;
        case Clear =>
          alarmFired := None;
          count := 0;
          measurer := LoopHead(mode);
      }
    }

    /** The condition of the loop, one flag at a time; a sample that is over is printed. */
    method TestFlag() returns (ok: bool)
      requires Valid() && (measurer.TestSigint? || measurer.TestAlarm?)
      modifies this`measurer, this`samples, this`sample
      ensures Performed(old(View()), Next(old(View()), Label.MeasurerStep), ok, View())
      ensures ok
      ensures old(measurer.TestSigint?) ==>
                measurer == (if sigintFired.Some? then StoreStop else TestAlarm)
                && (measurer.StoreStop? ==> sigintFired == Some(FromUser(runs)))
      ensures old(measurer.TestAlarm?) ==>
                measurer == if alarmFired.None? then InOp else if mode.Latency? then StoreStop else NextSample
      ensures old(measurer.TestAlarm?) && !measurer.InOp? ==>
                alarmFired == Some(LoopAlarm(runs, old(sample))) && (mode.Latency? ==> mode.duration != 0)
      ensures samples == if measurer.NextSample? then old(samples) + [ops - base] else old(samples)
      ensures measurer.InOp? ==>
                !stop && frame && |slots| == |threads|
                && forall i | 0 <= i < |threads| :: Alive(threads[i]) && slots[i]
    {
      ok := true;
      match measurer {
        case TestSigint =>
          measurer := if sigintFired.Some? then StoreStop else TestAlarm;
        case TestAlarm =>
          if alarmFired.None? {
            measurer := InOp;
          } else if mode.Latency? {
            measurer := StoreStop;
          } else {
            samples := samples + [count];
            sample := sample + 1;
            measurer := NextSample;
          }
      }
    }

    /** stop.store(true), after the last loop. */
    method Stop() returns (ok: bool)
      requires Valid() && measurer.StoreStop?
      modifies this`stop, this`measurer
      ensures Performed(old(View()), Next(old(View()), Label.MeasurerStep), ok, View())
      ensures ok && stop && measurer.Returned?
      ensures mode.Latency? ==> count == ops
      ensures mode.Energy? ==> |samples| == (if msrOpen then Wanted(mode) else 0) && Sum(samples) == ops
    {
      ok := true;
      stop := true;
      measurer := Returned;
    }

    method MeasurerStep() returns (ok: bool)
      requires Valid()
      modifies this
      ensures Performed(old(View()), Next(old(View()), Label.MeasurerStep), ok, View())
      ensures ok <==> !old(measurer.InOp? || measurer.Returned? || measurer.Absent?)
    {
      match measurer {
        case OpenMsr => ok := OpenDevice();
        case ClearEarly => ok := OpenDevice();
        case ArmEarly => ok := OpenDevice();
        case NextSample => ok := StartLoop();
        case Arm => ok := StartLoop();
        case Clear => ok := StartLoop();
        case TestSigint => ok := TestFlag();
        case TestAlarm => ok := TestFlag();
        case StoreStop => ok := Stop();
        case _ => ok := false;
      }
    }

    method FailMsr() returns (ok: bool)
      requires Valid()
      modifies this`measurer
      ensures Performed(old(View()), Next(old(View()), MsrFails), ok, View())
      ensures ok <==> old(measurer.OpenMsr?)
      ensures ok ==> measurer.StoreStop? && ops == 0 && samples == []
    {
      ok := measurer.OpenMsr?;
      if ok {
        measurer := StoreStop;
      }
    }

    method FinishOperation() returns (ok: bool)
      requires Valid()
      modifies this`count, this`ops, this`measurer
      ensures Performed(old(View()), Next(old(View()), OpDone), ok, View())
      ensures ok <==> old(measurer.InOp?)
      ensures ok ==> measurer == LoopHead(mode) && count == ops - base && ops == old(ops) + 1
    {
      ok := measurer.InOp?;
      if ok {
        count, ops := count + 1, ops + 1;
        measurer := LoopHead(mode);
      }
    }

    // ----- the interfering threads and the signals -----

    method TestLoop(tid: nat) returns (ok: bool)
      requires Valid()
      modifies this`threads, this`pending
      ensures Performed(old(View()), Next(old(View()), LoopTest(tid)), ok, View())
      ensures ok <==> tid < |old(threads)| && old(threads)[tid].TestStop?
      ensures ok ==> tid < |threads| && (threads[tid].Exited? <==> stop) && (threads[tid].InOther? <==> !stop)
      ensures ok && stop ==> tid !in pending && (measurer.Returned? || measurer.Absent?)
    {
      ok := tid < |threads| && threads[tid].TestStop?;
      if ok {
        if stop {
          threads := threads[tid := Exited];
          pending := pending - {tid};
        } else {
          threads := threads[tid := InOther];
        }
      }
    }

    method FinishOtherOperation(tid: nat) returns (ok: bool)
      requires Valid()
      modifies this`threads
      ensures Performed(old(View()), Next(old(View()), OtherDone(tid)), ok, View())
      ensures ok <==> tid < |old(threads)| && old(threads)[tid].InOther?
      ensures ok ==> tid < |threads| && threads[tid].TestStop?
    {
      ok := tid < |threads| && threads[tid].InOther?;
      if ok {
        threads := threads[tid := TestStop];
      }
    }

    /** signal_handler, for the SIGINT of pthread_kill. */
    method HandleKick(tid: nat) returns (ok: bool)
      requires Valid()
      modifies this`pending, this`sigintFired
      ensures Performed(old(View()), Next(old(View()), TakeSigint(tid)), ok, View())
      ensures ok <==> tid < |threads| && Alive(threads[tid]) && tid in old(pending)
      ensures ok ==> stop && measurer.Absent? && (main.Kicking? || main.Joining?) && (main.Kicking? ==> tid < main.tid)
      ensures ok ==> tid !in pending && sigintFired == Some(FromHarness(runs, tid))
    {
      ok := tid < |threads| && Alive(threads[tid]) && tid in pending;
      if ok {
        pending := pending - {tid};
        sigintFired := Some(FromHarness(runs, tid));
      }
    }

    /** signal_handler, for the user's SIGINT. */
    method HandleUser() returns (ok: bool)
      requires Valid()
      modifies this`sigintFired
      ensures Performed(old(View()), Next(old(View()), UserSigint), ok, View())
      ensures ok && sigintFired == Some(FromUser(runs))
    {
      ok := true;
      sigintFired := Some(FromUser(runs));
    }

    /** alarm_signal_handler. */
    method HandleAlarm() returns (ok: bool)
      requires Valid()
      modifies this`alarmFired, this`armed
      ensures Performed(old(View()), Next(old(View()), AlarmExpires), ok, View())
      ensures ok <==> old(armed).Some? && !measurer.Clear?
      ensures ok ==> alarmFired == old(armed) && armed.None?
      ensures ok && InLoop(measurer) ==> alarmFired == Some(LoopAlarm(runs, sample))
    {
      ok := armed.Some? && !measurer.Clear?;
      if ok {
        alarmFired, armed := armed, None;
      }
    }

    method Attempt(l: Label) returns (ok: bool)
      requires Valid()
      modifies this
      ensures Performed(old(View()), Next(old(View()), l), ok, View())
    {
      match l
      case BeginRun(mode, n) => ok := BeginRun(mode, n);
      case MainStep => ok := MainStep();
      case MeasurerStep => ok := MeasurerStep();
      case MsrFails => ok := FailMsr();
      case OpDone => ok := FinishOperation();
      case LoopTest(tid) => ok := TestLoop(tid);
      case OtherDone(tid) => ok := FinishOtherOperation(tid);
      case TakeSigint(tid) => ok := HandleKick(tid);
      case UserSigint => ok := HandleUser();
      case AlarmExpires => ok := HandleAlarm();
    }

    /** Any statement of any thread keeps the invariant. */
    method Step(l: Label) returns (ok: bool)
      requires Valid()
      modifies this
      ensures Performed(old(View()), Next(old(View()), l), ok, View())
      ensures Valid()
    {
      ok := Attempt(l);
      if ok {
        StepPreserves(old(View()), l);
      }
    }

    /** One more label of a schedule. */
    method Extend(ghost s0: State, ghost before: seq<Label>, l: Label) returns (ok: bool)
      requires Valid() && Indexed(s0) && Exec(s0, before) == Some(View())
      modifies this
      ensures Valid()
      ensures ok ==> Exec(s0, before + [l]) == Some(View())
      ensures !ok ==> View() == old(View()) && Next(View(), l).None?
    {
      ok := Step(l);
      if ok {
        ExecSnoc(s0, before, l);
      }
    }

    /** Executes a schedule up to its first disabled label; the invariant holds at every step. */
    method RunSchedule(ls: seq<Label>) returns (done: nat)
      requires Valid()
      modifies this
      ensures Valid() && done <= |ls|
      ensures Exec(old(View()), ls[..done]) == Some(View())
      ensures done < |ls| ==> Next(View(), ls[done]).None?
    {
      ghost var before := [];
      done := 0;
      while done < |ls|
        invariant done <= |ls| && before == ls[..done] && Valid()
        invariant Exec(old(View()), before) == Some(View())
      {
        var ok := Extend(old(View()), before, ls[done]);
        if !ok {
          return;
        }
        before := before + [ls[done]];
        done := done + 1;
      }
    }
  }
}
