/**
 * The signal benchmark as the code has it: one object whose fields are the static vectors, remote_tid
 * and the threads' positions, updated in place. Each method is one statement of one thread; it says
 * whether it could be executed, and what it does is the transition of module Handshake.
 */
module HandshakeProcess {
  import opened Wrappers
  import opened TimeArithmetic
  import opened Handshake
  import Harness
  import Rendezvous

  class Process {
    var h: Harness.State
    var now: nat
    ghost var lastRead: nat
    var mutexes: seq<Owner>
    var signaled: seq<bool>
    var remoteTimestamps: seq<nat>
    var usr1: seq<bool>
    var remoteTid: nat
    var mp: MeasurerOp
    var rp: seq<RemoteOp>
    ghost var rounds: seq<Round>
    var hist: seq<nat>
    var aborted: bool

    ghost function View(): State
      reads this
    {
      State(h, now, lastRead, mutexes, signaled, remoteTimestamps, usr1, remoteTid, mp, rp, rounds, hist, aborted)
    }

    ghost predicate Valid()
      reads this
    {
      Inv(View())
    }

    constructor (nrThreads: nat, now: nat)
      requires nrThreads > 0 && 0 < now < TWO62
      ensures Valid() && Init(View(), nrThreads)
    {
      this.now, lastRead := now, 0;
      h := Harness.State(0, Harness.Latency(0), Harness.Between, Harness.Absent, Repeat(nrThreads, Harness.Joined),
                         Repeat(nrThreads, false), Repeat(nrThreads, 1), false, false, None, None, None, {},
                         0, 0, 0, false, 0, []);
      remoteTid, mp := 0, Idle;
      rounds, hist, aborted := [], [], false;
      remoteTimestamps, signaled, mutexes := [], [], [];
      usr1, rp := [], [];
      new;
      FillVectors(nrThreads);
      ResetThreads(nrThreads);
      InitInv(View(), nrThreads);
    }

    /** init: one timestamp, flag, condition variable and mutex per thread. */
    method FillVectors(nrThreads: nat)
      requires remoteTimestamps == [] && signaled == [] && mutexes == []
      modifies this`remoteTimestamps, this`signaled, this`mutexes
      ensures remoteTimestamps == Repeat(nrThreads, 0)
      ensures signaled == Repeat(nrThreads, false)
      ensures mutexes == Repeat(nrThreads, Free)
    {
      var i := 0;
      while i < nrThreads
        invariant i <= nrThreads
        invariant remoteTimestamps == Repeat(i, 0)
        invariant signaled == Repeat(i, false)
        invariant mutexes == Repeat(i, Free)
      {
        remoteTimestamps := remoteTimestamps + [0];
        signaled := signaled + [false];
        mutexes := mutexes + [Free];
        i := i + 1;
      }
    }

    /** New threads have no signal pending and have not entered other_operation. */
    method ResetThreads(n: nat)
      modifies this`usr1, this`rp
      ensures usr1 == Repeat(n, false) && rp == Repeat(n, Out)
    {
      usr1, rp := Repeat(n, false), Repeat(n, Out);
    }

    // ----- the measuring thread: measured_operation and raw_operation -----

    /** Everything up to and including pthread_kill. */
    method SendSignal() returns (ok: bool)
      requires Valid() && (mp.AtStart? || mp.AtLock? || mp.AtClear? || mp.AtKill?)
      modifies this`mp, this`lastRead, this`mutexes, this`signaled, this`usr1
      ensures remoteTid < |h.threads| == |h.slots| == |rp| == |usr1| == |signaled| == |mutexes|
      ensures Performed(old(View()), Next(old(View()), Measurer), ok, View())
      ensures ok <==> !old(aborted) && !(old(mp).AtLock? && RemoteHolds(rp[remoteTid]))
      ensures ok && old(mp.AtStart?) ==> mp == AtLock(Some(Rendezvous.Reading(now))) && lastRead == now
      ensures ok && old(mp.AtLock?) ==> mp == AtClear(old(mp.start))
      ensures ok && old(mp.AtClear?) ==> mp == AtKill(old(mp.start))
      ensures ok && old(mp.AtKill?) ==> mp == AtCheck(old(mp.start))
      ensures ok && !mp.AtLock? ==> mutexes[remoteTid].ByMeasurer? && !RemoteHolds(rp[remoteTid])
      ensures ok && (mp.AtKill? || mp.AtCheck?) ==> !signaled[remoteTid]
      ensures ok && mp.AtCheck? ==>
                usr1[remoteTid] && h.slots[remoteTid] && Harness.Alive(h.threads[remoteTid])
    {
      ok := !aborted;
      if ok {
        assert MutexOk(View(), remoteTid);
        Harness.PeersAlive(h, remoteTid);
        match mp {
          case AtStart =>
            mp := AtLock(Some(Rendezvous.Reading(now)));
            lastRead := now;
          case AtLock(start) =>
            if mutexes[remoteTid].Free? {
              mutexes := mutexes[remoteTid := ByMeasurer];
              mp := AtClear(start);
            } else {
              ok := false;
            }
          case AtClear(start) =>
            signaled := signaled[remoteTid := false];
            mp := AtKill(start);
          case AtKill(start) =>
            usr1 := usr1[remoteTid := true];
            mp := AtCheck(start);
        }
      }
    }

    /** while (!signaled[remote_tid]) pthread_cond_wait(...); pthread_mutex_unlock. */
    method AwaitFlag() returns (ok: bool)
      requires Valid() && (mp.AtCheck? || mp.Parked? || mp.AtRelock? || mp.AtUnlock?)
      modifies this`mp, this`mutexes
      ensures remoteTid < |h.threads| == |rp| == |usr1| == |signaled| == |mutexes|
      ensures Performed(old(View()), Next(old(View()), Measurer), ok, View())
      ensures ok <==> !old(aborted) && !old(mp).Parked? && !(old(mp).AtRelock? && RemoteHolds(rp[remoteTid]))
      ensures ok && old(mp.AtCheck?) ==>
                mp == if signaled[remoteTid] then AtUnlock(old(mp.start)) else Parked(old(mp.start))
      ensures ok && old(mp.AtRelock?) ==> mp == AtCheck(old(mp.start))
      ensures ok && old(mp.AtUnlock?) ==> mp == AtReadStamp(old(mp.start))
      ensures ok && (mp.AtCheck? || mp.AtUnlock?) ==> mutexes[remoteTid].ByMeasurer? && !RemoteHolds(rp[remoteTid])
      ensures ok && mp.AtUnlock? ==> signaled[remoteTid]
      ensures ok && mp.Parked? ==>
                && mutexes[remoteTid].Free? && Harness.Alive(h.threads[remoteTid])
                && (usr1[remoteTid] || Coming(rp[remoteTid]))
      ensures ok && mp.AtReadStamp? ==> mutexes[remoteTid].Free?
    {
      ok := !aborted;
      if ok {
        assert MutexOk(View(), remoteTid);
        Harness.PeersAlive(h, remoteTid);
        match mp {
          case AtCheck(start) =>
            if signaled[remoteTid] {
              mp := AtUnlock(start);
            } else {
              mutexes := mutexes[remoteTid := Free];
              mp := Parked(start);
            }
          case Parked(_) =>
            ok := false;
          case AtRelock(start) =>
            if mutexes[remoteTid].Free? {
              mutexes := mutexes[remoteTid := ByMeasurer];
              mp := AtCheck(start);
            } else {
              ok := false;
            }
          case AtUnlock(start) =>
            mutexes := mutexes[remoteTid := Free];
            mp := AtReadStamp(start);
        }
      }
    }

    /** end_ns = remote_timestamps[remote_tid], before the index moves on. */
    method ReadStamp() returns (ok: bool)
      requires Valid() && mp.AtReadStamp?
      modifies this`mp
      ensures Performed(old(View()), Next(old(View()), Measurer), ok, View())
      ensures ok <==> !old(aborted)
      ensures ok ==> remoteTid < |remoteTimestamps| && mp == AtRecord(old(mp.start), remoteTimestamps[remoteTid])
    {
      ok := !aborted;
      if ok {
        mp := AtRecord(mp.start, remoteTimestamps[remoteTid]);
      }
    }

    /** The round is over: its difference is returned and the index moves on. */
    method NextRemote(start: Option<nat>, end: nat)
      requires remoteTid < |remoteTimestamps| && (start.Some? ==> start.value < end)
      modifies this`rounds, this`remoteTid, this`hist
      ensures rounds == old(rounds) + [Rendezvous.Round(old(remoteTid), start, end)]
      ensures remoteTid == (old(remoteTid) + 1) % |remoteTimestamps|
      ensures hist == Rendezvous.Recording(old(hist), start, end)
    {
      rounds := rounds + [Rendezvous.Round(remoteTid, start, end)];
      hist := Rendezvous.Recording(hist, start, end);
      remoteTid := (remoteTid + 1) % |remoteTimestamps|;
    }

    /** Moves to the next thread, checks the assertion, returns the difference. */
    method Record() returns (ok: bool)
      requires Valid() && mp.AtRecord?
      modifies this`rounds, this`remoteTid, this`hist, this`h, this`mp, this`aborted
      ensures Performed(old(View()), Next(old(View()), Measurer), ok, View())
      ensures ok <==> !old(aborted)
      ensures ok ==> (aborted <==> old(mp.AtRecord? && mp.start.Some? && mp.end <= mp.start.value))
      ensures ok && !aborted ==> |rounds| == old(|rounds|) + 1 && remoteTid == |rounds| % |remoteTimestamps|
      ensures ok && !aborted && h.mode.Latency? ==>
                && |hist| == |rounds| == h.count && old(hist) <= hist
                && Rendezvous.Recorded(rounds[|rounds| - 1], hist[|hist| - 1])
    {
      ok := !aborted;
      if ok {
        RoundRecorded(View());
        var start, end := mp.start, mp.end;
        if start.Some? && end <= start.value {
          aborted := true;
        } else {
          NextRemote(start, end);
          h := Harness.FinishOp(h).value;
          mp := Idle;
        }
      }
    }

    method MeasurerStatement() returns (ok: bool)
      requires Valid()
      modifies this
      ensures Performed(old(View()), Next(old(View()), Measurer), ok, View())
    {
      if mp.Idle? {
        ok := false;
      } else if mp.AtStart? || mp.AtLock? || mp.AtClear? || mp.AtKill? {
        ok := SendSignal();
      } else if mp.AtReadStamp? {
        ok := ReadStamp();
      } else if mp.AtRecord? {
        ok := Record();
      } else {
        ok := AwaitFlag();
      }
    }

    method WakeSpuriously() returns (ok: bool)
      requires Valid()
      modifies this`mp
      ensures Performed(old(View()), Next(old(View()), SpuriousWake), ok, View())
      ensures ok <==> !old(aborted) && old(mp.Parked?)
      ensures ok ==> mp == AtRelock(old(mp.start))
    {
      ok := !aborted && mp.Parked?;
      if ok {
        mp := AtRelock(mp.start);
      }
    }

    // ----- the interfering threads: other_operation -----

    /** sigtimedwait returns SIGUSR1; clock_gettime; remote_timestamps[tid] = now. */
    method TakeAndStamp(i: nat) returns (ok: bool)
      requires Valid() && i < |rp| && (rp[i].Waiting? || rp[i].Woken? || rp[i].Stamping?)
      modifies this`usr1, this`rp, this`lastRead, this`remoteTimestamps
      ensures Performed(old(View()), Next(old(View()), Remote(i)), ok, View())
      ensures ok <==> !old(aborted) && !(old(rp)[i].Waiting? && !old(usr1)[i])
      ensures ok && old(rp)[i].Waiting? ==> i < |rp| == |usr1| && rp[i].Woken? && !usr1[i]
      ensures ok && old(rp)[i].Woken? ==> i < |rp| && rp[i] == Stamping(Rendezvous.Reading(now)) && lastRead == now
      ensures ok && old(rp)[i].Stamping? ==>
                i < |rp| && i < |remoteTimestamps| && rp[i].Locking? && remoteTimestamps[i] == old(rp)[i].stamp
      ensures ok ==> i < |rp| == |usr1| == |signaled| == |remoteTimestamps| == |old(remoteTimestamps)| && Coming(rp[i])
      ensures ok ==> forall j | 0 <= j < |remoteTimestamps| && j != i :: remoteTimestamps[j] == old(remoteTimestamps)[j]
    {
      ok := !aborted;
      if ok {
        match rp[i] {
          case Waiting =>
            if usr1[i] {
              usr1 := usr1[i := false];
              rp := rp[i := Woken];
            } else {
              ok := false;
            }
          case Woken =>
            rp := rp[i := Stamping(Rendezvous.Reading(now))];
            lastRead := now;
          case Stamping(stamp) =>
            remoteTimestamps := remoteTimestamps[i := stamp];
            rp := rp[i := Locking];
        }
      }
    }

    /** pthread_mutex_lock and pthread_mutex_unlock around the flag. */
    method EnterOrLeave(i: nat) returns (ok: bool)
      requires Valid() && i < |rp| && (rp[i].Locking? || rp[i].Unlocking?)
      modifies this`mutexes, this`rp
      ensures Performed(old(View()), Next(old(View()), Remote(i)), ok, View())
      ensures ok <==> !old(aborted) && !(old(rp)[i].Locking? && i == remoteTid && MeasurerHolds(old(mp)))
      ensures ok ==> i < |rp| == |mutexes|
      ensures ok && old(rp)[i].Locking? ==> rp[i].Setting? && mutexes[i].ByRemote?
      ensures ok && old(rp)[i].Unlocking? ==> rp[i].Returning? && mutexes[i].Free?
      ensures ok ==> !(i == remoteTid && MeasurerHolds(mp))
    {
      assert MutexOk(View(), i);
      ok := !aborted;
      if ok {
        if rp[i].Locking? {
          ok := mutexes[i].Free?;
          if ok {
            mutexes := mutexes[i := ByRemote];
            rp := rp[i := Setting];
          }
        } else {
          mutexes := mutexes[i := Free];
          rp := rp[i := Returning];
        }
      }
    }

    /** signaled[tid] = true; pthread_cond_signal. */
    method SetAndSignal(i: nat) returns (ok: bool)
      requires Valid() && i < |rp| && (rp[i].Setting? || rp[i].Signalling?)
      modifies this`signaled, this`rp, this`mp
      ensures Performed(old(View()), Next(old(View()), Remote(i)), ok, View())
      ensures ok <==> !old(aborted)
      ensures ok ==> i < |rp| == |mutexes| == |signaled| && mutexes[i].ByRemote?
      ensures ok ==> RemoteHolds(rp[i]) && !(i == remoteTid && MeasurerHolds(mp))
      ensures ok && old(rp)[i].Setting? ==> rp[i].Signalling? && signaled[i]
      ensures ok && old(rp)[i].Signalling? ==> rp[i].Unlocking? && !(i == remoteTid && mp.Parked?)
    {
      assert MutexOk(View(), i);
      ok := !aborted;
      if ok {
        if rp[i].Setting? {
          signaled := signaled[i := true];
          rp := rp[i := Signalling];
        } else {
          if mp.Parked? && remoteTid == i {
            mp := AtRelock(mp.start);
          }
          rp := rp[i := Unlocking];
        }
      }
    }

    /** other_operation returns to the loop. */
    method Return(i: nat) returns (ok: bool)
      requires Valid() && i < |rp| && rp[i].Returning?
      modifies this`h, this`rp
      ensures Performed(old(View()), Next(old(View()), Remote(i)), ok, View())
      ensures ok <==> !old(aborted)
      ensures ok ==> i < |rp| == |h.threads| && rp[i].Out? && h.threads[i].TestStop?
    {
      ok := !aborted;
      if ok {
        h := Harness.FinishOther(h, i).value;
        rp := rp[i := Out];
      }
    }

    method RemoteStatement(i: nat) returns (ok: bool)
      requires Valid()
      modifies this
      ensures Performed(old(View()), Next(old(View()), Remote(i)), ok, View())
    {
      if i >= |rp| || rp[i].Out? {
        ok := false;
      } else if rp[i].Waiting? || rp[i].Woken? || rp[i].Stamping? {
        ok := TakeAndStamp(i);
      } else if rp[i].Returning? {
        ok := Return(i);
      } else if rp[i].Locking? || rp[i].Unlocking? {
        ok := EnterOrLeave(i);
      } else {
        ok := SetAndSignal(i);
      }
    }

    /** sigtimedwait returns -1 and the code goes on as if the signal had come. */
    method FailWait(i: nat) returns (ok: bool)
      requires Valid()
      modifies this`rp
      ensures Performed(old(View()), Next(old(View()), WaitFails(i)), ok, View())
      ensures ok <==> !old(aborted) && i < |old(rp)| && old(rp)[i].Waiting?
      ensures ok ==> i < |rp| && rp[i].Woken?
    {
      ok := !aborted && i < |rp| && rp[i].Waiting?;
      if ok {
        rp := rp[i := Woken];
      }
    }

    method TakeInterrupt(i: nat, inWait: bool) returns (ok: bool)
      requires Valid()
      modifies this`h, this`rp
      ensures Performed(old(View()), Next(old(View()), Interrupt(i, inWait)), ok, View())
      ensures ok <==> !aborted && i < |old(rp)| && Harness.Alive(old(h.threads)[i]) && i in old(h.pending)
      ensures ok && !(old(rp)[i].Waiting? && inWait) ==> rp == old(rp)
      ensures ok ==> h.stop && mp.Idle? && i !in h.pending
      ensures ok && old(rp)[i].Waiting? && inWait ==> i < |rp| && rp[i].Woken?
    {
      ok := !aborted && Harness.HandleSigint(h, i).Some?;
      if ok {
        h := Harness.HandleSigint(h, i).value;
        if rp[i].Waiting? && inWait {
          rp := rp[i := Woken];
        }
      }
    }

    // ----- the harness around them -----

    /** The constructor of Action starts at remote_tid 0; the static vectors keep their contents. */
    method ResetAction()
      requires Indexed(View())
      modifies this
      ensures View() == NewAction(old(View()))
    {
      remoteTid, mp := 0, Idle;
      rounds, hist := [], [];
      ResetThreads(|rp|);
    }

    method BeginRun(mode: Harness.Mode, n: nat) returns (ok: bool)
      requires Indexed(View())
      modifies this
      ensures Performed(old(View()), Next(old(View()), Run(Harness.BeginRun(mode, n))), ok, View())
      ensures ok <==> !old(aborted) && old(h.main.Between?) && n == |old(mutexes)|
      ensures ok ==> remoteTid == 0 && mp.Idle? && usr1 == Repeat(n, false) && rp == Repeat(n, Out)
      ensures ok ==> rounds == [] && hist == [] && h.mode == mode && |h.threads| == n
    {
      ok := !aborted && Harness.Begin(h, mode, n).Some? && n == |mutexes|;
      if ok {
        ResetAction();
        h := Harness.Begin(h, mode, n).value;
      }
    }

    method MeasurerLoop() returns (ok: bool)
      requires Valid()
      modifies this`h, this`mp
      ensures Performed(old(View()), Next(old(View()), Run(Harness.MeasurerStep)), ok, View())
      ensures ok && h.measurer.InOp? ==> mp == if h.mode.Latency? then AtStart else AtLock(None)
      ensures ok && !h.measurer.InOp? ==> mp.Idle?
    {
      ok := !aborted && Harness.MeasurerNext(h).Some?;
      if ok {
        h := Harness.MeasurerNext(h).value;
        if h.measurer.InOp? {
          mp := FirstStep(h.mode);
        }
      }
    }

    method LoopTest(i: nat) returns (ok: bool)
      requires Valid()
      modifies this`h, this`usr1, this`rp
      ensures Performed(old(View()), Next(old(View()), Run(Harness.LoopTest(i))), ok, View())
      ensures ok <==> !old(aborted) && i < |old(h.threads)| && old(h.threads)[i].TestStop?
      ensures ok ==> i < |rp| == |h.threads| == |usr1|
      ensures ok ==> if h.stop then h.threads[i].Exited? && !usr1[i] else h.threads[i].InOther? && rp[i].Waiting?
    {
      var next := Harness.Next(h, Harness.LoopTest(i));
      ok := !aborted && next.Some?;
      if ok {
        if h.stop {
          usr1 := usr1[i := false];
        } else {
          rp := rp[i := Waiting];
        }
        h := next.value;
      }
    }

    method OtherHarnessStep(step: Harness.Label) returns (ok: bool)
      requires Valid() && !step.BeginRun? && !step.MeasurerStep? && !step.LoopTest?
      modifies this`h
      ensures Performed(old(View()), Next(old(View()), Run(step)), ok, View())
    {
      var next := Harness.Next(h, step);
      ok := !aborted && next.Some? && !step.OpDone? && !step.OtherDone? && !step.TakeSigint?;
      if ok {
        h := next.value;
      }
    }

    method RunHarness(step: Harness.Label) returns (ok: bool)
      requires Valid()
      modifies this
      ensures Performed(old(View()), Next(old(View()), Run(step)), ok, View())
    {
      match step
      case BeginRun(mode, n) => ok := BeginRun(mode, n);
      case MeasurerStep => ok := MeasurerLoop();
      case LoopTest(i) => ok := LoopTest(i);
      case _ => ok := OtherHarnessStep(step);
    }

    method Advance(d: nat) returns (ok: bool)
      requires Valid()
      modifies this`now
      ensures Performed(old(View()), Next(old(View()), Tick(d)), ok, View())
    {
      ok := !aborted && now + d < TWO62;
      if ok {
        now := now + d;
      }
    }

    method Attempt(l: Label) returns (ok: bool)
      requires Valid()
      modifies this
      ensures Performed(old(View()), Next(old(View()), l), ok, View())
    {
      match l
      case Run(step) => ok := RunHarness(step);
      case Interrupt(i, inWait) => ok := TakeInterrupt(i, inWait);
      case Tick(d) => ok := Advance(d);
      case Measurer => ok := MeasurerStatement();
      case SpuriousWake => ok := WakeSpuriously();
      case Remote(i) => ok := RemoteStatement(i);
      case WaitFails(i) => ok := FailWait(i);
    }

    /** Any statement of any thread keeps the invariant. */
    method Step(l: Label) returns (ok: bool)
      requires Valid()
      modifies this
      ensures Performed(old(View()), Next(old(View()), l), ok, View())
      ensures Valid()
    {
      ok := Attempt(l);
      if ok {
        StepPreserves(old(View()), l);
      }
    }

    /** One more label of a schedule. */
    method Extend(ghost s0: State, ghost before: seq<Label>, l: Label) returns (ok: bool)
      requires Valid() && Indexed(s0) && Exec(s0, before) == Some(View())
      modifies this
      ensures Valid()
      ensures ok ==> Exec(s0, before + [l]) == Some(View())
      ensures !ok ==> View() == old(View()) && Next(View(), l).None?
    {
      ok := Step(l);
      if ok {
        ExecSnoc(s0, before, l);
      }
    }

    /** Executes a schedule up to its first disabled label; the invariant holds at every step. */
    method RunSchedule(ls: seq<Label>) returns (done: nat)
      requires Valid()
      modifies this
      ensures Valid() && done <= |ls|
      ensures Exec(old(View()), ls[..done]) == Some(View())
      ensures done < |ls| ==> Next(View(), ls[done]).None?
    {
      ghost var before := [];
      done := 0;
      while done < |ls|
        invariant done <= |ls| && before == ls[..done] && Valid()
        invariant Exec(old(View()), before) == Some(View())
      {
        var ok := Extend(old(View()), before, ls[done]);
        if !ok {
          return;
        }
        before := before + [ls[done]];
        done := done + 1;
      }
    }
  }
}
