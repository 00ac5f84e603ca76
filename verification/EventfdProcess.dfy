/**
 * The two eventfd benchmarks as the code has them: one object whose fields are the descriptors'
 * counters, remote_idx and the threads' positions, updated in place. Each method is one statement of one
 * thread; it says whether it could be executed, and what it does is the transition of module Eventfd.
 */
module EventfdProcess {
  import opened Wrappers
  import opened TimeArithmetic
  import opened Eventfd
  import opened EventfdShutdown
  import Harness
  import Rendezvous

  class Process {
    var h: Harness.State
    const nonblock: bool
    var now: nat
    ghost var lastRead: nat
    const localEfd: nat
    var local: nat
    var remote: seq<nat>
    var remoteIdx: nat
    var mp: MeasurerOp
    var rp: seq<RemoteOp>
    ghost var rounds: seq<Round>
    var hist: seq<nat>
    ghost var early: set<nat>
    var fault: Fault

    ghost function View(): State
      reads this
    {
      State(h, nonblock, now, lastRead, localEfd, local, remote, remoteIdx, mp, rp, rounds, hist, early, fault)
    }

    ghost predicate Valid()
      reads this
    {
      Inv(View())
    }

    /** Before the first run: n remote descriptors, pushed one by one, and n threads already joined. */
    constructor (n: nat, nonblock: bool, localEfd: nat, now: nat)
      requires n > 0 && localEfd > 0 && 0 < now < TWO62
      ensures Valid() && Init(View(), n) && View().nonblock == nonblock
    {
      this.nonblock, this.localEfd, this.now, lastRead := nonblock, localEfd, now, 0;
      h := Harness.State(0, Harness.Latency(0), Harness.Between, Harness.Absent, Repeat(n, Harness.Joined),
                         Repeat(n, false), Repeat(n, 1), false, false, None, None, None, {}, 0, 0, 0, false, 0, []);
      local, remote, remoteIdx := 0, [], 0;
      mp, rp := Idle, [];
      rounds, hist, early, fault := [], [], {}, NoFault;
      new;
      OpenDescriptors(n);
      InitInv(View(), n);
    }

    /** remote_efds.push_back(eventfd(0, ...)) for each remote. */
    method OpenDescriptors(n: nat)
      modifies this`remote, this`rp
      ensures remote == Repeat(n, 0) && rp == Repeat(n, Out)
    {
      remote, rp := [], [];
      var i := 0;
      while i < n
        invariant i <= n && remote == Repeat(i, 0) && rp == Repeat(i, Out)
      {
        remote := remote + [0];
        rp := rp + [Out];
        i := i + 1;
      }
    }

    // ----- the measuring thread: measured_operation and raw_operation -----

    method ReadStart() returns (ok: bool)
      requires Valid()
      modifies this`mp, this`lastRead
      ensures Performed(old(View()), Next(old(View()), Eventfd.ReadStart), ok, View())
      ensures ok ==> mp == AtRequest(Some(Rendezvous.Reading(now))) && lastRead == now
      ensures ok <==> old(fault.NoFault? && mp.AtStart?)
    {
      ok := fault.NoFault? && mp.AtStart?;
      if ok {
        mp := AtRequest(Some(Rendezvous.Reading(now)));
        lastRead := now;
      }
    }

    method WriteRequest() returns (ok: bool)
      requires Valid()
      modifies this`remote, this`mp
      ensures Performed(old(View()), Next(old(View()), Eventfd.WriteRequest), ok, View())
      ensures ok <==> old(fault.NoFault? && mp.AtRequest?)
      ensures ok ==> old(mp.AtRequest?) && mp == AtReply(old(mp.start))
      ensures ok ==> old(remote)[remoteIdx] == 0 && remote == old(remote)[remoteIdx := localEfd] && local == 0
      ensures ok ==> remoteIdx < |h.threads| == |h.slots| && h.slots[remoteIdx] && Harness.Alive(h.threads[remoteIdx])
    {
      ok := fault.NoFault? && mp.AtRequest?;
      if ok {
        assert NoToken(View(), remoteIdx);
        Harness.PeersAlive(h, remoteIdx);
        remote := remote[remoteIdx := remote[remoteIdx] + localEfd];
        mp := AtReply(mp.start);
      }
    }

    method ReadReply() returns (ok: bool)
      requires Valid()
      modifies this`local, this`mp
      ensures Performed(old(View()), Next(old(View()), Eventfd.ReadReply), ok, View())
      ensures ok <==> old(fault.NoFault? && mp.AtReply? && local > 0)
      ensures ok ==> old(mp.AtReply?) && mp == AtRecord(old(mp.start), old(local)) && mp.end > 0
      ensures ok ==> local == 0 && |rp| == |remote| && forall i | 0 <= i < |rp| :: remote[i] == 0 && !Holding(rp[i])
    {
      ok := fault.NoFault? && mp.AtReply? && local > 0;
      if ok {
        assert TokenReplied(View());
        assert forall i | 0 <= i < |rp| :: NoToken(View(), i) ==> remote[i] == 0 && !Holding(rp[i]);
        var end := local;
        local := 0;
        mp := AtRecord(mp.start, end);
      }
    }

    /** The round is over: its difference is returned and the index moves on. */
    method NextRemote(start: Option<nat>, end: nat)
      requires remoteIdx < |remote| && (start.Some? ==> start.value < end)
      modifies this`rounds, this`remoteIdx, this`hist
      ensures rounds == old(rounds) + [Rendezvous.Round(old(remoteIdx), start, end)]
      ensures remoteIdx == (old(remoteIdx) + 1) % |remote|
      ensures hist == Rendezvous.Recording(old(hist), start, end)
    {
      rounds := rounds + [Rendezvous.Round(remoteIdx, start, end)];
      hist := Rendezvous.Recording(hist, start, end);
      remoteIdx := (remoteIdx + 1) % |remote|;
    }

    method Record() returns (ok: bool)
      requires Valid()
      modifies this`rounds, this`remoteIdx, this`hist, this`h, this`mp, this`fault
      ensures Performed(old(View()), Next(old(View()), Eventfd.Record), ok, View())
      ensures ok <==> old(fault.NoFault? && mp.AtRecord?)
      ensures ok ==> (fault.TimeAssertion? <==> old(mp.AtRecord? && mp.start.Some? && mp.end <= mp.start.value))
      ensures ok && fault.NoFault? ==> |rounds| == old(|rounds|) + 1 && remoteIdx == |rounds| % |remote|
      ensures ok && fault.NoFault? && h.mode.Latency? ==>
                && |hist| == |rounds| == h.count && old(hist) <= hist
                && Rendezvous.Recorded(rounds[|rounds| - 1], hist[|hist| - 1])
    {
      ok := fault.NoFault? && mp.AtRecord?;
      if ok {
        RoundRecorded(View());
        var start, end := mp.start, mp.end;
        if start.Some? && end <= start.value {
          fault := TimeAssertion;
        } else {
          NextRemote(start, end);
          h := Harness.FinishOp(h).value;
          mp := Idle;
        }
      }
    }

    // ----- the interfering threads: other_operation -----

    method EnterRead(i: nat) returns (ok: bool)
      requires Valid()
      modifies this`remote, this`rp
      ensures Performed(old(View()), Next(old(View()), Eventfd.EnterRead(i)), ok, View())
      ensures ok <==> old(fault).NoFault? && i < |old(rp)| && old(rp)[i].AtRead?
      ensures ok ==> i < |remote| == |rp| == |old(remote)|
      ensures ok && old(remote)[i] > 0 ==> i == remoteIdx && rp[i] == AtClock(localEfd) && !h.stop
      ensures ok ==> remote[i] == 0 && (Holding(rp[i]) <==> old(remote)[i] > 0)
      ensures ok && old(remote)[i] == 0 ==> rp[i] == if nonblock then AtReturn else Blocked
    {
      ok := fault.NoFault? && i < |rp| && rp[i].AtRead?;
      if ok {
        if remote[i] > 0 {
          TokenHolder(View(), i);
          Harness.PeersAlive(h, i);
          Take(i);
        } else if nonblock {
          rp := rp[i := AtReturn];
        } else {
          rp := rp[i := Blocked];
        }
      }
    }

    method Wake(i: nat) returns (ok: bool)
      requires Valid()
      modifies this`remote, this`rp
      ensures Performed(old(View()), Next(old(View()), Eventfd.Wake(i)), ok, View())
      ensures ok <==> old(fault).NoFault? && i < |old(rp)| && old(rp)[i].Blocked? && old(remote)[i] > 0
      ensures ok ==> i == remoteIdx && i < |rp| && rp[i] == AtClock(localEfd) && !h.stop
    {
      ok := fault.NoFault? && i < |rp| && rp[i].Blocked? && remote[i] > 0;
      if ok {
        TokenHolder(View(), i);
        Harness.PeersAlive(h, i);
        Take(i);
      }
    }

    /** The read returns the counter and zeroes it. */
    method Take(i: nat)
      requires Indexed(View()) && i < |rp|
      modifies this`remote, this`rp
      ensures View() == Consume(old(View()), i)
    {
      var fd := remote[i];
      remote := remote[i := 0];
      rp := rp[i := AtClock(fd)];
    }

    method ReadClock(i: nat) returns (ok: bool)
      requires Valid()
      modifies this`rp, this`lastRead
      ensures Performed(old(View()), Next(old(View()), Eventfd.ReadClock(i)), ok, View())
      ensures ok ==> i == remoteIdx && i < |rp| && lastRead == now
      ensures ok ==> rp[i] == AtWrite(localEfd, Rendezvous.Reading(now))
      ensures ok <==> old(fault).NoFault? && i < |old(rp)| && old(rp)[i].AtClock?
    {
      ok := fault.NoFault? && i < |rp| && rp[i].AtClock?;
      if ok {
        TokenHolder(View(), i);
        rp := rp[i := AtWrite(rp[i].fd, Rendezvous.Reading(now))];
        lastRead := now;
      }
    }

    method WriteReply(i: nat) returns (ok: bool)
      requires Valid()
      modifies this`local, this`rp
      ensures Performed(old(View()), Next(old(View()), Eventfd.WriteReply(i)), ok, View())
      ensures ok <==> old(fault).NoFault? && i < |old(rp)| && old(rp)[i].AtWrite?
      ensures ok ==> fault.NoFault? && i == remoteIdx && old(local) == 0
      ensures ok ==> local == old(rp)[i].stamp > 0 && i < |rp| && rp[i].AtReturn?
    {
      ok := fault.NoFault? && i < |rp| && rp[i].AtWrite?;
      if ok {
        TokenHolder(View(), i);
        assert rp[i].fd == localEfd;
        local := local + rp[i].stamp;
        rp := rp[i := AtReturn];
      }
    }

    method Return(i: nat) returns (ok: bool)
      requires Valid()
      modifies this`h, this`rp
      ensures Performed(old(View()), Next(old(View()), Eventfd.Return(i)), ok, View())
      ensures ok ==> i < |rp| == |h.threads| && rp[i].Out? && h.threads[i].TestStop?
      ensures ok <==> old(fault).NoFault? && i < |old(rp)| && old(rp)[i].AtReturn?
    {
      ok := fault.NoFault? && i < |rp| && rp[i].AtReturn?;
      if ok {
        h := Harness.FinishOther(h, i).value;
        rp := rp[i := Out];
      }
    }

    /** signal_handler for the harness's SIGINT; a blocked read returns EINTR. */
    method TakeInterrupt(i: nat, inRead: bool) returns (ok: bool)
      requires Valid()
      modifies this`h, this`rp, this`early
      ensures Performed(old(View()), Next(old(View()), Interrupt(i, inRead)), ok, View())
      ensures ok <==> fault.NoFault? && i < |old(rp)| && Harness.Alive(old(h.threads)[i]) && i in old(h.pending)
      ensures ok && !old(rp)[i].Blocked? && !old(rp)[i].AtRead? ==> rp == old(rp)
      ensures ok ==> h.stop && mp.Idle? && i !in h.pending
      ensures ok ==> local == 0 && forall j | 0 <= j < |remote| :: remote[j] == 0
      ensures ok && old(rp)[i].Blocked? ==> i < |rp| && rp[i].AtReturn?
      ensures ok && old(rp)[i].AtRead? && nonblock && inRead ==> i < |rp| && rp[i].AtReturn?
      ensures ok && old(rp)[i].AtRead? && !nonblock ==> i < |rp| && rp[i].AtRead? && i in early
      ensures ok && i in early && i !in old(early) ==> !nonblock && i < |rp| && rp[i].AtRead?
    {
      ok := fault.NoFault? && Harness.HandleSigint(h, i).Some?;
      if ok {
        StopMeansIdle(View());
        assert forall j | 0 <= j < |rp| :: NoToken(View(), j) ==> remote[j] == 0;
        h := Harness.HandleSigint(h, i).value;
        if rp[i].Blocked? || (rp[i].AtRead? && nonblock && inRead) {
          rp := rp[i := AtReturn];
        } else if rp[i].AtRead? && !nonblock {
          early := early + {i};
        }
      }
    }

    // ----- the harness around them -----

    /** The constructor of Action opens new descriptors and starts at index 0. */
    method ResetAction()
      requires Indexed(View())
      modifies this
      ensures View() == NewAction(old(View()))
    {
      local, remoteIdx, mp := 0, 0, Idle;
      rounds, hist, early := [], [], {};
      OpenDescriptors(|remote|);
    }

    method BeginRun(mode: Harness.Mode, n: nat) returns (ok: bool)
      requires Indexed(View())
      modifies this
      ensures Performed(old(View()), Next(old(View()), Run(Harness.BeginRun(mode, n))), ok, View())
      ensures ok <==> old(fault.NoFault? && h.main.Between?) && n == |old(remote)|
      ensures ok ==> local == 0 && remote == Repeat(n, 0) && rp == Repeat(n, Out) && remoteIdx == 0 && mp.Idle?
      ensures ok ==> rounds == [] && hist == [] && h.mode == mode && |h.threads| == n
    {
      ok := fault.NoFault? && Harness.Begin(h, mode, n).Some? && n == |remote|;
      if ok {
        ResetAction();
        h := Harness.Begin(h, mode, n).value;
      }
    }

    /** The measuring thread in its loop; when the flags are clear it enters the operation. */
    method MeasurerLoop() returns (ok: bool)
      requires Valid()
      modifies this`h, this`mp
      ensures Performed(old(View()), Next(old(View()), Run(Harness.MeasurerStep)), ok, View())
      ensures ok && h.measurer.InOp? ==> mp == if h.mode.Latency? then AtStart else AtRequest(None)
      ensures ok && !h.measurer.InOp? ==> mp.Idle?
    {
      ok := fault.NoFault? && Harness.MeasurerNext(h).Some?;
      if ok {
        h := Harness.MeasurerNext(h).value;
        if h.measurer.InOp? {
          mp := FirstStep(h.mode);
        }
      }
    }

    /** while (!stop.load()) other_operation(...). */
    method LoopTest(i: nat) returns (ok: bool)
      requires Valid()
      modifies this`h, this`rp
      ensures Performed(old(View()), Next(old(View()), Run(Harness.LoopTest(i))), ok, View())
      ensures ok <==> old(fault).NoFault? && i < |old(h.threads)| && old(h.threads)[i].TestStop?
      ensures ok ==> i < |rp| == |h.threads|
      ensures ok ==> if h.stop then h.threads[i].Exited? && rp[i].Out? else h.threads[i].InOther? && rp[i].AtRead?
    {
      var next := Harness.Next(h, Harness.LoopTest(i));
      ok := fault.NoFault? && next.Some?;
      if ok {
        if !h.stop {
          rp := rp[i := AtRead];
        }
        h := next.value;
      }
    }

    method OtherHarnessStep(step: Harness.Label) returns (ok: bool)
      requires Valid() && !step.BeginRun? && !step.MeasurerStep? && !step.LoopTest?
      modifies this`h
      ensures Performed(old(View()), Next(old(View()), Run(step)), ok, View())
    {
      var next := Harness.Next(h, step);
      ok := fault.NoFault? && next.Some? && !step.OpDone? && !step.OtherDone? && !step.TakeSigint?;
      if ok {
        h := next.value;
      }
    }

    method RunHarness(step: Harness.Label) returns (ok: bool)
      requires Valid()
      modifies this
      ensures Performed(old(View()), Next(old(View()), Run(step)), ok, View())
    {
      match step
      case BeginRun(mode, n) => ok := BeginRun(mode, n);
      case MeasurerStep => ok := MeasurerLoop();
      case LoopTest(i) => ok := LoopTest(i);
      case _ => ok := OtherHarnessStep(step);
    }

    method Advance(d: nat) returns (ok: bool)
      requires Valid()
      modifies this`now
      ensures Performed(old(View()), Next(old(View()), Tick(d)), ok, View())
    {
      ok := fault.NoFault? && now + d < TWO62;
      if ok {
        now := now + d;
      }
    }

    method Attempt(l: Label) returns (ok: bool)
      requires Valid()
      modifies this
      ensures Performed(old(View()), Next(old(View()), l), ok, View())
    {
      match l
      case Run(step) => ok := RunHarness(step);
      case Interrupt(i, inRead) => ok := TakeInterrupt(i, inRead);
      case Tick(d) => ok := Advance(d);
      case ReadStart => ok := ReadStart();
      case WriteRequest => ok := WriteRequest();
      case ReadReply => ok := ReadReply();
      case Record => ok := Record();
      case EnterRead(i) => ok := EnterRead(i);
      case Wake(i) => ok := Wake(i);
      case ReadClock(i) => ok := ReadClock(i);
      case WriteReply(i) => ok := WriteReply(i);
      case Return(i) => ok := Return(i);
    }

    /** Any statement of any thread keeps the invariant. */
    method Step(l: Label) returns (ok: bool)
      requires Valid()
      modifies this
      ensures Performed(old(View()), Next(old(View()), l), ok, View())
      ensures Valid()
    {
      ok := Attempt(l);
      if ok {
        StepPreserves(old(View()), l);
      }
    }

    /** One more label of a schedule. */
    method Extend(ghost s0: State, ghost before: seq<Label>, l: Label) returns (ok: bool)
      requires Valid() && Indexed(s0) && Exec(s0, before) == Some(View())
      modifies this
      ensures Valid()
      ensures ok ==> Exec(s0, before + [l]) == Some(View())
      ensures !ok ==> View() == old(View()) && Next(View(), l).None?
    {
      ok := Step(l);
      if ok {
        ExecSnoc(s0, before, l);
      }
    }

    /** Executes a schedule up to its first disabled label; the invariant holds at every step. */
    method RunSchedule(ls: seq<Label>) returns (done: nat)
      requires Valid()
      modifies this
      ensures Valid() && done <= |ls|
      ensures Exec(old(View()), ls[..done]) == Some(View())
      ensures done < |ls| ==> Next(View(), ls[done]).None?
    {
      ghost var before := [];
      done := 0;
      while done < |ls|
        invariant done <= |ls| && before == ls[..done] && Valid()
        invariant Exec(old(View()), before) == Some(View())
      {
        var ok := Extend(old(View()), before, ls[done]);
        if !ok {
          return;
        }
        before := before + [ls[done]];
        done := done + 1;
      }
    }
  }
}
