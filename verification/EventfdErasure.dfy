/**
 * bench-eventfd-nonblock.cpp polls. With its unsuccessful polls erased, each of its runs is a run of
 * bench-eventfd.cpp: the blocking remote tests `stop` and enters the read at the moment the polling
 * one finds a value.
 */
module EventfdErasure {
  import opened Wrappers
  import opened Eventfd
  import Harness

  function ErasePc(pc: RemoteOp): RemoteOp {
    if Holding(pc) then pc else Out
  }

  function EraseThread(t: Harness.RemotePc, pc: RemoteOp): Harness.RemotePc {
    if t.InOther? && !Holding(pc) then Harness.TestStop else t
  }

  /** The blocking remote is still at the head of its loop while the other one polls. */
  function EraseThreads(s: State): seq<Harness.RemotePc>
    requires Indexed(s)
  {
    seq(|s.rp|, i requires 0 <= i < |s.rp| => EraseThread(s.h.threads[i], s.rp[i]))
  }

  function ErasePcs(s: State): seq<RemoteOp> {
    seq(|s.rp|, i requires 0 <= i < |s.rp| => ErasePc(s.rp[i]))
  }

  function Erase(s: State): (e: State)
    requires Indexed(s)
    ensures Indexed(e)
  {
    s.(nonblock := false, rp := ErasePcs(s), h := s.h.(threads := EraseThreads(s)))
  }

  /** The blocking schedule that matches one polling step. */
  function EraseLabel(s: State, l: Label): seq<Label>
    requires Indexed(s)
  {
    match l
    case Run(step) => if step.LoopTest? && !s.h.stop then [] else [l]
    case Interrupt(i, _) => [Interrupt(i, false)]
    case EnterRead(i) =>
      if i < |s.rp| && s.remote[i] > 0 then [Run(Harness.LoopTest(i)), EnterRead(i)] else []
    case WriteReply(i) => [WriteReply(i), Return(i)]
    case Return(_) => []
    case _ => [l]
  }

  function EraseTrace(s: State, ls: seq<Label>): seq<Label>
    requires Indexed(s)
    decreases |ls|
  {
    if ls == [] || Next(s, ls[0]).None? then []
    else EraseLabel(s, ls[0]) + EraseTrace(Next(s, ls[0]).value, ls[1..])
  }

  lemma ExecTwo(s: State, l: Label, m: Label)
    requires Indexed(s) && Next(s, l).Some?
    ensures Exec(s, [l, m]) == Next(Next(s, l).value, m)
  {
    assert [l, m][1..] == [m];
    ExecOne(Next(s, l).value, m);
  }

  lemma EraseInit(s: State, n: nat)
    requires Init(s, n)
    ensures Init(Erase(s), n) && !Erase(s).nonblock
  {
  }

  lemma MainErased(s: State)
    requires Inv(s) && s.nonblock && s.fault.NoFault? && RunNext(s, Harness.MainStep).Some?
    ensures Next(Erase(s), Run(Harness.MainStep)) == Some(Erase(RunNext(s, Harness.MainStep).value))
  {
    var e, s' := Erase(s), RunNext(s, Harness.MainStep).value;
    assert Harness.MainNext(e.h).Some?;
    assert Harness.MainNext(e.h).value.threads == EraseThreads(s');
    assert ErasePcs(s) == ErasePcs(s');
  }

  lemma LoopTestErased(s: State, i: nat)
    requires OpInv(s) && s.nonblock && s.fault.NoFault? && RunNext(s, Harness.LoopTest(i)).Some?
    ensures Exec(Erase(s), EraseLabel(s, Run(Harness.LoopTest(i))))
         == Some(Erase(RunNext(s, Harness.LoopTest(i)).value))
  {
    var e, s' := Erase(s), RunNext(s, Harness.LoopTest(i)).value;
    if s.h.stop {
      ExecOne(e, Run(Harness.LoopTest(i)));
      assert e.h.threads[i := Harness.Exited] == EraseThreads(s');
      assert ErasePcs(s) == ErasePcs(s');
    } else {
      assert ErasePcs(s') == e.rp;
      assert EraseThreads(s') == e.h.threads;
    }
  }

  lemma BeginErased(s: State, step: Harness.Label)
    requires OpInv(s) && s.nonblock && s.fault.NoFault? && step.BeginRun? && RunNext(s, step).Some?
    ensures Next(Erase(s), Run(step)) == Some(Erase(RunNext(s, step).value))
  {
    var s' := RunNext(s, step).value;
    assert EraseThreads(s') == s'.h.threads;
    assert ErasePcs(s') == s'.rp;
  }

  predicate IgnoresThreads(step: Harness.Label) {
    step.MeasurerStep? || step.MsrFails? || step.UserSigint? || step.AlarmExpires?
  }

  predicate PreparesLoop(pc: Harness.MeasurerPc) {
    pc.ClearEarly? || pc.ArmEarly? || pc.Arm? || pc.Clear?
  }

  lemma PreparationIgnoresThreads(h: Harness.State, threads: seq<Harness.RemotePc>)
    requires PreparesLoop(h.measurer)
    ensures var h' := Harness.MeasurerNext(h).value;
      h'.threads == h.threads && Harness.MeasurerNext(h.(threads := threads)) == Some(h'.(threads := threads))
  {
  }

  lemma MeasurerIgnoresThreads(h: Harness.State, threads: seq<Harness.RemotePc>)
    requires Harness.MeasurerNext(h).Some? && !PreparesLoop(h.measurer)
    ensures var h' := Harness.MeasurerNext(h).value;
      h'.threads == h.threads && Harness.MeasurerNext(h.(threads := threads)) == Some(h'.(threads := threads))
  {
  }

  lemma ThreadsIgnored(h: Harness.State, threads: seq<Harness.RemotePc>, step: Harness.Label)
    requires Harness.Indexed(h) && |threads| == |h.threads| && IgnoresThreads(step) && Harness.Next(h, step).Some?
    ensures var h' := Harness.Next(h, step).value;
      h'.threads == h.threads && Harness.Next(h.(threads := threads), step) == Some(h'.(threads := threads))
  {
    if step.MeasurerStep? && PreparesLoop(h.measurer) {
      PreparationIgnoresThreads(h, threads);
    } else if step.MeasurerStep? {
      MeasurerIgnoresThreads(h, threads);
    }
  }

  lemma OtherRunErased(s: State, step: Harness.Label)
    requires OpInv(s) && s.nonblock && s.fault.NoFault? && RunNext(s, step).Some? && IgnoresThreads(step)
    ensures Next(Erase(s), Run(step)) == Some(Erase(RunNext(s, step).value))
  {
    var s' := RunNext(s, step).value;
    ThreadsIgnored(s.h, EraseThreads(s), step);
    assert s'.rp == s.rp;
    assert EraseThreads(s') == EraseThreads(s);
    assert ErasePcs(s') == ErasePcs(s);
  }

  lemma InterruptErased(s: State, i: nat, inRead: bool)
    requires OpInv(s) && s.nonblock && s.fault.NoFault? && InterruptNext(s, i, inRead).Some?
    ensures Next(Erase(s), Interrupt(i, false)) == Some(Erase(InterruptNext(s, i, inRead).value))
  {
    var s' := InterruptNext(s, i, inRead).value;
    assert EraseThreads(s') == EraseThreads(s);
    assert ErasePcs(s') == ErasePcs(s);
  }

  lemma MeasurerErased(s: State, l: Label)
    requires OpInv(s) && s.nonblock && MeasurerNext(s, l).Some?
    ensures MeasurerNext(Erase(s), l) == Some(Erase(MeasurerNext(s, l).value))
  {
  }

  lemma ClockErased(s: State, i: nat)
    requires OpInv(s) && s.nonblock && i < |s.rp| && RemoteNext(s, ReadClock(i), i).Some?
    ensures RemoteNext(Erase(s), ReadClock(i), i) == Some(Erase(RemoteNext(s, ReadClock(i), i).value))
  {
    var s' := RemoteNext(s, ReadClock(i), i).value;
    assert EraseThreads(s') == EraseThreads(s);
    assert ErasePcs(s') == ErasePcs(s)[i := s'.rp[i]];
  }

  lemma PollErased(s: State, i: nat)
    requires OpInv(s) && s.nonblock && i < |s.rp| && RemoteNext(s, EnterRead(i), i).Some?
    requires s.remote[i] == 0
    ensures Erase(RemoteNext(s, EnterRead(i), i).value) == Erase(s)
  {
  }

  lemma ReadErased(s: State, i: nat)
    requires OpInv(s) && s.nonblock && s.fault.NoFault? && i < |s.rp| && RemoteNext(s, EnterRead(i), i).Some?
    requires s.remote[i] > 0 && !s.h.stop
    ensures Exec(Erase(s), [Run(Harness.LoopTest(i)), EnterRead(i)])
         == Some(Erase(RemoteNext(s, EnterRead(i), i).value))
  {
    var e, s' := Erase(s), RemoteNext(s, EnterRead(i), i).value;
    assert e.h.threads[i] == Harness.TestStop;
    var m := Next(e, Run(Harness.LoopTest(i))).value;
    assert m.rp[i] == AtRead && m.remote == s.remote;
    ExecTwo(e, Run(Harness.LoopTest(i)), EnterRead(i));
    assert EraseThreads(s') == m.h.threads;
    assert ErasePcs(s') == m.rp[i := AtClock(s.remote[i])];
  }

  lemma WriteErased(s: State, i: nat)
    requires OpInv(s) && s.nonblock && s.fault.NoFault? && i < |s.rp| && RemoteNext(s, WriteReply(i), i).Some?
    ensures Exec(Erase(s), [WriteReply(i), Return(i)]) == Some(Erase(RemoteNext(s, WriteReply(i), i).value))
  {
    TokenHolder(s, i);
    var e, s' := Erase(s), RemoteNext(s, WriteReply(i), i).value;
    var m := Next(e, WriteReply(i)).value;
    assert m.rp == e.rp[i := AtReturn] && m.h == e.h;
    ExecTwo(e, WriteReply(i), Return(i));
    assert EraseThreads(s') == m.h.threads[i := Harness.TestStop];
    assert ErasePcs(s') == m.rp[i := Out];
  }

  lemma ReturnErased(s: State, i: nat)
    requires OpInv(s) && s.nonblock && i < |s.rp| && RemoteNext(s, Return(i), i).Some?
    ensures Erase(RemoteNext(s, Return(i), i).value) == Erase(s)
  {
  }

  lemma TickErased(s: State, d: nat)
    requires Indexed(s) && Next(s, Tick(d)).Some?
    ensures Next(Erase(s), Tick(d)) == Some(Erase(Next(s, Tick(d)).value))
  {
  }

  lemma RunErased(s: State, step: Harness.Label)
    requires Inv(s) && s.nonblock && s.fault.NoFault? && RunNext(s, step).Some?
    ensures Exec(Erase(s), EraseLabel(s, Run(step))) == Some(Erase(RunNext(s, step).value))
  {
    match step
    case BeginRun(_, _) => BeginErased(s, step); ExecOne(Erase(s), Run(step));
    case MainStep => MainErased(s); ExecOne(Erase(s), Run(step));
    case LoopTest(i) => LoopTestErased(s, i);
    case MeasurerStep => OtherRunErased(s, step); ExecOne(Erase(s), Run(step));
    case MsrFails => OtherRunErased(s, step); ExecOne(Erase(s), Run(step));
    case UserSigint => OtherRunErased(s, step); ExecOne(Erase(s), Run(step));
    case AlarmExpires => OtherRunErased(s, step); ExecOne(Erase(s), Run(step));
    case _ =>
  }

  lemma StepErased(s: State, l: Label)
    requires Inv(s) && s.nonblock && Next(s, l).Some?
    ensures Exec(Erase(s), EraseLabel(s, l)) == Some(Erase(Next(s, l).value))
  {
    match l
    case Run(step) => RunErased(s, step);
    case Interrupt(i, inRead) => InterruptErased(s, i, inRead); ExecOne(Erase(s), Interrupt(i, false));
    case Tick(d) => TickErased(s, d); ExecOne(Erase(s), l);
    case EnterRead(i) =>
      if s.remote[i] > 0 {
        TokenHolder(s, i);
        Harness.PeersAlive(s.h, i);
        ReadErased(s, i);
      } else {
        PollErased(s, i);
      }
    case Wake(i) =>
    case ReadClock(i) => ClockErased(s, i); ExecOne(Erase(s), l);
    case WriteReply(i) => WriteErased(s, i);
    case Return(i) => ReturnErased(s, i);
    case _ => MeasurerErased(s, l); ExecOne(Erase(s), l);
  }

  lemma NextKeepsKind(s: State, l: Label)
    requires Indexed(s) && Next(s, l).Some?
    ensures Next(s, l).value.nonblock == s.nonblock
  {
  }

  /** Every schedule of the polling benchmark, polls erased, is a schedule of the blocking one that ends
      in the erased state: same counters, same index, same rounds, same histogram. */
  lemma {:induction false} PollsErased(s: State, ls: seq<Label>)
    requires Inv(s) && s.nonblock && Exec(s, ls).Some?
    ensures Exec(Erase(s), EraseTrace(s, ls)) == Some(Erase(Exec(s, ls).value))
    decreases |ls|
  {
    if ls != [] {
      var s' := Next(s, ls[0]).value;
      StepErased(s, ls[0]);
      StepPreserves(s, ls[0]);
      NextKeepsKind(s, ls[0]);
      PollsErased(s', ls[1..]);
      ExecConcat(Erase(s), EraseLabel(s, ls[0]), EraseTrace(s', ls[1..]));
    }
  }

  /** So what a polling run can record a blocking run can record. */
  lemma PollingIsBlocking(s: State)
    requires Reachable(s) && Indexed(s) && s.nonblock
    ensures Reachable(Erase(s)) && !Erase(s).nonblock
    ensures Erase(s).rounds == s.rounds && Erase(s).hist == s.hist
  {
    var s0: State, n: nat, ls: seq<Label> :| Init(s0, n) && Exec(s0, ls) == Some(s);
    InitInv(s0, n);
    KindConstant(s0, ls);
    PollsErased(s0, ls);
    EraseInit(s0, n);
  }

  lemma {:induction false} KindConstant(s: State, ls: seq<Label>)
    requires Indexed(s) && Exec(s, ls).Some?
    ensures Exec(s, ls).value.nonblock == s.nonblock
    decreases |ls|
  {
    if ls != [] {
      NextKeepsKind(s, ls[0]);
      KindConstant(Next(s, ls[0]).value, ls[1..]);
    }
  }
}
