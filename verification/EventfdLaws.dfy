/**
 * What every run of the two eventfd benchmarks guarantees: the token is conserved, the protocol
 * refines the rendezvous specification, and the assertions of the two threads hold.
 */
module EventfdLaws {
  import opened Wrappers
  import opened TimeArithmetic
  import opened Eventfd
  import Harness
  import R = Rendezvous

  // ----- token conservation -----

  predicate Waiting(s: State) {
    s.mp.AtReply?
  }

  function Count(b: bool): nat {
    if b then 1 else 0
  }

  /** In every reachable state of every schedule: while the measurer does not wait, all counters are
      zero and no remote holds a value; while it waits there is exactly one token. */
  lemma TokenConservation(s: State)
    requires Reachable(s)
    ensures Indexed(s) && !s.fault.WrongDescriptor?
    ensures !Waiting(s) ==> s.local == 0 && forall i | 0 <= i < |s.rp| :: NoToken(s, i)
    ensures Waiting(s) ==>
              && Count(TokenRequested(s)) + Count(TokenHeld(s)) + Count(TokenReplied(s)) == 1
              && forall i | 0 <= i < |s.rp| && i != s.idx :: NoToken(s, i)
  {
    ReachableInv(s);
  }

  lemma WriteFindsZero(s: State, l: Label)
    requires OpInv(s) && (l.WriteRequest? || l.WriteReply?) && Next(s, l).Some?
    ensures l.WriteRequest? ==> s.remote[s.idx] == 0
    ensures l.WriteReply? ==> l.i == s.idx && s.local == 0 && s.rp[l.i].fd == s.lfd
  {
    if l.WriteRequest? {
      assert NoToken(s, s.idx);
    } else {
      TokenHolder(s, l.i);
    }
  }

  /** So a write always finds its counter at zero: additive writes never merge, each request is read by
      the remote it was meant for, and each reply goes to the measurer's own descriptor. */
  lemma WritesNeverMerge(s: State, l: Label)
    requires Reachable(s) && Indexed(s) && Next(s, l).Some?
    ensures l.WriteRequest? ==> s.remote[s.idx] == 0
    ensures l.WriteReply? ==> l.i == s.idx && s.local == 0 && s.rp[l.i].fd == s.lfd
    ensures (l.EnterRead? && s.remote[l.i] > 0) || l.Wake? ==> l.i == s.idx && s.remote[l.i] == s.lfd
    ensures Next(s, l).value.fault != WrongDescriptor
  {
    ReachableInv(s);
    OpPreserved(s, l);
    if l.WriteRequest? || l.WriteReply? {
      WriteFindsZero(s, l);
    }
    if (l.EnterRead? && s.remote[l.i] > 0) || l.Wake? {
      TokenHolder(s, l.i);
    }
  }

  /** Steps the awaited remote still has to take before the reply is there. */
  function ReplyDistance(s: State): nat
    requires Indexed(s)
  {
    if s.local > 0 then 0
    else match s.rp[s.idx]
      case AtWrite(_, _) => 1
      case AtClock(_) => 2
      case Blocked => 3
      case AtRead => 4
      case Out => 5
      case AtReturn => 6
  }

  /** The step remote i takes next when it is scheduled and not interrupted. */
  function RemoteStep(s: State, i: nat): Label
    requires Indexed(s) && i < |s.rp|
  {
    match s.rp[i]
    case Out => Run(Harness.LoopTest(i))
    case AtRead => EnterRead(i)
    case Blocked => Wake(i)
    case AtClock(_) => ReadClock(i)
    case AtWrite(_, _) => WriteReply(i)
    case AtReturn => Return(i)
  }

  /** A waiting measurer is never abandoned: the awaited remote is in its loop, always has a step to
      take, and each brings the reply nearer; no other step takes it further away. */
  lemma ReplyComes(s: State)
    requires Reachable(s) && Indexed(s) && s.fault.NoFault? && Waiting(s) && s.local == 0
    ensures !s.h.stop && s.h.slots[s.idx] && Harness.Alive(s.h.threads[s.idx])
    ensures Next(s, RemoteStep(s, s.idx)).Some?
    ensures ReplyDistance(Next(s, RemoteStep(s, s.idx)).value) < ReplyDistance(s)
  {
    ReachableInv(s);
    Harness.PeersAlive(s.h, s.idx);
    var s' := Next(s, RemoteStep(s, s.idx)).value;
    assert TokenRequested(s) || TokenHeld(s);
  }

  lemma RemoteDoesNotDelay(s: State, l: Label, i: nat)
    requires OpInv(s) && i < |s.rp| && RemoteNext(s, l, i).Some?
    requires Waiting(s) && RemoteNext(s, l, i).value.fault.NoFault? && s.local == 0
    ensures ReplyDistance(RemoteNext(s, l, i).value) <= ReplyDistance(s)
  {
  }

  lemma RunDoesNotDelay(s: State, step: Harness.Label)
    requires OpInv(s) && RunNext(s, step).Some? && Waiting(s) && !step.BeginRun?
    ensures ReplyDistance(RunNext(s, step).value) <= ReplyDistance(s)
  {
  }

  lemma OthersDoNotDelay(s: State, l: Label)
    requires Reachable(s) && Indexed(s) && Next(s, l).Some? && Waiting(s) && Waiting(Next(s, l).value)
    ensures s.local == 0 ==> ReplyDistance(Next(s, l).value) <= ReplyDistance(s)
    ensures s.local > 0 ==> Next(s, l).value.local == s.local
  {
    ReachableInv(s);
    match l
    case Run(step) => if !step.BeginRun? { RunDoesNotDelay(s, step); }
    case Interrupt(i, _) =>
    case EnterRead(i) => if s.local == 0 { RemoteDoesNotDelay(s, l, i); }
    case Wake(i) => if s.local == 0 { RemoteDoesNotDelay(s, l, i); }
    case ReadClock(i) => if s.local == 0 { RemoteDoesNotDelay(s, l, i); }
    case WriteReply(i) => TokenHolder(s, i); RemoteDoesNotDelay(s, l, i);
    case Return(i) => if s.local == 0 { RemoteDoesNotDelay(s, l, i); }
    case _ =>
  }

  // ----- who can go on -----

  /** The statement the measuring thread is at inside its operation. */
  function MeasurerStatement(s: State): Label
    requires !s.mp.Idle?
  {
    match s.mp
    case AtStart => ReadStart
    case AtRequest(_) => WriteRequest
    case AtReply(_) => ReadReply
    case AtRecord(_, _) => Record
  }

  /** The measuring thread waits only for a reply that has not come; one that has come is returned. */
  lemma MeasurerBlockedIff(s: State)
    requires Reachable(s) && Indexed(s) && s.fault.NoFault? && !s.mp.Idle?
    ensures Next(s, MeasurerStatement(s)).None? <==> s.mp.AtReply? && s.local == 0
    ensures s.mp.AtReply? && s.local > 0 ==>
              Next(s, ReadReply).value.mp == AtRecord(s.mp.start, s.local) && Next(s, ReadReply).value.local == 0
  {
    ReachableInv(s);
  }

  /** A remote in its loop waits only asleep in a blocking read of an empty counter. */
  lemma RemoteBlockedIff(s: State, i: nat)
    requires Reachable(s) && Indexed(s) && s.fault.NoFault? && i < |s.rp| && Harness.Alive(s.h.threads[i])
    ensures Next(s, RemoteStep(s, i)).None? <==> s.rp[i].Blocked? && s.remote[i] == 0
    ensures s.rp[i].Blocked? ==> !s.nonblock
  {
    ReachableInv(s);
  }

  /** The steps of the harness outside the operations, the signals and the clock are not held up by the
      protocol. */
  lemma HarnessNotHeldUp(s: State, step: Harness.Label, i: nat, inRead: bool, d: nat)
    requires Reachable(s) && Indexed(s) && s.fault.NoFault?
    requires !step.OpDone? && !step.OtherDone? && !step.TakeSigint? && (step.BeginRun? ==> step.n == |s.remote|)
    ensures Next(s, Run(step)).Some? <==> Harness.Next(s.h, step).Some?
    ensures Next(s, Interrupt(i, inRead)).Some? <==> Harness.Next(s.h, Harness.TakeSigint(i)).Some?
    ensures Next(s, Tick(d)).Some? <==> s.now + d < TWO62
  {
  }

  /** What brings the operation in progress nearer to its end. */
  function RoundStep(s: State): Label
    requires Indexed(s) && !s.mp.Idle?
  {
    if s.mp.AtReply? && s.local == 0 then RemoteStep(s, s.idx) else MeasurerStatement(s)
  }

  function RoundLeft(s: State): nat
    requires Indexed(s)
  {
    match s.mp
    case AtStart => 20
    case AtRequest(_) => 19
    case AtReply(_) => 3 + ReplyDistance(s)
    case AtRecord(_, _) => 1
    case Idle => 0
  }

  /** h' is h after one more operation; interfering threads may have gone round their loops. */
  predicate OneOperationLater(h: Harness.State, h': Harness.State) {
    Harness.FinishOp(h).Some? && h' == Harness.FinishOp(h).value.(threads := h'.threads)
  }

  ghost predicate InRound(s: State) {
    Reachable(s) && Indexed(s) && s.fault.NoFault? && !s.mp.Idle?
  }

  lemma StatementAdvances(s: State)
    requires InRound(s) && !s.mp.AtRecord? && !(s.mp.AtReply? && s.local == 0)
    ensures Next(s, MeasurerStatement(s)).Some?
    ensures var t := Next(s, MeasurerStatement(s)).value;
      && RoundLeft(t) < RoundLeft(s) && !t.mp.Idle? && t.fault.NoFault?
      && t.h == s.h && t.rounds == s.rounds && t.early == s.early
  {
    MeasurerBlockedIff(s);
    ReachableInv(s);
    if s.mp.AtRequest? {
      assert NoToken(s, s.idx);
    }
  }

  lemma ReplyAdvances(s: State)
    requires InRound(s) && s.mp.AtReply? && s.local == 0
    ensures Next(s, RemoteStep(s, s.idx)).Some?
    ensures var t := Next(s, RemoteStep(s, s.idx)).value;
      && RoundLeft(t) < RoundLeft(s) && t.mp == s.mp && t.fault.NoFault?
      && t.h == s.h.(threads := t.h.threads) && t.rounds == s.rounds && t.early == s.early
  {
    ReplyComes(s);
    WritesNeverMerge(s, RemoteStep(s, s.idx));
  }

  lemma RecordEnds(s: State)
    requires InRound(s) && s.mp.AtRecord?
    ensures Next(s, Record).Some?
    ensures var t := Next(s, Record).value;
      || t.fault.TimeAssertion?
      || (t.fault.NoFault? && t.mp.Idle? && |t.rounds| == |s.rounds| + 1
          && OneOperationLater(s.h, t.h) && t.early == s.early)
  {
    MeasurerBlockedIff(s);
    ReachableInv(s);
  }

  ghost predicate RoundOver(s: State, t: State) {
    && Reachable(t) && Indexed(t)
    && (t.fault.TimeAssertion?
        || (t.fault.NoFault? && t.mp.Idle? && |t.rounds| == |s.rounds| + 1
            && OneOperationLater(s.h, t.h) && t.early == s.early))
  }

  /** From every point of an operation some schedule ends it: one more round, or a failed time assertion. */
  lemma {:induction false} RoundCompletes(s: State) returns (ls: seq<Label>)
    requires InRound(s)
    ensures Exec(s, ls).Some? && RoundOver(s, Exec(s, ls).value)
    decreases RoundLeft(s)
  {
    var l := RoundStep(s);
    if s.mp.AtRecord? {
      RecordEnds(s);
      ReachableStep(s, l);
      ls := [l];
      ExecOne(s, l);
    } else {
      if s.mp.AtReply? && s.local == 0 {
        ReplyAdvances(s);
      } else {
        StatementAdvances(s);
      }
      ReachableStep(s, l);
      var rest := RoundCompletes(Next(s, l).value);
      ls := [l] + rest;
    }
  }

  // ----- lifetime -----

  /** A statement of an operation, which touches the locals of run or what they own. */
  predicate IsOperationStep(l: Label) {
    !l.Run? && !l.Tick?
  }

  /** Whenever a thread executes a statement of an operation, `action`, its descriptors, `stop` and the
      topology are alive, and the thread is one that was spawned and has not been joined. */
  lemma OperationLifetime(s: State, l: Label)
    requires Reachable(s) && Indexed(s) && IsOperationStep(l) && Next(s, l).Some?
    ensures s.h.frame && !s.h.main.Destroying?
    ensures l.ReadStart? || l.WriteRequest? || l.ReadReply? || l.Record? ==>
              s.h.main.JoinMeasurer? && s.h.measurer.InOp?
    ensures l.EnterRead? || l.Wake? || l.ReadClock? || l.WriteReply? || l.Return? || l.Interrupt? ==>
              l.i < |s.h.threads| && Harness.Alive(s.h.threads[l.i]) && s.h.joins[l.i] == 0
  {
    ReachableInv(s);
  }

  // ----- refinement -----

  function AbsPhase(s: State): R.Phase
    requires Indexed(s)
  {
    match s.mp
    case Idle => R.Idle
    case AtStart => R.Idle
    case AtRequest(start) => R.Started(start)
    case AtReply(start) =>
      if s.local > 0 then R.Stamped(start, s.local)
      else if s.rp[s.idx].AtWrite? then R.Stamped(start, s.rp[s.idx].stamp)
      else R.Started(start)
    case AtRecord(start, end) => R.Stamped(start, end)
  }

  function Abs(s: State): R.State
    requires Indexed(s)
  {
    R.State(|s.remote|, s.now, s.lastRead, AbsPhase(s), s.rounds)
  }

  /** The steps of the specification that one step of the protocol performs; [] is a stutter. */
  function AbsLabels(s: State, l: Label): seq<R.Label> {
    match l
    case Run(step) =>
      if step.BeginRun? then [R.Reset]
      else if step.MeasurerStep? && s.h.measurer.TestAlarm? && s.h.alarmFired.None? && s.h.mode.Energy?
      then [R.Begin(false)]
      else []
    case Tick(d) => [R.Tick(d)]
    case ReadStart => [R.Begin(true)]
    case ReadClock(i) => [R.Stamp(i)]
    case Record =>
      if s.mp.AtRecord? && s.mp.start.Some? && s.mp.end <= s.mp.start.value then [] else [R.Finish]
    case _ => []
  }

  function AbsTrace(s: State, ls: seq<Label>): seq<R.Label>
    requires Indexed(s)
    decreases |ls|
  {
    if ls == [] || Next(s, ls[0]).None? then []
    else AbsLabels(s, ls[0]) + AbsTrace(Next(s, ls[0]).value, ls[1..])
  }

  lemma RunRefines(s: State, step: Harness.Label)
    requires OpInv(s) && Harness.FlagsInv(s.h) && RunNext(s, step).Some?
    ensures R.Exec(Abs(s), AbsLabels(s, Run(step))) == Some(Abs(RunNext(s, step).value))
  {
  }

  lemma MeasurerRefines(s: State, l: Label)
    requires OpInv(s) && MeasurerNext(s, l).Some?
    ensures R.Exec(Abs(s), AbsLabels(s, l)) == Some(Abs(MeasurerNext(s, l).value))
  {
    var s' := MeasurerNext(s, l).value;
    match l
    case ReadReply => assert TokenReplied(s);
    case WriteRequest => assert NoToken(s, s.idx);
    case _ =>
  }

  lemma RemoteRefines(s: State, l: Label, i: nat)
    requires OpInv(s) && i < |s.rp| && RemoteNext(s, l, i).Some?
    requires l == EnterRead(i) || l == Wake(i) || l == ReadClock(i) || l == WriteReply(i) || l == Return(i)
    ensures R.Exec(Abs(s), AbsLabels(s, l)) == Some(Abs(RemoteNext(s, l, i).value))
  {
    var s' := RemoteNext(s, l, i).value;
    if s.remote[i] > 0 || Holding(s.rp[i]) {
      TokenHolder(s, i);
    }
  }

  lemma StepRefines(s: State, l: Label)
    requires Inv(s) && Next(s, l).Some?
    ensures R.Exec(Abs(s), AbsLabels(s, l)) == Some(Abs(Next(s, l).value))
  {
    match l
    case Run(step) => RunRefines(s, step);
    case Interrupt(i, inRead) =>
    case Tick(d) =>
    case ReadStart => MeasurerRefines(s, l);
    case WriteRequest => MeasurerRefines(s, l);
    case ReadReply => MeasurerRefines(s, l);
    case Record => MeasurerRefines(s, l);
    case EnterRead(i) => RemoteRefines(s, l, i);
    case Wake(i) => RemoteRefines(s, l, i);
    case ReadClock(i) => RemoteRefines(s, l, i);
    case WriteReply(i) => RemoteRefines(s, l, i);
    case Return(i) => RemoteRefines(s, l, i);
  }

  /** Every schedule of the protocol, blocking or not, is a schedule of the specification. */
  lemma {:induction false} EventfdRefines(s: State, ls: seq<Label>)
    requires Inv(s) && Exec(s, ls).Some?
    ensures R.Exec(Abs(s), AbsTrace(s, ls)) == Some(Abs(Exec(s, ls).value))
    decreases |ls|
  {
    if ls != [] {
      var s' := Next(s, ls[0]).value;
      StepRefines(s, ls[0]);
      StepPreserves(s, ls[0]);
      EventfdRefines(s', ls[1..]);
      R.ExecConcat(Abs(s), AbsLabels(s, ls[0]), AbsTrace(s', ls[1..]));
    }
  }

  lemma InitAbs(s: State, n: nat)
    requires Init(s, n)
    ensures R.Inv(Abs(s))
  {
  }

  lemma ReachableAbs(s: State)
    requires Reachable(s)
    ensures Inv(s) && R.Inv(Abs(s))
  {
    var s0: State, n: nat, ls: seq<Label> :| Init(s0, n) && Exec(s0, ls) == Some(s);
    ReachableInv(s);
    InitInv(s0, n);
    InitAbs(s0, n);
    EventfdRefines(s0, ls);
    R.ExecInv(Abs(s0), AbsTrace(s0, ls));
  }

  // ----- what the refinement gives the benchmark -----

  /** In every run the rounds are ordered in time, visit the remotes in turn, and are what the harness
      counted; a latency run recorded one positive difference for each. */
  lemma RoundLaws(s: State, i: nat, j: nat)
    requires Reachable(s) && Indexed(s) && i <= j < |s.remote|
    ensures R.Ordered(s.rounds)
    ensures R.RoundRobin(s.rounds, |s.remote|)
    ensures R.Served(s.rounds, i) == R.Share(|s.rounds|, i, |s.remote|)
    ensures R.Served(s.rounds, j) <= R.Served(s.rounds, i) <= R.Served(s.rounds, j) + 1
    ensures |s.rounds| == s.h.ops && s.idx == |s.rounds| % |s.remote|
    ensures Harness.Counted(s.h) ==> |s.hist| == |s.rounds| == s.h.count
    ensures s.h.mode.Latency? ==> forall k | 0 <= k < |s.hist| ::
              k < |s.rounds| && R.Recorded(s.rounds[k], s.hist[k])
  {
    ReachableAbs(s);
    R.RoundRobinConservation(s.rounds, |s.remote|, i);
    R.SharesBalanced(s.rounds, i, j, |s.remote|);
  }

  /** The only way the measurer's time assertion fails is that both readings are the same number. */
  lemma TimeAssertionIff(s: State)
    requires Reachable(s) && Indexed(s) && s.mp.AtRecord? && Next(s, Record).Some?
    ensures Next(s, Record).value.fault == TimeAssertion
       <==> s.mp.start.Some? && s.mp.start.value == s.mp.end
  {
    ReachableAbs(s);
  }

  /** Every remote reads a clock that has advanced since the previous reading. */
  predicate Advancing(s: State, ls: seq<Label>)
    requires Indexed(s)
    decreases |ls|
  {
    ls == []
    || ((ls[0].ReadClock? ==> s.lastRead < s.now)
        && (Next(s, ls[0]).Some? ==> Advancing(Next(s, ls[0]).value, ls[1..])))
  }

  predicate StampedLater(s: State)
    requires Indexed(s)
  {
    s.fault.NoFault? && R.Later(AbsPhase(s))
  }

  lemma LaterMeansNoFault(s: State, l: Label)
    requires Reachable(s) && Indexed(s) && StampedLater(s) && Next(s, l).Some?
    ensures Next(s, l).value.fault.NoFault?
  {
    WritesNeverMerge(s, l);
  }

  lemma ClockNeverFalls(s: State, l: Label)
    requires Inv(s) && Next(s, l).Some?
    ensures s.now <= Next(s, l).value.now
  {
  }

  lemma {:induction false} ExecClock(s: State, ls: seq<Label>)
    requires Inv(s) && Exec(s, ls).Some?
    ensures s.now <= Exec(s, ls).value.now
    decreases |ls|
  {
    if ls != [] {
      StepPreserves(s, ls[0]);
      ClockNeverFalls(s, ls[0]);
      ExecClock(Next(s, ls[0]).value, ls[1..]);
    }
  }

  lemma StampedLaterStep(s: State, l: Label)
    requires Inv(s) && R.Inv(Abs(s)) && StampedLater(s) && Next(s, l).Some?
    requires l.ReadClock? ==> s.lastRead < s.now < TWO53
    ensures R.Later(AbsPhase(Next(s, l).value))
  {
    StepRefines(s, l);
    R.LaterExec(Abs(s), AbsLabels(s, l));
  }

  /** On a clock that advances between readings, below 2^53 ns of uptime, no assertion ever fails. */
  lemma {:induction false} NoAssertionFails(s: State, ls: seq<Label>)
    requires Reachable(s) && Indexed(s) && StampedLater(s)
    requires Exec(s, ls).Some? && Advancing(s, ls) && Exec(s, ls).value.now < TWO53
    ensures Exec(s, ls).value.fault.NoFault?
    decreases |ls|
  {
    if ls != [] {
      var s' := Next(s, ls[0]).value;
      ReachableAbs(s);
      ReachableStep(s, ls[0]);
      StepPreserves(s, ls[0]);
      ClockNeverFalls(s, ls[0]);
      ExecClock(s', ls[1..]);
      LaterMeansNoFault(s, ls[0]);
      StampedLaterStep(s, ls[0]);
      NoAssertionFails(s', ls[1..]);
    }
  }
}
