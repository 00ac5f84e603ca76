/**
 * bench-eventfd.cpp and bench-eventfd-nonblock.cpp inside the harness, for n remote descriptors. The
 * measuring thread writes the number of its own descriptor into remote_efds[remote_idx] and reads its
 * own; remote i reads remote_efds[i], reads the clock and writes the time to the descriptor it was
 * given. An eventfd is a counter: a write adds to it, a read returns it and zeroes it.
 */
module Eventfd {
  import opened Wrappers
  import opened TimeArithmetic
  import Harness
  import Rendezvous

  type Round = Rendezvous.Round

  /** Where the measuring thread is inside measured_operation, or raw_operation if `start` is None. */
  datatype MeasurerOp =
    | Idle
    | AtStart                                // clock_gettime(&start)
    | AtRequest(start: Option<nat>)          // eventfd_write(remote_efds[remote_idx], local_efd)
    | AtReply(start: Option<nat>)            // eventfd_read(local_efd)
    | AtRecord(start: Option<nat>, end: nat) // next index, assertion, difference

  /** Where a remote is inside other_operation. */
  datatype RemoteOp =
    | Out
    | AtRead                        // about to call eventfd_read(remote_efds[tid])
    | Blocked                       // asleep in it
    | AtClock(fd: nat)              // clock_gettime(&now)
    | AtWrite(fd: nat, stamp: nat)  // eventfd_write(fd, now)
    | AtReturn

  /** A reply sent to another descriptor than the measurer's, or assert(end_ns > start_ns). */
  datatype Fault = NoFault | WrongDescriptor | TimeAssertion

  /** `lfd` is the number of local_efd, `local` and `remote` are the counters, `hist` what was recorded,
      `early` the remotes whose handler ran when they had tested `stop` and not yet blocked. */
  datatype State = State(
    h: Harness.State,
    nonblock: bool,
    now: nat,
    lastRead: nat,
    lfd: nat,
    local: nat,
    remote: seq<nat>,
    idx: nat,
    mp: MeasurerOp,
    rp: seq<RemoteOp>,
    rounds: seq<Round>,
    hist: seq<nat>,
    early: set<nat>,
    fault: Fault)

  datatype Label =
    | Run(step: Harness.Label)      // a step of the harness outside the operations
    | Interrupt(i: nat, inRead: bool) // remote i takes its SIGINT, possibly inside a non-blocking read
    | Tick(d: nat)
    | ReadStart
    | WriteRequest
    | ReadReply
    | Record
    | EnterRead(i: nat)
    | Wake(i: nat)
    | ReadClock(i: nat)
    | WriteReply(i: nat)
    | Return(i: nat)

  ghost predicate Init(s: State, n: nat) {
    && n > 0
    && Harness.Init(s.h, n)
    && 0 < s.now < TWO62 && s.lastRead <= s.now
    && s.lfd > 0
    && s.local == 0 && s.remote == Repeat(n, 0)
    && s.idx == 0 && s.mp.Idle? && s.rp == Repeat(n, Out)
    && s.rounds == [] && s.hist == [] && s.early == {} && s.fault.NoFault?
    && s.h.ops == 0
  }

  predicate Indexed(s: State) {
    && Harness.Indexed(s.h)
    && |s.h.threads| == |s.remote| == |s.rp|
    && s.idx < |s.remote|
  }

  /** The constructor of Action makes new descriptors; the index starts at zero. */
  function NewAction(s: State): State {
    s.(local := 0, remote := Repeat(|s.remote|, 0), idx := 0, mp := Idle, rp := Repeat(|s.remote|, Out),
       rounds := [], hist := [], early := {})
  }

  function FirstStep(mode: Harness.Mode): MeasurerOp {
    if mode.Latency? then AtStart else AtRequest(None)
  }

  function RunNext(s: State, step: Harness.Label): (r: Option<State>)
    requires Indexed(s)
    ensures r.Some? ==> Indexed(r.value) && |r.value.remote| == |s.remote|
  {
    match Harness.Next(s.h, step)
    case None => None
    case Some(h') =>
      match step
      case BeginRun(mode, n) => if n == |s.remote| then Some(NewAction(s).(h := h')) else None
      case MeasurerStep =>
        Some(s.(h := h', mp := if h'.measurer.InOp? then FirstStep(s.h.mode) else s.mp))
      case LoopTest(i) =>
        Some(s.(h := h', rp := if s.h.stop then s.rp else s.rp[i := AtRead]))
      case OpDone => None
      case OtherDone(_) => None
      case TakeSigint(_) => None
      case _ => Some(s.(h := h'))
  }

  function InterruptNext(s: State, i: nat, inRead: bool): (r: Option<State>)
    requires Indexed(s)
    ensures r.Some? ==> Indexed(r.value) && |r.value.remote| == |s.remote|
  {
    match Harness.HandleSigint(s.h, i)
    case None => None
    case Some(h') =>
      if s.rp[i].Blocked? || (s.rp[i].AtRead? && s.nonblock && inRead) then
        Some(s.(h := h', rp := s.rp[i := AtReturn]))
      else if s.rp[i].AtRead? && !s.nonblock then
        Some(s.(h := h', early := s.early + {i}))
      else
        Some(s.(h := h'))
  }

  function MeasurerNext(s: State, l: Label): (r: Option<State>)
    requires Indexed(s)
    ensures r.Some? ==> Indexed(r.value) && |r.value.remote| == |s.remote|
  {
    match (l, s.mp)
    case (ReadStart, AtStart) =>
      Some(s.(mp := AtRequest(Some(Rendezvous.Reading(s.now))), lastRead := s.now))
    case (WriteRequest, AtRequest(start)) =>
      Some(s.(remote := s.remote[s.idx := s.remote[s.idx] + s.lfd], mp := AtReply(start)))
    case (ReadReply, AtReply(start)) =>
      if s.local > 0 then Some(s.(local := 0, mp := AtRecord(start, s.local))) else None
    case (Record, AtRecord(start, end)) =>
      if start.Some? && end <= start.value then
        Some(s.(fault := TimeAssertion))
      else
        (match Harness.FinishOp(s.h)
         case None => None
         case Some(h') =>
           Some(s.(h := h', mp := Idle, idx := (s.idx + 1) % |s.remote|,
                   rounds := s.rounds + [Rendezvous.Round(s.idx, start, end)],
                   hist := Rendezvous.Recording(s.hist, start, end))))
    case _ => None
  }

  function Consume(s: State, i: nat): State
    requires Indexed(s) && i < |s.rp|
  {
    s.(remote := s.remote[i := 0], rp := s.rp[i := AtClock(s.remote[i])])
  }

  function RemoteNext(s: State, l: Label, i: nat): (r: Option<State>)
    requires Indexed(s) && i < |s.rp|
    ensures r.Some? ==> Indexed(r.value) && |r.value.remote| == |s.remote|
  {
    match (l, s.rp[i])
    case (EnterRead(_), AtRead) =>
      if s.remote[i] > 0 then Some(Consume(s, i))
      else Some(s.(rp := s.rp[i := if s.nonblock then AtReturn else Blocked]))
    case (Wake(_), Blocked) =>
      if s.remote[i] > 0 then Some(Consume(s, i)) else None
    case (ReadClock(_), AtClock(fd)) =>
      Some(s.(rp := s.rp[i := AtWrite(fd, Rendezvous.Reading(s.now))], lastRead := s.now))
    case (WriteReply(_), AtWrite(fd, stamp)) =>
      if fd == s.lfd
      then Some(s.(local := s.local + stamp, rp := s.rp[i := AtReturn]))
      else Some(s.(fault := WrongDescriptor))
    case (Return(_), AtReturn) =>
      (match Harness.FinishOther(s.h, i)
       case None => None
       case Some(h') => Some(s.(h := h', rp := s.rp[i := Out])))
    case _ => None
  }

  /** Every label is one atomic step; a fault has aborted the process. */
  function Next(s: State, l: Label): (r: Option<State>)
    requires Indexed(s)
    ensures r.Some? ==> Indexed(r.value) && |r.value.remote| == |s.remote|
  {
    if !s.fault.NoFault? then None
    else match l
      case Run(step) => RunNext(s, step)
      case Interrupt(i, inRead) => InterruptNext(s, i, inRead)
      case Tick(d) => if s.now + d < TWO62 then Some(s.(now := s.now + d)) else None
      case ReadStart => MeasurerNext(s, l)
      case WriteRequest => MeasurerNext(s, l)
      case ReadReply => MeasurerNext(s, l)
      case Record => MeasurerNext(s, l)
      case EnterRead(i) => if i < |s.rp| then RemoteNext(s, l, i) else None
      case Wake(i) => if i < |s.rp| then RemoteNext(s, l, i) else None
      case ReadClock(i) => if i < |s.rp| then RemoteNext(s, l, i) else None
      case WriteReply(i) => if i < |s.rp| then RemoteNext(s, l, i) else None
      case Return(i) => if i < |s.rp| then RemoteNext(s, l, i) else None
  }

  // ----- what the statements touch -----

  /** An eventfd is a counter: a write adds to it, whatever it holds, and a read returns all of it and leaves
      zero. */
  lemma CounterSemantics(s: State, l: Label)
    requires Indexed(s) && Next(s, l).Some?
    ensures var t := Next(s, l).value;
      && (l.WriteRequest? ==> t.remote[s.idx] == s.remote[s.idx] + s.lfd)
      && (l.WriteReply? && t.fault.NoFault? ==> t.local == s.local + s.rp[l.i].stamp && s.rp[l.i].fd == s.lfd)
      && (l.ReadReply? ==> t.local == 0 && t.mp.AtRecord? && t.mp.end == s.local)
      && ((l.EnterRead? && s.remote[l.i] > 0) || l.Wake? ==> t.remote[l.i] == 0 && t.rp[l.i] == AtClock(s.remote[l.i]))
  {
  }

  /** The measuring thread touches the counter of the current remote and its own, nothing of the others. */
  lemma MeasurerFrame(s: State, l: Label)
    requires Indexed(s) && Next(s, l).Some? && (l.ReadStart? || l.WriteRequest? || l.ReadReply? || l.Record?)
    ensures var t := Next(s, l).value;
      && t.rp == s.rp && t.now == s.now && t.early == s.early && t.h.threads == s.h.threads
      && (forall j | 0 <= j < |s.remote| && (j != s.idx || !l.WriteRequest?) :: t.remote[j] == s.remote[j])
      && (!l.ReadReply? ==> t.local == s.local)
      && (!l.Record? ==> t.h == s.h && t.idx == s.idx && t.rounds == s.rounds && t.hist == s.hist)
      && (!l.ReadStart? ==> t.lastRead == s.lastRead)
  {
  }

  /** Remote i touches its own counter and position and, in its reply, the measurer's counter. */
  lemma RemoteFrame(s: State, l: Label)
    requires Indexed(s) && Next(s, l).Some?
    requires l.EnterRead? || l.Wake? || l.ReadClock? || l.WriteReply? || l.Return? || l.Interrupt?
    ensures var t := Next(s, l).value;
      && t.mp == s.mp && t.idx == s.idx && t.now == s.now && t.rounds == s.rounds && t.hist == s.hist
      && (forall j | 0 <= j < |s.remote| && j != l.i :: t.remote[j] == s.remote[j] && t.rp[j] == s.rp[j])
      && (!l.WriteReply? ==> t.local == s.local)
      && (!l.EnterRead? && !l.Wake? ==> t.remote == s.remote)
      && (!l.ReadClock? ==> t.lastRead == s.lastRead)
      && (!l.Return? && !l.Interrupt? ==> t.h == s.h)
  {
  }

  function Exec(s: State, ls: seq<Label>): (r: Option<State>)
    requires Indexed(s)
    ensures r.Some? ==> Indexed(r.value)
    decreases |ls|
  {
    if ls == [] then Some(s)
    else match Next(s, ls[0])
      case None => None
      case Some(s') => Exec(s', ls[1..])
  }

  lemma {:induction false} ExecConcat(s: State, a: seq<Label>, b: seq<Label>)
    requires Indexed(s) && Exec(s, a).Some?
    ensures Exec(s, a + b) == Exec(Exec(s, a).value, b)
    decreases |a|
  {
    if a == [] {
      assert a + b == b;
    } else {
      assert (a + b)[0] == a[0] && (a + b)[1..] == a[1..] + b;
      ExecConcat(Next(s, a[0]).value, a[1..], b);
    }
  }

  lemma ExecOne(s: State, l: Label)
    requires Indexed(s)
    ensures Exec(s, [l]) == Next(s, l)
  {
  }

  // ----- the invariant -----

  predicate Holding(pc: RemoteOp) {
    pc.AtClock? || pc.AtWrite?
  }

  predicate NoToken(s: State, i: nat)
    requires Indexed(s) && i < |s.rp|
  {
    s.remote[i] == 0 && !Holding(s.rp[i])
  }

  /** The request lies unread in the current remote's counter. */
  predicate TokenRequested(s: State)
    requires Indexed(s)
  {
    s.local == 0 && s.remote[s.idx] == s.lfd && !Holding(s.rp[s.idx])
  }

  /** The current remote has read it and not yet replied. */
  predicate TokenHeld(s: State)
    requires Indexed(s)
  {
    && s.local == 0 && s.remote[s.idx] == 0
    && Holding(s.rp[s.idx]) && s.rp[s.idx].fd == s.lfd
    && (s.rp[s.idx].AtWrite? ==> s.rp[s.idx].stamp > 0)
  }

  /** Its one timestamp lies unread in the measurer's counter. */
  predicate TokenReplied(s: State)
    requires Indexed(s)
  {
    s.local > 0 && NoToken(s, s.idx)
  }

  /** Either nobody waits and there is no token, or there is exactly one, on its way. */
  ghost predicate TokenInv(s: State)
    requires Indexed(s)
  {
    && (s.mp.AtReply? ==>
          && (TokenRequested(s) || TokenHeld(s) || TokenReplied(s))
          && forall i | 0 <= i < |s.rp| && i != s.idx :: NoToken(s, i))
    && (!s.mp.AtReply? ==> s.local == 0 && forall i | 0 <= i < |s.rp| :: NoToken(s, i))
  }

  ghost predicate LinkInv(s: State)
    requires Indexed(s)
  {
    && (s.mp.Idle? <==> !s.h.measurer.InOp?)
    && (forall i | 0 <= i < |s.rp| :: s.rp[i].Out? <==> !s.h.threads[i].InOther?)
    && (s.nonblock ==> forall i | 0 <= i < |s.rp| :: !s.rp[i].Blocked?)
    && 0 < s.now < TWO62
    && s.lfd > 0
    && !s.fault.WrongDescriptor?
    && |s.rounds| == s.h.ops
    && s.idx == s.h.ops % |s.remote|
  }

  predicate Timed(op: MeasurerOp) {
    match op
    case AtRequest(start) => start.Some?
    case AtReply(start) => start.Some?
    case AtRecord(start, _) => start.Some?
    case AtStart => true
    case Idle => false
  }

  /** What a latency run records is the difference of each of its rounds; an energy run records nothing. */
  ghost predicate HistInv(s: State) {
    && (s.h.mode.Latency? ==>
          && |s.hist| == |s.rounds|
          && (forall k | 0 <= k < |s.rounds| :: Rendezvous.Recorded(s.rounds[k], s.hist[k])))
    && (s.h.mode.Energy? ==> s.hist == [])
    && (!s.mp.Idle? ==> (Timed(s.mp) <==> s.h.mode.Latency?))
  }

  /** Everything but the harness's own invariant. */
  ghost predicate OpInv(s: State) {
    Indexed(s) && LinkInv(s) && TokenInv(s) && HistInv(s)
  }

  ghost predicate Inv(s: State) {
    OpInv(s) && Harness.Inv(s.h)
  }

  lemma InitInv(s: State, n: nat)
    requires Init(s, n)
    ensures Inv(s)
  {
  }

  /** Projected to the harness, every step is a step of the harness or leaves it alone. */
  function HarnessLabel(s: State, l: Label): Option<Harness.Label> {
    match l
    case Run(step) => Some(step)
    case Interrupt(i, _) => Some(Harness.TakeSigint(i))
    case Record =>
      if s.mp.AtRecord? && s.mp.start.Some? && s.mp.end <= s.mp.start.value then None else Some(Harness.OpDone)
    case Return(i) => Some(Harness.OtherDone(i))
    case _ => None
  }

  lemma HarnessProjection(s: State, l: Label)
    requires Indexed(s) && Next(s, l).Some?
    ensures match HarnessLabel(s, l)
            case None => Next(s, l).value.h == s.h
            case Some(hl) => Harness.Next(s.h, hl) == Some(Next(s, l).value.h)
  {
  }

  lemma HarnessPreserved(s: State, l: Label)
    requires Indexed(s) && Harness.Inv(s.h) && Next(s, l).Some?
    ensures Harness.Inv(Next(s, l).value.h)
  {
    HarnessProjection(s, l);
    var hl := HarnessLabel(s, l);
    if hl.Some? {
      Harness.StepPreserves(s.h, hl.value);
    }
  }

  /** Steps that move no value leave the tokens where they are. */
  lemma TokensUntouched(s: State, s': State)
    requires Indexed(s) && Indexed(s') && TokenInv(s)
    requires s'.local == s.local && s'.remote == s.remote && s'.idx == s.idx && s'.lfd == s.lfd
    requires s'.mp.AtReply? == s.mp.AtReply?
    requires forall i | 0 <= i < |s.rp| :: s'.rp[i] == s.rp[i] || (!Holding(s'.rp[i]) && !Holding(s.rp[i]))
    ensures TokenInv(s')
  {
    forall i | 0 <= i < |s.rp| ensures NoToken(s', i) <==> NoToken(s, i) {
    }
  }

  lemma BeginPreserves(s: State, step: Harness.Label)
    requires OpInv(s) && Harness.FlagsInv(s.h) && step.BeginRun? && RunNext(s, step).Some?
    ensures OpInv(RunNext(s, step).value)
  {
  }

  lemma MainPreserves(s: State)
    requires OpInv(s) && Harness.FlagsInv(s.h) && RunNext(s, Harness.MainStep).Some?
    requires forall i | 0 <= i < |s.h.threads| ::
               Harness.MainNext(s.h).value.threads[i].InOther? <==> s.h.threads[i].InOther?
    ensures OpInv(RunNext(s, Harness.MainStep).value)
  {
    var s' := RunNext(s, Harness.MainStep).value;
    assert s' == s.(h := s'.h);
    TokensUntouched(s, s');
  }

  lemma LoopTestPreserves(s: State, i: nat)
    requires OpInv(s) && RunNext(s, Harness.LoopTest(i)).Some?
    ensures OpInv(RunNext(s, Harness.LoopTest(i)).value)
  {
    TokensUntouched(s, RunNext(s, Harness.LoopTest(i)).value);
  }

  lemma MeasurerLoopPreserves(s: State)
    requires OpInv(s) && RunNext(s, Harness.MeasurerStep).Some?
    ensures OpInv(RunNext(s, Harness.MeasurerStep).value)
  {
    assert s.mp.Idle?;
    TokensUntouched(s, RunNext(s, Harness.MeasurerStep).value);
  }

  lemma OtherRunPreserves(s: State, step: Harness.Label)
    requires OpInv(s) && RunNext(s, step).Some?
    requires step.MsrFails? || step.UserSigint? || step.AlarmExpires?
    ensures OpInv(RunNext(s, step).value)
  {
    TokensUntouched(s, RunNext(s, step).value);
  }

  lemma InterruptPreserves(s: State, i: nat, inRead: bool)
    requires OpInv(s) && InterruptNext(s, i, inRead).Some?
    ensures OpInv(InterruptNext(s, i, inRead).value)
  {
    TokensUntouched(s, InterruptNext(s, i, inRead).value);
  }

  lemma RequestPreserves(s: State, l: Label)
    requires OpInv(s) && MeasurerNext(s, l).Some? && s.fault.NoFault?
    requires l.ReadStart? || l.WriteRequest? || l.ReadReply?
    ensures OpInv(MeasurerNext(s, l).value)
  {
    var s' := MeasurerNext(s, l).value;
    assert NoToken(s, s.idx) || s.mp.AtReply?;
    assert forall j | 0 <= j < |s.rp| && j != s.idx :: NoToken(s', j) <==> NoToken(s, j);
  }

  lemma RecordKeepsHist(s: State)
    requires OpInv(s) && MeasurerNext(s, Record).Some?
    ensures HistInv(MeasurerNext(s, Record).value)
  {
  }

  lemma RecordKeepsLinks(s: State)
    requires OpInv(s) && MeasurerNext(s, Record).Some? && s.fault.NoFault?
    ensures LinkInv(MeasurerNext(s, Record).value) && TokenInv(MeasurerNext(s, Record).value)
  {
    var s' := MeasurerNext(s, Record).value;
    Rendezvous.NextIndex(s.h.ops, |s.remote|);
    assert s'.local == s.local && s'.remote == s.remote && s'.rp == s.rp;
    forall j | 0 <= j < |s.rp| ensures NoToken(s', j) {
      assert NoToken(s, j);
    }
  }

  /** A remote that finds or holds a value is the one the measurer waits for. */
  lemma TokenHolder(s: State, i: nat)
    requires OpInv(s) && i < |s.rp| && (s.remote[i] > 0 || Holding(s.rp[i]))
    ensures s.mp.AtReply? && i == s.idx && (TokenRequested(s) || TokenHeld(s))
  {
    assert !NoToken(s, i);
  }

  /** A round that passes its assertion is counted once, everywhere, and the next index is its number. */
  lemma RoundRecorded(s: State)
    requires Inv(s) && s.fault.NoFault? && s.mp.AtRecord? && MeasurerNext(s, Record).Some?
    ensures var s' := MeasurerNext(s, Record).value;
      s'.fault.NoFault? ==>
        && s'.rounds == s.rounds + [Rendezvous.Round(s.idx, s.mp.start, s.mp.end)]
        && s'.idx == |s'.rounds| % |s.remote|
        && (s.h.mode.Latency? ==>
              |s'.hist| == |s'.rounds| == s'.h.count && s.hist <= s'.hist
              && Rendezvous.Recorded(s'.rounds[|s.rounds|], s'.hist[|s.rounds|]))
  {
    RecordKeepsLinks(s);
    RecordKeepsHist(s);
  }

  lemma RemotePreserves(s: State, l: Label, i: nat)
    requires OpInv(s) && i < |s.rp| && RemoteNext(s, l, i).Some? && s.fault.NoFault?
    ensures OpInv(RemoteNext(s, l, i).value)
  {
    var s' := RemoteNext(s, l, i).value;
    Rendezvous.ReadingPositive(s.now);
    if s.remote[i] > 0 || Holding(s.rp[i]) {
      TokenHolder(s, i);
    }
    assert forall j | 0 <= j < |s.rp| && j != i :: NoToken(s', j) <==> NoToken(s, j);
  }

  lemma RunPreserves(s: State, step: Harness.Label)
    requires Inv(s) && RunNext(s, step).Some?
    ensures OpInv(RunNext(s, step).value)
  {
    match step
    case BeginRun(_, _) => BeginPreserves(s, step);
    case MainStep => Harness.MainLeavesOthers(s.h); MainPreserves(s);
    case LoopTest(i) => LoopTestPreserves(s, i);
    case MeasurerStep => MeasurerLoopPreserves(s);
    case MsrFails => OtherRunPreserves(s, step);
    case UserSigint => OtherRunPreserves(s, step);
    case AlarmExpires => OtherRunPreserves(s, step);
    case _ =>
  }

  lemma OpPreserved(s: State, l: Label)
    requires Inv(s) && Next(s, l).Some?
    ensures OpInv(Next(s, l).value)
  {
    match l
    case Run(step) => RunPreserves(s, step);
    case Interrupt(i, inRead) => InterruptPreserves(s, i, inRead);
    case Tick(d) =>
      TokensUntouched(s, Next(s, l).value);
    case ReadStart => RequestPreserves(s, l);
    case WriteRequest => RequestPreserves(s, l);
    case ReadReply => RequestPreserves(s, l);
    case Record => RecordKeepsHist(s); RecordKeepsLinks(s);
    case EnterRead(i) => RemotePreserves(s, l, i);
    case Wake(i) => RemotePreserves(s, l, i);
    case ReadClock(i) => RemotePreserves(s, l, i);
    case WriteReply(i) => RemotePreserves(s, l, i);
    case Return(i) => RemotePreserves(s, l, i);
  }

  lemma StepPreserves(s: State, l: Label)
    requires Inv(s) && Next(s, l).Some?
    ensures Inv(Next(s, l).value)
  {
    HarnessPreserved(s, l);
    OpPreserved(s, l);
  }

  lemma {:induction false} ExecInv(s: State, ls: seq<Label>)
    requires Inv(s) && Exec(s, ls).Some?
    ensures Inv(Exec(s, ls).value)
    decreases |ls|
  {
    if ls != [] {
      StepPreserves(s, ls[0]);
      ExecInv(Next(s, ls[0]).value, ls[1..]);
    }
  }

  /** Harness and benchmark take their steps together: a reachable benchmark contains a reachable harness. */
  lemma {:induction false} ExecProjects(s: State, ls: seq<Label>)
    requires Indexed(s) && Harness.Reachable(s.h) && Exec(s, ls).Some?
    ensures Harness.Reachable(Exec(s, ls).value.h)
    decreases |ls|
  {
    if ls != [] {
      StepProjects(s, ls[0]);
      ExecProjects(Next(s, ls[0]).value, ls[1..]);
    }
  }

  lemma StepProjects(s: State, l: Label)
    requires Indexed(s) && Harness.Reachable(s.h) && Next(s, l).Some?
    ensures Harness.Reachable(Next(s, l).value.h)
  {
    HarnessProjection(s, l);
    var hl := HarnessLabel(s, l);
    if hl.Some? {
      Harness.ReachableStep(s.h, hl.value);
    }
  }

  ghost predicate Reachable(s: State) {
    exists s0: State, n: nat, ls: seq<Label> :: Init(s0, n) && Exec(s0, ls) == Some(s)
  }

  lemma ReachableInv(s: State)
    requires Reachable(s)
    ensures Inv(s)
  {
    var s0: State, n: nat, ls: seq<Label> :| Init(s0, n) && Exec(s0, ls) == Some(s);
    InitInv(s0, n);
    ExecInv(s0, ls);
  }

  lemma HarnessReachable(s: State)
    requires Reachable(s)
    ensures Indexed(s) && Harness.Reachable(s.h)
  {
    var s0: State, n: nat, ls: seq<Label> :| Init(s0, n) && Exec(s0, ls) == Some(s);
    Harness.InitReachable(s0.h, n);
    ExecProjects(s0, ls);
  }

  lemma ExecSnoc(s: State, ls: seq<Label>, l: Label)
    requires Indexed(s) && Exec(s, ls).Some?
    ensures Exec(s, ls + [l]) == Next(Exec(s, ls).value, l)
  {
    ExecConcat(s, ls, [l]);
    ExecOne(Exec(s, ls).value, l);
  }

  lemma ReachableStep(s: State, l: Label)
    requires Reachable(s) && Indexed(s) && Next(s, l).Some?
    ensures Reachable(Next(s, l).value)
  {
    var s0: State, n: nat, ls: seq<Label> :| Init(s0, n) && Exec(s0, ls) == Some(s);
    ExecSnoc(s0, ls, l);
    assert Exec(s0, ls + [l]) == Some(Next(s, l).value);
  }
}
