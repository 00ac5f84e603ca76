/**
 * When a measured round of the signal benchmark can end with a timestamp older than its start, with
 * arbitrary timeouts: exactly when, at the start, the remote is between reading the clock and locking the
 * mutex with an older time in its hands. Everything that happens later is harmless.
 */
module HandshakeStaleness {
  import opened Wrappers
  import opened TimeArithmetic
  import opened Handshake
  import Harness
  import R = Rendezvous

  /** The awaited remote is about to announce a time before `start`. */
  predicate CarriesOldStamp(s: State, start: nat)
    requires Indexed(s)
  {
    match s.rp[s.tid]
    case Stamping(stamp) => stamp < start
    case Locking => s.stamps[s.tid] < start
    case _ => false
  }

  /** Schedule ls takes the round in progress in s to its assertion, with `end` as the timestamp. */
  ghost predicate RoundEnds(s: State, ls: seq<Label>, end: nat)
    requires Indexed(s)
  {
    match Exec(s, ls)
    case None => false
    case Some(t) => SameRound(s, t) && t.mp.AtRecord? && t.mp.end == end
  }

  predicate SameRound(s: State, t: State) {
    s.h.run == t.h.run && s.h.ops == t.h.ops
  }

  // ----- without an old stamp the round is fresh, whatever happens -----

  predicate CarriesNothingOld(s: State, start: nat)
    requires Indexed(s)
  {
    && !CarriesOldStamp(s, start)
    && (s.rp[s.tid].Setting? && !s.mp.AtLock? ==> start <= s.stamps[s.tid])
  }

  /** `start` is the start of the round, and no older time can be taken for its answer any more. */
  predicate RoundFresh(s: State, start: nat)
    requires Indexed(s)
  {
    && s.now < TWO62 && start <= R.Reading(s.now)
    && !s.mp.Idle? && !s.mp.AtStart?
    && (s.mp.AtRecord? ==> start <= s.mp.end)
    && (!s.mp.AtRecord? ==> CarriesNothingOld(s, start))
    && (Requested(s.mp) && s.signaled[s.tid] ==> start <= s.stamps[s.tid])
    && (s.mp.AtUnlock? || s.mp.AtReadStamp? ==> start <= s.stamps[s.tid])
  }

  lemma MeasurerKeepsRound(s: State, start: nat)
    requires OpInv(s) && RoundFresh(s, start) && MeasurerNext(s).Some? && SameRound(s, MeasurerNext(s).value)
    ensures RoundFresh(MeasurerNext(s).value, start)
  {
    assert MutexOk(s, s.tid);
  }

  lemma RemoteKeepsRound(s: State, i: nat, start: nat)
    requires OpInv(s) && RoundFresh(s, start) && i < |s.rp| && RemoteNext(s, i).Some?
    ensures RoundFresh(RemoteNext(s, i).value, start)
  {
    assert MutexOk(s, s.tid);
  }

  lemma RunKeepsRound(s: State, step: Harness.Label, start: nat)
    requires Inv(s) && RoundFresh(s, start) && RunNext(s, step).Some?
    ensures RoundFresh(RunNext(s, step).value, start)
  {
    assert s.h.measurer.InOp?;
  }

  lemma TickKeepsRound(s: State, d: nat, start: nat)
    requires Indexed(s) && RoundFresh(s, start) && s.now + d < TWO62
    ensures RoundFresh(s.(now := s.now + d), start)
  {
    R.ReadingMonotone(s.now, s.now + d);
  }

  lemma StepKeepsRound(s: State, l: Label, start: nat)
    requires Inv(s) && RoundFresh(s, start) && Next(s, l).Some? && SameRound(s, Next(s, l).value)
    ensures RoundFresh(Next(s, l).value, start)
  {
    match l
    case Run(step) => RunKeepsRound(s, step, start);
    case Interrupt(_, _) =>
    case Tick(d) => TickKeepsRound(s, d, start);
    case Measurer => MeasurerKeepsRound(s, start);
    case SpuriousWake =>
    case Remote(i) => RemoteKeepsRound(s, i, start);
    case WaitFails(_) =>
  }

  /** Runs and rounds only count upwards. */
  predicate NotBefore(s: State, t: State) {
    s.h.run < t.h.run || (s.h.run == t.h.run && s.h.ops <= t.h.ops)
  }

  lemma NextNotBefore(s: State, l: Label)
    requires Indexed(s) && Next(s, l).Some?
    ensures NotBefore(s, Next(s, l).value)
  {
  }

  lemma {:induction false} ExecNotBefore(s: State, ls: seq<Label>)
    requires Indexed(s) && Exec(s, ls).Some?
    ensures NotBefore(s, Exec(s, ls).value)
    decreases |ls|
  {
    if ls != [] {
      NextNotBefore(s, ls[0]);
      ExecNotBefore(Next(s, ls[0]).value, ls[1..]);
    }
  }

  lemma {:induction false} FreshToTheEnd(s: State, ls: seq<Label>, start: nat)
    requires Inv(s) && RoundFresh(s, start) && Exec(s, ls).Some? && SameRound(s, Exec(s, ls).value)
    ensures RoundFresh(Exec(s, ls).value, start)
    decreases |ls|
  {
    if ls != [] {
      var s' := Next(s, ls[0]).value;
      NextNotBefore(s, ls[0]);
      ExecNotBefore(s', ls[1..]);
      StepKeepsRound(s, ls[0], start);
      StepPreserves(s, ls[0]);
      FreshToTheEnd(s', ls[1..], start);
    }
  }

  // ----- with one, it can be taken for the answer -----

  /** What the two threads of a round work on. */
  datatype Shared = Shared(mp: MeasurerOp, rp: RemoteOp, mutex: Owner, flag: bool, stamp: nat)

  predicate Shows(s: State, v: Shared) {
    Indexed(s) && !s.aborted && v == Shared(s.mp, s.rp[s.tid], s.mutex[s.tid], s.signaled[s.tid], s.stamps[s.tid])
  }

  /** t continues the round in progress in s. */
  ghost predicate Continues(s: State, t: State) {
    Indexed(s) && SameRound(s, t) && t.tid == s.tid && exists ls :: Exec(s, ls) == Some(t)
  }

  lemma Go(s: State, t: State, l: Label, v: Shared) returns (u: State)
    requires Continues(s, t) && Indexed(t) && Next(t, l).Some?
    requires Next(t, l).value.h == t.h && Next(t, l).value.tid == t.tid && Shows(Next(t, l).value, v)
    ensures Continues(s, u) && Shows(u, v)
  {
    u := Next(t, l).value;
    var ls :| Exec(s, ls) == Some(t);
    ExecSnoc(s, ls, l);
  }

  lemma SendRequest(s: State, start: Option<nat>) returns (t: State)
    requires OpInv(s) && !s.aborted && s.mp == AtLock(start) && (s.rp[s.tid].Stamping? || s.rp[s.tid].Locking?)
    ensures Continues(s, t) && Shows(t, Shared(Parked(start), s.rp[s.tid], Free, false, s.stamps[s.tid]))
  {
    assert MutexOk(s, s.tid);
    var rp, stamp := s.rp[s.tid], s.stamps[s.tid];
    assert Exec(s, []) == Some(s);
    t := Go(s, s, Measurer, Shared(AtClear(start), rp, ByMeasurer, s.signaled[s.tid], stamp));
    t := Go(s, t, Measurer, Shared(AtKill(start), rp, ByMeasurer, false, stamp));
    t := Go(s, t, Measurer, Shared(AtCheck(start), rp, ByMeasurer, false, stamp));
    t := Go(s, t, Measurer, Shared(Parked(start), rp, Free, false, stamp));
  }

  lemma Announce(s: State, t: State, start: Option<nat>, stamp: nat) returns (u: State)
    requires Continues(s, t) && Shows(t, Shared(Parked(start), Locking, Free, false, stamp))
    ensures Continues(s, u) && Shows(u, Shared(AtRelock(start), Returning, Free, true, stamp))
  {
    var i := t.tid;
    u := Go(s, t, Remote(i), Shared(Parked(start), Setting, ByRemote, false, stamp));
    u := Go(s, u, Remote(i), Shared(Parked(start), Signalling, ByRemote, true, stamp));
    u := Go(s, u, Remote(i), Shared(AtRelock(start), Unlocking, ByRemote, true, stamp));
    u := Go(s, u, Remote(i), Shared(AtRelock(start), Returning, Free, true, stamp));
  }

  lemma Accept(s: State, t: State, start: Option<nat>, stamp: nat) returns (u: State)
    requires Continues(s, t) && Shows(t, Shared(AtRelock(start), Returning, Free, true, stamp))
    ensures Continues(s, u) && Shows(u, Shared(AtRecord(start, stamp), Returning, Free, true, stamp))
  {
    u := Go(s, t, Measurer, Shared(AtCheck(start), Returning, ByMeasurer, true, stamp));
    u := Go(s, u, Measurer, Shared(AtUnlock(start), Returning, ByMeasurer, true, stamp));
    u := Go(s, u, Measurer, Shared(AtReadStamp(start), Returning, Free, true, stamp));
    u := Go(s, u, Measurer, Shared(AtRecord(start, stamp), Returning, Free, true, stamp));
  }

  /** The measurer locks first and sleeps; the remote stores, sets the flag and signals; the measurer takes
      the old time for the answer. */
  lemma OldStampAccepted(s: State, start: nat) returns (t: State)
    requires OpInv(s) && !s.aborted && s.mp == AtLock(Some(start)) && CarriesOldStamp(s, start)
    ensures Continues(s, t) && !t.aborted && t.mp.AtRecord? && t.mp.start == Some(start) && t.mp.end < start
  {
    t := SendRequest(s, Some(start));
    if s.rp[s.tid].Stamping? {
      var stamp := s.rp[s.tid].stamp;
      t := Go(s, t, Remote(t.tid), Shared(Parked(Some(start)), Locking, Free, false, stamp));
    }
    var stamp := t.stamps[t.tid];
    t := Announce(s, t, Some(start), stamp);
    t := Accept(s, t, Some(start), stamp);
  }

  /** The state after clock_gettime(&start). */
  function Started(s: State): (t: State)
    requires Indexed(s) && s.mp.AtStart?
    ensures Indexed(t)
  {
    MeasurerNext(s).value
  }

  lemma StartedReachable(s: State)
    requires Reachable(s) && Indexed(s) && !s.aborted && s.mp.AtStart?
    ensures Reachable(Started(s)) && Inv(Started(s)) && !Started(s).aborted
    ensures Started(s).mp == AtLock(Some(R.Reading(s.now)))
  {
    ReachableStep(s, Measurer);
    ReachableInv(Started(s));
  }

  lemma ContinuationReachable(s: State, t: State)
    requires Reachable(s) && Continues(s, t)
    ensures Reachable(t)
  {
    var s0: State, n: nat, before: seq<Label> :| Init(s0, n) && Exec(s0, before) == Some(s);
    var ls :| Exec(s, ls) == Some(t);
    ExecConcat(s0, before, ls);
    assert Exec(s0, before + ls) == Some(t);
  }

  lemma AssertionFails(s: State)
    requires Indexed(s) && !s.aborted && s.mp.AtRecord? && s.mp.start.Some? && s.mp.end <= s.mp.start.value
    ensures Next(s, Measurer) == Some(s.(aborted := true))
  {
  }

  /** Such a round can always end in the assertion that end_ns is greater than start_ns. */
  lemma OldStampAborts(s: State) returns (t: State)
    requires Reachable(s) && Indexed(s) && !s.aborted && s.mp.AtStart? && CarriesOldStamp(s, R.Reading(s.now))
    ensures Reachable(t) && Indexed(t) && t.mp.AtRecord? && t.mp.start.Some? && t.mp.end < t.mp.start.value
    ensures Next(t, Measurer).Some? && Next(t, Measurer).value.aborted
  {
    StartedReachable(s);
    t := OldStampAccepted(Started(s), R.Reading(s.now));
    ContinuationReachable(Started(s), t);
    AssertionFails(t);
  }

  /** A measured operation that is about to start ends with a timestamp no older than its start, on every
      schedule and with any timeouts, if and only if the awaited remote does not carry an older time. */
  lemma FreshRoundIff(s: State)
    requires Reachable(s) && Indexed(s) && !s.aborted && s.mp.AtStart?
    ensures var start := R.Reading(s.now);
      (forall ls: seq<Label>, end: nat | RoundEnds(Started(s), ls, end) :: start <= end)
      <==> !CarriesOldStamp(s, start)
  {
    var t, start := Started(s), R.Reading(s.now);
    ReachableInv(s);
    StepPreserves(s, Measurer);
    if CarriesOldStamp(s, start) {
      var u := OldStampAccepted(t, start);
      var ls :| Exec(t, ls) == Some(u);
      assert RoundEnds(t, ls, u.mp.end);
    } else {
      forall ls: seq<Label>, end: nat | RoundEnds(t, ls, end) ensures start <= end {
        FreshToTheEnd(t, ls, start);
      }
    }
  }
}
