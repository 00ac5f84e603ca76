/**
 * What the three wakeup benchmarks have in common, without any mechanism: in round k the measuring
 * thread reads the clock, remote k mod n reads the clock, and the pair is recorded.
 */
module Rendezvous {
  import opened Wrappers
  import opened TimeArithmetic

  /** `start` is None in an energy run, whose raw_operation reads no clock on the measuring side. */
  datatype Round = Round(target: nat, start: Option<nat>, stamp: nat)

  datatype Phase =
    | Idle
    | Started(start: Option<nat>)
    | Stamped(start: Option<nat>, stamp: nat)

  /** `now` is the exact clock in nanoseconds and `lastRead` its value at the latest clock_gettime. */
  datatype State = State(n: nat, now: nat, lastRead: nat, phase: Phase, rounds: seq<Round>)

  datatype Label =
    | Reset
    | Tick(d: nat)
    | Begin(timed: bool)
    | Stamp(remote: nat)
    | Finish
    | Look    // a clock reading outside any round

  /** What timespec_to_ns makes of a clock reading. */
  function Reading(now: nat): nat {
    TimespecToNs(OfNs(now))
  }

  lemma ReadingMonotone(a: nat, b: nat)
    requires a <= b < TWO62
    ensures Reading(a) <= Reading(b)
    ensures b < TWO53 ==> Reading(a) == a && Reading(b) == b
  {
    NotAfterIsExact(OfNs(a), OfNs(b));
    ToNsMonotone(OfNs(a), OfNs(b));
    SingleRounding(OfNs(a));
    SingleRounding(OfNs(b));
  }

  /** A reading is the exact clock, rounded once. */
  lemma ReadingIsOneRounding(now: nat)
    requires now < TWO62
    ensures RoundsTiesToEven(now, Reading(now))
  {
    SingleRounding(OfNs(now));
  }

  lemma ReadingPositive(now: nat)
    requires 0 < now < TWO62
    ensures 0 < Reading(now)
  {
    ReadingMonotone(0, 1);
    ReadingMonotone(1, now);
  }

  /** Every round whose stamp is read d ns after its start, in binade k, passes end_ns > start_ns. */
  ghost predicate GapPasses(k: nat, d: nat) {
    forall start: nat, stamp: nat | stamp == start + d && InBinade(stamp, k) :: Reading(start) < Reading(stamp)
  }

  lemma LongGapPasses(k: nat, d: nat, start: nat, stamp: nat)
    requires 53 <= k < 62 && AssertionSafe(k, d) && stamp == start + d && InBinade(stamp, k)
    ensures Reading(start) < Reading(stamp)
  {
    BinadeInRange(stamp, k);
    assert TimeDiff(OfNs(start), OfNs(stamp)).Elapsed?;
  }

  lemma ShortGapFails(k: nat, d: nat) returns (start: nat, stamp: nat)
    requires 53 <= k < 62 && d <= Pow2(k - 52)
    ensures stamp == start + d && InBinade(stamp, k) && Reading(start) == Reading(stamp)
  {
    var a, b := SwallowedGap(k, d);
    start, stamp := a.Exact(), b.Exact();
    SameTimespec(a);
    SameTimespec(b);
  }

  lemma SameTimespec(ts: Timespec)
    requires ts.Valid()
    ensures OfNs(ts.Exact()) == ts
  {
    DivStep(ts.Exact(), ts.sec, NS_PER_SEC);
  }

  /** Past 2^53 ns a round passes for certain exactly when its gap is longer than a unit in the last place. */
  lemma GapPassesIff(k: nat, d: nat)
    requires 53 <= k < 62
    ensures GapPasses(k, d) <==> d > Pow2(k - 52)
  {
    if d > Pow2(k - 52) {
      AssertionSafeIff(k, d);
      forall start: nat, stamp: nat | stamp == start + d && InBinade(stamp, k)
        ensures Reading(start) < Reading(stamp)
      {
        LongGapPasses(k, d, start, stamp);
      }
    } else {
      var start, stamp := ShortGapFails(k, d);
    }
  }

  lemma BinadeInRange(x: nat, k: nat)
    requires k < 62 && InBinade(x, k)
    ensures x < TWO62
  {
    Pow2Constants();
    Pow2Monotone(k + 1, 62);
  }

  // ----- the specification -----

  /** What measured_operation's caller records: the difference; raw_operation returns nothing. */
  function Recording(hist: seq<nat>, start: Option<nat>, end: nat): seq<nat>
    requires start.Some? ==> start.value <= end
  {
    if start.Some? then hist + [end - start.value] else hist
  }

  /** diff is the positive difference of a timed round. */
  predicate Recorded(round: Round, diff: nat) {
    round.start.Some? && round.start.value < round.stamp && diff == round.stamp - round.start.value
  }

  function Next(s: State, l: Label): Option<State>
    requires s.n > 0
  {
    match l
    case Reset => if s.phase.Idle? then Some(s.(rounds := [])) else None
    case Tick(d) => if s.now + d < TWO62 then Some(s.(now := s.now + d)) else None
    case Begin(timed) =>
      if s.phase.Idle? then
        if timed
        then Some(s.(phase := Started(Some(Reading(s.now))), lastRead := s.now))
        else Some(s.(phase := Started(None)))
      else None
    case Stamp(i) =>
      if s.phase.Started? && i == |s.rounds| % s.n
      then Some(s.(phase := Stamped(s.phase.start, Reading(s.now)), lastRead := s.now))
      else None
    case Finish =>
      if s.phase.Stamped?
      then Some(s.(phase := Idle,
                   rounds := s.rounds + [Round(|s.rounds| % s.n, s.phase.start, s.phase.stamp)]))
      else None
    case Look => if s.phase.Idle? then Some(s.(lastRead := s.now)) else None
  }

  /** A round starts when none is open, is stamped once, by the remote whose turn it is, and only then
      finished. */
  lemma StepsInTurn(s: State, i: nat, timed: bool, d: nat)
    requires s.n > 0
    ensures Next(s, Begin(timed)).Some? <==> s.phase.Idle?
    ensures Next(s, Stamp(i)).Some? <==> s.phase.Started? && i == |s.rounds| % s.n
    ensures Next(s, Finish).Some? <==> s.phase.Stamped?
    ensures Next(s, Finish).Some? ==>
              |Next(s, Finish).value.rounds| == |s.rounds| + 1 && s.rounds <= Next(s, Finish).value.rounds
    ensures Next(s, Reset).Some? <==> s.phase.Idle?
    ensures Next(s, Look).Some? <==> s.phase.Idle?
    ensures Next(s, Tick(d)).Some? ==> Next(s, Tick(d)).value.now == s.now + d
  {
  }

  function Exec(s: State, ls: seq<Label>): (r: Option<State>)
    requires s.n > 0
    ensures r.Some? ==> r.value.n == s.n
    decreases |ls|
  {
    if ls == [] then Some(s)
    else match Next(s, ls[0])
      case None => None
      case Some(s') => Exec(s', ls[1..])
  }

  lemma {:induction false} ExecConcat(s: State, a: seq<Label>, b: seq<Label>)
    requires s.n > 0 && Exec(s, a).Some?
    ensures Exec(s, a + b) == Exec(Exec(s, a).value, b)
    decreases |a|
  {
    if a == [] {
      assert a + b == b;
    } else {
      assert (a + b)[0] == a[0] && (a + b)[1..] == a[1..] + b;
      ExecConcat(Next(s, a[0]).value, a[1..], b);
    }
  }

  // ----- what the specification guarantees -----

  predicate NotLater(a: Option<nat>, b: nat) {
    a.Some? ==> a.value <= b
  }

  predicate NotEarlier(a: Option<nat>, b: nat) {
    a.Some? ==> b <= a.value
  }

  /** Each round starts before its stamp, which comes before the next round's start. */
  ghost predicate Ordered(rounds: seq<Round>) {
    && (forall k | 0 <= k < |rounds| :: NotLater(rounds[k].start, rounds[k].stamp))
    && (forall k | 0 < k < |rounds| :: rounds[k - 1].stamp <= rounds[k].stamp)
    && (forall k | 0 < k < |rounds| :: NotEarlier(rounds[k].start, rounds[k - 1].stamp))
  }

  ghost predicate RoundRobin(rounds: seq<Round>, n: nat)
    requires n > 0
  {
    forall k | 0 <= k < |rounds| :: rounds[k].target == k % n
  }

  function LastStamp(rounds: seq<Round>): nat {
    if rounds == [] then 0 else rounds[|rounds| - 1].stamp
  }

  ghost predicate Inv(s: State) {
    && s.n > 0
    && s.lastRead <= s.now < TWO62
    && Ordered(s.rounds)
    && RoundRobin(s.rounds, s.n)
    && LastStamp(s.rounds) <= Reading(s.lastRead)
    && match s.phase
       case Idle => true
       case Started(start) =>
         NotEarlier(start, LastStamp(s.rounds)) && (start.Some? ==> start.value == Reading(s.lastRead))
       case Stamped(start, stamp) =>
         && NotLater(start, stamp)
         && NotEarlier(start, LastStamp(s.rounds))
         && LastStamp(s.rounds) <= stamp == Reading(s.lastRead)
  }

  lemma OrderedAppend(rounds: seq<Round>, r: Round)
    requires Ordered(rounds) && NotLater(r.start, r.stamp)
    requires LastStamp(rounds) <= r.stamp && NotEarlier(r.start, LastStamp(rounds))
    ensures Ordered(rounds + [r]) && LastStamp(rounds + [r]) == r.stamp
  {
  }

  lemma RoundRobinAppend(rounds: seq<Round>, r: Round, n: nat)
    requires n > 0 && RoundRobin(rounds, n) && r.target == |rounds| % n
    ensures RoundRobin(rounds + [r], n)
  {
  }

  lemma FinishPreserves(s: State)
    requires Inv(s) && Next(s, Finish).Some?
    ensures Inv(Next(s, Finish).value)
  {
    var r := Round(|s.rounds| % s.n, s.phase.start, s.phase.stamp);
    OrderedAppend(s.rounds, r);
    RoundRobinAppend(s.rounds, r, s.n);
  }

  lemma ReadPreserves(s: State, l: Label)
    requires Inv(s) && Next(s, l).Some? && (l.Begin? || l.Stamp? || l.Look?)
    ensures Inv(Next(s, l).value)
  {
    ReadingMonotone(s.lastRead, s.now);
  }

  lemma StepPreserves(s: State, l: Label)
    requires Inv(s) && Next(s, l).Some?
    ensures Inv(Next(s, l).value)
  {
    match l
    case Reset =>
    case Tick(_) =>
    case Begin(_) => ReadPreserves(s, l);
    case Stamp(_) => ReadPreserves(s, l);
    case Finish => FinishPreserves(s);
    case Look => ReadPreserves(s, l);
  }

  lemma {:induction false} ExecInv(s: State, ls: seq<Label>)
    requires Inv(s) && Exec(s, ls).Some?
    ensures Inv(Exec(s, ls).value)
    decreases |ls|
  {
    if ls != [] {
      StepPreserves(s, ls[0]);
      ExecInv(Next(s, ls[0]).value, ls[1..]);
    }
  }

  /** If the clock has advanced since the start was read, and uptime is below 2^53 ns, the assertion
      end_ns > start_ns of the measuring thread will pass. */
  lemma StampAfterAdvance(s: State, i: nat)
    requires Inv(s) && s.phase.Started? && s.phase.start.Some? && Next(s, Stamp(i)).Some?
    requires s.lastRead < s.now < TWO53
    ensures s.phase.start.value < Next(s, Stamp(i)).value.phase.stamp
  {
    ReadingMonotone(s.lastRead, s.now);
  }

  predicate Later(phase: Phase) {
    phase.Stamped? && phase.start.Some? ==> phase.start.value < phase.stamp
  }

  lemma LaterStep(a: State, l: Label)
    requires Inv(a) && Later(a.phase) && Next(a, l).Some?
    requires l.Stamp? ==> a.lastRead < a.now < TWO53
    ensures Later(Next(a, l).value.phase)
  {
    if l.Stamp? && a.phase.Started? && a.phase.start.Some? {
      StampAfterAdvance(a, l.remote);
    }
  }

  lemma LaterExec(a: State, ls: seq<Label>)
    requires Inv(a) && Later(a.phase) && |ls| <= 1 && Exec(a, ls).Some?
    requires forall l | l in ls && l.Stamp? :: a.lastRead < a.now < TWO53
    ensures Later(Exec(a, ls).value.phase)
  {
    if ls != [] {
      LaterStep(a, ls[0]);
      assert ls[1..] == [];
    }
  }

  // ----- round-robin conservation -----

  /** How many rounds remote i has served. */
  function Served(rounds: seq<Round>, i: nat): nat {
    if rounds == [] then 0
    else Served(rounds[..|rounds| - 1], i) + if rounds[|rounds| - 1].target == i then 1 else 0
  }

  /** The ceiling of (k - i) / n when i < k, and zero otherwise. */
  function Share(k: nat, i: nat, n: nat): nat
    requires i < n
  {
    if i < k then (k - i + n - 1) / n else 0
  }

  lemma ShareClosed(k: nat, i: nat, n: nat)
    requires i < n
    ensures Share(k, i, n) == k / n + if i < k % n then 1 else 0
  {
    var q, r := k / n, k % n;
    DivMod(k, n);
    Distribute(q, n);
    Distribute(q + 1, n);
    if i >= k {
      DivStep(k, 0, n);
    } else if i < r {
      DivStep(k - i + n - 1, q + 1, n);
    } else {
      DivStep(k - i + n - 1, q, n);
    }
  }

  lemma QuotientStep(k: nat, n: nat)
    requires n > 0
    ensures if k % n == n - 1
            then (k + 1) / n == k / n + 1 && (k + 1) % n == 0
            else (k + 1) / n == k / n && (k + 1) % n == k % n + 1
  {
    DivMod(k, n);
    NextQuotient(k, k / n, k % n, n);
  }

  /** What raw_operation and measured_operation do to their index. */
  lemma NextIndex(k: nat, n: nat)
    requires n > 0
    ensures (k % n + 1) % n == (k + 1) % n
  {
    QuotientStep(k, n);
  }

  lemma NextQuotient(k: nat, q: nat, r: nat, n: nat)
    requires r < n && k == q * n + r
    ensures if r == n - 1
            then (k + 1) / n == q + 1 && (k + 1) % n == 0
            else (k + 1) / n == q && (k + 1) % n == r + 1
  {
    Distribute(q, n);
    if r == n - 1 {
      Distribute(q + 1, n);
      DivStep(k + 1, q + 1, n);
    } else {
      DivStep(k + 1, q, n);
    }
  }

  lemma ShareStep(k: nat, i: nat, n: nat)
    requires i < n
    ensures Share(k + 1, i, n) == Share(k, i, n) + if k % n == i then 1 else 0
  {
    ShareClosed(k, i, n);
    ShareClosed(k + 1, i, n);
    QuotientStep(k, n);
  }

  /** After k rounds remote i has served exactly its share, and no two shares differ by more than one. */
  lemma {:induction false} RoundRobinConservation(rounds: seq<Round>, n: nat, i: nat)
    requires n > 0 && RoundRobin(rounds, n) && i < n
    ensures Served(rounds, i) == Share(|rounds|, i, n)
  {
    if rounds != [] {
      var k := |rounds| - 1;
      RoundRobinConservation(rounds[..k], n, i);
      ShareStep(k, i, n);
    }
  }

  /** So no remote has served more than one round more than another, and none more than an earlier one. */
  lemma SharesBalanced(rounds: seq<Round>, i: nat, j: nat, n: nat)
    requires i <= j < n && RoundRobin(rounds, n)
    ensures Served(rounds, j) <= Served(rounds, i) <= Served(rounds, j) + 1
  {
    RoundRobinConservation(rounds, n, i);
    RoundRobinConservation(rounds, n, j);
    ShareClosed(|rounds|, i, n);
    ShareClosed(|rounds|, j, n);
  }

  /** The three laws together, in every run of the specification. */
  lemma RendezvousLaws(s0: State, ls: seq<Label>, i: nat, j: nat)
    requires Inv(s0) && Exec(s0, ls).Some? && i <= j < s0.n
    ensures var s := Exec(s0, ls).value;
      && Ordered(s.rounds)
      && RoundRobin(s.rounds, s.n)
      && Served(s.rounds, i) == Share(|s.rounds|, i, s.n)
      && Served(s.rounds, j) <= Served(s.rounds, i) <= Served(s.rounds, j) + 1
  {
    ExecInv(s0, ls);
    var s := Exec(s0, ls).value;
    RoundRobinConservation(s.rounds, s.n, i);
    SharesBalanced(s.rounds, i, j, s.n);
  }
}
