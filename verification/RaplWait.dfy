/**
 * wait_for_rapl_sampling_period_begin spins until the millisecond changes, but it compares
 * only tv_nsec / 1000000, the millisecond within the second.
 */
module RaplWait {
  import opened TimeArithmetic
  import opened Wrappers

  const NS_PER_MS: nat := 1_000_000
  /** One nanosecond more and a reading may land in the same millisecond of a later second. */
  const MAX_SAFE_GAP: nat := 999_000_000

  /** What the loop looks at. */
  function MsField(ts: Timespec): nat {
    ts.nsec / NS_PER_MS
  }

  /** What it stands for: the RAPL period, counted from the clock's origin. */
  function AbsoluteMs(ts: Timespec): nat {
    ts.Exact() / NS_PER_MS
  }

  ghost predicate Monotone(clock: seq<Timespec>) {
    && (forall i | 0 <= i < |clock| :: clock[i].Valid())
    && (forall i, j | 0 <= i <= j < |clock| :: clock[i].Exact() <= clock[j].Exact())
  }

  ghost predicate GapsAtMost(clock: seq<Timespec>, gap: nat) {
    forall i | 0 < i < |clock| :: clock[i].Exact() - clock[i - 1].Exact() <= gap
  }

  ghost predicate StopsAt(clock: seq<Timespec>, i: nat) {
    && 0 < i < |clock|
    && MsField(clock[i]) != MsField(clock[0])
    && (forall j | 0 <= j < i :: MsField(clock[j]) == MsField(clock[0]))
  }

  ghost predicate EntersLaterMsAt(clock: seq<Timespec>, i: nat) {
    && 0 < i < |clock|
    && AbsoluteMs(clock[0]) < AbsoluteMs(clock[i])
    && (forall j | 0 <= j < i :: AbsoluteMs(clock[j]) == AbsoluteMs(clock[0]))
  }

  /** clock[0] is the start reading and clock[1..] what later calls of clock_gettime return;
      None means that the loop is still spinning after the last of them. */
  method WaitForSamplingPeriodBegin(clock: seq<Timespec>) returns (r: Option<nat>)
    requires |clock| > 0
    ensures r.Some? ==> StopsAt(clock, r.value)
    ensures r.None? ==> forall i :: !StopsAt(clock, i)
    ensures r.Some? && Monotone(clock) ==> AbsoluteMs(clock[0]) < AbsoluteMs(clock[r.value])
  {
    var start := clock[0];
    var i := 1;
    while i < |clock|
      invariant 1 <= i <= |clock|
      invariant forall j | 0 <= j < i :: MsField(clock[j]) == MsField(start)
    {
      var now := clock[i];
      if start.nsec / NS_PER_MS != now.nsec / NS_PER_MS {
        if Monotone(clock) {
          StopCrossesBoundary(clock, i);
        }
        return Some(i);
      }
      i := i + 1;
    }
    return None;
  }

  lemma MsOfTimespec(ts: Timespec)
    requires ts.Valid()
    ensures AbsoluteMs(ts) == ts.sec * 1000 + MsField(ts) && MsField(ts) < 1000
  {
  }

  /** Whatever the clock does between readings, a changed field means a later absolute millisecond. */
  lemma StopCrossesBoundary(clock: seq<Timespec>, i: nat)
    requires Monotone(clock) && StopsAt(clock, i)
    ensures AbsoluteMs(clock[0]) < AbsoluteMs(clock[i])
  {
    MsOfTimespec(clock[0]);
    MsOfTimespec(clock[i]);
  }

  ghost predicate GapSafe(gap: nat) {
    forall clock: seq<Timespec>, i: nat | Monotone(clock) && GapsAtMost(clock, gap)
      :: StopsAt(clock, i) <==> EntersLaterMsAt(clock, i)
  }

  lemma StopsAtFirstLaterMs(clock: seq<Timespec>, i: nat)
    requires Monotone(clock) && GapsAtMost(clock, MAX_SAFE_GAP)
    ensures StopsAt(clock, i) <==> EntersLaterMsAt(clock, i)
  {
    if 0 < i < |clock| {
      if EntersLaterMsAt(clock, i) {
        forall j | 0 <= j < i ensures MsField(clock[j]) == MsField(clock[0]) {
          MsOfTimespec(clock[j]);
          MsOfTimespec(clock[0]);
        }
        LaterMsIsVisible(clock[i - 1], clock[i]);
        MsOfTimespec(clock[0]);
      }
      if StopsAt(clock, i) {
        SameMsWhileSpinning(clock, i - 1);
        StopCrossesBoundary(clock, i);
      }
    }
  }

  lemma LaterMsIsVisible(a: Timespec, b: Timespec)
    requires a.Valid() && b.Valid() && a.Exact() <= b.Exact() <= a.Exact() + MAX_SAFE_GAP
    ensures AbsoluteMs(a) < AbsoluteMs(b) <==> MsField(a) != MsField(b)
  {
    MsOfTimespec(a);
    MsOfTimespec(b);
  }

  lemma {:induction false} SameMsWhileSpinning(clock: seq<Timespec>, i: nat)
    requires Monotone(clock) && GapsAtMost(clock, MAX_SAFE_GAP) && i < |clock|
    requires forall j | 0 <= j <= i :: MsField(clock[j]) == MsField(clock[0])
    ensures forall j | 0 <= j <= i :: AbsoluteMs(clock[j]) == AbsoluteMs(clock[0])
  {
    if i > 0 {
      SameMsWhileSpinning(clock, i - 1);
      LaterMsIsVisible(clock[i - 1], clock[i]);
    }
  }

  /** 999 000 001 ns apart, in different milliseconds with the same number within their second. */
  const SAME_FIELD := [Timespec(0, 999_999), Timespec(1, 0)]

  lemma MillisecondMissed()
    ensures Monotone(SAME_FIELD) && GapsAtMost(SAME_FIELD, MAX_SAFE_GAP + 1)
    ensures EntersLaterMsAt(SAME_FIELD, 1) && !StopsAt(SAME_FIELD, 1)
  {
    assert MsField(SAME_FIELD[0]) == MsField(SAME_FIELD[1]) == 0;
    assert AbsoluteMs(SAME_FIELD[0]) == 0 && AbsoluteMs(SAME_FIELD[1]) == 1000;
  }

  /** The loop stops at the first reading of a later millisecond, on every clock whose consecutive
      readings are at most `gap` ns apart, exactly when `gap` is at most 999 ms. */
  lemma GapSafeIff(gap: nat)
    ensures GapSafe(gap) <==> gap <= MAX_SAFE_GAP
  {
    if gap <= MAX_SAFE_GAP {
      forall clock: seq<Timespec>, i: nat | Monotone(clock) && GapsAtMost(clock, gap)
        ensures StopsAt(clock, i) <==> EntersLaterMsAt(clock, i)
      {
        StopsAtFirstLaterMs(clock, i);
      }
    } else {
      MillisecondMissed();
      assert GapsAtMost(SAME_FIELD, gap);
    }
  }
}
