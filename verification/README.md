# posixbench in Dafny

posixbench measures how long one thread takes to wake up another, and what that costs in energy. Most of
it times a single system call. This project models the part that is a protocol, and proves what the
numbers it prints rely on:

- **the three wakeup benchmarks** (`bench-pthread-kill.cpp`, `bench-eventfd.cpp`,
  `bench-eventfd-nonblock.cpp`): a measuring thread and n interfering threads play request, timestamp,
  reply, round after round;
- **the harness around them** (`LatencyBenchmark::run`, `EnergyBenchmark::run` in `benchmark.h`), over any
  sequence of runs: threads, `stop`, the alarm, the SIGINT that frees blocked threads, the joins;
- **the time arithmetic** (`timespec_to_ns`, `time_diff`) in binary64, and the wait for a RAPL period;
- **the placement** of the interfering thread (`find_package`, `find_other_pu`) on hwloc's tree.

## How the model is built

The concurrent programs are labelled transition systems. One label is one atomic statement of one thread
(a lock, a signal, a descriptor read, a clock read, a store to a flag), a schedule is any sequence of
labels, and every theorem is about all schedules. The state of a wakeup benchmark contains the state of the
harness, and every run of a benchmark is a run of the harness (`Eventfd.HarnessReachable`,
`Handshake.HarnessReachable`), so "the peer is alive while I wait for it" is proved from the order in which
the harness stores `stop`, not assumed.

| file | content |
|---|---|
| `Harness.dfy` | the two `run` methods: main, measuring and interfering threads, alarm and signals |
| `Rendezvous.dfy` | the specification shared by the three benchmarks: round k starts, remote k mod n stamps it, the pair is recorded |
| `Eventfd.dfy` | both eventfd benchmarks inside the harness, and their invariant |
| `EventfdLaws.dfy` | token conservation, progress, refinement of the rendezvous, assertions |
| `EventfdErasure.dfy` | a polling run with its polls erased is a blocking run |
| `EventfdShutdown.dfy`, `EventfdHang.dfy` | how a run ends, and the one way in which it does not |
| `Handshake.dfy` | the signal, mutex and condition variable benchmark inside the harness, and its invariant |
| `HandshakeLaws.dfy` | lost-wakeup freedom, signal target, mutual exclusion, shutdown, under any timeouts |
| `HandshakeShutdown.dfy` | the SIGINT in `sigtimedwait`, and that every run can end |
| `HandshakeFreshness.dfy` | refinement and freshness when `sigtimedwait` does not time out |
| `HandshakeStaleness.dfy`, `HandshakeStale.dfy` | with timeouts: exactly which rounds can be stale, and that they occur |
| `HarnessProcess.dfy`, `EventfdProcess.dfy`, `HandshakeProcess.dfy` | the same three programs as objects whose fields are updated in place, one method per statement, each proved to do what the transition system does and, from the invariant, what its caller relies on |
| `TimeArithmetic.dfy`, `RaplWait.dfy` | round-to-nearest-even on naturals, `timespec_to_ns`, `time_diff`, the RAPL loop |
| `Placement.dfy` | hwloc's tree and logical order, the two searches |

## Assumptions

- Memory is sequentially consistent: the relaxed load of `stop` and the plain `signaled` flag are read in an
  interleaving of the statements.
- A signal delivery and the store in its handler are one step. SIGALRM and the user's SIGINT, which are sent
  to the process, are handled by the main thread, so they do not make a descriptor read of another thread
  fail with EINTR. The harness's own SIGINT is handled by the thread it was sent to, at any moment the
  thread is still in its loop: also between the test of `stop` and the blocking call, where it interrupts
  nothing.
- A newly armed alarm, which lasts at least a second, does not expire before the next statement.
- `local_efd` is not 0, the clock is positive, never decreases, and stays below 2^62 ns (146 years).
- Assertions are compiled in (the build files define no NDEBUG); a failing one stops every step.
- The number of interfering threads is any n >= 1, one descriptor for each; the code fixes it at 1
  (`benchmark.h:115`) but computes its indices for any number.
- A run that returns before it spawns anything (no partner PU, unsupported scenario) changes no modelled
  state, so it is no step of the model. A run without a partner has n = 0 threads in `Harness`.
- hwloc's tree has all PUs at one depth and at most one package on each path (`Placement.WellFormed`); only
  the theorems about order need it.

## Where the code does not do what it seems to promise

Each of these is a theorem with a concrete input or schedule, next to the exact condition under which the
code does meet the expectation.

- `assert(start_ns < end_ns)` can fail on a strictly advancing clock after 2^53 ns (104 days) of uptime:
  in binade k it is safe exactly for gaps longer than 2^(k-52) ns (`TimeArithmetic.AssertionSafeIff`, and for
  the rounds of the wakeup benchmarks `Rendezvous.GapPassesIff`); `TimeArithmetic.SwallowedGap` gives the
  readings for every shorter gap.
- `timespec_to_ns` rounds once, as if the result were computed exactly, up to 2^62 ns and not beyond
  (`TimeArithmetic.SingleRoundingIffInRange`, `TimeArithmetic.DoubleRounding`).
- The RAPL loop compares the millisecond within the second. It stops at the first reading in a later
  millisecond exactly when consecutive readings are at most 999 ms apart (`RaplWait.GapSafeIff`, `RaplWait.MillisecondMissed`).
- `find_other_pu` looks only at later PUs, and gives up at a PU without package
  (`Placement.MissedIffAllEarlier` and `Placement.HitIff`, with the machines of
  `Placement.PartnerBehindIsMissed` and `Placement.PartnerBehindGapIsMissed`).
- The blocking eventfd benchmark can hang at shutdown: if the SIGINT is handled after the remote has tested
  `stop` and before it sleeps in the read, the joins never finish (`EventfdHang.HangReachable`). That is the
  only way: without it some schedule ends the run (`EventfdShutdown.RunEndsIff`).
- `sigtimedwait` returning -1 is treated like the signal. A remote that timed out and has read the clock
  before a round can then answer that round with the old time (`HandshakeStale.StaleTimestampReachable`);
  nothing else makes a round stale (`HandshakeStaleness.FreshRoundIff`).

## Model

| member | source | states |
|---|---|---|
| TimeArithmetic.CorrectRounding | benchmark.h:30 | the rounding used by the model is the one section 4.3.1 of IEEE 754-2019 describes (a nearest 53-bit value, the even one on a tie), and no other result meets that description |
| TimeArithmetic.SingleRounding | benchmark.h:29-31 | with nsec below 1e9 and sec * 1e9 below 2^62 the expression equals the exact nanosecond count rounded once, a fused multiply-add gives the same, and below 2^53 ns the result is exact |
| TimeArithmetic.SingleRoundingIffInRange | benchmark.h:29-31 | every timespec up to a given uptime is rounded once if and only if that uptime is below 2^62 ns |
| TimeArithmetic.ToNsError | benchmark.h:29-31 | out of range too, the result is within half a unit in the last place of the product plus half a unit of the sum |
| TimeArithmetic.DoubleRounding | benchmark.h:30 | the first second beyond has a timespec that is rounded twice, and on which the fused and unfused evaluations differ |
| TimeArithmetic.ToNsMonotone | benchmark.h:29-31 | never decreases when (sec, nsec) does not decrease lexicographically |
| TimeArithmetic.DiffOfReadings | benchmark.h:34-37 | on any two readings time_diff returns the positive difference of their conversions, or aborts exactly when the end's is not greater |
| TimeArithmetic.AssertionFailsIff | benchmark.h:36 | on a clock that does not decrease it aborts if and only if both readings convert to the same number |
| TimeArithmetic.DiffError | benchmark.h:33-38 | for a clock that does not decrease the subtraction never wraps, and with k = floor(log2 end) >= 53 what time_diff returns is within 2^(k-52) ns of the true elapsed time |
| TimeArithmetic.DiffExactBelow53Bits | benchmark.h:33-38 | below 2^53 ns the difference is the true elapsed time, and the assertion fails only if the clock did not advance |
| TimeArithmetic.AssertionSafeIff | benchmark.h:36 | past 2^53 ns, in binade k, all pairs of readings d apart pass the assertion if and only if d > 2^(k-52) |
| TimeArithmetic.SwallowedGap | benchmark.h:36 | for every smaller gap there are two readings that convert to the same number |
| RaplWait.WaitForSamplingPeriodBegin | benchmark.h:371-385 | returns at the first reading whose millisecond field differs from the start's, spins on if there is none, and on a clock that does not decrease an absolute millisecond boundary was crossed |
| RaplWait.StopCrossesBoundary | benchmark.h:381-383 | stopping means a later absolute millisecond, however the clock moved between readings |
| RaplWait.StopsAtFirstLaterMs | benchmark.h:376-384 | with readings at most 999 ms apart the loop stops exactly at the first reading of a later millisecond |
| RaplWait.GapSafeIff | benchmark.h:381 | that holds for all clocks with a given maximal gap if and only if the gap is at most 999 ms |
| RaplWait.MillisecondMissed | benchmark.h:381 | two readings 999 000 001 ns apart in different milliseconds at which the loop does not stop |
| Placement.FindPackage | benchmark.h:145-152 | the closest strict ancestor that is a package, nothing if there is none; terminates |
| Placement.PackageUnique | benchmark.h:145-152 | that description determines the result |
| Placement.FindOtherPu | benchmark.h:154-187 | returns the first later PU in logical order that stands in the asked relation and is not preceded by a PU without package, nothing if there is none; terminates |
| Placement.LogicalOrder | benchmark.h:160 | hwloc's order of PUs visits each PU of the tree, and nothing else, in lexicographic order of the paths |
| Placement.Trichotomy | benchmark.h:166-184 | two PUs are in exactly one of the same-core, same-package-other-core and other-package relations |
| Placement.CoreContiguous | benchmark.h:179-183 | everything between two PUs of a core belongs to that core |
| Placement.PackageContiguous | benchmark.h:174-178 | everything between two PUs of a package belongs to that package |
| Placement.SmtIsSuccessor | benchmark.h:179-183 | the SMT partner is the immediate successor |
| Placement.PlacementOrder | benchmark.h:154-187 | when the scenarios succeed from one PU, SMT partner = successor < multicore partner < NUMA partner |
| Placement.HitIff | benchmark.h:160-186 | the search succeeds if and only if some later PU is related and every PU up to it has a package |
| Placement.CompleteFromFirst | benchmark.h:160-186 | from the first PU of a fully packaged machine it fails if and only if no partner exists |
| Placement.MissedIffAllEarlier | benchmark.h:160-186 | from any PU of such a machine it fails if and only if all partners come earlier |
| Placement.PartnerBehindIsMissed | benchmark.h:160 | a machine with one core of two PUs, fully packaged: from the second PU no SMT partner is found |
| Placement.PartnerBehindGapIsMissed | benchmark.h:163-165 | a machine with two packages and a core outside both between them: no PU on the other package is found |
| Harness.StepPreserves | benchmark.h:194-308 | every statement of every thread keeps the invariant that ties thread states, `stop`, pending SIGINTs, alarms and joins to where the main and measuring threads are |
| Harness.AlarmGeneration | benchmark.h:241-246 | a loop that leaves on `alarm_fired` does so because of the alarm armed for this very run and sample, not one left from an earlier run or from the extra alarm before the energy loop; alarm(0) never ends a latency loop |
| Harness.AlarmNotLost | benchmark.h:241-246 | as long as a loop runs its alarm is armed or has set the flag: clearing `alarm_fired` after alarm() loses none |
| Harness.LatencyLoopLeavesIff | benchmark.h:246 | a latency loop leaves at a test if and only if the tested flag is set, and begins an operation only if both were clear |
| Harness.SampleEndsIff | benchmark.h:420-448 | an energy sample ends if and only if its alarm has set the flag, and prints the operations since that alarm was armed |
| Harness.FlagsStaySet | benchmark.h:132-143 | a flag that is set while a loop runs is not cleared by anybody until the loop has left |
| Harness.NoSigintLeak | benchmark.h:298-305 | the SIGINTs of a run are taken or discarded before its joins are over, so a latency loop leaves on `sigint_fired` only if the user interrupted that run |
| Harness.LifetimeSafety | benchmark.h:480-505 | every spawned thread is joined exactly once before the topology is destroyed, and no thread takes a step of the harness outside the life of `action`, `stop` and `topology`, also when the MSR device cannot be opened |
| Harness.MsrFailureStops | benchmark.h:501-505 | if the device cannot be opened the measuring thread stores `stop` and returns without one operation, and can be joined |
| Harness.EnergySamples | benchmark.h:525-529 | an energy run whose device was opened takes exactly `nr_samples` samples (none if that is not positive), one that could not open it none, and the printed `iterations` add up to all operations of the run |
| Harness.IterationsCounted | benchmark.h:406-423 | in the loop of sample j there are j samples behind it, `iterations` is the number of operations since its alarm was armed, and the samples behind it hold all earlier ones |
| Harness.MainBlockedIff | benchmark.h:298-305 | the main thread waits only in a join, for a thread that has not finished |
| Harness.MeasurerBlockedIff | benchmark.h:233-251 | the measuring thread waits only inside an operation |
| Harness.ThreadBlockedIff | benchmark.h:226-228 | an interfering thread in its loop waits only inside `other_operation`, and can always take a pending SIGINT |
| Harness.RunBegins | benchmark.h:194-220 | a run can begin exactly when none is in progress, with the requested mode and threads and nothing left of earlier runs |
| Harness.RunCanEnd | benchmark.h:194-308 | from wherever a run is, with operations that return, an alarm that expires and a user who can interrupt, some schedule brings it to its end |
| Harness.PeersAlive | benchmark.h:226-251 | while an operation is in progress `stop` is false and every interfering thread is in its slot and in its loop |
| Harness.SamplesCounted | benchmark.h:244-271 | in a latency run `nr_samples` is the number of operations completed, in the loop and when it is printed after `stop` is stored |
| Rendezvous.RendezvousLaws | benchmark.h:246-250 | in every run of the shared specification start <= stamp <= next start, remotes are visited in turn, remote i has served ceil((k - i) / n) of k rounds, and counts differ by at most one |
| Rendezvous.RoundRobinConservation | bench-eventfd.cpp:62 | after k rounds over n remotes remote i has served exactly ceil((k - i) / n) of them if i < k, else none |
| Rendezvous.SharesBalanced | bench-pthread-kill.cpp:54 | when rounds are taken in turn, no remote has served more than one round more than another, and none more than one before it |
| Rendezvous.StampAfterAdvance | bench-eventfd.cpp:63-65 | if the clock advanced since the start was read, below 2^53 ns, the stamp is strictly greater than the start |
| Rendezvous.StepsInTurn | bench-eventfd.cpp:50-66 | a round starts when none is open, is stamped once, by the remote whose turn it is, and only then finished |
| Rendezvous.ReadingIsOneRounding | benchmark.h:29-31 | a clock reading is the exact clock rounded once |
| Rendezvous.GapPassesIff | bench-eventfd.cpp:63-64 | past 2^53 ns, in binade k, every round stamped d ns after its start passes the assertion if and only if d > 2^(k-52) |
| Eventfd.StepPreserves | bench-eventfd.cpp:39-85 | every step of the eventfd benchmark in its harness keeps the token, link and histogram invariants |
| Eventfd.HarnessProjection | bench-eventfd.cpp:50-85 | each step of the benchmark is one step of the harness or leaves the harness alone |
| Eventfd.HarnessReachable | bench-eventfd.cpp:50-85 | the harness inside a reachable benchmark is a reachable harness, so the theorems of `Harness` about reachable states hold inside it |
| Eventfd.RoundRecorded | bench-eventfd.cpp:62-65 | a round that passes its assertion is counted once in `nr_samples` and in the histogram, with its positive difference, and the index becomes the number of rounds modulo n |
| Eventfd.CounterSemantics | bench-eventfd.cpp:55-82 | a descriptor is a counter: a write adds to it, whatever it holds, and a read returns all of it and leaves zero |
| Eventfd.MeasurerFrame | bench-eventfd.cpp:50-66 | the measuring thread touches the current remote's counter and its own, and nothing of the other threads |
| Eventfd.RemoteFrame | bench-eventfd.cpp:68-85 | remote i touches its own counter and, in its reply, the measurer's, and nothing of the other threads |
| EventfdLaws.TokenConservation | bench-eventfd.cpp:55-84 | always either nobody waits, all counters are zero and no remote holds a value, or exactly one of: current remote's counter = `local_efd`, that remote holds `local_efd`, local counter = its one timestamp |
| EventfdLaws.WritesNeverMerge | bench-eventfd.cpp:55-84 | each write finds its counter at zero, each request is read by the remote it was meant for, at once or after a sleep, each reply goes to the measurer's descriptor |
| EventfdLaws.OperationLifetime | bench-eventfd.cpp:25-35 | no thread executes a statement of an operation outside the life of `action`, its descriptors, `stop` and the topology, nor after it was joined |
| EventfdLaws.ReplyComes | bench-eventfd.cpp:55-61 | a waiting measurer's remote is in its loop, always has a step to take, and each brings the reply nearer |
| EventfdLaws.OthersDoNotDelay | bench-eventfd.cpp:68-85 | no step of anybody takes the reply further away or changes a reply that has come |
| EventfdLaws.MeasurerBlockedIff | bench-eventfd.cpp:50-66 | the measuring thread waits only for a reply that has not come; one that has come is returned, whatever its value |
| EventfdLaws.RemoteBlockedIff | bench-eventfd.cpp:68-85 | a remote in its loop waits only asleep in a blocking read of an empty counter |
| EventfdLaws.HarnessNotHeldUp | benchmark.h:194-308 | the protocol never holds up a step of the harness outside the operations, a signal, or the clock |
| EventfdLaws.RoundCompletes | bench-eventfd.cpp:50-66 | from every point of an operation some schedule ends it with one more round, or with a failed time assertion |
| EventfdLaws.EventfdRefines | bench-eventfd.cpp:50-85 | every schedule of either eventfd benchmark is a schedule of the rendezvous specification |
| EventfdLaws.RoundLaws | bench-eventfd.cpp:50-66 | in every run rounds are ordered in time and shared evenly, their number is the index's round count, `nr_samples` and the number of histogram records, up to the moment these are printed, and each record is the positive difference of its round |
| EventfdLaws.TimeAssertionIff | bench-eventfd.cpp:63-64 | `assert(end_ns > start_ns)` fails if and only if both readings convert to the same number |
| EventfdLaws.NoAssertionFails | bench-eventfd.cpp:63-64 | on a clock that advances between readings, below 2^53 ns, no schedule fails an assertion |
| EventfdErasure.PollsErased | bench-eventfd-nonblock.cpp:44-82 | every schedule of the polling benchmark with its EAGAIN polls erased is a schedule of the blocking one and ends in the same counters, index, rounds and histogram |
| EventfdErasure.PollingIsBlocking | bench-eventfd-nonblock.cpp:62-82 | whatever histogram a polling run can record, a blocking run can record |
| EventfdShutdown.StopMeansIdle | benchmark.h:251 | once `stop` is stored no request is outstanding: all counters are zero and no remote holds a value |
| EventfdShutdown.OwnStepDecreases | bench-eventfd.cpp:68-85 | once `stop` is stored each step of a remote uses up a bound on the steps it has left |
| EventfdShutdown.OtherStepKeeps | benchmark.h:298-305 | nobody else's step adds to that bound or takes `stop` back |
| EventfdShutdown.PollingExits | bench-eventfd-nonblock.cpp:62-73 | a polling remote always has a step to take, so it leaves its loop within the bound |
| EventfdShutdown.BlockingExitsUnlessEarly | bench-eventfd.cpp:70-77 | a blocking remote that was sent its SIGINT has a step to take if and only if it does not sleep in the read with that SIGINT spent on the way there |
| EventfdShutdown.SigintInReadExits | bench-eventfd.cpp:70-75 | a SIGINT that lands in the read takes the remote out of it: it returns, tests `stop`, and has left its loop |
| EventfdShutdown.ExitsIff | benchmark.h:226-228 | after its SIGINT was sent, some schedule takes a remote out of its loop if and only if the SIGINT was not handled between the test of `stop` and the sleep in a blocking read |
| EventfdShutdown.RunEndsIff | benchmark.h:298-307 | a run that has stored `stop` can be brought to its end if and only if that happened to none of its remotes |
| EventfdShutdown.PollingRunEnds | benchmark.h:298-307 | a polling run can always be brought to its end |
| EventfdShutdown.RunCanEndIff | benchmark.h:194-308 | from wherever a run is, from its first statement to its last, some schedule ends it (or fails the time assertion) if and only if no SIGINT was handled between a test of `stop` and a blocking read |
| EventfdShutdown.EarlyHangs | benchmark.h:300-305 | otherwise, on every schedule, it stays in the read and its run never gets past the joins |
| EventfdHang.HangReachable | bench-eventfd.cpp:70-77 | that stuck state is reachable, by a schedule given state by state |
| Handshake.StepPreserves | bench-pthread-kill.cpp:27-78 | every step of the signal benchmark in its harness, timeouts and spurious wakeups included, keeps the mutex, wakeup, link and histogram invariants |
| Handshake.HarnessProjection | bench-pthread-kill.cpp:39-78 | each step of the benchmark is one step of the harness or leaves the harness alone |
| Handshake.HarnessReachable | bench-pthread-kill.cpp:39-78 | the harness inside a reachable benchmark is a reachable harness, so the theorems of `Harness` about reachable states hold inside it |
| Handshake.RoundRecorded | bench-pthread-kill.cpp:52-56 | a round that passes its assertion is counted once in `nr_samples` and in the histogram, with its positive difference, and the index becomes the number of rounds modulo n |
| Handshake.MeasurerFrame | bench-pthread-kill.cpp:39-57 | the measuring thread touches the mutex, flag and signal of the current remote, and no timestamp |
| Handshake.RemoteFrame | bench-pthread-kill.cpp:59-78 | remote i touches its own mutex, flag, timestamp and signal, and wakes only a measurer that sleeps on its own condition variable |
| HandshakeLaws.NoLostWakeup | bench-pthread-kill.cpp:45-51 | once the signal was sent and while the flag is false, `stop` is false, the remote is in its loop, and the signal is pending or the remote is on its way to setting the flag; a measurer asleep on a true flag has a remote that holds the mutex and is about to signal |
| HandshakeLaws.WakeupComes | bench-pthread-kill.cpp:67-77 | while the measurer sleeps its remote has a statement to execute, and each brings the flag nearer or wakes the measurer |
| HandshakeLaws.NothingDelays | bench-pthread-kill.cpp:48-50 | no timeout, signal, spurious wakeup or other thread takes the wakeup further away |
| HandshakeLaws.MeasurerBlockedIff | bench-pthread-kill.cpp:39-57 | the measuring thread waits only asleep for the flag, or for the mutex while the remote holds it |
| HandshakeLaws.RemoteBlockedIff | bench-pthread-kill.cpp:59-78 | a remote in its loop waits only in `sigtimedwait` without a signal, where it can also time out, or for the mutex while the measurer holds it |
| HandshakeLaws.HarnessNotHeldUp | benchmark.h:194-308 | the protocol never holds up a step of the harness outside the operations, a signal, or the clock |
| HandshakeLaws.RoundCompletes | bench-pthread-kill.cpp:39-57 | from every point of an operation some schedule without timeout or spurious wakeup ends it with one more round, or with a failed time assertion |
| HandshakeLaws.SignalTargetValid | bench-pthread-kill.cpp:28-36 | `remote_tid` is within the static vectors and the thread vector alike, and the signal goes to a thread that was spawned, moved into its slot, has not left its loop and was not joined |
| HandshakeLaws.MutualExclusion | bench-pthread-kill.cpp:45-51 | a mutex is held exactly by the thread that is between its lock and unlock, never by two, and by nobody between runs |
| HandshakeLaws.RoundLaws | bench-pthread-kill.cpp:39-57 | under any timeouts and spurious wakeups the remotes are visited in turn, remote i has served ceil((k - i) / n) of k rounds, counts differ by at most one, k is `nr_samples` and the number of histogram records, and each record is the positive difference of its round |
| HandshakeLaws.OperationLifetime | bench-pthread-kill.cpp:27-78 | no thread executes a statement of an operation outside the life of `action`, `stop` and the topology, nor after it was joined |
| HandshakeLaws.OwnStepEnabled | bench-pthread-kill.cpp:59-78 | once `stop` is stored a remote can always go on, at worst because its `sigtimedwait` times out |
| HandshakeLaws.OwnStepDecreases | bench-pthread-kill.cpp:59-78 | each of its steps uses up a bound on the steps it has left |
| HandshakeLaws.OtherStepKeeps | benchmark.h:298-305 | no request is outstanding, and nobody else's step adds to that bound or takes `stop` back |
| HandshakeShutdown.SigintInWaitExits | bench-pthread-kill.cpp:67-77 | the harness's SIGINT takes a remote out of `sigtimedwait` at once, and from there its own statements take it out of its loop, without any timeout |
| HandshakeShutdown.RunCanEnd | benchmark.h:194-308 | from wherever a run is, from its first statement to its last, some schedule ends it, or fails the time assertion |
| HandshakeFreshness.HandshakeRefines | bench-pthread-kill.cpp:39-78 | every schedule in which `sigtimedwait` does not return -1 while the measurer is active is a schedule of the rendezvous specification |
| HandshakeFreshness.OneSignal | bench-pthread-kill.cpp:47 | in such a run at most one SIGUSR1 is in the system, and only the awaited remote has it |
| HandshakeFreshness.FreshTimestamp | bench-pthread-kill.cpp:53 | in such a run the value read after the mutex is released is the latest clock reading of all, not before the round's start, and the start is not before the previous round's stamp |
| HandshakeFreshness.RoundsOrdered | bench-pthread-kill.cpp:39-57 | in such a run start <= stamp <= next start |
| HandshakeFreshness.TimeAssertionIff | bench-pthread-kill.cpp:55 | in such a run the assertion fails if and only if both readings convert to the same number |
| HandshakeFreshness.NoAssertionFails | bench-pthread-kill.cpp:55 | and on a clock that advances between readings, below 2^53 ns, it never fails |
| HandshakeStaleness.FreshRoundIff | bench-pthread-kill.cpp:41-53 | with any timeouts, a round that starts now ends with a timestamp no older on every schedule if and only if its remote is not between an older clock reading and its lock of the mutex |
| HandshakeStaleness.OldStampAborts | bench-pthread-kill.cpp:53-55 | every other round can end in the failing assertion |
| HandshakeStale.StaleTimestampReachable | bench-pthread-kill.cpp:67-75 | such a round occurs after a single timeout |
| HarnessProcess.Process.Start | benchmark.h:216-233 | leaves `stop` false, no SIGINT pending and no harness SIGINT in the flag of a latency run; when the measuring thread starts, every interfering thread is in its loop and in its slot |
| HarnessProcess.Process.Spawn | benchmark.h:220-231 | starts the threads one by one; all that were started are in their loop, and all but the newest in their slot |
| HarnessProcess.Process.Kick | benchmark.h:298-302 | waits only for a measuring thread that has not returned, with `stop` set once it has; then it sends a SIGINT to each thread still in its loop, and none is pending for any other |
| HarnessProcess.Process.WindUp | benchmark.h:303-307 | waits only for a thread still in its loop; when the topology is about to be destroyed every thread was joined once and no SIGINT is pending |
| HarnessProcess.Process.OpenDevice | benchmark.h:497-518 | no operation and no sample before the sample loop; the extra alarm is armed after the flag was cleared |
| HarnessProcess.Process.StartLoop | benchmark.h:406-409 | one more sample exactly while fewer than `nr_samples` are done; a loop starts with its own alarm armed, the flag clear and nothing counted |
| HarnessProcess.Process.TestFlag | benchmark.h:246 | leaves if and only if the tested flag is set, for the user's SIGINT of this run or this run's and sample's alarm; an operation begins only with `stop` false and every interfering thread in its loop and slot; a sample that ends prints the operations since its alarm was armed |
| HarnessProcess.Process.Stop | benchmark.h:251 | when `stop` is stored `nr_samples` is the number of operations, and an energy run has printed the samples it was asked for |
| HarnessProcess.Process.FinishOperation | benchmark.h:247-248 | after each operation the count is the number of operations since the alarm was armed, and the loop tests its flags again |
| HarnessProcess.Process.TestLoop | benchmark.h:226-228 | the thread leaves its loop if and only if `stop` is set, and then no operation is being measured and its SIGINT is discarded |
| HarnessProcess.Process.HandleKick | benchmark.h:132-137 | the harness's SIGINT sets `sigint_fired` only after the measuring thread was joined and before this thread's own join |
| HarnessProcess.Process.HandleAlarm | benchmark.h:141-143 | an alarm that expires while a loop is running is the one armed for this run and sample |
| HarnessProcess.Process.RunSchedule | benchmark.h:194-308 | executing any schedule on the object's fields reaches the state the transition system reaches, with the invariant at every step, and stops only at a statement that cannot be executed |
| EventfdProcess.Process.constructor | bench-eventfd.cpp:25-28 | an initial state of the transition system: all descriptors at zero |
| EventfdProcess.Process.WriteRequest | bench-eventfd.cpp:55 | finds the current remote's counter at zero and leaves exactly `local_efd` there, the other counters as they were and the own one at zero; the remote is in its slot and in its loop |
| EventfdProcess.Process.ReadReply | bench-eventfd.cpp:58-59 | returns a reply exactly when one is there, after which every counter is zero and no remote holds a value |
| EventfdProcess.Process.Record | bench-eventfd.cpp:62-65 | the assertion fails if and only if the end is not after the start; otherwise the index is the number of rounds modulo n and a latency run has one more positive difference, as many as `nr_samples` |
| EventfdProcess.Process.EnterRead | bench-eventfd.cpp:70 | a value is found only by the current remote while `stop` is false, and it is `local_efd`; the counter is zero afterwards; only a blocking remote goes to sleep |
| EventfdProcess.Process.WriteReply | bench-eventfd.cpp:82 | it is the current remote, the descriptor it was given is the measurer's and at zero, and afterwards holds exactly its timestamp |
| EventfdProcess.Process.TakeInterrupt | bench-eventfd.cpp:71-75 | happens only with `stop` set and no operation in progress, loses no value, takes a sleeping remote out of the read, and leaves one on its way into a blocking read there |
| EventfdProcess.Process.RunSchedule | bench-eventfd.cpp:39-85 | executing any schedule on the object's fields reaches the state the transition system reaches, with the invariant at every step |
| HandshakeProcess.Process.FillVectors | bench-pthread-kill.cpp:85-92 | one timestamp, one clear flag and one free mutex per thread |
| HandshakeProcess.Process.SendSignal | bench-pthread-kill.cpp:41-47 | once the lock is taken the remote is outside its critical section; when the signal has been sent it is pending, the flag is false, and the target is in its slot and in its loop |
| HandshakeProcess.Process.AwaitFlag | bench-pthread-kill.cpp:48-51 | goes to sleep only while the signal is pending or the remote is on its way to setting the flag; ends the wait only with the flag true and the mutex held by nobody else |
| HandshakeProcess.Process.Record | bench-pthread-kill.cpp:54-56 | the assertion fails if and only if the end is not after the start; otherwise the index is the number of rounds modulo n and a latency run has one more positive difference, as many as `nr_samples` |
| HandshakeProcess.Process.EnterOrLeave | bench-pthread-kill.cpp:74-77 | waits for the mutex only while the measurer holds it, holds it until the unlock, never together with the measurer |
| HandshakeProcess.Process.SetAndSignal | bench-pthread-kill.cpp:75-76 | sets the flag and signals with the mutex held, and leaves no measurer asleep once it has signalled |
| HandshakeProcess.Process.TakeInterrupt | bench-pthread-kill.cpp:67 | happens only with `stop` set and no operation in progress; in `sigtimedwait` it takes the remote on to its clock reading, elsewhere it leaves it where it is |
| HandshakeProcess.Process.RunSchedule | bench-pthread-kill.cpp:27-78 | executing any schedule on the object's fields reaches the state the transition system reaches, with the invariant at every step |

## Left out

- The other `bench-*.cpp` files: each times one system call and has no protocol of its own.
- HdrHistogram: `hist` is the sequence of recorded values; percentiles, mean, output, and the assertion that `hdr_record_value` accepts the value (up to 3.6 s) are not modelled.
- hwloc: loading and binding are not modelled, and the topology is not claimed to be destroyed on the early returns at `benchmark.h:206-214`, which skip it.
- RAPL and MSR reads, the energy formula, and `time_diff` at `benchmark.h:432`: hardware input; the subtraction ignores counter wrap-around. Only the counting of operations per sample is modelled.
- Weak memory: the relaxed load of `stop` could be delayed; nothing is claimed about how long.
- Unconditional freshness of the signal handshake: it is false; `HandshakeStaleness.FreshRoundIff` gives the exact condition for a round and `HandshakeFreshness` the whole-run theorems without timeouts.
- Fairness: progress is stated as "waits only for this, and some schedule gets there"; that the scheduler runs a thread is not modelled.
- Durations: a remote of the signal benchmark whose SIGINT was handled on its way into `sigtimedwait` leaves only when the 5 s timeout expires; how long that is has no counterpart in the model.
- The conversion to `uint64_t` past 2^64 ns of uptime (584 years) and negative `tv_sec`.
- Eventfd counter limits: a counter near 2^64 would block a write. Every write finds its counter at zero (`EventfdLaws.WritesNeverMerge`), so the case does not arise.
- The destructor of the eventfd `Action` closes its descriptors after the joins; a new run starts with new descriptors at zero, and closing itself is not modelled.
- The signal mask of `bench-pthread-kill.cpp:95-98` is taken as given: SIGUSR1 is blocked in every thread and only `sigtimedwait` takes it.
- The process classes execute one statement at a time in the order of a schedule; they share no memory between real threads.
- Option parsing, the interference mask, scenario names, plotting scripts and build files.
