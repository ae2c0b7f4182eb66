# Page-access telemetry and probe programs: a verified model

The repository collects BPF programs with their user-space companions. This project models the
parts whose behaviour is a protocol or an algorithm and proves what they promise:

- **tracecon**: four probes on many threads pair the entry and the return of `getaddrinfo` and
  `tcp_v4_connect` and join lookups to connects by IP address, over three shared bounded maps.
- **page-access tracker**: a bounded map from pages to reference count, recency rank and pid; a
  dump loop that walks it and writes numbered snapshot files; readers that pick the second-highest
  file; a receiver thread that tails a file of pids.
- **watermark controllers**: the 70% working-set split with its bucketed controller
  (`tel_wsf.py`), and the churn-driven multiplicative controller (`get_avgscale.py`).
- **pipeline**: tracker, dumps, directory and churn controller together, from page accesses to
  kernel writes.
- **bootstrap**: exec/exit lifetimes with an in-kernel duration filter.
- **benchmarks**: latency statistics, and the acquire/release loops over files and mappings.

Code that updates state in place is a class or a method with loops, proved against a pure step or
specification function; the theorems are about those functions, for every trace, every
interleaving, every sample.

## Conventions

- Each BPF handler is one atomic step. A BPF hash map is a finite map with a capacity: updating a
  present key succeeds, inserting into a full map is refused, deleting an absent key does nothing.
- Decimal constants are exact rationals (`real`, or whole numbers after clearing denominators);
  `int()` truncates towards zero. Counters are unbounded, except that the duration of a process is
  a 64-bit unsigned subtraction that wraps.
- What helpers read from memory (user pointers, socket addresses, task fields), the clock, ring
  buffer space, `/proc/meminfo`, the pid parser and the 80th percentile are parameters.
- `Behaviour`, `Run`, `At` quantify over whole runs from the initial state unless a start state is
  a parameter.

## Findings

- The greedy split is the smallest *non-empty* collection of pages reaching 70%. With the empty
  collection admitted it is the smallest exactly when some access was counted
  (`WorkingSet.OptimalIffAccessed`): all-zero counts give one page where none is needed.
- Filter pushdown needs no monotone clock: both runs compute the same wrapped difference.
- The truncated mean stays within the data and the deviation within its spread for negative data
  as well, and the median equals the 50th percentile for unsorted data too.
- Resuming at the saved offset equals re-reading the file if and only if the previous poll ended
  after a newline or after a full buffer (`PidTail.ResumeIsExact`); line length does not matter.
- The page hash (index exclusive-or mapping) collides exactly when two indices differ in the same
  bits as the two mappings (`SnapshotDump.CollideIff`), and any collision can fake a rise in a
  count in a real run (`SnapshotDiff.CollisionFakesRise`). A page hidden by the
  all-zero key can look new in the same way (`SnapshotDiff.HiddenPageLooksNew`). While only pages of a set are live, the comparison is sound
  for pids tracked in the first round if and only if the hash is injective on the set without the
  all-zero key and that key, if in the set, is alone (`SnapshotDiff.SoundIff`).
- A page released and re-created between two snapshots can escape the comparison although it was
  accessed (`SnapshotDiff.RecreatedPageEscapes`); it is left out exactly when the same pid
  had it before with at least as many accesses as since its insertion
  (`SnapshotDiff.CountedIffHistory`).
- A page whose key is all zeros hides itself and every entry before it from the dump
  (`SnapshotDump.ZeroKeyHidesPrefix`).
- Reading the second-highest file is safe if and only if the directory holds at most `time_0` when
  the writer starts; any file with a positive number is enough to hand the reader an unfinished
  snapshot (`SnapshotProtocol.SafeIffClean`).
- Probe firings that meet at one address still commute if both are connects to an unresolved
  address or both are lookups storing equal entries, and in no other case
  (`TraceconInterleaving.CommuteIff`).

## Model

| member | source | states |
|---|---|---|
| Tracecon.StoredName | examples/rust/tracecon/src/bpf/tracecon.bpf.c:86 | the stored host name is the longest prefix of the requested one that leaves room for the terminator |
| Tracecon.Probes.GetaddrinfoEnter | examples/rust/tracecon/src/bpf/tracecon.bpf.c:77-90 | the handler is one step of the transition system, overflow and ignored tasks included |
| Tracecon.Probes.GetaddrinfoExit | examples/rust/tracecon/src/bpf/tracecon.bpf.c:92-115 | the handler is one step: failed lookups, missing entries and full maps included |
| Tracecon.Probes.TcpV4ConnectEnter | examples/rust/tracecon/src/bpf/tracecon.bpf.c:118-127 | the handler is one step |
| Tracecon.Probes.TcpV4ConnectExit | examples/rust/tracecon/src/bpf/tracecon.bpf.c:129-160 | the handler is one step and appends exactly the event of that step |
| Tracecon.NoOverflowIsUnlimited | examples/rust/tracecon/src/bpf/tracecon.bpf.c:29-48 | a run in which no insert is refused is, map by map and event by event, a run of unbounded maps |
| TraceconInterleaving.Commute | examples/rust/tracecon/src/bpf/tracecon.bpf.c:77-160 | adjacent firings of different threads that do not meet at one address commute: same maps, same events, same touched addresses |
| TraceconInterleaving.CommuteIff | examples/rust/tracecon/src/bpf/tracecon.bpf.c:77-160 | on unbounded maps, firings of different threads agree in both orders on maps and events if and only if they are independent, or both are connects to an unresolved address, or both are lookups storing equal entries |
| TraceconInterleaving.SameAddressDoesNotCommute | examples/rust/tracecon/src/bpf/tracecon.bpf.c:111-153 | in every state, a lookup and a connect meeting at one address leave different maps in the two orders, and the connect's event differs exactly when the address was unresolved or held another name |
| TraceconInterleaving.SameOrdersSameEffect | examples/rust/tracecon/src/bpf/tracecon.bpf.c:77-160 | with unbounded maps, interleavings with equal per-thread orders and equal per-address orders of hostnames operations end in the same maps and emit the same events per thread |
| TraceconInterleaving.InterleavingTheorem | examples/rust/tracecon/src/bpf/tracecon.bpf.c:29-160 | the same for the bounded maps, in runs without refused inserts |
| TraceconInterleaving.TargetIsFilter | examples/rust/tracecon/src/bpf/tracecon.bpf.c:67-75 | observing one target pid gives the maps and events of an unfiltered observation of that process's firings alone |
| TraceconHistory.LookupsAreHistory | examples/rust/tracecon/src/bpf/tracecon.bpf.c:67-114 | lookups holds a thread exactly when the latest lookup probe of an observed firing of it is an enter, with that enter's name and pointer; observed is said of thread and process ids alone |
| TraceconHistory.SocketsAreHistory | examples/rust/tracecon/src/bpf/tracecon.bpf.c:67-158 | sockets holds a thread exactly when its latest observed connect probe is an enter, with that enter's socket |
| TraceconHistory.HostnamesAreHistory | examples/rust/tracecon/src/bpf/tracecon.bpf.c:103-153 | hostnames holds an address exactly when the latest operation on it is a successful lookup, with the name of the resolving thread's own latest enter |
| TraceconHistory.HistoryRefinement | examples/rust/tracecon/src/bpf/tracecon.bpf.c:67-158 | every event of a run without refused inserts, in both directions: HOSTNAME h iff the latest operation on the address is a lookup of h, IP otherwise, nothing unless a successful connect of an observed thread has its own enter |
| TraceconBalance.InFlightIsInside | examples/rust/tracecon/src/bpf/tracecon.bpf.c:81-159 | for alternating threads, entries of lookups and sockets exist only inside the call, and exactly there if no insert was refused |
| TraceconBalance.QuiescentIsEmpty | examples/rust/tracecon/src/bpf/tracecon.bpf.c:112-159 | when every thread is outside both calls, both per-thread maps are empty, whatever inserts were refused |
| TraceconBalance.HostnamesConserved | examples/rust/tracecon/src/bpf/tracecon.bpf.c:101-158 | stored names plus HOSTNAME events plus displaced names equals initial names plus successful lookups, over every run and capacity |
| TraceconBalance.ReportsBoundedByLookups | examples/rust/tracecon/src/bpf/tracecon.bpf.c:101-158 | names held plus HOSTNAME events never exceed the successful lookups |
| TraceconBalance.FewThreadsNeverOverflow | examples/rust/tracecon/src/bpf/tracecon.bpf.c:29-48 | a trace with no more threads and no more successful lookups than the maps have entries has no refused insert |
| WorkingSet.FindSplit | examples/c/tel_wsf.py:118-126 | the loop returns the first prefix of the descending counts that reaches 70%, 0 if none does |
| WorkingSet.SplitCovers | examples/c/tel_wsf.py:118-126 | on non-negative counts the loop always breaks, at the shortest prefix reaching 70% |
| WorkingSet.GreedyIsOptimal | examples/c/tel_wsf.py:118-128 | split_index + 1 pages reach 70% and no non-empty sub-collection of fewer pages does |
| WorkingSet.OptimalIffAccessed | examples/c/tel_wsf.py:118-128 | counting the empty sub-collection, the split is optimal if and only if the total is positive |
| WorkingSet.SplitIsAtMostCeiling | examples/c/tel_wsf.py:122-128 | at most ceil(7n/10) pages are needed |
| WorkingSet.ConcentrationShrinksSplit | examples/c/tel_wsf.py:118-128 | a sample whose descending prefix sums dominate needs no more pages |
| WorkingSet.SplitIgnoresOrder | examples/c/tel_wsf.py:122 | permuting the counts leaves the split unchanged |
| WorkingSet.SplitIgnoresScale | examples/c/tel_wsf.py:118-126 | multiplying the counts by a positive number leaves the split unchanged |
| BucketController.BucketIffAtMostSeventyPercent | examples/c/tel_wsf.py:128-138 | a bucket matches if and only if at most 70% of the pages were needed |
| BucketController.AtMostOneBucket | examples/c/tel_wsf.py:133-138 | at most one bucket matches any split, and the loop finds it |
| BucketController.SplitIsAFraction | examples/c/tel_wsf.py:128-129 | the split lies in [0, 1) |
| BucketController.SplitIsAtLeastThreeTenths | examples/c/tel_wsf.py:122-138 | the split is at least 3/10 - 9/(10n), and a bucket always matches when 10 divides n |
| BucketController.MaxScaleRange | examples/c/tel_wsf.py:71-79 | with free pages at most total pages the maximum factor lies in [406, 1000] |
| BucketController.MaxScaleForm | examples/c/tel_wsf.py:71-79 | the 95% else-branch is then never taken and the maximum is linear in the free share |
| BucketController.ThresholdRange | examples/c/tel_wsf.py:28-31 | every bucket threshold truncates to a factor in [66, 1000] |
| BucketController.ThresholdsAreEven | examples/c/tel_wsf.py:28-31 | the thresholds are evenly spaced above 10 and the last is the maximum factor |
| BucketController.KeptIsBelowThousand | examples/c/tel_wsf.py:107-108 | filtering loses exactly the counts from 1000 up, every other count keeps its multiplicity |
| BucketController.KeptInOrder | examples/c/tel_wsf.py:107-108 | filtering goes piece by piece, so it keeps the order |
| BucketController.SelectFactor | examples/c/tel_wsf.py:133-138 | the loop takes the threshold of the matching bucket, 10 + (max - 10)(i + 1)/7 rounded down, and keeps the factor if none matches |
| BucketController.MaxScaleWhole | examples/c/tel_wsf.py:65-79 | for every reading the maximum is 1000 - 594 free/total rounded down, and 10 from free = 5/3 total on |
| BucketController.ThresholdWhole | examples/c/tel_wsf.py:28-31 | the factor r of bucket i satisfies 7r <= 70 + (max - 10)(i + 1) < 7(r + 1) |
| BucketController.TargetWhole | examples/c/tel_wsf.py:65-138 | a sample asks for r if and only if pages needed, bucket, maximum and r satisfy the whole-number inequalities |
| BucketController.ClampIsNearest | examples/c/tel_wsf.py:41 | the clamp gives the nearest number in [10, 1000] |
| BucketController.FilterCounts | examples/c/tel_wsf.py:99-108 | exactly the counts below 1000 are kept, in order |
| BucketController.Controller.Poll | examples/c/tel_wsf.py:58-143 | one pass of the loop: stop, wait, or apply and log; in a matching round the factor is the one the whole-number chain leads to |
| BucketController.RunRange | examples/c/tel_wsf.py:41-141 | over every run the factor and everything logged is 10 or in [66, 1000], and the clamp never changes it |
| BucketController.UntouchedUntilMatch | examples/c/tel_wsf.py:58-141 | the factor is untouched until a bucket first matches and in [66, 1000] from then on |
| BucketController.FactorIsLatestTarget | examples/c/tel_wsf.py:60-141 | the factor is the target of the latest matching round, and the initial one until a bucket first matches |
| BucketController.FactorMonotone | examples/c/tel_wsf.py:65-138 | within buckets the factor is monotone in the split and antitone in free memory |
| BucketController.ConcentrationRaisesFactor | examples/c/tel_wsf.py:118-138 | a more concentrated sample has at least the split and, in a bucket, at least the factor |
| PageTracker.Tracker.FolioMarkAccessed | examples/c/kprobe.bpf.c:42-105 | the handler is one step: untracked pids, insert, refused insert, update |
| PageTracker.Tracker.FilemapFreeFolio | examples/c/kprobe.bpf.c:109-131 | the handler is one step |
| PageTracker.Tracker.AddPid | examples/c/kprobe.c:84-93 | adding a pid is one step, a full pid map included |
| PageTrackerHistory.OnlyTrackChangesPids | examples/c/kprobe.bpf.c:53-57 | the set of tracked pids changes only where user space adds a pid, and only at that pid |
| PageTrackerHistory.TrackedIffRegistered | examples/c/kprobe.c:84-93 | in every run a pid is tracked iff it was asked for while fewer pids than the map has entries had been asked for: tracked accesses are decided by the trace alone |
| PageTrackerHistory.TrackedIffRequested | examples/c/kprobe.c:84-93 | while all requested pids fit, a pid is tracked iff it was asked for |
| PageTrackerHistory.CounterIsAccesses | examples/c/kprobe.bpf.c:74-94 | the counter is the number of tracked accesses, refused inserts included |
| PageTrackerHistory.RankIsLastAccess | examples/c/kprobe.bpf.c:71-98 | a live page carries position, pid and size of its most recent tracked access |
| PageTrackerHistory.RanksOrderRecency | examples/c/kprobe.bpf.c:71-98 | ranks are bounded by the counter, distinct, and ordered by recency |
| PageTrackerHistory.RefCountSinceInsertion | examples/c/kprobe.bpf.c:63-98 | the reference count is the number of tracked accesses since the latest insertion, full map or not |
| PageTrackerHistory.LiveIffAccessedSinceRelease | examples/c/kprobe.bpf.c:71-128 | while nothing is refused, a page is live iff accessed since its last release, and its count is the number of those accesses |
| PageTrackerHistory.RefCountAtMostSinceRelease | examples/c/kprobe.bpf.c:71-128 | refused inserts only ever lower the count |
| PageTrackerHistory.ChangedWasAccessed | examples/c/kprobe.bpf.c:71-128 | a page absent or different at an earlier moment was accessed since, by the pid its entry names |
| SnapshotDump.Dump | examples/c/kprobe.c:185-212 | the next-key loop terminates and writes the visited entries in iteration order; every line occurs exactly as often as there are visited pages that read so, which without an all-zero key are all live pages |
| SnapshotDump.DumpIsComplete | examples/c/kprobe.c:186-212 | as many lines as visited entries, and each possible line once per visited entry that reads so; without an all-zero key the visited entries are the whole map |
| SnapshotDump.ZeroKeyHidesPrefix | examples/c/kprobe.c:186-199 | with an all-zero key exactly the entries after it are visited |
| SnapshotDump.XorIsBitwise | examples/c/kprobe.c:58-60 | a bit of the hash is set exactly when it differs between index and mapping |
| SnapshotDump.CollideIff | examples/c/kprobe.c:57-60 | two pages share a hash if and only if their indices differ in the same bits as their mappings |
| SnapshotDiff.Parse | examples/c/get_avgscale.py:80-93 | the table holds exactly the tracked pids' pages some line names, each with the count of the last such line |
| SnapshotDiff.RisenWasAccessed | examples/c/get_avgscale.py:102-107 | with distinct hashes on the dumped pages, every page whose count rose was written by the second dump for that pid and accessed by it between the snapshots, whatever the first dump missed |
| SnapshotDiff.NewWasAccessed | examples/c/get_avgscale.py:96-99 | the same for every page counted as new, if the first round tracked the pid and the first dump did not miss the page |
| SnapshotDiff.UntrackedLooksNew | examples/c/get_avgscale.py:89-107 | for a pid the first round did not track, everything written counts as new and nothing as risen |
| SnapshotDiff.DifferenceIsSound | examples/c/get_avgscale.py:96-107 | everything counted was accessed by that pid between the snapshots; only new pages ask for anything beyond distinct hashes |
| SnapshotDiff.CountedIff | examples/c/get_avgscale.py:96-107 | a dumped page is counted as new or repeated if and only if the same pid did not already have it with at least its present count |
| SnapshotDiff.CountedIffHistory | examples/c/get_avgscale.py:96-107 | the same by counting accesses: a page in the map since before the first snapshot is counted iff accessed in between; a page inserted in between is counted unless that pid had it at the first snapshot with at least as many accesses since its insertion then as since its insertion now |
| SnapshotDiff.DifferenceIsComplete | examples/c/get_avgscale.py:96-107 | a dumped page last accessed by a pid between the snapshots and not released meanwhile is counted for that pid |
| SnapshotDiff.CollisionFakesRise | examples/c/kprobe.c:57-60 | for any two pages with one hash there is a run of the tracker in which the second snapshot shows a rise although nothing was accessed since the first |
| SnapshotDiff.HiddenPageLooksNew | examples/c/kprobe.c:186-199 | for every page there is a run in which the all-zero key hides it from the first dump and it looks new in the second although nothing was accessed |
| SnapshotDiff.SoundIff | examples/c/get_avgscale.py:96-107 | while only pages of a set are live, everything counted for pids tracked in the first round was accessed, in every run, if and only if the hash is injective on the set without the all-zero key and that key, if in the set, is alone |
| SnapshotDiff.RecreatedPageEscapes | examples/c/get_avgscale.py:102-107 | for every page there is a run in which the tracked pid accesses it between the snapshots, it is live at the second, and it is not counted |
| SnapshotProtocol.CompleteIsPrinted | examples/c/kprobe.c:185-217 | in every behaviour the finished dumps, and the file being written, are exactly the lines of the print actions since the respective open |
| SnapshotProtocol.PrintedSinceOpen | examples/c/kprobe.c:191-217 | position by position: with the latest open at o, they are the print actions after o, in order |
| SnapshotProtocol.PickedFileIsCompleteForever | examples/c/get_avgscale.py:66-72 | from every clean directory and in every interleaving the second-highest file is closed, holds exactly what was printed between its open and its close, and never changes again |
| SnapshotProtocol.FinishedIsForever | examples/c/kprobe.c:185-217 | a closed snapshot holds what was printed to it and is never touched again |
| SnapshotProtocol.ProcessedOnce | examples/c/get_avgscale.py:74-77 | the processed indices strictly increase and each was complete |
| SnapshotProtocol.ProcessesSecondHighest | examples/c/get_avgscale.py:66-77 | what is processed is the second-highest file of the reader's latest listing, and not the one processed last |
| SnapshotProtocol.StoppedIsForever | examples/c/kprobe.c:185-196 | after a failed open or a stop the writer does nothing more and the files stay |
| SnapshotProtocol.StaleFileBreaksProtocol | examples/c/tel_wsf.py:85-92 | from every directory holding a file with a positive number, the writer's first open is enough for a reader to be handed a file this run has not finished |
| SnapshotProtocol.SafeIffClean | examples/c/get_avgscale.py:66-72 | readers are handed only complete and unchanging files of this run, in every behaviour from a directory, if and only if that directory holds at most time_0 |
| ChurnController.AdjustmentIff | examples/c/get_avgscale.py:96-136 | a pid asks for something iff pages rose, new pages are more than twice as many and the risen ones' percentile is positive; then for a raise iff 10 new80 > 12 risen80, for a cut iff 10 new80 < 8 risen80 |
| ChurnController.EveryWishCounts | examples/c/get_avgscale.py:95-136 | the round applies as many raises, cuts and keeps as there are pids asking for each |
| ChurnController.PassKeepsUp | examples/c/get_avgscale.py:55-77 | with pids and two files the loop ends up at the second-highest file with its table; otherwise, and for the same file again, nothing changes |
| ChurnController.PassDrift | examples/c/get_avgscale.py:95-136 | with u pids asking for a raise and d for a cut the factor is multiplied by (10/9)^u (9/10)^d, up to the stated loss of u + d roundings |
| ChurnController.AvgScale.Poll | examples/c/get_avgscale.py:55-147 | one pass of the loop: nothing without pids, with fewer than two files or with the file of the last round; otherwise factor, kernel writes, table and last file as the round's adjustments dictate |
| ChurnController.QuietPidNeverAdjusts | examples/c/get_avgscale.py:96-135 | with distinct hashes on the dumped pages, a pid that made no tracked access between two snapshots never causes an adjustment |
| Pipeline.AdjustmentIsPaid | examples/c/get_avgscale.py:96-135 | a pid that asks for an adjustment accessed at least one page between the snapshots, and at least four if the all-zero key cannot be live |
| Pipeline.EveryAdjustmentIsEarned | examples/c/get_avgscale.py:55-147 | in every interleaving of writer and loop from a clean directory, a pid that moves the factor made that many accesses between the dumps of the file processed before and the file processed now |
| Pipeline.WritesBoundedByAccesses | examples/c/get_avgscale.py:38-147 | in every such interleaving, four (or one) times the number of factors written to the kernel never exceeds the tracked accesses up to the dump processed last, and nothing is written before a dump was processed |
| Pipeline.KernelFollowsFactor | examples/c/get_avgscale.py:38-136 | throughout every session the last value written to the kernel is the current factor, unless that is 0 |
| ScaleDrift.HotterNewPagesNeverLower | examples/c/get_avgscale.py:121-136 | with equal churn, hotter new pages never lower the factor and hotter repeated pages never raise it |
| ScaleDrift.AdjustRounds | examples/c/get_avgscale.py:130-136 | a raise is 10/9 and a cut 9/10 of the factor, rounded down |
| ScaleDrift.DriftBound | examples/c/get_avgscale.py:130-136 | after u raises and d cuts, factor * 9^u * 10^d is at most the initial factor * 10^u * 9^d |
| ScaleDrift.DriftLowerBound | examples/c/get_avgscale.py:130-136 | the loss against the exact product is at most n roundings: with n = u + d, ten times it is at most 9 n 10^n in the same weights |
| ScaleDrift.WrittenAreTheFactors | examples/c/get_avgscale.py:38-46 | the kernel receives the factor after each adjustment, in order, until it is 0 and nothing from then on |
| ScaleDrift.BalancedNeverGains | examples/c/get_avgscale.py:130-136 | as many raises as cuts never end above the start |
| ScaleDrift.RaiseGainsIffAtLeastNine | examples/c/get_avgscale.py:131 | a raise increases the factor if and only if it is at least 9 |
| ScaleDrift.BelowNineIsATrap | examples/c/get_avgscale.py:38-39 | below 9 no sequence of adjustments raises the factor, and 0 never reaches the kernel |
| ScaleDrift.OnceBelowNine | examples/c/get_avgscale.py:130-136 | along any run the factor is non-increasing once below 9 |
| ExecLifetime.Lifetimes.HandleExec | examples/c/bootstrap.bpf.c:25-62 | the handler is one step, failed reserve included |
| ExecLifetime.Lifetimes.HandleExit | examples/c/bootstrap.bpf.c:64-111 | the handler is one step: thread exits, missing starts, short lives, failed reserve |
| ExecLifetime.StartsIgnoreFilter | examples/c/bootstrap.bpf.c:34-37 | exec_start is the same at every step for every threshold and every pattern of failed reserves |
| ExecLifetime.FilterPushdown | examples/c/bootstrap.bpf.c:77-109 | the events under a threshold m are exactly the exits of the unfiltered run lasting at least m, in order, for every pattern of failed reserves |
| ExecLifetime.FilterComposes | examples/c/bootstrap.bpf.c:89-91 | a higher threshold equals filtering the already filtered stream |
| ExecLifetime.EventIsHistory | examples/c/bootstrap.bpf.c:25-111 | the whole event of every firing from the trace: an exec as it is, an exit with its own fields, the second status byte and the 64-bit time since the latest exec; nothing for threads, below the threshold or without ring space |
| ExecLifetime.ExitCodeIsSecondByte | examples/c/bootstrap.bpf.c:105 | the exit code is bits 8 to 15 of the status word |
| ExecLifetime.DurationIsSinceLatestExec | examples/c/bootstrap.bpf.c:81-87 | with a monotone clock and no refused insert the duration is the time since the latest exec, 0 if there is none |
| LatencyStats.CalculateAverage | examples/c/benchmark.c:26-32 | the loop computes the truncated mean |
| LatencyStats.CalculateStandardDeviation | examples/c/benchmark.c:43-50 | the loop computes the integer root of the mean squared difference |
| LatencyStats.CalculatePercentile | examples/c/benchmark.c:53-64 | indices stay in range and the result is, at rank l and w hundredths, 100 a[l] + w (a[l+1] - a[l]) over 100, truncated |
| LatencyStats.InterpolationIsLinear | examples/c/benchmark.c:57-63 | between neighbouring ranks the value rises by the same amount per hundredth of rank |
| LatencyStats.TruncTowardsZero | examples/c/benchmark.c:26-32 | the division rounds towards zero for both signs |
| LatencyStats.PercentilesAreOrdered | examples/c/benchmark.c:53-64 | on sorted data min = P(0) <= P(p) <= P(q) <= P(100) = max |
| LatencyStats.MedianIsFiftieth | examples/c/benchmark.c:35-41 | the median equals the 50th percentile for both parities |
| LatencyStats.MeanWithin | examples/c/benchmark.c:26-32 | the mean stays between any bounds of the data |
| LatencyStats.SquaredDiffsExpand | examples/c/benchmark.c:44-48 | the accumulated sum equals sum of squares - 2 * mean * sum + n * mean squared |
| LatencyStats.DeviationIsRoot | examples/c/benchmark.c:49 | the result r is the root of the mean square rounded down once: r^2 * n <= sum < (r+1)^2 * n |
| LatencyStats.DeviationWithinSpread | examples/c/benchmark.c:43-50 | twice the standard deviation is at most max - min + 1, and the deviation at most max - min |
| FileBurst.Acquire | examples/c/benchmark_file.c:49-88 | after the first loop a slot holds a descriptor and a buffer exactly when its file could be opened, sized and mapped; exactly those handles are held, and exactly the files that could be opened are on disk besides those there before |
| FileBurst.Release | examples/c/benchmark_file.c:92-108 | every held handle is given back once and exactly the mapped files whose unlink succeeds are deleted |
| FileBurst.GenerateFiles | examples/c/benchmark_file.c:45-110 | for every pattern of failing calls: as many closes as opens as files that open, as many unmappings as mappings as files that get that far; a file that opened is left iff its ftruncate, mmap or unlink fails, so without a failing unlink iff its ftruncate or mmap fails |
| PidTail.PidReceiver.Poll | examples/c/kprobe.c:72-98 | a poll handles exactly the fgets chunks from the saved offset to the end, missing or shorter file included |
| PidTail.ResumeIsExact | examples/c/kprobe.c:80-97 | two polls read what one would, if and only if the first ended after a newline or a full buffer |
| PidTail.TailIsReread | examples/c/kprobe.c:80-97 | the lines handled over a series of polls are those of one read of the file as last seen |
| PidTail.PollsRefineOnePass | examples/c/kprobe.c:72-98 | over any series of such polls the pid map, cap of 120 included, is that of one pass over the file |
| PidTail.HandlingIsTracking | examples/c/kprobe.c:82-95 | handling lines at any point of a run is a sequence of Track firings of the tracker: same pids, pages and ranks untouched |
| PidTail.PollsAreTracks | examples/c/kprobe.c:72-98 | after any series of such polls the tracker is where one Track per parsed line of the file as last seen leads |
| PidTail.EachLineOnce | examples/c/kprobe.c:82-97 | whole lines that fit the buffer are each handled exactly once, in order |
| PidTail.ChunksJoin | examples/c/kprobe.c:82-97 | the chunks read put together are the text |
| PidTail.ChunksAreReads | examples/c/kprobe.c:82 | each chunk is non-empty, fits the buffer and has a newline at most at its end, and all but the last stop for a newline or a full buffer |
| PidTail.HandledAreParsed | examples/c/kprobe.c:84-93 | handling lines tracks every pid they parse to, or exactly as many as the map has entries |

## Left out

- libbpf loading and attaching, signal handling, argument parsing and printing in all `main` functions: glue over libraries that are not part of this model.
- minimal, minimal_legacy, minimal_ns, fentry, ksyscall, lsm, uprobe, usdt, tc, xdp, task_iter, sockfilter and profile: a few branches each, they would only add easy members.
- Plotting and result scripts, build files, workloads and the commented-out half of tel_wsf.py.
- generate_old_files and destroy_old_files, which main does not call; read_random_data of the old files inside the burst.
- The comparator handed to qsort compares 64-bit values through int; sortedness is a hypothesis of the percentile ordering instead.
- Changes to the page map while a dump is walking it: a snapshot is one moment of the run.
- Data races between processors inside one handler; a handler is one atomic step.
- Floating-point rounding, sleeps, wall-clock time and file formatting.
- np.percentile: the 80th percentile is an arbitrary function of a table, a pid and a set of pages.
- FileBurst.GenerateFiles: a munmap that reports failure counts as the one unmapping of its mapping, because the source only prints and goes on.
- Tracecon.Probes.TcpV4ConnectExit: delivery of the perf event is taken as successful, because the source ignores the result.
- 64-bit wrap-around of reference counts, the rank counter and the sums of the benchmark statistics.
