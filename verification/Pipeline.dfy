/** From page accesses to kernel writes: the tracker, the dumps, the snapshot directory and the loop of
    get_avgscale.py put together, in every interleaving of the writer with the reading loop. */
module Pipeline {
  import opened Options
  import opened PageTracker
  import opened PageTrackerHistory
  import opened SnapshotDump
  import opened SnapshotDiff
  import opened ChurnController
  import Drift = ScaleDrift
  import Protocol = SnapshotProtocol

  // ------------------------------------------------------------ accesses by a set of processes

  /** The number of tracked accesses at positions in [a, b) by processes in `pids`. */
  ghost function AccessesBy(cfg: Config, tr: seq<Firing>, a: nat, b: nat, pids: set<Pid>): nat
    requires a <= b <= |tr|
    decreases b
  {
    if a == b then 0
    else
      AccessesBy(cfg, tr, a, b - 1, pids)
      + if TrackedAccess(cfg, tr, b - 1) && tr[b - 1].pid in pids then 1 else 0
  }

  lemma {:induction false} AccessesSplit(cfg: Config, tr: seq<Firing>, a: nat, b: nat, pids: set<Pid>, pid: Pid)
    requires a <= b <= |tr| && pid !in pids
    ensures AccessesBy(cfg, tr, a, b, pids + {pid})
            == AccessesBy(cfg, tr, a, b, pids) + AccessesBy(cfg, tr, a, b, {pid})
    decreases b
  {
    if a < b {
      AccessesSplit(cfg, tr, a, b - 1, pids, pid);
    }
  }

  lemma {:induction false} AccessesWithin(cfg: Config, tr: seq<Firing>, a: nat, b: nat, pids: set<Pid>)
    requires a <= b <= |tr|
    ensures Accesses(cfg, tr, a) + AccessesBy(cfg, tr, a, b, pids) <= Accesses(cfg, tr, b)
    decreases b
  {
    if a < b {
      AccessesWithin(cfg, tr, a, b - 1, pids);
    }
  }

  /** The hashes of the pages a process accessed at positions in [a, b). */
  ghost function PagesOf(cfg: Config, tr: seq<Firing>, a: nat, b: nat, pid: Pid): set<nat>
    requires a <= b <= |tr|
    decreases b
  {
    if a == b then {}
    else
      PagesOf(cfg, tr, a, b - 1, pid)
      + if TrackedAccess(cfg, tr, b - 1) && tr[b - 1].pid == pid then {HashIndexMapping(tr[b - 1].key)} else {}
  }

  /** Each page takes an access of its own. */
  lemma {:induction false} PagesCost(cfg: Config, tr: seq<Firing>, a: nat, b: nat, pid: Pid)
    requires a <= b <= |tr|
    ensures |PagesOf(cfg, tr, a, b, pid)| <= AccessesBy(cfg, tr, a, b, {pid})
    decreases b
  {
    if a < b {
      PagesCost(cfg, tr, a, b - 1, pid);
      if TrackedAccess(cfg, tr, b - 1) && tr[b - 1].pid == pid {
        AddOne(PagesOf(cfg, tr, a, b - 1, pid), HashIndexMapping(tr[b - 1].key));
      }
    }
  }

  lemma AddOne(s: set<nat>, x: nat)
    ensures |s + {x}| <= |s| + 1
  {
    if x in s {
      assert s + {x} == s;
    }
  }

  lemma {:induction false} AccessIsAPage(cfg: Config, tr: seq<Firing>, a: nat, b: nat, j: nat)
    requires a <= j < b <= |tr| && TrackedAccess(cfg, tr, j)
    ensures HashIndexMapping(tr[j].key) in PagesOf(cfg, tr, a, b, tr[j].pid)
    decreases b
  {
    if j < b - 1 {
      AccessIsAPage(cfg, tr, a, b - 1, j);
    }
  }

  // ------------------------------------------------------------ what an adjustment costs

  /** Accesses behind every adjustment while only pages of `keys` are live: one risen page, and more
      than twice as many new ones, provided the all-zero key cannot hide pages. */
  function Price(keys: set<PageKey>): nat {
    if ZERO_KEY in keys then 1 else 4
  }

  /** A comparison of maps over pages with distinct hashes. */
  ghost predicate Over(cfg: Config, c: Comparison, keys: set<PageKey>) {
    && Valid(cfg, c) && InjectiveOn(keys - {ZERO_KEY})
    && Before(cfg, c).Keys <= keys && After(cfg, c).Keys <= keys
  }

  lemma ExplainedIsAPage(cfg: Config, c: Comparison, pid: Pid, page: nat)
    requires Valid(cfg, c) && Explained(cfg, c, pid, page)
    ensures page in PagesOf(cfg, c.tr, c.a, c.b, pid)
  {
    var key, j :| Touched(cfg, c, pid, page, key, j);
    AccessIsAPage(cfg, c.tr, c.a, c.b, j);
  }

  lemma RisenArePages(cfg: Config, c: Comparison, keys: set<PageKey>, pid: Pid)
    requires Over(cfg, c, keys)
    ensures RepeatedPages(Previous(cfg, c), Current(cfg, c), pid) <= PagesOf(cfg, c.tr, c.a, c.b, pid)
  {
    DumpedAreLive(cfg, c, keys);
    forall page | page in RepeatedPages(Previous(cfg, c), Current(cfg, c), pid)
      ensures page in PagesOf(cfg, c.tr, c.a, c.b, pid)
    {
      RisenWasAccessed(cfg, c, pid, page);
      ExplainedIsAPage(cfg, c, pid, page);
    }
  }

  lemma NewArePages(cfg: Config, c: Comparison, keys: set<PageKey>, pid: Pid)
    requires Over(cfg, c, keys) && ZERO_KEY !in keys && pid in c.trackedA
    ensures NewPages(Previous(cfg, c), Current(cfg, c), pid) <= PagesOf(cfg, c.tr, c.a, c.b, pid)
  {
    DumpedAreLive(cfg, c, keys);
    AllVisited(c.orderA, Before(cfg, c));
    forall page | page in NewPages(Previous(cfg, c), Current(cfg, c), pid)
      ensures page in PagesOf(cfg, c.tr, c.a, c.b, pid)
    {
      NewWasAccessed(cfg, c, pid, page);
      ExplainedIsAPage(cfg, c, pid, page);
    }
  }

  lemma NewIsNotRisen(previous: Table, current: Table, pid: Pid)
    ensures NewPages(previous, current, pid) !! RepeatedPages(previous, current, pid)
  {
  }

  lemma SubsetSize(small: set<nat>, large: set<nat>)
    requires small <= large
    ensures |small| <= |large|
  {
    assert large == small + (large - small);
  }

  /** A pid that asks for an adjustment made at least `Price` accesses between the snapshots. */
  lemma AdjustmentIsPaid(cfg: Config, c: Comparison, keys: set<PageKey>, pid: Pid, p80: Percentile80)
    requires Over(cfg, c, keys)
    requires PidAdjustment(Previous(cfg, c), Current(cfg, c), pid, p80).Some?
    ensures AccessesBy(cfg, c.tr, c.a, c.b, {pid}) >= Price(keys)
  {
    var added := NewPages(Previous(cfg, c), Current(cfg, c), pid);
    var risen := RepeatedPages(Previous(cfg, c), Current(cfg, c), pid);
    var pages := PagesOf(cfg, c.tr, c.a, c.b, pid);
    PagesCost(cfg, c.tr, c.a, c.b, pid);
    RisenArePages(cfg, c, keys, pid);
    if ZERO_KEY in keys {
      SubsetSize(risen, pages);
    } else {
      if pid !in c.trackedA {
        UntrackedLooksNew(cfg, c, pid);
        assert false;
      }
      NewArePages(cfg, c, keys, pid);
      NewIsNotRisen(Previous(cfg, c), Current(cfg, c), pid);
      SubsetSize(added + risen, pages);
    }
  }

  predicate DistinctPids(pids: seq<Pid>) {
    forall i, j | 0 <= i < j < |pids| :: pids[i] != pids[j]
  }

  /** Every process that asks for something pays for itself, so a round is paid for by its
      processes together. */
  lemma {:induction false} SharesAddUp(cfg: Config, tr: seq<Firing>, a: nat, b: nat, price: nat,
                                       previous: Table, current: Table, pids: seq<Pid>, p80: Percentile80)
    requires a <= b <= |tr| && DistinctPids(pids)
    requires forall pid | PidAdjustment(previous, current, pid, p80).Some? :: AccessesBy(cfg, tr, a, b, {pid}) >= price
    ensures price * |RoundAdjustments(previous, current, pids, p80)| <= AccessesBy(cfg, tr, a, b, PidSet(pids))
    decreases |pids|
  {
    if pids != [] {
      var n := |pids| - 1;
      var prior, pid := pids[..n], pids[n];
      assert pids == prior + [pid];
      LastPid(prior, pid);
      SharesAddUp(cfg, tr, a, b, price, previous, current, prior, p80);
      AccessesSplit(cfg, tr, a, b, PidSet(prior), pid);
      var before := |RoundAdjustments(previous, current, prior, p80)|;
      var after := |RoundAdjustments(previous, current, pids, p80)|;
      if PidAdjustment(previous, current, pid, p80).Some? {
        assert after == before + 1;
        OneMore(price, before);
      } else {
        assert after == before;
      }
    }
  }

  lemma LastPid(prior: seq<Pid>, pid: Pid)
    requires DistinctPids(prior + [pid])
    ensures DistinctPids(prior) && pid !in PidSet(prior) && PidSet(prior + [pid]) == PidSet(prior) + {pid}
  {
    var pids := prior + [pid];
    forall i | 0 <= i < |prior|
      ensures prior[i] != pid
    {
      assert pids[i] != pids[|prior|];
    }
    forall i, j | 0 <= i < j < |prior|
      ensures prior[i] != prior[j]
    {
      assert pids[i] != pids[j];
    }
  }

  lemma RoundIsPaid(cfg: Config, c: Comparison, keys: set<PageKey>, pids: seq<Pid>, p80: Percentile80)
    requires Over(cfg, c, keys) && DistinctPids(pids)
    ensures Price(keys) * |RoundAdjustments(Previous(cfg, c), Current(cfg, c), pids, p80)|
            <= AccessesBy(cfg, c.tr, c.a, c.b, PidSet(pids))
  {
    var previous, current := Previous(cfg, c), Current(cfg, c);
    forall pid | PidAdjustment(previous, current, pid, p80).Some?
      ensures AccessesBy(cfg, c.tr, c.a, c.b, {pid}) >= Price(keys)
    {
      AdjustmentIsPaid(cfg, c, keys, pid, p80);
    }
    SharesAddUp(cfg, c.tr, c.a, c.b, Price(keys), previous, current, pids, p80);
  }

  lemma OneMore(price: nat, n: nat)
    ensures price * (n + 1) == price * n + price
  {
  }

  lemma {:induction false} WritesAreAdjustments(factor: nat, adjustments: seq<Drift.Adjustment>)
    ensures |Drift.Written(factor, adjustments)| <= |adjustments|
  {
    if adjustments != [] {
      WritesAreAdjustments(factor, adjustments[..|adjustments| - 1]);
    }
  }

  /** Against an empty table nothing has risen, so nothing is adjusted. */
  lemma {:induction false} FirstRoundIsFree(current: Table, pids: seq<Pid>, p80: Percentile80)
    ensures RoundAdjustments(map[], current, pids, p80) == []
  {
    if pids != [] {
      FirstRoundIsFree(current, pids[..|pids| - 1], p80);
      assert RepeatedPages(map[], current, pids[|pids| - 1]) == {};
    }
  }

  // ------------------------------------------------------------ the whole system

  /** A run of the tracker and the moments and iteration orders of its dumps, file by file. */
  datatype Recording = Recording(cfg: Config, tr: seq<Firing>, moments: seq<nat>, orders: seq<seq<PageKey>>)

  function PagesAt(rec: Recording, i: nat): map<PageKey, Metric>
    requires i < |rec.moments| && rec.moments[i] <= |rec.tr|
  {
    At(rec.cfg, rec.tr, rec.moments[i]).pages
  }

  /** Each finished file is the dump of one moment of the run, in order, over pages of `keys`. */
  ghost predicate Records(rec: Recording, complete: seq<seq<Line>>, keys: set<PageKey>) {
    && |rec.moments| == |rec.orders| == |complete| && InjectiveOn(keys - {ZERO_KEY})
    && (forall i, j | 0 <= i <= j < |complete| :: rec.moments[i] <= rec.moments[j] <= |rec.tr|)
    && forall i | 0 <= i < |complete| ::
         && IterationOrder(rec.orders[i], PagesAt(rec, i)) && PagesAt(rec, i).Keys <= keys
         && complete[i] == DumpOf(rec.orders[i], PagesAt(rec, i))
  }

  /** One pass of the reading loop: it lists the directory in state `listed` of the behaviour, and
      opens the file it picks in state `reading`, by when the writer may have moved on. */
  datatype Visit = Visit(listed: nat, reading: nat, pids: seq<Pid>, listing: seq<nat>)

  /** A behaviour of the writer from a clean directory, with the passes the loop makes meanwhile.  They
      come on top of any reader in the behaviour itself: readers change no file. */
  datatype Session = Session(
    directory: map<nat, Protocol.File>, states: seq<Protocol.State>, actions: seq<Protocol.Action>,
    visits: seq<Visit>)

  ghost predicate ValidVisit(s: Session, v: Visit) {
    && v.listed <= v.reading < |s.states| && DistinctPids(v.pids)
    && Protocol.Lists(v.listing, s.states[v.listed].files)
  }

  ghost predicate ValidSession(s: Session) {
    && Protocol.Clean(s.directory) && Protocol.Behaviour(s.directory, s.states, s.actions)
    && (forall i | 0 <= i < |s.visits| :: ValidVisit(s, s.visits[i]))
    && forall i, j | 0 <= i < j < |s.visits| :: s.visits[i].listed <= s.visits[j].listed
  }

  /** The file a pass picks: the second-highest. */
  function Picked(v: Visit): nat
    requires |v.listing| >= 2
  {
    v.listing[|v.listing| - 2]
  }

  /** What reading a file yields in a given state of the directory. */
  function Contents(state: Protocol.State): nat -> seq<Line> {
    i => if i in state.files then state.files[i].visible else []
  }

  function PassAt(s: Session, l: Loop, v: Visit, p80: Percentile80): Loop
    requires v.reading < |s.states|
  {
    Pass(l, v.pids, v.listing, Contents(s.states[v.reading]), p80)
  }

  /** The states of the loop: one pass between consecutive ones. */
  ghost predicate LoopRun(s: Session, p80: Percentile80, loops: seq<Loop>) {
    && ValidSession(s) && |loops| == |s.visits| + 1 && loops[0] == START
    && forall n | 0 <= n < |s.visits| :: loops[n + 1] == PassAt(s, loops[n], s.visits[n], p80)
  }

  /** Everything the writer printed to the files it finished during the session. */
  function Finished(s: Session): seq<seq<Line>> {
    Protocol.Dumps(s.actions)
  }

  /** A pass that is not skipped reads a whole finished dump, and a later one than every file whose
      successor was there before. */
  lemma VisitReadsDump(s: Session, v: Visit)
    requires ValidSession(s) && ValidVisit(s, v) && |v.listing| >= 2
    ensures var index := Picked(v);
            && index < |Finished(s)| && Contents(s.states[v.reading])(index) == Finished(s)[index]
            && index + 1 in s.states[v.listed].files
            && forall i | i in s.states[v.listed].files :: i <= index + 1
  {
    var index, state := Picked(v), s.states[v.listed];
    Protocol.InvariantHolds(s.directory, s.states, s.actions, v.listed);
    Protocol.SecondHighestIsFinished(state, v.listing);
    PickedIsPrinted(s, v);
  }

  lemma PickedIsPrinted(s: Session, v: Visit)
    requires ValidSession(s) && ValidVisit(s, v) && |v.listing| >= 2
    ensures Picked(v) < |Finished(s)| && Contents(s.states[v.reading])(Picked(v)) == Finished(s)[Picked(v)]
  {
    var now := s.actions[..v.listed];
    Protocol.PickedFileIsCompleteForever(s.directory, s.states, s.actions, v.listed, v.listing, v.reading);
    Protocol.FinishedIsForever(s.directory, s.states, s.actions, v.listed, |s.actions|, Picked(v));
    assert s.actions[..|s.actions|] == s.actions;
    assert Protocol.Dumps(now) <= Finished(s);
  }

  lemma {:induction false} FilesRemain(s: Session, k: nat, m: nat, i: nat)
    requires ValidSession(s) && k <= m < |s.states| && i in s.states[k].files
    ensures i in s.states[m].files
    decreases m
  {
    if k < m {
      FilesRemain(s, k, m - 1, i);
      Protocol.InvariantHolds(s.directory, s.states, s.actions, m - 1);
      Protocol.FilesStay(s.states[m - 1], s.actions[m - 1]);
    }
  }

  /** The table the loop carries is that of the last file it processed. */
  predicate Carries(complete: seq<seq<Line>>, l: Loop, tracked: set<Pid>) {
    if l.last.None? then l.previous == map[]
    else l.last.value < |complete| && l.previous == ParseLines(complete[l.last.value], tracked)
  }

  /** The file the loop processed last has a successor in the state it listed last. */
  ghost predicate Behind(s: Session, l: Loop, n: nat)
    requires ValidSession(s) && n <= |s.visits|
  {
    l.last.Some? ==> n > 0 && l.last.value + 1 in s.states[s.visits[n - 1].listed].files
  }

  /** The comparison that a pass makes. */
  function ComparisonOf(rec: Recording, p: nat, q: nat, trackedA: set<Pid>, trackedB: set<Pid>): Comparison
    requires p < |rec.moments| == |rec.orders| && q < |rec.moments|
  {
    Comparison(rec.tr, rec.moments[p], rec.moments[q], rec.orders[p], rec.orders[q], trackedA, trackedB)
  }

  lemma ComparisonIsOver(rec: Recording, complete: seq<seq<Line>>, keys: set<PageKey>, p: nat, q: nat,
                         trackedA: set<Pid>, trackedB: set<Pid>)
    requires Records(rec, complete, keys) && p <= q < |complete|
    ensures var c := ComparisonOf(rec, p, q, trackedA, trackedB);
            && Over(rec.cfg, c, keys)
            && Previous(rec.cfg, c) == ParseLines(complete[p], trackedA)
            && Current(rec.cfg, c) == ParseLines(complete[q], trackedB)
  {
  }

  /** Passes move forward through the files. */
  lemma PicksLater(s: Session, l: Loop, n: nat)
    requires ValidSession(s) && n < |s.visits| && Behind(s, l, n)
    requires !Skips(l, s.visits[n].pids, s.visits[n].listing) && l.last.Some?
    ensures l.last.value < Picked(s.visits[n])
  {
    VisitReadsDump(s, s.visits[n]);
    FilesRemain(s, s.visits[n - 1].listed, s.visits[n].listed, l.last.value + 1);
  }

  lemma PassStaysBehind(s: Session, l: Loop, p80: Percentile80, n: nat)
    requires ValidSession(s) && n < |s.visits| && Behind(s, l, n)
    ensures var v := s.visits[n];
            Behind(s, PassAt(s, l, v, p80), n + 1)
  {
    var v := s.visits[n];
    if !Skips(l, v.pids, v.listing) {
      VisitReadsDump(s, v);
    } else if l.last.Some? {
      FilesRemain(s, s.visits[n - 1].listed, v.listed, l.last.value + 1);
    }
  }

  lemma {:induction false} StaysBehind(s: Session, p80: Percentile80, loops: seq<Loop>, n: nat)
    requires LoopRun(s, p80, loops) && n < |loops|
    ensures Behind(s, loops[n], n)
  {
    if n > 0 {
      StaysBehind(s, p80, loops, n - 1);
      PassStaysBehind(s, loops[n - 1], p80, n - 1);
    }
  }

  lemma PassCarries(s: Session, l: Loop, v: Visit, p80: Percentile80)
    requires ValidSession(s) && ValidVisit(s, v) && !Skips(l, v.pids, v.listing)
    ensures Carries(Finished(s), PassAt(s, l, v, p80), PidSet(v.pids))
  {
    VisitReadsDump(s, v);
  }

  lemma {:induction false} TableIsCarried(s: Session, p80: Percentile80, loops: seq<Loop>, n: nat) returns (tracked: set<Pid>)
    requires LoopRun(s, p80, loops) && n < |loops|
    ensures Carries(Finished(s), loops[n], tracked)
  {
    tracked := {};
    if n > 0 {
      var v, l := s.visits[n - 1], loops[n - 1];
      if Skips(l, v.pids, v.listing) {
        tracked := TableIsCarried(s, p80, loops, n - 1);
      } else {
        tracked := PidSet(v.pids);
        PassCarries(s, l, v, p80);
      }
    }
  }

  /** What a pass asks for on behalf of one process. */
  function AskedFor(s: Session, l: Loop, v: Visit, p80: Percentile80, pid: Pid): Option<Drift.Adjustment>
    requires v.reading < |s.states| && |v.listing| >= 2
  {
    PidAdjustment(l.previous, ParseLines(Contents(s.states[v.reading])(Picked(v)), PidSet(v.pids)), pid, p80)
  }

  /** In every interleaving, a process that moves the factor in some pass has made accesses between
      the dumps of the file processed before and the file processed now: at least one, and at least
      four unless a page with the all-zero key may be live. */
  lemma EveryAdjustmentIsEarned(rec: Recording, s: Session, keys: set<PageKey>, p80: Percentile80, loops: seq<Loop>,
                                n: nat, pid: Pid)
    requires LoopRun(s, p80, loops) && Records(rec, Finished(s), keys) && n < |s.visits|
    requires !Skips(loops[n], s.visits[n].pids, s.visits[n].listing)
    requires AskedFor(s, loops[n], s.visits[n], p80, pid).Some?
    ensures var last, q := loops[n].last, Picked(s.visits[n]);
            && last.Some? && last.value < q < |rec.moments|
            && AccessesBy(rec.cfg, rec.tr, rec.moments[last.value], rec.moments[q], {pid}) >= Price(keys)
  {
    var v, l := s.visits[n], loops[n];
    var q, now := Picked(v), PidSet(v.pids);
    VisitReadsDump(s, v);
    var tracked := TableIsCarried(s, p80, loops, n);
    if l.last.None? {
      assert false;
    }
    StaysBehind(s, p80, loops, n);
    PicksLater(s, l, n);
    ComparisonIsOver(rec, Finished(s), keys, l.last.value, q, tracked, now);
    AdjustmentIsPaid(rec.cfg, ComparisonOf(rec, l.last.value, q, tracked, now), keys, pid, p80);
  }

  /** The kernel writes so far are covered by the accesses up to the last processed dump. */
  ghost predicate Paid(rec: Recording, keys: set<PageKey>, l: Loop) {
    match l.last
    case None => l.kernel == []
    case Some(p) =>
      && p < |rec.moments| && rec.moments[p] <= |rec.tr|
      && Price(keys) * |l.kernel| <= Accesses(rec.cfg, rec.tr, rec.moments[p])
  }

  /** One round adds no more writes than its share of accesses. */
  lemma PassIsPaid(rec: Recording, s: Session, keys: set<PageKey>, p80: Percentile80, l: Loop, n: nat, tracked: set<Pid>)
    requires ValidSession(s) && Records(rec, Finished(s), keys) && n < |s.visits|
    requires Behind(s, l, n) && Carries(Finished(s), l, tracked) && Paid(rec, keys, l)
    ensures Paid(rec, keys, PassAt(s, l, s.visits[n], p80))
  {
    var v := s.visits[n];
    if !Skips(l, v.pids, v.listing) {
      var q, now := Picked(v), PidSet(v.pids);
      VisitReadsDump(s, v);
      var current := ParseLines(Finished(s)[q], now);
      var adjustments := RoundAdjustments(l.previous, current, v.pids, p80);
      WritesAreAdjustments(l.factor, adjustments);
      if l.last.None? {
        FirstRoundIsFree(current, v.pids, p80);
      } else {
        var p := l.last.value;
        PicksLater(s, l, n);
        ComparisonIsOver(rec, Finished(s), keys, p, q, tracked, now);
        RoundIsPaid(rec.cfg, ComparisonOf(rec, p, q, tracked, now), keys, v.pids, p80);
        AccessesWithin(rec.cfg, rec.tr, rec.moments[p], rec.moments[q], now);
        WritesAddUp(Price(keys), l.kernel, Drift.Written(l.factor, adjustments), |adjustments|);
      }
    }
  }

  lemma WritesAddUp(price: nat, before: seq<nat>, added: seq<nat>, adjustments: nat)
    requires |added| <= adjustments && price <= 4
    ensures price * |before + added| <= price * |before| + price * adjustments
  {
  }

  /** Conservation, end to end.  Whatever the interleaving of writer and loop, the number of factors
      written to the kernel, `Price` times over, never exceeds the number of tracked page accesses up
      to the dump that was processed last; and nothing is written before a dump was processed. */
  lemma {:induction false} WritesBoundedByAccesses(rec: Recording, s: Session, keys: set<PageKey>, p80: Percentile80,
                                                   loops: seq<Loop>, n: nat)
    requires LoopRun(s, p80, loops) && Records(rec, Finished(s), keys) && n < |loops|
    ensures Paid(rec, keys, loops[n])
  {
    if n > 0 {
      WritesBoundedByAccesses(rec, s, keys, p80, loops, n - 1);
      StaysBehind(s, p80, loops, n - 1);
      var tracked := TableIsCarried(s, p80, loops, n - 1);
      PassIsPaid(rec, s, keys, p80, loops[n - 1], n - 1, tracked);
    }
  }

  /** Throughout every session the kernel has been told the current factor, unless that is 0. */
  lemma {:induction false} KernelFollowsFactor(s: Session, p80: Percentile80, loops: seq<Loop>, n: nat)
    requires LoopRun(s, p80, loops) && n < |loops|
    ensures KernelKnows(loops[n])
  {
    if n > 0 {
      var v := s.visits[n - 1];
      KernelFollowsFactor(s, p80, loops, n - 1);
      PassTellsKernel(loops[n - 1], v.pids, v.listing, Contents(s.states[v.reading]), p80);
    }
  }
}
