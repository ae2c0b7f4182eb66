/** Every metric of the tracker as a function of the history of probe firings. */
module PageTrackerHistory {
  import opened BpfMap
  import opened Options
  import opened PageTracker

  function At(cfg: Config, tr: seq<Firing>, i: nat): State
    requires i <= |tr|
  {
    Run(cfg, tr[..i])
  }

  lemma AtNext(cfg: Config, tr: seq<Firing>, i: nat)
    requires i < |tr|
    ensures At(cfg, tr, i + 1) == Step(cfg, At(cfg, tr, i), tr[i])
  {
    assert tr[..i + 1][..i] == tr[..i];
  }

  // ------------------------------------------------------------ who is tracked

  /** The pids user space asked to track before position `i`, accepted or not. */
  function Requested(tr: seq<Firing>, i: nat): set<Pid>
    requires i <= |tr|
  {
    set k | 0 <= k < i && tr[k].Track? :: tr[k].pid
  }

  /** Position `j` asks for `pid` while the pid map still has room: fewer pids than it has entries were
      asked for before. */
  predicate Registers(cap: Capacity, tr: seq<Firing>, j: int, pid: Pid)
    requires 0 <= j < |tr|
  {
    tr[j] == Track(pid) && (cap.Bounded? ==> |Requested(tr, j)| < cap.entries)
  }

  /** `pid` was registered before position `i`. */
  ghost predicate Registered(cap: Capacity, tr: seq<Firing>, i: nat, pid: Pid)
    requires i <= |tr|
  {
    exists j :: 0 <= j < i && Registers(cap, tr, j, pid)
  }

  lemma RequestedNext(tr: seq<Firing>, i: nat)
    requires i < |tr|
    ensures Requested(tr, i + 1) == Requested(tr, i) + if tr[i].Track? then {tr[i].pid} else {}
  {
  }

  /** `pids` changes only at `Track` firings, and only at that firing's pid. */
  lemma OnlyTrackChangesPids(cfg: Config, s: State, f: Firing, pid: Pid)
    requires f != Track(pid)
    ensures pid in Step(cfg, s, f).pids <==> pid in s.pids
  {
    var s' := Step(cfg, s, f);
    assert pid in s.pids <==> Find(s.pids, pid).Some?;
    assert pid in s'.pids <==> Find(s'.pids, pid).Some?;
  }

  /** The pid map holds as many of the requested pids as fit. */
  lemma {:induction false} PidsFill(cfg: Config, tr: seq<Firing>, i: nat)
    requires i <= |tr|
    ensures FilledFrom(cfg.pidCapacity, At(cfg, tr, i).pids, Requested(tr, i))
  {
    if i > 0 {
      var p := i - 1;
      PidsFill(cfg, tr, p);
      AtNext(cfg, tr, p);
      RequestedNext(tr, p);
      if tr[p].Track? {
        UpdateFills(cfg.pidCapacity, At(cfg, tr, p).pids, Requested(tr, p), tr[p].pid, 1);
      }
    }
  }

  /** In every run, full map or not, the tracked pids are those registered: decided by the trace alone. */
  lemma {:induction false} TrackedIffRegistered(cfg: Config, tr: seq<Firing>, i: nat, pid: Pid)
    requires i <= |tr|
    ensures pid in At(cfg, tr, i).pids <==> Registered(cfg.pidCapacity, tr, i, pid)
  {
    if i > 0 {
      var p := i - 1;
      TrackedIffRegistered(cfg, tr, p, pid);
      AtNext(cfg, tr, p);
      if tr[p] == Track(pid) {
        TrackRegisters(cfg, tr, p, pid);
      } else {
        OnlyTrackChangesPids(cfg, At(cfg, tr, p), tr[p], pid);
      }
    }
  }

  lemma TrackRegisters(cfg: Config, tr: seq<Firing>, p: nat, pid: Pid)
    requires p < |tr| && tr[p] == Track(pid)
    requires pid in At(cfg, tr, p).pids <==> Registered(cfg.pidCapacity, tr, p, pid)
    ensures pid in At(cfg, tr, p + 1).pids <==> Registered(cfg.pidCapacity, tr, p + 1, pid)
  {
    var s, s' := At(cfg, tr, p), At(cfg, tr, p + 1);
    AtNext(cfg, tr, p);
    PidsFill(cfg, tr, p);
    assert pid in s'.pids <==> Find(s'.pids, pid).Some?;
    if pid !in s.pids {
      assert pid in s'.pids <==> !Refuses(cfg.pidCapacity, s.pids, pid);
      assert Refuses(cfg.pidCapacity, s.pids, pid) <==> !Registers(cfg.pidCapacity, tr, p, pid);
    }
  }

  /** While no more pids were asked for than fit, a pid is tracked exactly if it was asked for. */
  lemma TrackedIffRequested(cfg: Config, tr: seq<Firing>, i: nat, pid: Pid)
    requires i <= |tr| && (cfg.pidCapacity.Bounded? ==> |Requested(tr, i)| <= cfg.pidCapacity.entries)
    ensures pid in At(cfg, tr, i).pids <==> exists j :: 0 <= j < i && tr[j] == Track(pid)
  {
    PidsFill(cfg, tr, i);
  }

  // ------------------------------------------------------------ tracked accesses

  /** Position `i` is an access by a pid registered by then. */
  ghost predicate TrackedAccess(cfg: Config, tr: seq<Firing>, i: int)
    requires 0 <= i < |tr|
  {
    tr[i].Access? && Registered(cfg.pidCapacity, tr, i, tr[i].pid)
  }

  /** What the handler tests. */
  lemma TrackedAccessIff(cfg: Config, tr: seq<Firing>, i: nat)
    requires i < |tr|
    ensures TrackedAccess(cfg, tr, i) <==> tr[i].Access? && tr[i].pid in At(cfg, tr, i).pids
  {
    if tr[i].Access? {
      TrackedIffRegistered(cfg, tr, i, tr[i].pid);
    }
  }

  ghost predicate TrackedAccessOf(cfg: Config, tr: seq<Firing>, i: int, key: PageKey)
    requires 0 <= i < |tr|
  {
    TrackedAccess(cfg, tr, i) && tr[i].key == key
  }

  /** The number of tracked accesses before position `i`. */
  ghost function Accesses(cfg: Config, tr: seq<Firing>, i: nat): nat
    requires i <= |tr|
  {
    if i == 0 then 0 else Accesses(cfg, tr, i - 1) + (if TrackedAccess(cfg, tr, i - 1) then 1 else 0)
  }

  /** The number of tracked accesses to `key` at positions in [from, i). */
  ghost function AccessesOf(cfg: Config, tr: seq<Firing>, from: nat, i: nat, key: PageKey): nat
    requires from <= i <= |tr|
    decreases i
  {
    if i == from then 0
    else AccessesOf(cfg, tr, from, i - 1, key) + (if TrackedAccessOf(cfg, tr, i - 1, key) then 1 else 0)
  }

  /** The latest tracked access to `key` before position `i` is at `j`. */
  ghost predicate LastAccess(cfg: Config, tr: seq<Firing>, i: nat, j: int, key: PageKey)
    requires i <= |tr|
  {
    && 0 <= j < i && TrackedAccessOf(cfg, tr, j, key)
    && forall k | j < k < i :: !TrackedAccessOf(cfg, tr, k, key)
  }

  /** Position `j` brings `key` into the map. */
  predicate Inserts(cfg: Config, tr: seq<Firing>, j: int, key: PageKey)
    requires 0 <= j < |tr|
  {
    key !in At(cfg, tr, j).pages && key in At(cfg, tr, j + 1).pages
  }

  predicate LatestInsertion(cfg: Config, tr: seq<Firing>, i: nat, j: int, key: PageKey)
    requires i <= |tr|
  {
    && 0 <= j < i && Inserts(cfg, tr, j, key)
    && forall k | j < k < i :: !Inserts(cfg, tr, k, key)
  }

  // ------------------------------------------------------------ one step

  /** What one firing does to the entry of one page. */
  lemma StepOnKey(cfg: Config, s: State, f: Firing, key: PageKey)
    ensures var s' := Step(cfg, s, f);
            if f.Access? && f.pid in s.pids && f.key == key then
              (key in s.pages ==> key in s'.pages) &&
              (key in s'.pages ==> s'.pages[key] == Metric(
                 (if key in s.pages then s.pages[key].refCount else 0) + 1, s.counter + 1, f.pages, f.pid))
            else
              key in s'.pages ==> key in s.pages && s'.pages[key] == s.pages[key]
  {
    var s' := Step(cfg, s, f);
    assert key in s.pages <==> Find(s.pages, key).Some?;
    assert key in s'.pages <==> Find(s'.pages, key).Some?;
  }

  lemma StepReleases(cfg: Config, s: State, f: Firing, key: PageKey)
    requires key in s.pages && !(f.Release? && f.key == key)
    ensures key in Step(cfg, s, f).pages
  {
    var s' := Step(cfg, s, f);
    assert key in s.pages <==> Find(s.pages, key).Some?;
    assert key in s'.pages <==> Find(s'.pages, key).Some?;
  }

  lemma StepCounts(cfg: Config, s: State, f: Firing)
    ensures Step(cfg, s, f).counter == s.counter + if f.Access? && f.pid in s.pids then 1 else 0
  {
  }

  // ------------------------------------------------------------ the LRU invariant

  lemma {:induction false} CounterIsAccesses(cfg: Config, tr: seq<Firing>, i: nat)
    requires i <= |tr|
    ensures At(cfg, tr, i).counter == Accesses(cfg, tr, i)
  {
    if i > 0 {
      var p := i - 1;
      CounterIsAccesses(cfg, tr, p);
      AtNext(cfg, tr, p);
      TrackedAccessIff(cfg, tr, p);
      StepCounts(cfg, At(cfg, tr, p), tr[p]);
    }
  }

  /** A live page carries the position (among tracked accesses), the pid and the size of its most
      recent tracked access, full map or not. */
  lemma {:induction false} RankIsLastAccess(cfg: Config, tr: seq<Firing>, i: nat, key: PageKey) returns (j: int)
    requires i <= |tr| && key in At(cfg, tr, i).pages
    ensures LastAccess(cfg, tr, i, j, key)
    ensures var metric := At(cfg, tr, i).pages[key];
            && metric.rank == Accesses(cfg, tr, j + 1) == Accesses(cfg, tr, j) + 1
            && metric.pid == tr[j].pid && metric.pageCount == tr[j].pages
  {
    var p := i - 1;
    AtNext(cfg, tr, p);
    var s := At(cfg, tr, p);
    TrackedAccessIff(cfg, tr, p);
    StepOnKey(cfg, s, tr[p], key);
    if TrackedAccessOf(cfg, tr, p, key) {
      CounterIsAccesses(cfg, tr, p);
      j := p;
    } else {
      j := RankIsLastAccess(cfg, tr, p, key);
    }
  }

  lemma {:induction false} AccessesGrow(cfg: Config, tr: seq<Firing>, i: nat, j: nat)
    requires i <= j <= |tr|
    ensures Accesses(cfg, tr, i) <= Accesses(cfg, tr, j)
  {
    if i < j {
      AccessesGrow(cfg, tr, i, j - 1);
    }
  }

  /** Ranks are bounded by the counter, and of two live pages the one touched more recently has
      the larger rank; in particular ranks are distinct. */
  lemma RanksOrderRecency(cfg: Config, tr: seq<Firing>, i: nat, a: PageKey, b: PageKey) returns (ja: int, jb: int)
    requires i <= |tr| && a in At(cfg, tr, i).pages && b in At(cfg, tr, i).pages
    ensures LastAccess(cfg, tr, i, ja, a) && LastAccess(cfg, tr, i, jb, b)
    ensures var s := At(cfg, tr, i);
            && 1 <= s.pages[a].rank <= s.counter
            && (s.pages[a].rank < s.pages[b].rank <==> ja < jb)
            && (s.pages[a].rank == s.pages[b].rank <==> a == b)
  {
    ja := RankIsLastAccess(cfg, tr, i, a);
    jb := RankIsLastAccess(cfg, tr, i, b);
    CounterIsAccesses(cfg, tr, i);
    AccessesGrow(cfg, tr, ja + 1, i);
    if ja < jb {
      AccessesGrow(cfg, tr, ja + 1, jb);
    } else if jb < ja {
      AccessesGrow(cfg, tr, jb + 1, ja);
    }
  }

  /** The reference count of a live page is the number of tracked accesses since its latest
      insertion, full map or not. */
  lemma {:induction false} RefCountSinceInsertion(cfg: Config, tr: seq<Firing>, i: nat, key: PageKey) returns (j: int)
    requires i <= |tr| && key in At(cfg, tr, i).pages
    ensures LatestInsertion(cfg, tr, i, j, key)
    ensures At(cfg, tr, i).pages[key].refCount == AccessesOf(cfg, tr, j, i, key)
  {
    var p := i - 1;
    if key !in At(cfg, tr, p).pages {
      j := p;
      InsertionCounts(cfg, tr, p, key);
    } else {
      j := RefCountSinceInsertion(cfg, tr, p, key);
      PresentCounts(cfg, tr, p, key);
      InsertionPersists(cfg, tr, i, p, j, key);
      AccessesNext(cfg, tr, j, p, key);
    }
  }

  /** The same for a given insertion. */
  lemma RefCountFrom(cfg: Config, tr: seq<Firing>, i: nat, j: int, key: PageKey)
    requires i <= |tr| && key in At(cfg, tr, i).pages && LatestInsertion(cfg, tr, i, j, key)
    ensures At(cfg, tr, i).pages[key].refCount == AccessesOf(cfg, tr, j, i, key)
  {
    var latest := RefCountSinceInsertion(cfg, tr, i, key);
    assert latest == j;
  }

  lemma AccessesNext(cfg: Config, tr: seq<Firing>, from: nat, p: nat, key: PageKey)
    requires from <= p < |tr|
    ensures AccessesOf(cfg, tr, from, p + 1, key)
            == AccessesOf(cfg, tr, from, p, key) + if TrackedAccessOf(cfg, tr, p, key) then 1 else 0
  {
  }

  lemma InsertionPersists(cfg: Config, tr: seq<Firing>, i: nat, p: nat, j: int, key: PageKey)
    requires i == p + 1 <= |tr| && key in At(cfg, tr, p).pages && LatestInsertion(cfg, tr, p, j, key)
    ensures LatestInsertion(cfg, tr, i, j, key)
  {
  }

  lemma InsertionCounts(cfg: Config, tr: seq<Firing>, p: nat, key: PageKey)
    requires p < |tr| && key !in At(cfg, tr, p).pages && key in At(cfg, tr, p + 1).pages
    ensures At(cfg, tr, p + 1).pages[key].refCount == AccessesOf(cfg, tr, p, p + 1, key) == 1
  {
    AtNext(cfg, tr, p);
    TrackedAccessIff(cfg, tr, p);
    StepOnKey(cfg, At(cfg, tr, p), tr[p], key);
  }

  lemma PresentCounts(cfg: Config, tr: seq<Firing>, p: nat, key: PageKey)
    requires p < |tr| && key in At(cfg, tr, p).pages && key in At(cfg, tr, p + 1).pages
    ensures At(cfg, tr, p + 1).pages[key].refCount
            == At(cfg, tr, p).pages[key].refCount + if TrackedAccessOf(cfg, tr, p, key) then 1 else 0
  {
    AtNext(cfg, tr, p);
    TrackedAccessIff(cfg, tr, p);
    StepOnKey(cfg, At(cfg, tr, p), tr[p], key);
  }

  // ------------------------------------------------------------ without refusals

  /** Tracked accesses to `key` since it was last released: no map involved. */
  ghost function SinceRelease(cfg: Config, tr: seq<Firing>, i: nat, key: PageKey): nat
    requires i <= |tr|
  {
    if i == 0 || tr[i - 1] == Release(key) then 0
    else SinceRelease(cfg, tr, i - 1, key) + (if TrackedAccessOf(cfg, tr, i - 1, key) then 1 else 0)
  }

  /** No insert of a page was refused before position `i`. */
  ghost predicate PagesFit(cfg: Config, tr: seq<Firing>, i: nat)
    requires i <= |tr|
  {
    forall k | 0 <= k < i && TrackedAccess(cfg, tr, k) :: !Refuses(cfg.pageCapacity, At(cfg, tr, k).pages, tr[k].key)
  }

  lemma {:induction false} LiveIffAccessedSinceRelease(cfg: Config, tr: seq<Firing>, i: nat, key: PageKey)
    requires i <= |tr| && PagesFit(cfg, tr, i)
    ensures key in At(cfg, tr, i).pages <==> SinceRelease(cfg, tr, i, key) > 0
    ensures key in At(cfg, tr, i).pages ==>
              At(cfg, tr, i).pages[key].refCount == SinceRelease(cfg, tr, i, key)
  {
    if i > 0 {
      var p := i - 1;
      LiveIffAccessedSinceRelease(cfg, tr, p, key);
      AtNext(cfg, tr, p);
      var s, s' := At(cfg, tr, p), At(cfg, tr, i);
      TrackedAccessIff(cfg, tr, p);
      StepOnKey(cfg, s, tr[p], key);
      assert key in s'.pages <==> Find(s'.pages, key).Some?;
      if key in s.pages && tr[p] != Release(key) {
        StepReleases(cfg, s, tr[p], key);
      }
    }
  }

  /** Full map or not, the count never exceeds the accesses since the last release. */
  lemma {:induction false} RefCountAtMostSinceRelease(cfg: Config, tr: seq<Firing>, i: nat, key: PageKey)
    requires i <= |tr| && key in At(cfg, tr, i).pages
    ensures 1 <= At(cfg, tr, i).pages[key].refCount <= SinceRelease(cfg, tr, i, key)
  {
    var p := i - 1;
    AtNext(cfg, tr, p);
    var s, s' := At(cfg, tr, p), At(cfg, tr, i);
    TrackedAccessIff(cfg, tr, p);
    StepOnKey(cfg, s, tr[p], key);
    assert key in s'.pages <==> Find(s'.pages, key).Some?;
    if key in s.pages {
      RefCountAtMostSinceRelease(cfg, tr, p, key);
    }
  }

  // ------------------------------------------------------------ between two moments

  /** A page nobody tracked touches in [a, b) is at `b` what it was at `a`, or gone. */
  lemma {:induction false} QuietKey(cfg: Config, tr: seq<Firing>, a: nat, b: nat, key: PageKey)
    requires a <= b <= |tr| && key in At(cfg, tr, b).pages
    requires forall k | a <= k < b :: !TrackedAccessOf(cfg, tr, k, key)
    ensures key in At(cfg, tr, a).pages && At(cfg, tr, a).pages[key] == At(cfg, tr, b).pages[key]
    decreases b
  {
    if a < b {
      var p := b - 1;
      AtNext(cfg, tr, p);
      assert !TrackedAccessOf(cfg, tr, p, key);
      TrackedAccessIff(cfg, tr, p);
      StepOnKey(cfg, At(cfg, tr, p), tr[p], key);
      QuietKey(cfg, tr, a, p, key);
    }
  }

  /** A page that is live at `a` and not released in [a, b) is live at `b`. */
  lemma {:induction false} StaysUnlessReleased(cfg: Config, tr: seq<Firing>, a: nat, b: nat, key: PageKey)
    requires a <= b <= |tr| && key in At(cfg, tr, a).pages
    requires forall k | a <= k < b :: tr[k] != Release(key)
    ensures key in At(cfg, tr, b).pages
    decreases b
  {
    if a < b {
      var p := b - 1;
      StaysUnlessReleased(cfg, tr, a, p, key);
      AtNext(cfg, tr, p);
      StepReleases(cfg, At(cfg, tr, p), tr[p], key);
    }
  }

  /** So it is not inserted anew. */
  lemma NotInsertedUnlessReleased(cfg: Config, tr: seq<Firing>, a: nat, b: nat, key: PageKey)
    requires a <= b <= |tr| && key in At(cfg, tr, a).pages
    requires forall k | a <= k < b :: tr[k] != Release(key)
    ensures forall k | a <= k < b :: !Inserts(cfg, tr, k, key)
  {
    forall k | a <= k < b
      ensures !Inserts(cfg, tr, k, key)
    {
      StaysUnlessReleased(cfg, tr, a, k, key);
    }
  }

  /** The count of a page that is live at `b` and was not inserted in [a, b) grows by its tracked
      accesses. */
  lemma {:induction false} CountGrows(cfg: Config, tr: seq<Firing>, a: nat, b: nat, key: PageKey)
    requires a <= b <= |tr| && key in At(cfg, tr, b).pages
    requires forall k | a <= k < b :: !Inserts(cfg, tr, k, key)
    ensures key in At(cfg, tr, a).pages
    ensures At(cfg, tr, b).pages[key].refCount == At(cfg, tr, a).pages[key].refCount + AccessesOf(cfg, tr, a, b, key)
    decreases b
  {
    if a < b {
      var p := b - 1;
      assert !Inserts(cfg, tr, p, key);
      PresentCounts(cfg, tr, p, key);
      CountGrows(cfg, tr, a, p, key);
    }
  }

  lemma {:induction false} AccessCounts(cfg: Config, tr: seq<Firing>, a: nat, b: nat, j: nat, key: PageKey)
    requires a <= j < b <= |tr| && TrackedAccessOf(cfg, tr, j, key)
    ensures AccessesOf(cfg, tr, a, b, key) > 0
    decreases b
  {
    if j < b - 1 {
      AccessCounts(cfg, tr, a, b - 1, j, key);
    }
  }

  /** A page that is live at `b` and was absent or different at `a` was touched in between by the
      very pid its entry names, even if it was released and re-created meanwhile. */
  lemma ChangedWasAccessed(cfg: Config, tr: seq<Firing>, a: nat, b: nat, key: PageKey) returns (j: int)
    requires a <= b <= |tr| && key in At(cfg, tr, b).pages
    requires key in At(cfg, tr, a).pages ==> At(cfg, tr, a).pages[key] != At(cfg, tr, b).pages[key]
    ensures a <= j < b && TrackedAccessOf(cfg, tr, j, key) && tr[j].pid == At(cfg, tr, b).pages[key].pid
  {
    j := RankIsLastAccess(cfg, tr, b, key);
    if j < a {
      QuietKey(cfg, tr, a, b, key);
    }
  }

  /** A page that has stayed in the map since before `a` changed its pid or its count in [a, b) exactly
      when it was accessed there. */
  lemma StayedChangedIff(cfg: Config, tr: seq<Firing>, a: nat, b: nat, i: int, key: PageKey)
    requires a <= b <= |tr| && key in At(cfg, tr, b).pages && LatestInsertion(cfg, tr, b, i, key) && i < a
    ensures key in At(cfg, tr, a).pages
    ensures var was, now := At(cfg, tr, a).pages[key], At(cfg, tr, b).pages[key];
            was.pid != now.pid || was.refCount < now.refCount <==> AccessesOf(cfg, tr, a, b, key) > 0
  {
    CountGrows(cfg, tr, a, b, key);
    if At(cfg, tr, a).pages[key] != At(cfg, tr, b).pages[key] {
      var j := ChangedWasAccessed(cfg, tr, a, b, key);
      AccessCounts(cfg, tr, a, b, j, key);
    }
  }
}
