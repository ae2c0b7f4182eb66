/** What get_avgscale.py concludes from two snapshots, and why it is right about it.

    The chain runs from the kernel map through the dump loop and the Python parser to the churn
    sets. */
module SnapshotDiff {
  import opened BpfMap
  import opened Options
  import opened PageTracker
  import opened PageTrackerHistory
  import opened SnapshotDump

  /** current_page_access_counts[pid][page]. */
  datatype Slot = Slot(pid: Pid, page: nat)

  type Table = map<Slot, nat>

  /** The table built from the first lines of a file: later lines win. */
  function ParseLines(lines: seq<Line>, tracked: set<Pid>): Table {
    if lines == [] then map[]
    else
      var table, line := ParseLines(lines[..|lines| - 1], tracked), lines[|lines| - 1];
      if line.pid in tracked then table[Slot(line.pid, line.page) := line.count] else table
  }

  /** Line `i` is the last one to fill the slot. */
  predicate LastFills(lines: seq<Line>, i: int, slot: Slot) {
    0 <= i < |lines| && Fills(lines[i], slot) && forall j | i < j < |lines| :: !Fills(lines[j], slot)
  }

  method Parse(lines: seq<Line>, tracked: set<Pid>) returns (table: Table)
    ensures table == ParseLines(lines, tracked)
    ensures forall slot: Slot :: slot in table <==> slot.pid in tracked && exists i :: LastFills(lines, i, slot)
    ensures forall slot: Slot, i | slot in table && LastFills(lines, i, slot) :: table[slot] == lines[i].count
  {
    table := map[];
    for i := 0 to |lines|
      invariant table == ParseLines(lines[..i], tracked)
    {
      assert lines[..i + 1][..i] == lines[..i];
      var line := lines[i];
      if line.pid in tracked {
        table := table[Slot(line.pid, line.page) := line.count];
      }
    }
    assert lines[..|lines|] == lines;
    ParseKeepsLast(lines, tracked);
  }

  /** Exactly the slots of tracked pids that some line fills are there, each with its last count. */
  lemma ParseKeepsLast(lines: seq<Line>, tracked: set<Pid>)
    ensures var table := ParseLines(lines, tracked);
            && (forall slot: Slot :: slot in table <==> slot.pid in tracked && exists i :: LastFills(lines, i, slot))
            && (forall slot: Slot, i | slot in table && LastFills(lines, i, slot) :: table[slot] == lines[i].count)
  {
    forall slot: Slot
      ensures slot in ParseLines(lines, tracked) ==>
                exists i :: LastFills(lines, i, slot) && ParseLines(lines, tracked)[slot] == lines[i].count
    {
      if slot in ParseLines(lines, tracked) {
        var _ := SlotHasLine(lines, tracked, slot);
      }
    }
    forall slot: Slot, i | slot.pid in tracked && LastFills(lines, i, slot)
      ensures slot in ParseLines(lines, tracked)
    {
      LineHasSlot(lines, tracked, i);
      assert slot == Slot(lines[i].pid, lines[i].page);
    }
  }

  /** current_pages - previous_pages. */
  function NewPages(previous: Table, current: Table, pid: Pid): set<nat> {
    set slot | slot in current.Keys && slot.pid == pid && slot !in previous :: slot.page
  }

  /** filtered_previous_pages: pages of both tables whose count rose. */
  function RepeatedPages(previous: Table, current: Table, pid: Pid): set<nat> {
    set slot | slot in previous.Keys && slot.pid == pid && slot in current && current[slot] > previous[slot] :: slot.page
  }

  // ------------------------------------------------------------ the parser

  predicate Fills(line: Line, slot: Slot) {
    line.pid == slot.pid && line.page == slot.page
  }

  /** Every slot comes from the last line that fills it. */
  lemma {:induction false} SlotHasLine(lines: seq<Line>, tracked: set<Pid>, slot: Slot) returns (i: nat)
    requires slot in ParseLines(lines, tracked)
    ensures i < |lines| && Fills(lines[i], slot) && slot.pid in tracked && LastFills(lines, i, slot)
    ensures ParseLines(lines, tracked)[slot] == lines[i].count
  {
    var n := |lines| - 1;
    var line := lines[n];
    if line.pid in tracked && Slot(line.pid, line.page) == slot {
      i := n;
    } else {
      i := SlotHasLine(lines[..n], tracked, slot);
    }
  }

  /** Every line of a tracked pid fills its slot. */
  lemma {:induction false} LineHasSlot(lines: seq<Line>, tracked: set<Pid>, i: nat)
    requires i < |lines| && lines[i].pid in tracked
    ensures Slot(lines[i].pid, lines[i].page) in ParseLines(lines, tracked)
  {
    var n := |lines| - 1;
    if i < n {
      assert lines[..n][i] == lines[i];
      LineHasSlot(lines[..n], tracked, i);
    }
  }

  // ------------------------------------------------------------ from map to table

  ghost predicate InjectiveOn(keys: set<PageKey>) {
    forall a, b | a in keys && b in keys && HashIndexMapping(a) == HashIndexMapping(b) :: a == b
  }

  /** What a dump of `pages` writes. */
  function DumpOf(order: seq<PageKey>, pages: map<PageKey, Metric>): seq<Line>
    requires IterationOrder(order, pages)
  {
    OrderInMap(order, pages);
    LinesOf(pages, Visited(order))
  }

  /** The table a reader gets from it. */
  function TableOf(order: seq<PageKey>, pages: map<PageKey, Metric>, tracked: set<Pid>): Table
    requires IterationOrder(order, pages)
  {
    ParseLines(DumpOf(order, pages), tracked)
  }

  lemma SlotHasKey(order: seq<PageKey>, pages: map<PageKey, Metric>, tracked: set<Pid>, slot: Slot) returns (key: PageKey)
    requires IterationOrder(order, pages) && slot in TableOf(order, pages, tracked)
    ensures key in Visited(order) && key in pages
    ensures HashIndexMapping(key) == slot.page && pages[key].pid == slot.pid
    ensures TableOf(order, pages, tracked)[slot] == pages[key].refCount
  {
    OrderInMap(order, pages);
    var i := SlotHasLine(LinesOf(pages, Visited(order)), tracked, slot);
    key := Visited(order)[i];
  }

  lemma KeyHasSlot(order: seq<PageKey>, pages: map<PageKey, Metric>, tracked: set<Pid>, key: PageKey)
    requires IterationOrder(order, pages) && InjectiveOn(KeySet(Visited(order)))
    requires key in Visited(order) && key in pages && pages[key].pid in tracked
    ensures var slot := Slot(pages[key].pid, HashIndexMapping(key));
            slot in TableOf(order, pages, tracked) && TableOf(order, pages, tracked)[slot] == pages[key].refCount
  {
    var slot := Slot(pages[key].pid, HashIndexMapping(key));
    OrderInMap(order, pages);
    var visited := Visited(order);
    var i :| 0 <= i < |visited| && visited[i] == key;
    LineHasSlot(LinesOf(pages, visited), tracked, i);
    var other := SlotHasKey(order, pages, tracked, slot);
    assert other in KeySet(visited) && key in KeySet(visited);
  }

  // ------------------------------------------------------------ two snapshots of one run

  /** A run, snapshotted at `a` and later at `b`: the iteration orders of the two dumps and the pids
      each round tracks. */
  datatype Comparison = Comparison(
    tr: seq<Firing>, a: nat, b: nat,
    orderA: seq<PageKey>, orderB: seq<PageKey>, trackedA: set<Pid>, trackedB: set<Pid>)

  ghost predicate Valid(cfg: Config, c: Comparison) {
    && c.a <= c.b <= |c.tr|
    && IterationOrder(c.orderA, At(cfg, c.tr, c.a).pages)
    && IterationOrder(c.orderB, At(cfg, c.tr, c.b).pages)
  }

  function Before(cfg: Config, c: Comparison): map<PageKey, Metric>
    requires Valid(cfg, c)
  {
    At(cfg, c.tr, c.a).pages
  }

  function After(cfg: Config, c: Comparison): map<PageKey, Metric>
    requires Valid(cfg, c)
  {
    At(cfg, c.tr, c.b).pages
  }

  function Previous(cfg: Config, c: Comparison): Table
    requires Valid(cfg, c)
  {
    TableOf(c.orderA, Before(cfg, c), c.trackedA)
  }

  function Current(cfg: Config, c: Comparison): Table
    requires Valid(cfg, c)
  {
    TableOf(c.orderB, After(cfg, c), c.trackedB)
  }

  /** The second round counts `page` for `pid`, as new or as repeated. */
  predicate Counted(cfg: Config, c: Comparison, pid: Pid, page: nat)
    requires Valid(cfg, c)
  {
    || page in NewPages(Previous(cfg, c), Current(cfg, c), pid)
    || page in RepeatedPages(Previous(cfg, c), Current(cfg, c), pid)
  }

  /** The pages the two dumps wrote. */
  ghost function DumpedKeys(c: Comparison): set<PageKey> {
    KeySet(Visited(c.orderA)) + KeySet(Visited(c.orderB))
  }

  /** The first dump did not miss the page of that pid which `page` stands for. */
  ghost predicate NotMissed(cfg: Config, c: Comparison, pid: Pid, page: nat)
    requires Valid(cfg, c)
  {
    forall key | key in Before(cfg, c) && Before(cfg, c)[key].pid == pid && HashIndexMapping(key) == page ::
      key in Visited(c.orderA)
  }

  /** The second dump wrote `key` as `page` for that pid, and the pid accessed it at `j`, between the
      snapshots. */
  ghost predicate Touched(cfg: Config, c: Comparison, pid: Pid, page: nat, key: PageKey, j: int)
    requires Valid(cfg, c)
  {
    && key in Visited(c.orderB) && HashIndexMapping(key) == page
    && key in After(cfg, c) && After(cfg, c)[key].pid == pid
    && c.a <= j < c.b && TrackedAccessOf(cfg, c.tr, j, key) && c.tr[j].pid == pid
  }

  ghost predicate Explained(cfg: Config, c: Comparison, pid: Pid, page: nat)
    requires Valid(cfg, c)
  {
    exists key, j :: Touched(cfg, c, pid, page, key, j)
  }

  /** Injectivity on all dumped pages, for each dump and across. */
  lemma InjectiveParts(c: Comparison)
    requires InjectiveOn(DumpedKeys(c))
    ensures InjectiveOn(KeySet(Visited(c.orderA))) && InjectiveOn(KeySet(Visited(c.orderB)))
    ensures forall p, q | p in Visited(c.orderA) && q in Visited(c.orderB) && HashIndexMapping(p) == HashIndexMapping(q) ::
              p == q
  {
    var keys := DumpedKeys(c);
    forall p, q | p in Visited(c.orderA) && q in Visited(c.orderB) && HashIndexMapping(p) == HashIndexMapping(q)
      ensures p == q
    {
      assert p in keys && q in keys;
    }
  }

  /** A dumped page whose entry is not what it was at the first snapshot was accessed since. */
  lemma ChangedIsTouched(cfg: Config, c: Comparison, pid: Pid, page: nat, key: PageKey)
    requires Valid(cfg, c) && key in Visited(c.orderB) && HashIndexMapping(key) == page
    requires key in After(cfg, c) && After(cfg, c)[key].pid == pid
    requires key in Before(cfg, c) ==> Before(cfg, c)[key] != After(cfg, c)[key]
    ensures Explained(cfg, c, pid, page)
  {
    var j := ChangedWasAccessed(cfg, c.tr, c.a, c.b, key);
    assert Touched(cfg, c, pid, page, key, j);
  }

  /** With distinct hashes on the dumped pages, every page whose count rose was accessed by that pid
      between the two snapshots, whatever the first dump missed. */
  lemma RisenWasAccessed(cfg: Config, c: Comparison, pid: Pid, page: nat)
    requires Valid(cfg, c) && InjectiveOn(DumpedKeys(c))
    requires page in RepeatedPages(Previous(cfg, c), Current(cfg, c), pid)
    ensures Explained(cfg, c, pid, page)
  {
    InjectiveParts(c);
    var slot := Slot(pid, page);
    assert slot in Current(cfg, c) && slot in Previous(cfg, c);
    CountedSlots(Previous(cfg, c), Current(cfg, c), slot);
    var key := SlotHasKey(c.orderB, After(cfg, c), c.trackedB, slot);
    var was := SlotHasKey(c.orderA, Before(cfg, c), c.trackedA, slot);
    assert was == key;
    ChangedIsTouched(cfg, c, pid, page, key);
  }

  /** A page counted as new was accessed by that pid between the two snapshots, if the first round
      tracked the pid and the first dump did not miss the page. */
  lemma NewWasAccessed(cfg: Config, c: Comparison, pid: Pid, page: nat)
    requires Valid(cfg, c) && InjectiveOn(DumpedKeys(c)) && pid in c.trackedA && NotMissed(cfg, c, pid, page)
    requires page in NewPages(Previous(cfg, c), Current(cfg, c), pid)
    ensures Explained(cfg, c, pid, page)
  {
    InjectiveParts(c);
    var slot := Slot(pid, page);
    assert slot in Current(cfg, c);
    CountedSlots(Previous(cfg, c), Current(cfg, c), slot);
    var key := SlotHasKey(c.orderB, After(cfg, c), c.trackedB, slot);
    if key in Before(cfg, c) && Before(cfg, c)[key] == After(cfg, c)[key] {
      KeyHasSlot(c.orderA, Before(cfg, c), c.trackedA, key);
      assert false;
    }
    ChangedIsTouched(cfg, c, pid, page, key);
  }

  /** A pid the first round did not track: whatever the second dump wrote for it counts as new, and
      nothing as risen. */
  lemma UntrackedLooksNew(cfg: Config, c: Comparison, pid: Pid)
    requires Valid(cfg, c) && pid !in c.trackedA
    ensures RepeatedPages(Previous(cfg, c), Current(cfg, c), pid) == {}
    ensures forall slot | slot in Current(cfg, c) && slot.pid == pid ::
              slot.page in NewPages(Previous(cfg, c), Current(cfg, c), pid)
  {
    forall slot | slot in Previous(cfg, c)
      ensures slot.pid != pid
    {
      var _ := SlotHasLine(DumpOf(c.orderA, Before(cfg, c)), c.trackedA, slot);
    }
  }

  /** Soundness of the difference: with distinct hashes on the dumped pages, everything counted was
      accessed by that pid between the two snapshots, even if it was released and re-created
      meanwhile.  Only for new pages must the first round have seen what the pid had. */
  lemma DifferenceIsSound(cfg: Config, c: Comparison, pid: Pid, page: nat)
    requires Valid(cfg, c) && InjectiveOn(DumpedKeys(c)) && Counted(cfg, c, pid, page)
    requires page in NewPages(Previous(cfg, c), Current(cfg, c), pid) ==>
               pid in c.trackedA && NotMissed(cfg, c, pid, page)
    ensures Explained(cfg, c, pid, page)
  {
    if page in RepeatedPages(Previous(cfg, c), Current(cfg, c), pid) {
      RisenWasAccessed(cfg, c, pid, page);
    } else {
      NewWasAccessed(cfg, c, pid, page);
    }
  }

  lemma CountedSlots(previous: Table, current: Table, slot: Slot)
    requires slot in current
    ensures slot.page in NewPages(previous, current, slot.pid) <==> slot !in previous
    ensures slot.page in RepeatedPages(previous, current, slot.pid)
            <==> slot in previous && previous[slot] < current[slot]
  {
    assert slot == Slot(slot.pid, slot.page);
  }

  // ------------------------------------------------------------ exactly what is counted

  /** The second dump wrote the page, the first did if it held it for the same pid, and both rounds
      track that pid. */
  ghost predicate Observed(cfg: Config, c: Comparison, key: PageKey)
    requires Valid(cfg, c)
  {
    && key in Visited(c.orderB) && key in After(cfg, c)
    && After(cfg, c)[key].pid in c.trackedA && After(cfg, c)[key].pid in c.trackedB
    && (HeldBefore(cfg, c, key) ==> key in Visited(c.orderA))
  }

  /** The same pid already had the page at the first snapshot. */
  ghost predicate HeldBefore(cfg: Config, c: Comparison, key: PageKey)
    requires Valid(cfg, c) && key in After(cfg, c)
  {
    key in Before(cfg, c) && Before(cfg, c)[key].pid == After(cfg, c)[key].pid
  }

  /** The difference counts a page unless the same pid already had it with at least its present
      count. */
  lemma CountedIff(cfg: Config, c: Comparison, key: PageKey)
    requires Valid(cfg, c) && InjectiveOn(DumpedKeys(c)) && Observed(cfg, c, key)
    ensures Counted(cfg, c, After(cfg, c)[key].pid, HashIndexMapping(key)) <==>
              (HeldBefore(cfg, c, key) ==> Before(cfg, c)[key].refCount < After(cfg, c)[key].refCount)
  {
    InjectiveParts(c);
    var slot := Slot(After(cfg, c)[key].pid, HashIndexMapping(key));
    KeyHasSlot(c.orderB, After(cfg, c), c.trackedB, key);
    if HeldBefore(cfg, c, key) {
      KeyHasSlot(c.orderA, Before(cfg, c), c.trackedA, key);
    } else if slot in Previous(cfg, c) {
      var _ := SlotHasKey(c.orderA, Before(cfg, c), c.trackedA, slot);
      assert false;
    }
    CountedSlots(Previous(cfg, c), Current(cfg, c), slot);
  }

  /** The same by counting accesses.  A page that has stayed in the map since before the first
      snapshot is counted exactly when it was accessed in between.  A page inserted in between, at
      `i`, is counted unless the same pid had it at the first snapshot, inserted at `before`, with at
      least as many accesses up to then as it has had since `i`. */
  lemma CountedIffHistory(cfg: Config, c: Comparison, key: PageKey, i: int) returns (before: int)
    requires Valid(cfg, c) && InjectiveOn(DumpedKeys(c)) && Observed(cfg, c, key)
    requires LatestInsertion(cfg, c.tr, c.b, i, key)
    ensures HeldBefore(cfg, c, key) ==> LatestInsertion(cfg, c.tr, c.a, before, key)
    ensures Counted(cfg, c, After(cfg, c)[key].pid, HashIndexMapping(key)) <==>
              if i < c.a then AccessesOf(cfg, c.tr, c.a, c.b, key) > 0
              else HeldBefore(cfg, c, key) ==>
                     AccessesOf(cfg, c.tr, before, c.a, key) < AccessesOf(cfg, c.tr, i, c.b, key)
  {
    CountedIff(cfg, c, key);
    before := i;
    if HeldBefore(cfg, c, key) {
      before := RefCountSinceInsertion(cfg, c.tr, c.a, key);
    }
    if i < c.a {
      StayedChangedIff(cfg, c.tr, c.a, c.b, i, key);
    } else {
      RefCountFrom(cfg, c.tr, c.b, i, key);
    }
  }

  /** Completeness of the difference: a page whose latest tracked access lies between the snapshots
      and that was not released in between is counted for the pid of that access. */
  lemma DifferenceIsComplete(cfg: Config, c: Comparison, key: PageKey, j: int)
    requires Valid(cfg, c) && InjectiveOn(DumpedKeys(c))
    requires key in Visited(c.orderB) && key in After(cfg, c)
    requires c.a <= j && LastAccess(cfg, c.tr, c.b, j, key) && c.tr[j].pid in c.trackedB
    requires forall k | c.a <= k < c.b :: c.tr[k] != Release(key)
    ensures Counted(cfg, c, c.tr[j].pid, HashIndexMapping(key))
  {
    InjectiveParts(c);
    var slot := Slot(c.tr[j].pid, HashIndexMapping(key));
    var last := RankIsLastAccess(cfg, c.tr, c.b, key);
    assert last == j;
    KeyHasSlot(c.orderB, After(cfg, c), c.trackedB, key);
    if slot in Previous(cfg, c) {
      var other := SlotHasKey(c.orderA, Before(cfg, c), c.trackedA, slot);
      assert other == key;
      NotInsertedUnlessReleased(cfg, c.tr, c.a, c.b, key);
      CountGrows(cfg, c.tr, c.a, c.b, key);
      AccessCounts(cfg, c.tr, c.a, c.b, j, key);
    }
    CountedSlots(Previous(cfg, c), Current(cfg, c), slot);
  }

  // ------------------------------------------------------------ runs that mislead

  /** The maps have room for two pages and one pid. */
  predicate HasRoom(cfg: Config) {
    && (cfg.pageCapacity.Bounded? ==> cfg.pageCapacity.entries >= 2)
    && (cfg.pidCapacity.Bounded? ==> cfg.pidCapacity.entries >= 1)
  }

  /** A tracked process touches `p` twice and `q` once, and then `q` is released. */
  function CollisionRun(p: PageKey, q: PageKey, pid: Pid): seq<Firing> {
    [Track(pid), Access(pid, p, 1), Access(pid, p, 1), Access(pid, q, 1), Release(q)]
  }

  /** A tracked access to an absent page, there being room, and to a present one. */
  lemma AccessSteps(cfg: Config, s: State, pid: Pid, key: PageKey)
    requires pid in s.pids && !Refuses(cfg.pageCapacity, s.pages, key)
    ensures var refs := if key in s.pages then s.pages[key].refCount + 1 else 1;
            Step(cfg, s, Access(pid, key, 1))
            == State(s.pages[key := Metric(refs, s.counter + 1, 1, pid)], s.counter + 1, s.pids)
  {
  }

  /** The states of a run of five firings. */
  lemma FiveSteps(cfg: Config, tr: seq<Firing>)
    requires |tr| == 5
    ensures At(cfg, tr, 0) == EMPTY
    ensures At(cfg, tr, 1) == Step(cfg, EMPTY, tr[0]) && At(cfg, tr, 2) == Step(cfg, At(cfg, tr, 1), tr[1])
    ensures At(cfg, tr, 3) == Step(cfg, At(cfg, tr, 2), tr[2]) && At(cfg, tr, 4) == Step(cfg, At(cfg, tr, 3), tr[3])
    ensures At(cfg, tr, 5) == Step(cfg, At(cfg, tr, 4), tr[4])
  {
    AtNext(cfg, tr, 0);
    AtNext(cfg, tr, 1);
    AtNext(cfg, tr, 2);
    AtNext(cfg, tr, 3);
    AtNext(cfg, tr, 4);
  }

  lemma TrackFirst(cfg: Config, pid: Pid)
    requires HasRoom(cfg)
    ensures Step(cfg, EMPTY, Track(pid)) == State(map[], 0, map[pid := 1])
  {
  }

  /** Two accesses to one page by a newly tracked process. */
  lemma TouchTwice(cfg: Config, pid: Pid, key: PageKey)
    requires HasRoom(cfg)
    ensures var s := Step(cfg, Step(cfg, Step(cfg, EMPTY, Track(pid)), Access(pid, key, 1)), Access(pid, key, 1));
            s == State(map[key := Metric(2, 2, 1, pid)], 2, map[pid := 1])
  {
    TrackFirst(cfg, pid);
    var s := State(map[], 0, map[pid := 1]);
    AccessSteps(cfg, s, pid, key);
    var s' := State(map[key := Metric(1, 1, 1, pid)], 1, map[pid := 1]);
    assert Step(cfg, s, Access(pid, key, 1)) == s';
    AccessSteps(cfg, s', pid, key);
  }

  lemma CollisionMaps(cfg: Config, p: PageKey, q: PageKey, pid: Pid)
    requires HasRoom(cfg) && p != q
    ensures At(cfg, CollisionRun(p, q, pid), 4).pages == map[p := Metric(2, 2, 1, pid), q := Metric(1, 3, 1, pid)]
    ensures At(cfg, CollisionRun(p, q, pid), 5).pages == map[p := Metric(2, 2, 1, pid)]
  {
    FiveSteps(cfg, CollisionRun(p, q, pid));
    TouchTwice(cfg, pid, p);
    var s := State(map[p := Metric(2, 2, 1, pid)], 2, map[pid := 1]);
    AccessSteps(cfg, s, pid, q);
  }

  /** The run above, snapshotted before and after the release of `q`. */
  function AroundRelease(p: PageKey, q: PageKey, pid: Pid): Comparison {
    Comparison(CollisionRun(p, q, pid), 4, 5, [p, q], [p], {pid}, {pid})
  }

  lemma AroundReleaseIsValid(cfg: Config, p: PageKey, q: PageKey, pid: Pid)
    requires HasRoom(cfg) && p != q
    ensures var c := AroundRelease(p, q, pid);
            && Valid(cfg, c)
            && Before(cfg, c) == map[p := Metric(2, 2, 1, pid), q := Metric(1, 3, 1, pid)]
            && After(cfg, c) == map[p := Metric(2, 2, 1, pid)]
            && Before(cfg, c).Keys == {p, q} && After(cfg, c).Keys == {p}
            && forall j | c.a <= j < c.b :: !TrackedAccess(cfg, c.tr, j)
  {
    CollisionMaps(cfg, p, q, pid);
    assert KeySet([p, q]) == {p, q} && KeySet([p]) == {p};
  }

  lemma CollisionTables(cfg: Config, p: PageKey, q: PageKey, pid: Pid)
    requires HasRoom(cfg) && p != q && p != ZERO_KEY && q != ZERO_KEY && HashIndexMapping(p) == HashIndexMapping(q)
    ensures Visited([p, q]) == [p, q]
    ensures var c, slot := AroundRelease(p, q, pid), Slot(pid, HashIndexMapping(p));
            && Valid(cfg, c)
            && slot in Previous(cfg, c) && Previous(cfg, c)[slot] == 1
            && slot in Current(cfg, c) && Current(cfg, c)[slot] == 2
  {
    var c := AroundRelease(p, q, pid);
    AroundReleaseIsValid(cfg, p, q, pid);
    LastSlot([p, q], Before(cfg, c), pid, q);
    LastSlot([p], After(cfg, c), pid, p);
  }

  /** Injectivity of the page hash cannot be dropped.  For any two pages that share a hash there is a
      run in which the second snapshot shows a rise although nothing at all was accessed since the
      first: the release of one page uncovers the larger count of the other. */
  lemma CollisionFakesRise(cfg: Config, p: PageKey, q: PageKey, pid: Pid) returns (c: Comparison)
    requires HasRoom(cfg) && p != q && p != ZERO_KEY && q != ZERO_KEY && HashIndexMapping(p) == HashIndexMapping(q)
    ensures Valid(cfg, c) && pid in c.trackedA && pid in c.trackedB
    ensures Before(cfg, c).Keys == {p, q} && After(cfg, c).Keys == {p}
    ensures forall key | key in Before(cfg, c) :: key in Visited(c.orderA)
    ensures HashIndexMapping(p) in RepeatedPages(Previous(cfg, c), Current(cfg, c), pid)
    ensures Counted(cfg, c, pid, HashIndexMapping(p))
    ensures forall j | c.a <= j < c.b :: !TrackedAccess(cfg, c.tr, j)
  {
    c := AroundRelease(p, q, pid);
    AroundReleaseIsValid(cfg, p, q, pid);
    CollisionTables(cfg, p, q, pid);
    CountedSlots(Previous(cfg, c), Current(cfg, c), Slot(pid, HashIndexMapping(p)));
  }

  lemma HiddenTables(cfg: Config, p: PageKey, pid: Pid)
    requires HasRoom(cfg) && p != ZERO_KEY
    ensures var c := AroundRelease(p, ZERO_KEY, pid);
            Valid(cfg, c) && Previous(cfg, c) == map[] && Slot(pid, HashIndexMapping(p)) in Current(cfg, c)
            && DumpedKeys(c) == {p}
  {
    var c := AroundRelease(p, ZERO_KEY, pid);
    AroundReleaseIsValid(cfg, p, ZERO_KEY, pid);
    HiddenOrder(p);
    LastSlot([p], After(cfg, c), pid, p);
    assert DumpOf(c.orderA, Before(cfg, c)) == [];
  }

  /** Nor can visibility.  The all-zero key hides any page iterated before it, and when the page with
      that key is released the hidden one looks new although nothing was accessed. */
  lemma HiddenPageLooksNew(cfg: Config, p: PageKey, pid: Pid) returns (c: Comparison)
    requires HasRoom(cfg) && p != ZERO_KEY
    ensures Valid(cfg, c) && pid in c.trackedA && pid in c.trackedB
    ensures Before(cfg, c).Keys == {p, ZERO_KEY} && After(cfg, c).Keys == {p} && InjectiveOn(DumpedKeys(c))
    ensures HashIndexMapping(p) in NewPages(Previous(cfg, c), Current(cfg, c), pid)
    ensures Counted(cfg, c, pid, HashIndexMapping(p))
    ensures forall j | c.a <= j < c.b :: !TrackedAccess(cfg, c.tr, j)
  {
    c := AroundRelease(p, ZERO_KEY, pid);
    AroundReleaseIsValid(cfg, p, ZERO_KEY, pid);
    HiddenTables(cfg, p, pid);
    CountedSlots(Previous(cfg, c), Current(cfg, c), Slot(pid, HashIndexMapping(p)));
  }

  lemma HiddenOrder(p: PageKey)
    requires p != ZERO_KEY
    ensures Visited([p, ZERO_KEY]) == [] && Visited([p]) == [p]
    ensures KeySet([]) + KeySet([p]) == {p}
  {
    IndexIsUnique([p, ZERO_KEY], 1);
  }

  /** The last visited page decides its slot. */
  lemma LastSlot(order: seq<PageKey>, pages: map<PageKey, Metric>, pid: Pid, last: PageKey)
    requires IterationOrder(order, pages) && Visited(order) != [] && Visited(order)[|Visited(order)| - 1] == last
    requires last in pages && pages[last].pid == pid
    ensures var slot := Slot(pid, HashIndexMapping(last));
            slot in TableOf(order, pages, {pid}) && TableOf(order, pages, {pid})[slot] == pages[last].refCount
  {
    var lines, n := DumpOf(order, pages), |Visited(order)| - 1;
    assert lines[n] == LineOf(last, pages[last]);
    ParseLast(lines, {pid});
  }

  lemma ParseLast(lines: seq<Line>, tracked: set<Pid>)
    requires lines != [] && lines[|lines| - 1].pid in tracked
    ensures var line := lines[|lines| - 1];
            var slot := Slot(line.pid, line.page);
            slot in ParseLines(lines, tracked) && ParseLines(lines, tracked)[slot] == line.count
  {
  }

  /** While only pages of `keys` are live, the difference explains everything it counts for pids the
      first round tracked, in every run. */
  ghost predicate SoundOver(cfg: Config, keys: set<PageKey>) {
    forall c, pid, page | CountsOver(cfg, keys, c, pid, page) :: Explained(cfg, c, pid, page)
  }

  /** A comparison of maps over `keys` counts `page` for a tracked pid. */
  ghost predicate CountsOver(cfg: Config, keys: set<PageKey>, c: Comparison, pid: Pid, page: nat) {
    && Valid(cfg, c) && Before(cfg, c).Keys <= keys && After(cfg, c).Keys <= keys
    && pid in c.trackedA && Counted(cfg, c, pid, page)
  }

  /** No page can hide another: the all-zero key is not there, or there is no other. */
  predicate NothingHidden(keys: set<PageKey>) {
    ZERO_KEY in keys ==> keys <= {ZERO_KEY}
  }

  lemma ZeroIsNeverDumped(order: seq<PageKey>)
    requires Distinct(order)
    ensures ZERO_KEY !in Visited(order)
  {
    var visited, start := Visited(order), Start(order);
    forall m | 0 <= m < |visited|
      ensures visited[m] != ZERO_KEY
    {
      assert visited[m] == order[start + m];
    }
  }

  /** The dumps write live pages only, and never the all-zero key. */
  lemma DumpedAreLive(cfg: Config, c: Comparison, keys: set<PageKey>)
    requires Valid(cfg, c) && Before(cfg, c).Keys <= keys && After(cfg, c).Keys <= keys
    ensures DumpedKeys(c) <= keys - {ZERO_KEY}
  {
    ZeroIsNeverDumped(c.orderA);
    ZeroIsNeverDumped(c.orderB);
    OrderInMap(c.orderA, Before(cfg, c));
    OrderInMap(c.orderB, After(cfg, c));
  }

  lemma AllVisited(order: seq<PageKey>, pages: map<PageKey, Metric>)
    requires IterationOrder(order, pages) && ZERO_KEY !in pages
    ensures forall key | key in pages :: key in Visited(order)
  {
    assert ZERO_KEY !in KeySet(order);
    assert Visited(order) == order;
    forall key | key in pages
      ensures key in Visited(order)
    {
      assert key in KeySet(order);
    }
  }

  lemma SoundWhenInjective(cfg: Config, keys: set<PageKey>, c: Comparison, pid: Pid, page: nat)
    requires InjectiveOn(keys - {ZERO_KEY}) && NothingHidden(keys) && CountsOver(cfg, keys, c, pid, page)
    ensures Explained(cfg, c, pid, page)
  {
    DumpedAreLive(cfg, c, keys);
    assert Slot(pid, page) in Current(cfg, c);
    var key := SlotHasKey(c.orderB, After(cfg, c), c.trackedB, Slot(pid, page));
    assert key in DumpedKeys(c);
    AllVisited(c.orderA, Before(cfg, c));
    DifferenceIsSound(cfg, c, pid, page);
  }

  /** The exact condition: over a set of live pages, everything the difference counts was accessed, in
      every run, if and only if the hash is injective on the pages other than the all-zero key and
      that key can hide none of them. */
  lemma SoundIff(cfg: Config, keys: set<PageKey>)
    requires HasRoom(cfg)
    ensures SoundOver(cfg, keys) <==> InjectiveOn(keys - {ZERO_KEY}) && NothingHidden(keys)
  {
    if !InjectiveOn(keys - {ZERO_KEY}) {
      var p, q :| p in keys - {ZERO_KEY} && q in keys - {ZERO_KEY} && HashIndexMapping(p) == HashIndexMapping(q) && p != q;
      CollisionIsUnsound(cfg, keys, p, q);
    } else if !NothingHidden(keys) {
      var p :| p in keys && p != ZERO_KEY;
      HidingIsUnsound(cfg, keys, p);
    } else {
      forall c, pid, page | CountsOver(cfg, keys, c, pid, page)
        ensures Explained(cfg, c, pid, page)
      {
        SoundWhenInjective(cfg, keys, c, pid, page);
      }
    }
  }

  lemma CollisionIsUnsound(cfg: Config, keys: set<PageKey>, p: PageKey, q: PageKey)
    requires HasRoom(cfg) && p in keys && q in keys && p != ZERO_KEY && q != ZERO_KEY
    requires p != q && HashIndexMapping(p) == HashIndexMapping(q)
    ensures !SoundOver(cfg, keys)
  {
    assert {p, q} <= keys && {p} <= keys;
    var c := CollisionFakesRise(cfg, p, q, 1);
    Unexplained(cfg, keys, c, 1, HashIndexMapping(p));
  }

  lemma HidingIsUnsound(cfg: Config, keys: set<PageKey>, p: PageKey)
    requires HasRoom(cfg) && p in keys && p != ZERO_KEY && ZERO_KEY in keys
    ensures !SoundOver(cfg, keys)
  {
    assert {p, ZERO_KEY} <= keys && {p} <= keys;
    var c := HiddenPageLooksNew(cfg, p, 1);
    Unexplained(cfg, keys, c, 1, HashIndexMapping(p));
  }

  lemma Unexplained(cfg: Config, keys: set<PageKey>, c: Comparison, pid: Pid, page: nat)
    requires Valid(cfg, c) && Before(cfg, c).Keys <= keys && After(cfg, c).Keys <= keys
    requires pid in c.trackedA && Counted(cfg, c, pid, page)
    requires forall j | c.a <= j < c.b :: !TrackedAccess(cfg, c.tr, j)
    ensures !SoundOver(cfg, keys)
  {
    assert CountsOver(cfg, keys, c, pid, page) && !Explained(cfg, c, pid, page);
  }

  /** A tracked process touches a page twice, loses it, and touches it again. */
  function RecreationRun(key: PageKey, pid: Pid): seq<Firing> {
    [Track(pid), Access(pid, key, 1), Access(pid, key, 1), Release(key), Access(pid, key, 1)]
  }

  lemma RecreationMaps(cfg: Config, key: PageKey, pid: Pid)
    requires HasRoom(cfg)
    ensures At(cfg, RecreationRun(key, pid), 3).pages == map[key := Metric(2, 2, 1, pid)]
    ensures At(cfg, RecreationRun(key, pid), 5).pages == map[key := Metric(1, 3, 1, pid)]
    ensures pid in At(cfg, RecreationRun(key, pid), 4).pids
  {
    FiveSteps(cfg, RecreationRun(key, pid));
    TouchTwice(cfg, pid, key);
    var s := State(map[], 2, map[pid := 1]);
    assert At(cfg, RecreationRun(key, pid), 4) == s;
    AccessSteps(cfg, s, pid, key);
  }

  /** A page can escape: accessed by the tracked pid between the snapshots and live at the second, yet
      neither new nor repeated, because it was released and re-created with a smaller count. */
  lemma RecreatedPageEscapes(cfg: Config, key: PageKey, pid: Pid) returns (c: Comparison)
    requires HasRoom(cfg) && key != ZERO_KEY
    ensures Valid(cfg, c) && InjectiveOn(DumpedKeys(c)) && key in After(cfg, c) && Observed(cfg, c, key)
    ensures exists j :: c.a <= j < c.b && TrackedAccessOf(cfg, c.tr, j, key) && c.tr[j].pid == pid
    ensures !Counted(cfg, c, pid, HashIndexMapping(key))
  {
    c := Comparison(RecreationRun(key, pid), 3, 5, [key], [key], {pid}, {pid});
    RecreationMaps(cfg, key, pid);
    TrackedAccessIff(cfg, c.tr, 4);
    assert KeySet([key]) == {key} && Visited([key]) == [key];
    CountedIff(cfg, c, key);
  }
}
