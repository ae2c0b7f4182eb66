/** The exec/exit lifetime tracker of examples/c/bootstrap.bpf.c and its in-kernel duration
    filter. */
module ExecLifetime {
  import opened Options
  import opened BpfMap

  const MAX_ENTRIES: nat := 8192
  const TWO_TO_THE_64: int := 0x1_0000_0000_0000_0000

  type Pid = int

  datatype Firing =
    | Exec(pid: Pid, ts: nat, ppid: Pid, comm: string, filename: string)
    | Exit(pid: Pid, tid: Pid, ts: nat, ppid: Pid, comm: string, code: nat)

  datatype Event =
    | ExecEvent(pid: Pid, ppid: Pid, comm: string, filename: string)
    | ExitEvent(pid: Pid, ppid: Pid, comm: string, exitCode: nat, duration: nat)

  type Starts = map<Pid, nat>

  datatype Outcome = Outcome(starts: Starts, event: Option<Event>)

  /** u64 subtraction. */
  function Elapsed(now: nat, start: nat): nat {
    (now - start) % TWO_TO_THE_64
  }

  /** (exit_code >> 8) & 0xff. */
  function ExitCode(code: nat): nat {
    code / 256 % 256
  }

  /** One tracepoint.  `min` is min_duration_ns; `reserved` tells whether the ring buffer had
      room. */
  function Step(cap: Capacity, min: nat, starts: Starts, f: Firing, reserved: bool): Outcome {
    match f
    case Exec(pid, ts, ppid, comm, filename) =>
      var starts' := Update(cap, starts, pid, ts);
      if min != 0 || !reserved then Outcome(starts', None)
      else Outcome(starts', Some(ExecEvent(pid, ppid, comm, filename)))
    case Exit(pid, tid, ts, ppid, comm, code) =>
      if pid != tid then Outcome(starts, None)
      else if pid !in starts && min != 0 then Outcome(starts, None)
      else
        var duration := if pid in starts then Elapsed(ts, starts[pid]) else 0;
        var starts' := Delete(starts, pid);
        if (min != 0 && duration < min) || !reserved then Outcome(starts', None)
        else Outcome(starts', Some(ExitEvent(pid, ppid, comm, ExitCode(code), duration)))
  }

  /** exec_start after a trace; `reserves[i]` is the ring buffer's answer at firing `i`. */
  function StartsAfter(cap: Capacity, min: nat, tr: seq<Firing>, reserves: seq<bool>): Starts
    requires |reserves| == |tr|
  {
    if tr == [] then map[]
    else
      var n := |tr| - 1;
      Step(cap, min, StartsAfter(cap, min, tr[..n], reserves[..n]), tr[n], reserves[n]).starts
  }

  function EventsOf(cap: Capacity, min: nat, tr: seq<Firing>, reserves: seq<bool>): seq<Event>
    requires |reserves| == |tr|
  {
    if tr == [] then []
    else
      var n := |tr| - 1;
      var event := Step(cap, min, StartsAfter(cap, min, tr[..n], reserves[..n]), tr[n], reserves[n]).event;
      EventsOf(cap, min, tr[..n], reserves[..n]) + Added(event)
  }

  class Lifetimes {
    const minDuration: nat
    const cap: Capacity
    var execStart: Starts
    var ring: seq<Event>

    constructor (minDuration: nat)
      ensures this.minDuration == minDuration && cap == Bounded(MAX_ENTRIES)
      ensures execStart == map[] && ring == []
    {
      this.minDuration, cap := minDuration, Bounded(MAX_ENTRIES);
      execStart, ring := map[], [];
    }

    twostate predicate Fired(f: Firing, reserved: bool)
      reads this
    {
      var out := Step(cap, minDuration, old(execStart), f, reserved);
      && execStart == out.starts
      && ring == (if out.event.Some? then old(ring) + [out.event.value] else old(ring))
    }

    method HandleExec(pid: Pid, ts: nat, ppid: Pid, comm: string, filename: string, reserved: bool)
      modifies this
      ensures Fired(Exec(pid, ts, ppid, comm, filename), reserved)
    {
      execStart := Update(cap, execStart, pid, ts);
      if minDuration != 0 { return; }
      if !reserved { return; }
      ring := ring + [ExecEvent(pid, ppid, comm, filename)];
    }

    method HandleExit(pid: Pid, tid: Pid, ts: nat, ppid: Pid, comm: string, code: nat, reserved: bool)
      modifies this
      ensures Fired(Exit(pid, tid, ts, ppid, comm, code), reserved)
    {
      var duration := 0;
      if pid != tid { return; }
      if pid in execStart {
        duration := Elapsed(ts, execStart[pid]);
      } else if minDuration != 0 {
        return;
      }
      execStart := Delete(execStart, pid);
      if minDuration != 0 && duration < minDuration { return; }
      if !reserved { return; }
      ring := ring + [ExitEvent(pid, ppid, comm, ExitCode(code), duration)];
    }
  }

  // ------------------------------------------------------------ the filter

  /** What a user-space filter would keep: exits that lasted at least `min`. */
  function LongExits(min: nat, events: seq<Event>): seq<Event> {
    if events == [] then []
    else
      var n := |events| - 1;
      LongExits(min, events[..n]) + (if events[n].ExitEvent? && events[n].duration >= min then [events[n]] else [])
  }

  lemma StepIgnoresFilter(cap: Capacity, min: nat, starts: Starts, f: Firing, r: bool, r': bool)
    ensures Step(cap, min, starts, f, r).starts == Step(cap, 0, starts, f, r').starts
  {
    if f.Exit? && f.pid !in starts {
      assert Delete(starts, f.pid) == starts;
    }
  }

  /** The filter and the ring buffer never influence exec_start: any two thresholds and any two
      patterns of failed reserves keep equal maps at every step. */
  lemma {:induction false} StartsIgnoreFilter(cap: Capacity, min: nat, tr: seq<Firing>, r: seq<bool>, r': seq<bool>)
    requires |r| == |tr| == |r'|
    ensures StartsAfter(cap, min, tr, r) == StartsAfter(cap, 0, tr, r')
  {
    if tr != [] {
      var n := |tr| - 1;
      StartsIgnoreFilter(cap, min, tr[..n], r[..n], r'[..n]);
      StepIgnoresFilter(cap, min, StartsAfter(cap, 0, tr[..n], r'[..n]), tr[n], r[n], r'[n]);
    }
  }

  /** Filter pushdown: the events emitted under min_duration_ns = m are exactly the exit events of
      the unfiltered run that lasted at least m, in the same order, whatever the ring buffer answers
      at each firing. */
  lemma {:induction false} FilterPushdown(cap: Capacity, min: nat, tr: seq<Firing>, reserves: seq<bool>)
    requires min > 0 && |reserves| == |tr|
    ensures EventsOf(cap, min, tr, reserves) == LongExits(min, EventsOf(cap, 0, tr, reserves))
  {
    if tr != [] {
      var n := |tr| - 1;
      var prior, rs := tr[..n], reserves[..n];
      FilterPushdown(cap, min, prior, rs);
      StartsIgnoreFilter(cap, min, prior, rs, rs);
      var starts := StartsAfter(cap, 0, prior, rs);
      StepFilters(cap, min, starts, tr[n], reserves[n]);
      LongExitsNext(min, EventsOf(cap, 0, prior, rs), Step(cap, 0, starts, tr[n], reserves[n]).event);
    }
  }

  /** The events a single firing adds. */
  function Added(event: Option<Event>): seq<Event> {
    if event.Some? then [event.value] else []
  }

  lemma StepFilters(cap: Capacity, min: nat, starts: Starts, f: Firing, reserved: bool)
    requires min > 0
    ensures var plain := Step(cap, 0, starts, f, reserved).event;
            Added(Step(cap, min, starts, f, reserved).event) == LongExits(min, Added(plain))
  {
    var plain := Step(cap, 0, starts, f, reserved).event;
    if plain.Some? {
      assert [plain.value][..0] == [];
    }
  }

  lemma LongExitsNext(min: nat, events: seq<Event>, event: Option<Event>)
    ensures LongExits(min, events + Added(event)) == LongExits(min, events) + LongExits(min, Added(event))
  {
    if event.Some? {
      assert (events + [event.value])[..|events|] == events;
      assert [event.value][..0] == [];
    } else {
      assert events + [] == events;
    }
  }

  lemma {:induction false} FilterTwice(m: nat, m': nat, events: seq<Event>)
    requires m <= m'
    ensures LongExits(m', LongExits(m, events)) == LongExits(m', events)
  {
    if events != [] {
      var n := |events| - 1;
      FilterTwice(m, m', events[..n]);
      var kept := LongExits(m, events[..n]);
      assert (kept + [events[n]])[..|kept|] == kept;
      assert kept + [] == kept;
    }
  }

  /** Raising the threshold in the kernel is the same as filtering the already filtered stream. */
  lemma FilterComposes(cap: Capacity, m: nat, m': nat, tr: seq<Firing>, reserves: seq<bool>)
    requires 0 < m <= m' && |reserves| == |tr|
    ensures EventsOf(cap, m', tr, reserves) == LongExits(m', EventsOf(cap, m, tr, reserves))
  {
    FilterPushdown(cap, m, tr, reserves);
    FilterPushdown(cap, m', tr, reserves);
    FilterTwice(m, m', EventsOf(cap, 0, tr, reserves));
  }

  // ------------------------------------------------------------ what a duration means

  /** Firing `f` starts or ends the recorded life of `pid`. */
  predicate Marks(f: Firing, pid: Pid) {
    f.pid == pid && (f.Exec? || f.tid == pid)
  }

  /** Before position `i` the latest mark of `pid` is the exec at `j`. */
  predicate RunningSince(tr: seq<Firing>, i: nat, j: int, pid: Pid)
    requires i <= |tr|
  {
    && 0 <= j < i && tr[j].Exec? && tr[j].pid == pid
    && forall k | j < k < i :: !Marks(tr[k], pid)
  }

  ghost predicate Running(tr: seq<Firing>, i: nat, pid: Pid)
    requires i <= |tr|
  {
    exists j :: RunningSince(tr, i, j, pid)
  }

  lemma StepOnPid(cap: Capacity, min: nat, starts: Starts, f: Firing, r: bool, pid: Pid)
    requires f.Exec? ==> !Refuses(cap, starts, f.pid)
    ensures var after := Step(cap, min, starts, f, r).starts;
            Find(after, pid) ==
              if !Marks(f, pid) then Find(starts, pid) else if f.Exec? then Some(f.ts) else None
  {
  }

  lemma RunningPersists(tr: seq<Firing>, i: nat, p: nat, pid: Pid)
    requires i == p + 1 <= |tr| && !Marks(tr[p], pid)
    ensures forall j :: RunningSince(tr, i, j, pid) <==> RunningSince(tr, p, j, pid)
  {
  }

  lemma RunningDecided(tr: seq<Firing>, i: nat, p: nat, pid: Pid)
    requires i == p + 1 <= |tr| && Marks(tr[p], pid)
    ensures forall j :: RunningSince(tr, i, j, pid) ==> j == p
    ensures Running(tr, i, pid) <==> tr[p].Exec?
  {
    assert tr[p].Exec? ==> RunningSince(tr, i, p, pid);
  }

  /** No exec found exec_start full. */
  predicate Fits(cap: Capacity, min: nat, tr: seq<Firing>, r: seq<bool>)
    requires |r| == |tr|
  {
    forall k | 0 <= k < |tr| :: tr[k].Exec? ==> !Refuses(cap, StartsAfter(cap, min, tr[..k], r[..k]), tr[k].pid)
  }

  /** Unless an insert was refused, exec_start holds exactly the running pids with the time of their
      latest exec. */
  lemma {:induction false} StartsAreHistory(cap: Capacity, min: nat, tr: seq<Firing>, r: seq<bool>, i: nat, pid: Pid)
    requires |r| == |tr| && i <= |tr| && Fits(cap, min, tr, r)
    ensures var found := Find(StartsAfter(cap, min, tr[..i], r[..i]), pid);
            && (found.Some? <==> Running(tr, i, pid))
            && (forall j | RunningSince(tr, i, j, pid) :: found == Some(tr[j].ts))
  {
    if i > 0 {
      var p := i - 1;
      StartsAreHistory(cap, min, tr, r, p, pid);
      assert tr[..i][..p] == tr[..p] && r[..i][..p] == r[..p];
      StepOnPid(cap, min, StartsAfter(cap, min, tr[..p], r[..p]), tr[p], r[p], pid);
      if Marks(tr[p], pid) {
        RunningDecided(tr, i, p, pid);
      } else {
        RunningPersists(tr, i, p, pid);
      }
    }
  }

  /** What firing number `i` emits. */
  function EventAt(cap: Capacity, min: nat, tr: seq<Firing>, r: seq<bool>, i: nat): Option<Event>
    requires |r| == |tr| && i < |tr|
  {
    Step(cap, min, StartsAfter(cap, min, tr[..i], r[..i]), tr[i], r[i]).event
  }

  /** The process that exits at `i` lived `d` nanoseconds on the 64-bit clock since its latest exec, or
      none was seen and `d` is 0. */
  ghost predicate Lived(tr: seq<Firing>, i: nat, d: nat)
    requires i < |tr|
  {
    && (forall j | RunningSince(tr, i, j, tr[i].pid) :: Spans(tr[j].ts, tr[i].ts, d))
    && (!Running(tr, i, tr[i].pid) ==> d == 0)
  }

  /** A 64-bit clock that shows `start` shows `now` after `d`. */
  predicate Spans(start: nat, now: nat, d: nat) {
    d < TWO_TO_THE_64 && (start + d) % TWO_TO_THE_64 == now % TWO_TO_THE_64
  }

  lemma ElapsedIsModular(now: nat, start: nat)
    ensures Spans(start, now, Elapsed(now, start))
  {
  }

  /** Bits 8 to 15 of the status word. */
  lemma ExitCodeIsSecondByte(high: nat, code: nat, low: nat)
    requires code < 256 && low < 256
    ensures ExitCode(65536 * high + 256 * code + low) == code
  {
    assert (65536 * high + 256 * code + low) / 256 == 256 * high + code;
  }

  lemma StartOfRunning(cap: Capacity, min: nat, tr: seq<Firing>, r: seq<bool>, i: nat) returns (d: nat)
    requires |r| == |tr| && i < |tr| && Fits(cap, min, tr, r)
    ensures Lived(tr, i, d)
    ensures var starts := StartsAfter(cap, min, tr[..i], r[..i]);
            && (tr[i].pid in starts <==> Running(tr, i, tr[i].pid))
            && d == if tr[i].pid in starts then Elapsed(tr[i].ts, starts[tr[i].pid]) else 0
  {
    var pid, starts := tr[i].pid, StartsAfter(cap, min, tr[..i], r[..i]);
    StartsAreHistory(cap, min, tr, r, i, pid);
    assert pid in starts <==> Find(starts, pid).Some?;
    d := 0;
    if pid in starts {
      d := Elapsed(tr[i].ts, starts[pid]);
      ElapsedIsModular(tr[i].ts, starts[pid]);
      forall j | RunningSince(tr, i, j, pid)
        ensures Spans(tr[j].ts, tr[i].ts, d)
      {
        assert Find(starts, pid) == Some(tr[j].ts);
      }
    }
  }

  /** The whole output, firing by firing.  An exec is reported as it is, unless a threshold is set.  The
      exit of a process is reported with its own fields and the time it lived, unless that is below the
      threshold.  The exit of a thread, or a full ring buffer, reports nothing. */
  lemma EventIsHistory(cap: Capacity, min: nat, tr: seq<Firing>, r: seq<bool>, i: nat) returns (d: nat)
    requires |r| == |tr| && i < |tr| && Fits(cap, min, tr, r)
    ensures Lived(tr, i, d)
    ensures var event := EventAt(cap, min, tr, r, i);
            match tr[i]
            case Exec(pid, ts, ppid, comm, filename) =>
              event == if r[i] && min == 0 then Some(ExecEvent(pid, ppid, comm, filename)) else None
            case Exit(pid, tid, ts, ppid, comm, code) =>
              event == if r[i] && pid == tid && min <= d
                       then Some(ExitEvent(pid, ppid, comm, code / 256 % 256, d)) else None
  {
    d := StartOfRunning(cap, min, tr, r, i);
  }

  /** With a monotone clock, the duration reported by the exit of a process is the time since its
      latest exec, and 0 if no exec was seen since its last exit. */
  lemma DurationIsSinceLatestExec(cap: Capacity, tr: seq<Firing>, r: seq<bool>, i: nat)
    requires |r| == |tr| && i < |tr| && r[i] && Fits(cap, 0, tr, r)
    requires tr[i].Exit? && tr[i].pid == tr[i].tid
    requires forall a, b | 0 <= a <= b < |tr| :: tr[a].ts <= tr[b].ts < TWO_TO_THE_64
    ensures var event := EventAt(cap, 0, tr, r, i);
            && event.Some? && event.value.ExitEvent? && event.value.pid == tr[i].pid
            && (forall j | RunningSince(tr, i, j, tr[i].pid) :: event.value.duration == tr[i].ts - tr[j].ts)
            && (!Running(tr, i, tr[i].pid) ==> event.value.duration == 0)
  {
    var pid := tr[i].pid;
    StartsAreHistory(cap, 0, tr, r, i, pid);
    var starts := StartsAfter(cap, 0, tr[..i], r[..i]);
    assert pid in starts <==> Find(starts, pid).Some?;
    forall j | RunningSince(tr, i, j, pid)
      ensures Elapsed(tr[i].ts, starts[pid]) == tr[i].ts - tr[j].ts
    {
      assert Find(starts, pid) == Some(tr[j].ts);
      ElapsedForward(tr[i].ts, tr[j].ts);
    }
  }

  lemma ElapsedForward(now: nat, start: nat)
    requires start <= now < TWO_TO_THE_64
    ensures Elapsed(now, start) == now - start
  {
  }
}
