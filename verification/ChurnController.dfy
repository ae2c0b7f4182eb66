/** The loop of examples/c/get_avgscale.py: from one snapshot file to the next, from churn to the
    kernel's scale factor. */
module ChurnController {
  import opened Arithmetic
  import opened Options
  import opened PageTracker
  import opened PageTrackerHistory
  import opened SnapshotDump
  import opened SnapshotDiff
  import Drift = ScaleDrift

  /** The 80th percentile of the counts a table holds for some pages of a pid. */
  type Percentile80 = (Table, Pid, set<nat>) -> real

  /** What one pid asks for, from the previous and the current table. */
  function PidAdjustment(previous: Table, current: Table, pid: Pid, p80: Percentile80): Option<Drift.Adjustment> {
    var added, repeated := NewPages(previous, current, pid), RepeatedPages(previous, current, pid);
    Drift.Decide(|added|, |repeated|, p80(current, pid, added), p80(current, pid, repeated))
  }

  /** What a pid asks for, exactly.  Something at all if and only if pages rose, the new ones are more
      than twice as many, and the risen ones have a positive percentile; then a raise if and only if
      the new pages are more than 1.2 times as hot, a cut if and only if less than 0.8 times. */
  lemma AdjustmentIff(previous: Table, current: Table, pid: Pid, p80: Percentile80)
    ensures var added, risen := NewPages(previous, current, pid), RepeatedPages(previous, current, pid);
            var hot, warm := p80(current, pid, added), p80(current, pid, risen);
            var asked := PidAdjustment(previous, current, pid, p80);
            && (asked.Some? <==> risen != {} && |added| > 2 * |risen| && warm > 0.0)
            && (asked.Some? ==>
                  && (asked == Some(Drift.Raise) <==> 10.0 * hot > 12.0 * warm)
                  && (asked == Some(Drift.Cut) <==> 10.0 * hot < 8.0 * warm))
  {
    var added, risen := NewPages(previous, current, pid), RepeatedPages(previous, current, pid);
    var hot, warm := p80(current, pid, added), p80(current, pid, risen);
    if warm > 0.0 {
      RatioOrder(hot, warm, 1.2);
      RatioOrder(hot, warm, 0.8);
    }
  }

  /** All adjustments of one round, in the order the pids are visited. */
  function RoundAdjustments(previous: Table, current: Table, pids: seq<Pid>, p80: Percentile80): seq<Drift.Adjustment> {
    if pids == [] then []
    else
      var n := |pids| - 1;
      var a := PidAdjustment(previous, current, pids[n], p80);
      RoundAdjustments(previous, current, pids[..n], p80) + (if a.Some? then [a.value] else [])
  }

  lemma AdjustmentsNext(previous: Table, current: Table, pids: seq<Pid>, i: nat, p80: Percentile80)
    requires i < |pids|
    ensures var a := PidAdjustment(previous, current, pids[i], p80);
            var done := RoundAdjustments(previous, current, pids[..i], p80);
            RoundAdjustments(previous, current, pids[..i + 1], p80) == if a.Some? then done + [a.value] else done
  {
    assert pids[..i + 1][..i] == pids[..i];
  }

  /** The positions of the pids that ask for `a`. */
  function Asking(previous: Table, current: Table, pids: seq<Pid>, p80: Percentile80, a: Drift.Adjustment): set<nat> {
    set i: nat | i < |pids| && PidAdjustment(previous, current, pids[i], p80) == Some(a)
  }

  /** Every pid's wish is applied once. */
  lemma {:induction false} EveryWishCounts(previous: Table, current: Table, pids: seq<Pid>, p80: Percentile80, a: Drift.Adjustment)
    ensures Drift.Count(RoundAdjustments(previous, current, pids, p80), a) == |Asking(previous, current, pids, p80, a)|
    decreases |pids|
  {
    if pids == [] {
      assert Asking(previous, current, pids, p80, a) == {};
    } else {
      var n := |pids| - 1;
      EveryWishCounts(previous, current, pids[..n], p80, a);
      AdjustmentsNext(previous, current, pids, n, p80);
      assert pids[..n + 1] == pids;
      AskingNext(previous, current, pids, p80, a);
      var wish := PidAdjustment(previous, current, pids[n], p80);
      if wish.Some? {
        Drift.CountNext(RoundAdjustments(previous, current, pids[..n], p80), wish.value, a);
      }
    }
  }

  lemma AskingNext(previous: Table, current: Table, pids: seq<Pid>, p80: Percentile80, a: Drift.Adjustment)
    requires pids != []
    ensures var n := |pids| - 1;
            |Asking(previous, current, pids, p80, a)| == |Asking(previous, current, pids[..n], p80, a)|
              + if PidAdjustment(previous, current, pids[n], p80) == Some(a) then 1 else 0
  {
    var n := |pids| - 1;
    var before, after := Asking(previous, current, pids[..n], p80, a), Asking(previous, current, pids, p80, a);
    forall i: nat | i < n
      ensures i in after <==> i in before
    {
      assert pids[..n][i] == pids[i];
    }
    OneMorePosition(before, after, n);
  }

  lemma OneMorePosition(before: set<nat>, after: set<nat>, n: nat)
    requires forall i: nat | i < n :: i in after <==> i in before
    requires (forall i | i in before :: i < n) && (forall i | i in after :: i <= n)
    ensures |after| == |before| + if n in after then 1 else 0
  {
    if n in after {
      assert after == before + {n};
    } else {
      assert after == before;
    }
  }

  /** What the loop carries from one pass to the next, and what it has written to the kernel. */
  datatype Loop = Loop(factor: nat, previous: Table, last: Option<nat>, kernel: seq<nat>)

  const START: Loop := Loop(Drift.INITIAL_FACTOR, map[], None, [])

  /** No process to track, fewer than two files, or the file of the last round again. */
  predicate Skips(l: Loop, pids: seq<Pid>, listing: seq<nat>) {
    pids == [] || |listing| < 2 || l.last == Some(listing[|listing| - 2])
  }

  /** One pass of the loop: skipped, or one round over the second-highest file. */
  function Pass(l: Loop, pids: seq<Pid>, listing: seq<nat>, read: nat -> seq<Line>, p80: Percentile80): Loop {
    if Skips(l, pids, listing) then l
    else
      var index := listing[|listing| - 2];
      var current := ParseLines(read(index), PidSet(pids));
      var adjustments := RoundAdjustments(l.previous, current, pids, p80);
      Loop(Drift.Run(l.factor, adjustments), current, Some(index), l.kernel + Drift.Written(l.factor, adjustments))
  }

  function PidSet(pids: seq<Pid>): set<Pid> {
    set pid | pid in pids
  }

  /** With processes to track and two files the loop keeps up with the second-highest file, and its table
      is that file's; without, or when the file is the one it had, nothing changes. */
  lemma PassKeepsUp(l: Loop, pids: seq<Pid>, listing: seq<nat>, read: nat -> seq<Line>, p80: Percentile80)
    ensures var l' := Pass(l, pids, listing, read, p80);
            if pids == [] || |listing| < 2 then l' == l
            else
              var index := listing[|listing| - 2];
              && l'.last == Some(index)
              && if l.last == Some(index) then l' == l else l'.previous == ParseLines(read(index), PidSet(pids))
  {
  }

  /** What a round does to the factor: with u pids asking for a raise and d for a cut, it is multiplied
      by (10/9)^u (9/10)^d up to the loss of u + d roundings. */
  lemma PassDrift(l: Loop, pids: seq<Pid>, listing: seq<nat>, read: nat -> seq<Line>, p80: Percentile80)
    requires pids != [] && |listing| >= 2 && l.last != Some(listing[|listing| - 2])
    ensures var current := ParseLines(read(listing[|listing| - 2]), PidSet(pids));
            var u := |Asking(l.previous, current, pids, p80, Drift.Raise)|;
            var d := |Asking(l.previous, current, pids, p80, Drift.Cut)|;
            var factor' := Pass(l, pids, listing, read, p80).factor;
            && factor' * Drift.Down(u, d) <= l.factor * Drift.Up(u, d)
            && 10 * (l.factor * Drift.Up(u, d)) <= 10 * (factor' * Drift.Down(u, d)) + Drift.Slack(u + d)
  {
    var current := ParseLines(read(listing[|listing| - 2]), PidSet(pids));
    var adjustments := RoundAdjustments(l.previous, current, pids, p80);
    EveryWishCounts(l.previous, current, pids, p80, Drift.Raise);
    EveryWishCounts(l.previous, current, pids, p80, Drift.Cut);
    Drift.DriftBound(l.factor, adjustments);
    Drift.DriftLowerBound(l.factor, adjustments);
  }

  /** What the kernel was last told, or its initial setting. */
  function Told(kernel: seq<nat>): nat {
    if kernel == [] then Drift.INITIAL_FACTOR else kernel[|kernel| - 1]
  }

  /** The kernel knows the factor, unless the factor has dropped to 0, which is never written. */
  predicate KernelKnows(l: Loop) {
    l.factor >= 1 ==> l.factor == Told(l.kernel)
  }

  lemma PassTellsKernel(l: Loop, pids: seq<Pid>, listing: seq<nat>, read: nat -> seq<Line>, p80: Percentile80)
    requires KernelKnows(l)
    ensures KernelKnows(Pass(l, pids, listing, read, p80))
  {
    if !Skips(l, pids, listing) {
      var current := ParseLines(read(listing[|listing| - 2]), PidSet(pids));
      var adjustments := RoundAdjustments(l.previous, current, pids, p80);
      if adjustments != [] && Drift.Run(l.factor, adjustments) >= 1 {
        Drift.LastWritten(l.factor, adjustments);
      }
    }
  }

  class AvgScale {
    var factor: nat
    var previous: Table
    var last: Option<nat>
    var kernel: seq<nat>

    ghost function View(): Loop
      reads this
    {
      Loop(factor, previous, last, kernel)
    }

    constructor ()
      ensures View() == START
    {
      factor, previous, last, kernel := Drift.INITIAL_FACTOR, map[], None, [];
    }

    /** One pass of the loop.  `pids` are the tracked processes in the order the set is iterated,
        `listing` the numbers of the snapshot files in ascending order, `read` their lines. */
    method Poll(pids: seq<Pid>, listing: seq<nat>, read: nat -> seq<Line>, p80: Percentile80)
      modifies this
      ensures View() == Pass(old(View()), pids, listing, read, p80)
    {
      if pids == [] { return; }
      if |listing| < 2 { return; }
      var index := listing[|listing| - 2];
      if last == Some(index) { return; }
      var current := Parse(read(index), PidSet(pids));
      AdjustAll(current, pids, p80);
      previous, last := current, Some(index);
    }

    /** The loop over the tracked processes. */
    method AdjustAll(current: Table, pids: seq<Pid>, p80: Percentile80)
      modifies `factor, `kernel
      ensures factor == Drift.Run(old(factor), RoundAdjustments(previous, current, pids, p80))
      ensures kernel == old(kernel) + Drift.Written(old(factor), RoundAdjustments(previous, current, pids, p80))
    {
      ghost var start, log := factor, kernel;
      ghost var done := [];
      for i := 0 to |pids|
        invariant done == RoundAdjustments(previous, current, pids[..i], p80)
        invariant factor == Drift.Run(start, done) && kernel == log + Drift.Written(start, done)
      {
        AdjustmentsNext(previous, current, pids, i, p80);
        var a := PidAdjustment(previous, current, pids[i], p80);
        if a.Some? {
          Apply(a.value, start, log, done);
          done := done + [a.value];
        }
      }
      assert pids[..|pids|] == pids;
    }

    /** One adjustment after those in `done`. */
    method Apply(a: Drift.Adjustment, ghost start: nat, ghost log: seq<nat>, ghost done: seq<Drift.Adjustment>)
      requires factor == Drift.Run(start, done) && kernel == log + Drift.Written(start, done)
      modifies `factor, `kernel
      ensures factor == Drift.Run(start, done + [a]) && kernel == log + Drift.Written(start, done + [a])
    {
      Drift.RunNext(start, done, a);
      factor := Drift.Adjust(factor, a);
      UpdateKernel(factor);
    }

    /** A factor below 1 is not written. */
    method UpdateKernel(scale: nat)
      modifies `kernel
      ensures kernel == old(kernel) + (if scale < 1 then [] else [scale])
    {
      if scale < 1 { return; }
      kernel := kernel + [scale];
    }
  }

  /** No activity, no adjustment: whatever the percentiles, a pid that touched no page between two
      snapshots leaves the factor alone. */
  lemma QuietPidNeverAdjusts(cfg: Config, c: Comparison, pid: Pid, p80: Percentile80)
    requires Valid(cfg, c) && InjectiveOn(DumpedKeys(c))
    requires forall j | c.a <= j < c.b && TrackedAccess(cfg, c.tr, j) :: c.tr[j].pid != pid
    ensures PidAdjustment(Previous(cfg, c), Current(cfg, c), pid, p80).None?
  {
    if page :| page in RepeatedPages(Previous(cfg, c), Current(cfg, c), pid) {
      RisenWasAccessed(cfg, c, pid, page);
      assert false;
    }
  }
}
