/** The bucketed watermark controller of examples/c/tel_wsf.py, in exact arithmetic. */
module BucketController {
  import opened Arithmetic
  import opened Options
  import opened Counts
  import opened WorkingSet

  const BUCKETS: nat := 7
  const INITIAL_FACTOR: int := 10

  /** Python's int(): towards zero. */
  function Truncate(x: real): int {
    if x >= 0.0 then x.Floor else -(-x).Floor
  }

  /** 3% of the free pages, as a share of all pages. */
  function FreeShare(free: nat, total: nat): real
    requires total > 0
  {
    0.03 * free as real / total as real
  }

  /** The upper end of the scale for this round, from free and total pages. */
  function MaxScaleFactor(free: nat, total: nat): int
    requires total > 0
  {
    var used := 1.0 - FreeShare(free, total);
    if used > 0.95 then Truncate(10.0 + 990.0 * ((used - 0.95) / 0.05)) else 10
  }

  /** Entry `i` of np.linspace(10, max, num=8)[1:]. */
  function Threshold(max: int, i: nat): real {
    10.0 + (max - 10) as real * (i + 1) as real / 7.0
  }

  predicate InBucket(i: nat, split: real) {
    0.3 + i as real * 0.1 <= split < 0.3 + i as real * 0.1 + 0.1
  }

  /** The first matching bucket at or after `i`. */
  function BucketFrom(split: real, i: nat): (b: Option<nat>)
    requires i <= BUCKETS
    ensures b.Some? ==> i <= b.value < BUCKETS && InBucket(b.value, split)
    ensures b.None? ==> forall j | i <= j < BUCKETS :: !InBucket(j, split)
    decreases BUCKETS - i
  {
    if i == BUCKETS then None else if InBucket(i, split) then Some(i) else BucketFrom(split, i + 1)
  }

  function Bucket(split: real): Option<nat> {
    BucketFrom(split, 0)
  }

  function WorkingSetSplit(counts: seq<int>): real
    requires counts != []
  {
    1.0 - (SplitIndex(counts) + 1) as real / |counts| as real
  }

  // ------------------------------------------------------------ which bucket

  lemma MulAsReal(a: int, n: nat)
    ensures (a * n) as real == a as real * n as real
  {
  }

  /** Membership in a bucket, without fractions: `k` pages out of `n` were needed. */
  lemma InBucketWhole(i: nat, k: nat, n: nat)
    requires n > 0
    ensures InBucket(i, 1.0 - k as real / n as real) <==> (3 + i) * n <= 10 * (n - k) < (4 + i) * n
  {
    var x, y := n as real, k as real;
    var lo, hi := 0.3 + i as real * 0.1, 0.3 + i as real * 0.1 + 0.1;
    RatioOrder(y, x, 1.0 - lo);
    RatioOrder(y, x, 1.0 - hi);
    Distribute(i as real, x);
    MulAsReal(3 + i, n);
    MulAsReal(4 + i, n);
  }

  lemma Distribute(r: real, x: real)
    ensures 10.0 * ((1.0 - (0.3 + r * 0.1)) * x) == 10.0 * x - (3.0 + r) * x
    ensures 10.0 * ((1.0 - (0.3 + r * 0.1 + 0.1)) * x) == 10.0 * x - (4.0 + r) * x
  {
  }

  lemma BucketsAreDisjoint(i: nat, j: nat, split: real)
    requires InBucket(i, split) && InBucket(j, split)
    ensures i == j
  {
    assert i < j ==> i as real + 1.0 <= j as real;
    assert j < i ==> j as real + 1.0 <= i as real;
  }

  /** Whatever the split, at most one bucket matches, and the loop finds it. */
  lemma AtMostOneBucket(split: real, i: nat)
    requires i < BUCKETS && InBucket(i, split)
    ensures Bucket(split) == Some(i)
  {
    BucketsAreDisjoint(i, Bucket(split).value, split);
  }

  lemma SplitIsAFraction(counts: seq<int>)
    requires counts != []
    ensures 0.0 <= WorkingSetSplit(counts) < 1.0
  {
    ProperFraction((SplitIndex(counts) + 1) as real, |counts| as real);
  }

  lemma ProperFraction(y: real, x: real)
    requires 0.0 < y <= x
    ensures 0.0 <= 1.0 - y / x < 1.0
  {
    RatioOrder(y, x, 1.0);
    RatioOrder(y, x, 0.0);
  }

  /** Some bucket matches exactly when at most 70% of the pages were needed. */
  lemma BucketIffAtMostSeventyPercent(counts: seq<int>)
    requires counts != []
    ensures Bucket(WorkingSetSplit(counts)).Some? <==> 10 * (SplitIndex(counts) + 1) <= 7 * |counts|
  {
    var n, k, w := |counts|, SplitIndex(counts) + 1, WorkingSetSplit(counts);
    var b := Bucket(w);
    if b.Some? {
      InBucketWhole(b.value, k, n);
      assert (3 + b.value) * n >= 3 * n;
    }
    if 10 * k <= 7 * n {
      var i := QuotientBounds(7 * n - 10 * k, n, 7);
      InBucketWhole(i, k, n);
      assert InBucket(i, w);
    }
  }

  lemma QuotientBounds(a: nat, n: nat, m: nat) returns (i: nat)
    requires n > 0 && a < m * n
    ensures i < m && (3 + i) * n <= 3 * n + a < (4 + i) * n
  {
    i := a / n;
    assert a == i * n + a % n;
    assert (3 + i) * n == 3 * n + i * n && (4 + i) * n == 4 * n + i * n;
    assert i * n < m * n;
    assert i >= m ==> i * n >= m * n;
  }

  /** The averaging bound in terms of the split: at least 3/10 - 9/(10n); and when 10 divides the
      number of pages a bucket always matches. */
  lemma SplitIsAtLeastThreeTenths(counts: seq<int>)
    requires counts != [] && NonNegative(counts)
    ensures WorkingSetSplit(counts) >= 0.3 - 0.9 / |counts| as real
    ensures |counts| % 10 == 0 ==> Bucket(WorkingSetSplit(counts)).Some?
  {
    var k, n := SplitIndex(counts) + 1, |counts|;
    SplitIsAtMostCeiling(counts);
    assert 10 * k <= 7 * n + 9;
    FractionBound(k as real, n as real);
    if n % 10 == 0 {
      WholeTenths(k, n);
      BucketIffAtMostSeventyPercent(counts);
    }
  }

  lemma WholeTenths(k: nat, n: nat)
    requires n % 10 == 0 && 10 * k <= 7 * n + 9
    ensures 10 * k <= 7 * n
  {
  }

  lemma FractionBound(y: real, x: real)
    requires x > 0.0 && 10.0 * y <= 7.0 * x + 9.0
    ensures 1.0 - y / x >= 0.3 - 0.9 / x
  {
    var c := 0.9 / x;
    assert c * x == 0.9;
    assert (0.7 + c) * x == 0.7 * x + c * x;
    RatioOrder(y, x, 0.7 + c);
  }

  // ------------------------------------------------------------ the scale

  lemma FreeShareRange(free: nat, total: nat)
    requires 0 < total && free <= total
    ensures 0.0 <= FreeShare(free, total) <= 0.03
  {
  }

  lemma FreeShareMonotone(less: nat, more: nat, total: nat)
    requires 0 < total && less <= more
    ensures FreeShare(less, total) <= FreeShare(more, total)
  {
  }

  lemma FloorMonotone(x: real, y: real)
    requires x <= y
    ensures x.Floor <= y.Floor
  {
  }

  /** While free pages do not exceed total pages the 95% else-branch is not taken and the scale is
      linear in the free share. */
  lemma MaxScaleForm(free: nat, total: nat)
    requires 0 < total && free <= total
    ensures 1.0 - FreeShare(free, total) > 0.95
    ensures MaxScaleFactor(free, total) == (1000.0 - 19800.0 * FreeShare(free, total)).Floor
  {
    FreeShareRange(free, total);
  }

  /** The end of the scale, in whole numbers, whatever the readings: 1000 - 594 free / total rounded
      down, unless free pages reach five thirds of the total. */
  predicate EndsScale(free: nat, total: nat, max: int) {
    if 3 * free < 5 * total then max * total <= 1000 * total - 594 * free < (max + 1) * total else max == 10
  }

  lemma MaxScaleWhole(free: nat, total: nat)
    requires total > 0
    ensures EndsScale(free, total, MaxScaleFactor(free, total)) && MaxScaleFactor(free, total) >= 10
  {
    ShareBelow(free, total);
    if 3 * free < 5 * total {
      var share, max := FreeShare(free, total), MaxScaleFactor(free, total);
      var x := 1000.0 - 19800.0 * share;
      ScaleIsLinear(share);
      FloorMonotone(10.0, x);
      assert max == x.Floor;
      ShareWhole(free, total);
      FloorWhole(x, max, total, 1000 * total - 594 * free);
    }
  }

  /** The floor `q` of a ratio, without dividing. */
  lemma FloorWhole(x: real, q: int, n: nat, a: int)
    requires n > 0 && x * n as real == a as real && q as real <= x < q as real + 1.0
    ensures q * n <= a < (q + 1) * n
  {
    var product := q as real * n as real;
    RatioScales(q as real, x, n as real, product, a as real);
    WholeProduct(q, n, product, a);
  }

  lemma WholeProduct(q: int, n: nat, product: real, a: int)
    requires product == q as real * n as real && product <= a as real < product + n as real
    ensures q * n <= a < (q + 1) * n
  {
    var p := q * n;
    MulAsReal(q, n);
    assert p as real == product;
    BetweenWhole(p, a, n);
    assert (q + 1) * n == p + n;
  }

  lemma BetweenWhole(p: int, a: int, n: int)
    requires p as real <= a as real < p as real + n as real
    ensures p <= a < p + n
  {
    assert (p + n) as real == p as real + n as real;
  }

  lemma ShareBelow(free: nat, total: nat)
    requires total > 0
    ensures FreeShare(free, total) < 0.05 <==> 3 * free < 5 * total
  {
    RatioOrder(0.03 * free as real, total as real, 0.05);
  }

  lemma ShareWhole(free: nat, total: nat)
    requires total > 0
    ensures (1000.0 - 19800.0 * FreeShare(free, total)) * total as real == (1000 * total - 594 * free) as real
  {
    var share, t := FreeShare(free, total), total as real;
    assert share * t == 0.03 * free as real;
    assert (1000.0 - 19800.0 * share) * t == 1000.0 * t - 19800.0 * (share * t);
  }

  lemma ScaleIsLinear(share: real)
    requires share < 0.05
    ensures 10.0 + 990.0 * ((1.0 - share - 0.95) / 0.05) == 1000.0 - 19800.0 * share > 10.0
  {
  }

  lemma Sign(d: real, t: real)
    requires t > 0.0
    ensures d >= 0.0 ==> d * t >= 0.0
    ensures d > 0.0 ==> d * t > 0.0
  {
  }

  lemma RatioScales(q: real, x: real, t: real, product: real, exact: real)
    requires q <= x < q + 1.0 && t > 0.0 && product == q * t && exact == x * t
    ensures product <= exact < product + t
  {
    var below, above := x - q, q + 1.0 - x;
    assert below * t == exact - product && above * t == product + t - exact;
    Sign(below, t);
    Sign(above, t);
  }

  lemma MaxScaleRange(free: nat, total: nat)
    requires 0 < total && free <= total
    ensures 406 <= MaxScaleFactor(free, total) <= 1000
  {
    FreeShareRange(free, total);
    MaxScaleForm(free, total);
    var x := 1000.0 - 19800.0 * FreeShare(free, total);
    FloorMonotone(406.0, x);
    FloorMonotone(x, 1000.0);
  }

  /** More free memory never raises the scale. */
  lemma MaxScaleAntitone(less: nat, more: nat, total: nat)
    requires 0 < total && less <= more <= total
    ensures MaxScaleFactor(more, total) <= MaxScaleFactor(less, total)
  {
    MaxScaleForm(less, total);
    MaxScaleForm(more, total);
    FreeShareMonotone(less, more, total);
    FloorMonotone(1000.0 - 19800.0 * FreeShare(more, total), 1000.0 - 19800.0 * FreeShare(less, total));
  }

  function ThresholdFactor(max: int, i: nat): int {
    Truncate(Threshold(max, i))
  }

  /** The thresholds are evenly spaced above 10 and end at the maximum itself. */
  lemma ThresholdsAreEven(max: int, i: nat)
    ensures Threshold(max, BUCKETS - 1) == max as real
    ensures Threshold(max, i + 1) - Threshold(max, i) == Threshold(max, 0) - 10.0
  {
    var m, r := (max - 10) as real, (i + 1) as real;
    assert (i + 2) as real == r + 1.0;
    assert m * (r + 1.0) == m * r + m;
  }

  lemma MulOrder(m: real, m': real, r: real, r': real)
    requires 0.0 <= m <= m' && 0.0 <= r <= r'
    ensures m * r <= m' * r'
  {
  }

  /** The factor of a bucket, in whole numbers: `r` sevenths-steps rounded down. */
  predicate RoundsDown(max: int, i: nat, r: int) {
    7 * r <= 70 + (max - 10) * (i + 1) < 7 * (r + 1)
  }

  lemma ThresholdWhole(max: int, i: nat)
    requires max >= 10
    ensures RoundsDown(max, i, ThresholdFactor(max, i))
  {
    var x, r := Threshold(max, i), ThresholdFactor(max, i);
    MulAsReal(max - 10, i + 1);
    MulOrder(0.0, (max - 10) as real, 0.0, (i + 1) as real);
    assert 7.0 * x == (70 + (max - 10) * (i + 1)) as real;
    assert r as real <= x < r as real + 1.0;
  }

  lemma ThresholdMonotone(max: int, max': int, i: nat, j: nat)
    requires 10 <= max <= max' && i <= j
    ensures 10.0 <= Threshold(max, i) <= Threshold(max', j)
    ensures ThresholdFactor(max, i) <= ThresholdFactor(max', j)
  {
    var m, m', r, r' := (max - 10) as real, (max' - 10) as real, (i + 1) as real, (j + 1) as real;
    MulOrder(m, m', r, r');
    MulOrder(0.0, m, 0.0, r);
    FloorMonotone(Threshold(max, i), Threshold(max', j));
  }

  lemma ThresholdRange(max: int, i: nat)
    requires 406 <= max <= 1000 && i < BUCKETS
    ensures 66 <= ThresholdFactor(max, i) <= 1000
  {
    ThresholdMonotone(406, max, 0, i);
    ThresholdMonotone(max, 1000, i, 6);
    assert Threshold(1000, 6) == 1000.0;
    assert Threshold(406, 0) >= 66.0;
    FloorMonotone(66.0, Threshold(406, 0));
  }

  // ------------------------------------------------------------ one round

  /** What one pass of the loop finds: /proc/meminfo, the number of snapshot files, whether the
      chosen file is the final one, and the counts parsed from it. */
  datatype Round = Round(availableKb: nat, totalKb: nat, files: nat, finalFile: bool, counts: seq<int>)

  datatype Verdict = Stop | Wait | Applied(factor: int, logged: int)

  /** The counts below 1000, in order. */
  function Kept(counts: seq<int>): seq<int> {
    if counts == [] then []
    else
      var n := |counts| - 1;
      Kept(counts[..n]) + (if counts[n] < 1000 then [counts[n]] else [])
  }

  /** Filtering loses exactly the counts from 1000 up. */
  lemma {:induction false} KeptIsBelowThousand(counts: seq<int>, x: int)
    ensures multiset(Kept(counts))[x] == if x < 1000 then multiset(counts)[x] else 0
  {
    if counts != [] {
      var n := |counts| - 1;
      KeptIsBelowThousand(counts[..n], x);
      assert counts == counts[..n] + [counts[n]];
    }
  }

  /** Order is kept too: filtering goes piece by piece. */
  lemma {:induction false} KeptInOrder(a: seq<int>, b: seq<int>)
    ensures Kept(a + b) == Kept(a) + Kept(b)
  {
    if b == [] {
      assert a + b == a;
    } else {
      var n := |b| - 1;
      KeptInOrder(a, b[..n]);
      assert (a + b)[..|a| + n] == a + b[..n];
    }
  }

  /** The clamp of update_kernel_watermark_scale_factor. */
  function Clamp(factor: int): int {
    var capped := if factor < 1000 then factor else 1000;
    if capped > 10 then capped else 10
  }

  /** It is the number in [10, 1000] nearest to the factor. */
  lemma ClampIsNearest(factor: int, x: int)
    requires 10 <= x <= 1000
    ensures 10 <= Clamp(factor) <= 1000
    ensures (if factor >= Clamp(factor) then factor - Clamp(factor) else Clamp(factor) - factor)
            <= if factor >= x then factor - x else x - factor
  {
  }

  /** The factor a sample asks for, if it falls in a bucket. */
  function Target(free: nat, total: nat, sample: seq<int>): Option<int>
    requires total > 0 && sample != []
  {
    var b := Bucket(WorkingSetSplit(sample));
    if b.Some? then Some(ThresholdFactor(MaxScaleFactor(free, total), b.value)) else None
  }

  /** The whole chain in whole numbers: `k` of `n` pages were needed, which is bucket `i`; memory ends
      the scale at `max`; and `r` is the factor. */
  predicate Chain(free: nat, total: nat, k: nat, n: nat, max: int, i: nat, r: int) {
    && EndsScale(free, total, max)
    && i < BUCKETS && (3 + i) * n <= 10 * (n - k) < (4 + i) * n
    && RoundsDown(max, i, r)
  }

  /** A sample asks for `r` exactly when the chain leads there. */
  ghost predicate LeadsTo(free: nat, total: nat, k: nat, n: nat, r: int) {
    exists max, i: nat :: Chain(free, total, k, n, max, i, r)
  }

  lemma TargetWhole(free: nat, total: nat, sample: seq<int>, r: int)
    requires total > 0 && sample != []
    ensures Target(free, total, sample) == Some(r) <==> LeadsTo(free, total, SplitIndex(sample) + 1, |sample|, r)
  {
    if Target(free, total, sample) == Some(r) {
      TargetHasChain(free, total, sample, r);
    }
    var k, n := SplitIndex(sample) + 1, |sample|;
    if max, i: nat :| Chain(free, total, k, n, max, i, r) {
      ChainIsTarget(free, total, sample, max, i, r);
    }
  }

  lemma TargetHasChain(free: nat, total: nat, sample: seq<int>, r: int)
    requires total > 0 && sample != [] && Target(free, total, sample) == Some(r)
    ensures LeadsTo(free, total, SplitIndex(sample) + 1, |sample|, r)
  {
    var k, n, max := SplitIndex(sample) + 1, |sample|, MaxScaleFactor(free, total);
    var i := Bucket(WorkingSetSplit(sample)).value;
    MaxScaleWhole(free, total);
    InBucketWhole(i, k, n);
    ThresholdWhole(max, i);
    assert Chain(free, total, k, n, max, i, r);
  }

  lemma ChainIsTarget(free: nat, total: nat, sample: seq<int>, max: int, i: nat, r: int)
    requires total > 0 && sample != []
    requires Chain(free, total, SplitIndex(sample) + 1, |sample|, max, i, r)
    ensures Target(free, total, sample) == Some(r)
  {
    InBucketWhole(i, SplitIndex(sample) + 1, |sample|);
    AtMostOneBucket(WorkingSetSplit(sample), i);
    MaxScaleWhole(free, total);
    ScaleEndIsUnique(free, total, max, MaxScaleFactor(free, total));
    ThresholdWhole(max, i);
  }

  lemma ScaleEndIsUnique(free: nat, total: nat, max: int, max': int)
    requires total > 0 && EndsScale(free, total, max) && EndsScale(free, total, max')
    ensures max == max'
  {
    if max < max' {
      MulGap(max' + 1, max + 1, total);
    } else if max' < max {
      MulGap(max + 1, max' + 1, total);
    }
  }

  function Decide(factor: int, r: Round): Verdict {
    var free, total := r.availableKb / 4, r.totalKb / 4;
    if total == 0 then Stop
    else if r.files < 2 then Wait
    else if r.finalFile then Stop
    else
      var sample := Kept(r.counts);
      if sample == [] then Wait
      else
        var target := Target(free, total, sample);
        var factor' := if target.Some? then target.value else factor;
        Applied(factor', Clamp(factor'))
  }

  method SelectFactor(factor: int, max: int, split: real) returns (factor': int)
    ensures Bucket(split).Some? ==> factor' == ThresholdFactor(max, Bucket(split).value)
    ensures Bucket(split).None? ==> factor' == factor
    ensures Bucket(split).Some? && max >= 10 ==> RoundsDown(max, Bucket(split).value, factor')
  {
    factor' := factor;
    for i := 0 to BUCKETS
      invariant factor' == factor && Bucket(split) == BucketFrom(split, i)
    {
      var start := 0.3 + i as real * 0.1;
      var end := start + 0.1;
      if start <= split < end {
        factor' := Truncate(Threshold(max, i));
        if max >= 10 {
          ThresholdWhole(max, i);
        }
        break;
      }
    }
  }

  method FilterCounts(counts: seq<int>) returns (kept: seq<int>)
    ensures kept == Kept(counts)
  {
    kept := [];
    for i := 0 to |counts|
      invariant kept == Kept(counts[..i])
    {
      assert counts[..i + 1][..i] == counts[..i];
      if counts[i] < 1000 {
        kept := kept + [counts[i]];
      }
    }
    assert counts[..|counts|] == counts;
  }

  /** The readings and counts of a round lead to the factor `x`. */
  ghost predicate AsksFor(r: Round, x: int) {
    LeadsTo(r.availableKb / 4, r.totalKb / 4, SplitIndex(Kept(r.counts)) + 1, |Kept(r.counts)|, x)
  }

  lemma DecideLeads(factor: int, r: Round)
    requires Matches(r)
    ensures Decide(factor, r).Applied? && AsksFor(r, Decide(factor, r).factor)
  {
    TargetWhole(r.availableKb / 4, r.totalKb / 4, Kept(r.counts), TargetOf(r));
  }

  class Controller {
    var factor: int
    var log: seq<int>

    constructor ()
      ensures factor == INITIAL_FACTOR && log == []
    {
      factor, log := INITIAL_FACTOR, [];
    }

    method Poll(r: Round) returns (running: bool)
      modifies this
      ensures var v := Decide(old(factor), r);
              && (running <==> !v.Stop?)
              && (v.Applied? ==> factor == v.factor && log == old(log) + [v.logged])
              && (!v.Applied? ==> factor == old(factor) && log == old(log))
      ensures Matches(r) ==> AsksFor(r, factor)
    {
      if Matches(r) {
        DecideLeads(factor, r);
      }
      var free, total := r.availableKb / 4, r.totalKb / 4;
      if total == 0 { return false; }
      var max := MaxScaleFactor(free, total);
      if r.files < 2 { return true; }
      if r.finalFile { return false; }
      var sample := FilterCounts(r.counts);
      if sample == [] { return true; }
      ApplySplit(sample, max);
      return true;
    }

    /** From the kept counts to the factor and the log. */
    method ApplySplit(sample: seq<int>, max: int)
      requires sample != []
      modifies this
      ensures var b := Bucket(WorkingSetSplit(sample));
              factor == if b.Some? then ThresholdFactor(max, b.value) else old(factor)
      ensures log == old(log) + [Clamp(factor)]
    {
      var index := FindSplit(sample);
      var needed := (index + 1) as real / |sample| as real;
      var split := 1.0 - needed;
      assert split == WorkingSetSplit(sample);
      factor := SelectFactor(factor, max, split);
      log := log + [Clamp(factor)];
    }
  }

  // ------------------------------------------------------------ every run

  function FactorAfter(factor: int, rounds: seq<Round>): int
    decreases |rounds|
  {
    if rounds == [] then factor
    else match Decide(factor, rounds[0])
      case Stop => factor
      case Wait => FactorAfter(factor, rounds[1..])
      case Applied(factor', _) => FactorAfter(factor', rounds[1..])
  }

  /** What the run writes to the log. */
  function Log(factor: int, rounds: seq<Round>): seq<int>
    decreases |rounds|
  {
    if rounds == [] then []
    else match Decide(factor, rounds[0])
      case Stop => []
      case Wait => Log(factor, rounds[1..])
      case Applied(factor', logged) => [logged] + Log(factor', rounds[1..])
  }

  predicate Sane(r: Round) {
    r.availableKb <= r.totalKb
  }

  /** The loop goes on after this round. */
  predicate Continues(r: Round) {
    r.totalKb / 4 > 0 && (r.files >= 2 ==> !r.finalFile)
  }

  /** Round `r` reaches the buckets and one of them matches. */
  predicate Matches(r: Round) {
    && Continues(r) && r.files >= 2 && Kept(r.counts) != []
    && Bucket(WorkingSetSplit(Kept(r.counts))).Some?
  }

  function TargetOf(r: Round): int
    requires Matches(r)
  {
    Target(r.availableKb / 4, r.totalKb / 4, Kept(r.counts)).value
  }

  /** A round moves the factor exactly when it matches. */
  lemma DecideMoves(factor: int, r: Round)
    ensures Decide(factor, r).Stop? <==> !Continues(r)
    ensures Matches(r) ==> Decide(factor, r) == Applied(TargetOf(r), Clamp(TargetOf(r)))
    ensures Continues(r) && !Matches(r) ==> Decide(factor, r) in {Wait, Applied(factor, Clamp(factor))}
  {
  }

  /** One round of a run, split off. */
  lemma RunHead(factor: int, rounds: seq<Round>)
    requires rounds != [] && Continues(rounds[0])
    ensures var r := rounds[0];
            var factor' := if Matches(r) then TargetOf(r) else factor;
            && FactorAfter(factor, rounds) == FactorAfter(factor', rounds[1..])
            && (Log(factor, rounds) == Log(factor', rounds[1..])
                || Log(factor, rounds) == [Clamp(factor')] + Log(factor', rounds[1..]))
            && (Matches(r) ==> Log(factor, rounds) != Log(factor', rounds[1..]))
  {
    DecideMoves(factor, rounds[0]);
  }

  lemma TargetRange(r: Round)
    requires Sane(r) && Matches(r)
    ensures 66 <= TargetOf(r) <= 1000
  {
    var free, total := r.availableKb / 4, r.totalKb / 4;
    MaxScaleRange(free, total);
    ThresholdRange(MaxScaleFactor(free, total), Bucket(WorkingSetSplit(Kept(r.counts))).value);
  }

  predicate Reachable(factor: int) {
    factor == INITIAL_FACTOR || 66 <= factor <= 1000
  }

  /** Every run, stopped or not: the factor is 10 or in [66, 1000], so is everything logged, and
      the log ends in the factor itself: the clamp never changed one. */
  lemma {:induction false} RunRange(factor: int, rounds: seq<Round>)
    requires Reachable(factor) && forall r | r in rounds :: Sane(r)
    ensures Reachable(FactorAfter(factor, rounds))
    ensures forall v | v in Log(factor, rounds) :: Reachable(v)
    ensures var log := Log(factor, rounds);
            FactorAfter(factor, rounds) == if log == [] then factor else log[|log| - 1]
    decreases |rounds|
  {
    if rounds != [] {
      var r := rounds[0];
      DecideMoves(factor, r);
      if Continues(r) {
        RunHead(factor, rounds);
        if Matches(r) {
          TargetRange(r);
          RunRange(TargetOf(r), rounds[1..]);
        } else {
          RunRange(factor, rounds[1..]);
        }
      }
    }
  }

  /** Over rounds that do not stop the loop, the factor is the target of the latest matching
      round, and the initial one while none has matched. */
  lemma {:induction false} FactorIsLatestTarget(factor: int, rounds: seq<Round>)
    requires forall r | r in rounds :: Continues(r)
    ensures (forall r | r in rounds :: !Matches(r)) ==> FactorAfter(factor, rounds) == factor
    ensures forall i | 0 <= i < |rounds| && Matches(rounds[i])
                       && (forall j | i < j < |rounds| :: !Matches(rounds[j])) ::
              FactorAfter(factor, rounds) == TargetOf(rounds[i])
    decreases |rounds|
  {
    if rounds != [] {
      var r, rest := rounds[0], rounds[1..];
      RunHead(factor, rounds);
      var factor' := if Matches(r) then TargetOf(r) else factor;
      FactorIsLatestTarget(factor', rest);
      forall i | 0 <= i < |rounds| && Matches(rounds[i])
                 && (forall j | i < j < |rounds| :: !Matches(rounds[j]))
        ensures FactorAfter(factor, rounds) == TargetOf(rounds[i])
      {
        if i == 0 {
          assert forall x | x in rest :: !Matches(x);
        } else {
          assert rest[i - 1] == rounds[i];
        }
      }
    }
  }

  /** The run gets as far as round `i`, and that round matches. */
  ghost predicate ReachesMatch(rounds: seq<Round>, i: nat) {
    i < |rounds| && Matches(rounds[i]) && forall j | 0 <= j < i :: Continues(rounds[j])
  }

  ghost predicate EverMatches(rounds: seq<Round>) {
    exists i: nat :: ReachesMatch(rounds, i)
  }

  lemma EverMatchesRest(rounds: seq<Round>)
    requires rounds != []
    ensures EverMatches(rounds) <==> Matches(rounds[0]) || (Continues(rounds[0]) && EverMatches(rounds[1..]))
  {
    if i: nat :| ReachesMatch(rounds, i) {
      if i > 0 {
        assert ReachesMatch(rounds[1..], i - 1);
      }
    }
    if Matches(rounds[0]) {
      assert ReachesMatch(rounds, 0);
    } else if Continues(rounds[0]) {
      if i: nat :| ReachesMatch(rounds[1..], i) {
        assert ReachesMatch(rounds, i + 1);
      }
    }
  }

  /** The two halves of the range: the factor is untouched until a bucket first matches, and in
      [66, 1000] from then on, the end of the loop included. */
  lemma {:induction false} UntouchedUntilMatch(factor: int, rounds: seq<Round>)
    requires forall r | r in rounds :: Sane(r)
    ensures !EverMatches(rounds) ==> FactorAfter(factor, rounds) == factor
    ensures EverMatches(rounds) ==> 66 <= FactorAfter(factor, rounds) <= 1000
    decreases |rounds|
  {
    if rounds != [] {
      var r, rest := rounds[0], rounds[1..];
      EverMatchesRest(rounds);
      DecideMoves(factor, r);
      if Continues(r) {
        RunHead(factor, rounds);
        if Matches(r) {
          TargetRange(r);
          UntouchedUntilMatch(TargetOf(r), rest);
        } else {
          UntouchedUntilMatch(factor, rest);
        }
      }
    }
  }

  // ------------------------------------------------------------ comparing samples

  /** Within buckets the factor is monotone in the split and antitone in free memory. */
  lemma FactorMonotone(free: nat, free': nat, total: nat, v: real, w: real, i: nat, j: nat)
    requires 0 < total && free' <= free <= total && v <= w
    requires i < BUCKETS && j < BUCKETS && InBucket(i, v) && InBucket(j, w)
    ensures i <= j
    ensures ThresholdFactor(MaxScaleFactor(free, total), i) <= ThresholdFactor(MaxScaleFactor(free', total), j)
  {
    assert j < i ==> j as real + 1.0 <= i as real;
    MaxScaleAntitone(free', free, total);
    MaxScaleRange(free, total);
    ThresholdMonotone(MaxScaleFactor(free, total), MaxScaleFactor(free', total), i, j);
  }

  lemma ConcentrationRaisesSplit(a: seq<int>, b: seq<int>)
    requires a != [] && NonNegative(a) && NonNegative(b) && MoreConcentrated(a, b)
    ensures WorkingSetSplit(a) >= WorkingSetSplit(b)
  {
    ConcentrationShrinksSplit(a, b);
    RatioMonotone((SplitIndex(a) + 1) as real, (SplitIndex(b) + 1) as real, |a| as real);
  }

  /** A more concentrated sample has at least the split, and at least the factor. */
  lemma ConcentrationRaisesFactor(free: nat, total: nat, a: seq<int>, b: seq<int>)
    requires 0 < total && free <= total && a != []
    requires NonNegative(a) && NonNegative(b) && MoreConcentrated(a, b)
    ensures WorkingSetSplit(a) >= WorkingSetSplit(b)
    ensures Target(free, total, a).Some? && Target(free, total, b).Some? ==>
              Target(free, total, a).value >= Target(free, total, b).value
  {
    ConcentrationRaisesSplit(a, b);
    if Target(free, total, a).Some? && Target(free, total, b).Some? {
      FactorMonotone(free, free, total, WorkingSetSplit(b), WorkingSetSplit(a),
                     Bucket(WorkingSetSplit(b)).value, Bucket(WorkingSetSplit(a)).value);
    }
  }
}
