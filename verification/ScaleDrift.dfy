/** The multiplicative controller of examples/c/get_avgscale.py, with its integer truncation. */
module ScaleDrift {
  import opened Arithmetic
  import opened Options

  const INITIAL_FACTOR: nat := 10

  datatype Adjustment = Raise | Cut | Keep

  /** The factor after one adjustment: times 10/9 or 9/10, truncated to an integer. */
  function Adjust(factor: nat, a: Adjustment): nat {
    match a
    case Raise => 10 * factor / 9
    case Cut => 9 * factor / 10
    case Keep => factor
  }

  /** The factor is the exact product, rounded down. */
  lemma AdjustRounds(factor: nat)
    ensures var raised := Adjust(factor, Raise); 9 * raised <= 10 * factor < 9 * (raised + 1)
    ensures var cut := Adjust(factor, Cut); 10 * cut <= 9 * factor < 10 * (cut + 1)
    ensures Adjust(factor, Keep) == factor
  {
  }

  /** What one pid of one round asks for: nothing unless its churn exceeds 2 and its repeated pages
      have a positive 80th percentile. */
  function Decide(newPages: nat, repeatedPages: nat, new80th: real, repeated80th: real): Option<Adjustment> {
    if repeatedPages == 0 || newPages <= 2 * repeatedPages || repeated80th <= 0.0 then None
    else if new80th / repeated80th > 1.2 then Some(Raise)
    else if new80th / repeated80th < 0.8 then Some(Cut)
    else Some(Keep)
  }

  /** The factor after what one pid asks for. */
  function Applied(factor: nat, a: Option<Adjustment>): nat {
    if a.Some? then Adjust(factor, a.value) else factor
  }

  /** With the same churn, hotter new pages never lower the factor and hotter repeated pages never
      raise it. */
  lemma HotterNewPagesNeverLower(factor: nat, newPages: nat, repeatedPages: nat,
                                 new80th: real, new80th': real, repeated80th: real, repeated80th': real)
    requires 0.0 <= new80th <= new80th' && 0.0 < repeated80th' <= repeated80th
    ensures Applied(factor, Decide(newPages, repeatedPages, new80th, repeated80th))
            <= Applied(factor, Decide(newPages, repeatedPages, new80th', repeated80th'))
  {
    RatiosOrdered(new80th, new80th', repeated80th, repeated80th');
    assert Adjust(factor, Cut) <= factor <= Adjust(factor, Raise);
  }

  lemma RatiosOrdered(x: real, x': real, y: real, y': real)
    requires 0.0 <= x <= x' && 0.0 < y' <= y
    ensures x / y <= x' / y'
  {
    var q := x' / y';
    assert q * y' == x';
    RatioOrder(x', y', 0.0);
    assert q * (y - y') >= 0.0;
    RatioOrder(x, y, q);
  }

  function Run(factor: nat, adjustments: seq<Adjustment>): nat {
    if adjustments == [] then factor
    else Adjust(Run(factor, adjustments[..|adjustments| - 1]), adjustments[|adjustments| - 1])
  }

  /** What reaches the kernel: every factor of at least 1. */
  function Written(factor: nat, adjustments: seq<Adjustment>): seq<nat> {
    if adjustments == [] then []
    else
      var now := Run(factor, adjustments);
      Written(factor, adjustments[..|adjustments| - 1]) + (if now < 1 then [] else [now])
  }

  lemma RunNext(factor: nat, done: seq<Adjustment>, a: Adjustment)
    ensures var now := Adjust(Run(factor, done), a);
            && Run(factor, done + [a]) == now
            && Written(factor, done + [a]) == Written(factor, done) + (if now < 1 then [] else [now])
  {
    assert (done + [a])[..|done|] == done;
  }

  function Count(adjustments: seq<Adjustment>, a: Adjustment): nat {
    if adjustments == [] then 0
    else Count(adjustments[..|adjustments| - 1], a) + (if adjustments[|adjustments| - 1] == a then 1 else 0)
  }

  lemma CountNext(done: seq<Adjustment>, x: Adjustment, a: Adjustment)
    ensures Count(done + [x], a) == Count(done, a) + if x == a then 1 else 0
  {
    assert (done + [x])[..|done|] == done;
  }

  function Power(base: nat, n: nat): nat {
    if n == 0 then 1 else base * Power(base, n - 1)
  }

  lemma {:induction false} PowerPositive(base: nat, n: nat)
    requires base > 0
    ensures Power(base, n) > 0
  {
    if n > 0 {
      PowerPositive(base, n - 1);
    }
  }

  /** The weight that u raises and d cuts put on the side of the current factor. */
  function Down(u: nat, d: nat): nat {
    Power(9, u) * Power(10, d)
  }

  function Up(u: nat, d: nat): nat {
    Power(10, u) * Power(9, d)
  }

  lemma Weights(u: nat, d: nat)
    ensures Down(u + 1, d) == 9 * Down(u, d) && Up(u + 1, d) == 10 * Up(u, d)
    ensures Down(u, d + 1) == 10 * Down(u, d) && Up(u, d + 1) == 9 * Up(u, d)
    ensures Down(u, d) > 0
  {
    PowerPositive(9, u);
    PowerPositive(10, d);
    ProductScales(9, Power(9, u), Power(10, d));
    ProductScales(10, Power(10, u), Power(9, d));
    ProductScales(10, Power(10, d), Power(9, u));
    ProductScales(9, Power(9, d), Power(10, u));
    ProductPositive(Power(9, u), Power(10, d));
  }

  lemma ProductScales(k: nat, x: nat, y: nat)
    ensures (k * x) * y == k * (x * y) && y * (k * x) == k * (y * x)
  {
  }

  lemma ProductPositive(x: nat, y: nat)
    requires x > 0 && y > 0
    ensures x * y > 0
  {
  }

  /** If m times the new factor is at most k times the old one, weights m and k keep the bound. */
  lemma Rescale(now: nat, before: nat, m: nat, k: nat, down: nat, bound: nat)
    requires m * now <= k * before && before * down <= bound
    ensures now * (m * down) <= k * bound
  {
    MulMonotone(down, m * now, k * before);
    MulMonotone(k, before * down, bound);
    assert now * (m * down) == down * (m * now);
    assert down * (k * before) == k * (before * down);
  }

  /** Truncation only ever loses: after u raises and d cuts, in any order and from any factor,
      factor' * 9^u * 10^d <= factor * 10^u * 9^d. */
  lemma {:induction false} DriftBound(factor: nat, adjustments: seq<Adjustment>)
    ensures var u, d := Count(adjustments, Raise), Count(adjustments, Cut);
            Run(factor, adjustments) * Down(u, d) <= factor * Up(u, d)
  {
    if adjustments != [] {
      var n := |adjustments| - 1;
      var prior, a := adjustments[..n], adjustments[n];
      DriftBound(factor, prior);
      var u, d := Count(prior, Raise), Count(prior, Cut);
      Weights(u, d);
      StepBound(Run(factor, prior), a, factor, Down(u, d), Up(u, d));
    }
  }

  lemma StepBound(before: nat, a: Adjustment, factor: nat, down: nat, up: nat)
    requires before * down <= factor * up
    ensures var now := Adjust(before, a);
            match a
            case Raise => now * (9 * down) <= factor * (10 * up)
            case Cut => now * (10 * down) <= factor * (9 * up)
            case Keep => now * down <= factor * up
  {
    var now := Adjust(before, a);
    match a
    case Raise =>
      Rescale(now, before, 9, 10, down, factor * up);
      assert factor * (10 * up) == 10 * (factor * up);
    case Cut =>
      Rescale(now, before, 10, 9, down, factor * up);
      assert factor * (9 * up) == 9 * (factor * up);
    case Keep =>
  }

  // ------------------------------------------------------------ how much truncation can lose

  /** The most that `n` roundings can cost, in the weights below, times ten. */
  function Slack(n: nat): nat {
    9 * n * Power(10, n)
  }

  lemma SlackNext(n: nat)
    ensures Slack(n + 1) == 10 * Slack(n) + 90 * Power(10, n)
  {
    var p := Power(10, n);
    assert 9 * (n + 1) * (10 * p) == 10 * (9 * n * p) + 90 * p;
  }

  lemma {:induction false} DownBound(u: nat, d: nat)
    ensures Down(u, d) <= Power(10, u + d)
    decreases u
  {
    if u == 0 {
      assert Power(9, 0) * Power(10, d) == Power(10, d);
    } else {
      DownBound(u - 1, d);
      Weights(u - 1, d);
    }
  }

  /** One rounding: with `bound` at most ten times `before` plus slack, the same after a step that
      loses less than one. */
  lemma StepLoss(now: nat, before: nat, m: nat, k: nat, down: nat, bound: nat, slack: nat)
    requires k * before <= m * now + 9 && k <= 10 && 10 * bound <= 10 * (before * down) + slack
    ensures 10 * (k * bound) <= 10 * (now * (m * down)) + 90 * down + 10 * slack
  {
    MulMonotone(down, k * before, m * now + 9);
    assert down * (k * before) == k * (before * down);
    assert down * (m * now + 9) == now * (m * down) + 9 * down;
    MulMonotone(k, 10 * bound, 10 * (before * down) + slack);
    assert k * (10 * bound) == 10 * (k * bound);
    assert k * (10 * (before * down) + slack) == 10 * (k * (before * down)) + k * slack;
    MulMonotone(slack, k, 10);
  }

  /** The bound is nearly attained: n raises and cuts lose at most n roundings.  With the weights of
      `DriftBound`, ten times the exact product exceeds ten times the result by at most 9 n 10^n. */
  lemma {:induction false} DriftLowerBound(factor: nat, adjustments: seq<Adjustment>)
    ensures var u, d := Count(adjustments, Raise), Count(adjustments, Cut);
            10 * (factor * Up(u, d)) <= 10 * (Run(factor, adjustments) * Down(u, d)) + Slack(u + d)
  {
    if adjustments == [] {
      assert factor * Up(0, 0) == factor * Down(0, 0);
    } else {
      var n := |adjustments| - 1;
      var prior, a := adjustments[..n], adjustments[n];
      DriftLowerBound(factor, prior);
      var u, d, before := Count(prior, Raise), Count(prior, Cut), Run(factor, prior);
      Weights(u, d);
      DownBound(u, d);
      SlackNext(u + d);
      AdjustRounds(before);
      StepLower(before, a, factor, Down(u, d), Up(u, d), Slack(u + d));
    }
  }

  lemma StepLower(before: nat, a: Adjustment, factor: nat, down: nat, up: nat, slack: nat)
    requires 10 * (factor * up) <= 10 * (before * down) + slack
    ensures var now := Adjust(before, a);
            match a
            case Raise => 10 * (factor * (10 * up)) <= 10 * (now * (9 * down)) + 90 * down + 10 * slack
            case Cut => 10 * (factor * (9 * up)) <= 10 * (now * (10 * down)) + 90 * down + 10 * slack
            case Keep => 10 * (factor * up) <= 10 * (now * down) + slack
  {
    var now := Adjust(before, a);
    AdjustRounds(before);
    match a
    case Raise =>
      StepLoss(now, before, 9, 10, down, factor * up, slack);
      assert factor * (10 * up) == 10 * (factor * up);
    case Cut =>
      StepLoss(now, before, 10, 9, down, factor * up, slack);
      assert factor * (9 * up) == 9 * (factor * up);
    case Keep =>
  }

  // ------------------------------------------------------------ consequences

  lemma {:induction false} BalancedWeights(n: nat)
    ensures Down(n, n) == Up(n, n)
  {
    assert Power(9, n) * Power(10, n) == Power(10, n) * Power(9, n);
  }

  /** As many raises as cuts never end above the starting factor. */
  lemma BalancedNeverGains(factor: nat, adjustments: seq<Adjustment>)
    requires Count(adjustments, Raise) == Count(adjustments, Cut)
    ensures Run(factor, adjustments) <= factor
  {
    var n := Count(adjustments, Raise);
    DriftBound(factor, adjustments);
    BalancedWeights(n);
    Weights(n, n);
    MulCancel(Run(factor, adjustments), factor, Down(n, n));
  }

  /** A raise makes progress exactly from 9 upwards. */
  lemma RaiseGainsIffAtLeastNine(factor: nat)
    ensures Adjust(factor, Raise) > factor <==> factor >= 9
  {
  }

  /** Below 9 the factor never rises again, whatever is asked; 0 is absorbing and never reaches the
      kernel. */
  lemma {:induction false} BelowNineIsATrap(factor: nat, adjustments: seq<Adjustment>)
    requires factor < 9
    ensures Run(factor, adjustments) <= factor
    ensures factor == 0 ==> Written(factor, adjustments) == []
  {
    if adjustments != [] {
      BelowNineIsATrap(factor, adjustments[..|adjustments| - 1]);
    }
  }

  lemma {:induction false} RunAppend(factor: nat, a: seq<Adjustment>, b: seq<Adjustment>)
    ensures Run(factor, a + b) == Run(Run(factor, a), b)
  {
    if b == [] {
      assert a + b == a;
    } else {
      var n := |b| - 1;
      RunAppend(factor, a, b[..n]);
      assert (a + b)[..|a| + n] == a + b[..n];
    }
  }

  /** Hence along any run, once the factor is below 9 it is non-increasing from there on. */
  lemma OnceBelowNine(factor: nat, adjustments: seq<Adjustment>, i: nat, j: nat)
    requires i <= j <= |adjustments| && Run(factor, adjustments[..i]) < 9
    ensures Run(factor, adjustments[..j]) <= Run(factor, adjustments[..i])
  {
    assert adjustments[..j] == adjustments[..i] + adjustments[i..j];
    RunAppend(factor, adjustments[..i], adjustments[i..j]);
    BelowNineIsATrap(Run(factor, adjustments[..i]), adjustments[i..j]);
  }

  /** The factor after the first `k` adjustments. */
  function FactorAfter(factor: nat, adjustments: seq<Adjustment>, k: nat): nat
    requires k <= |adjustments|
  {
    Run(factor, adjustments[..k])
  }

  /** The factors after 1, 2, ... adjustments reach the kernel in order, all of them until the factor
      is 0, and none from then on. */
  lemma {:induction false} WrittenAreTheFactors(factor: nat, adjustments: seq<Adjustment>)
    ensures var written := Written(factor, adjustments);
            && |written| <= |adjustments|
            && (forall k | 1 <= k <= |written| :: FactorAfter(factor, adjustments, k) == written[k - 1] >= 1)
            && (forall k | |written| < k <= |adjustments| :: FactorAfter(factor, adjustments, k) == 0)
  {
    if adjustments != [] {
      var n := |adjustments| - 1;
      var prior := adjustments[..n];
      WrittenAreTheFactors(factor, prior);
      assert adjustments[..n + 1] == adjustments && prior[..n] == prior;
      assert FactorAfter(factor, prior, n) == Run(factor, prior);
      forall k | 0 <= k <= n
        ensures FactorAfter(factor, adjustments, k) == FactorAfter(factor, prior, k)
      {
        assert adjustments[..k] == prior[..k];
      }
    }
  }

  /** A positive final factor is the last one written. */
  lemma LastWritten(factor: nat, adjustments: seq<Adjustment>)
    requires Run(factor, adjustments) >= 1 && adjustments != []
    ensures var written := Written(factor, adjustments);
            written != [] && written[|written| - 1] == Run(factor, adjustments)
  {
    WrittenAreTheFactors(factor, adjustments);
    assert adjustments[..|adjustments|] == adjustments;
    assert FactorAfter(factor, adjustments, |adjustments|) == Run(factor, adjustments);
  }
}
