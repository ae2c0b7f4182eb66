/** The 70% working-set split of examples/c/tel_wsf.py. */
module WorkingSet {
  import opened Arithmetic
  import opened Counts

  /** `part` reaches 70% of `total`. */
  predicate Covers(part: int, total: int) {
    10 * part >= 7 * total
  }

  /** The first `k + 1` counts reach 70% of `total`. */
  predicate CoveredAt(s: seq<int>, total: int, k: int)
    requires 0 <= k < |s|
  {
    Covers(Sum(s[..k + 1]), total)
  }

  /** The first position at or after `i` whose prefix reaches 70% of `total`; 0, the initial
      value, if there is none. */
  function FirstCovering(s: seq<int>, total: int, i: nat): (r: nat)
    requires i <= |s|
    ensures r == 0 || i <= r < |s|
    ensures (exists k | i <= k < |s| :: CoveredAt(s, total, k)) ==>
              && i <= r < |s| && CoveredAt(s, total, r)
              && forall k | i <= k < r :: !CoveredAt(s, total, k)
    decreases |s| - i
  {
    if i == |s| then 0
    else if CoveredAt(s, total, i) then i
    else FirstCovering(s, total, i + 1)
  }

  function SplitIndex(counts: seq<int>): nat {
    FirstCovering(SortDesc(counts), Sum(counts), 0)
  }

  /** The loop of process_logs, on any integers at all. */
  method FindSplit(counts: seq<int>) returns (split: nat)
    ensures split == SplitIndex(counts)
  {
    var total := Sum(counts);
    var sorted := SortDesc(counts);
    var cumulative := 0;
    split := 0;
    for i := 0 to |sorted|
      invariant cumulative == Sum(sorted[..i])
      invariant split == 0
      invariant FirstCovering(sorted, total, 0) == FirstCovering(sorted, total, i)
    {
      SumPrefix(sorted, i);
      cumulative := cumulative + sorted[i];
      if 10 * cumulative >= 7 * total {
        split := i;
        break;
      }
    }
  }

  // ------------------------------------------------------------ optimality

  /** The loop always breaks on non-negative counts: the prefix it stops at reaches 70%, and no
      shorter one does. */
  lemma SplitCovers(counts: seq<int>)
    requires counts != [] && NonNegative(counts)
    ensures var s, k := SortDesc(counts), SplitIndex(counts);
            && k < |counts|
            && CoveredAt(s, Sum(counts), k)
            && (forall j | 0 <= j < k :: !CoveredAt(s, Sum(counts), j))
  {
    var s := SortDesc(counts);
    SumOfPermutation(s, counts);
    SumNonNegative(counts);
    WholeCovers(s, Sum(counts));
  }

  /** A sequence that carries the whole, non-negative total reaches 70% at the latest at its end. */
  lemma WholeCovers(s: seq<int>, total: int)
    requires s != [] && Sum(s) == total >= 0
    ensures var k := FirstCovering(s, total, 0);
            && k < |s| && CoveredAt(s, total, k)
            && (forall j | 0 <= j < k :: !CoveredAt(s, total, j))
  {
    assert s[..|s| - 1 + 1] == s;
    assert CoveredAt(s, total, |s| - 1);
  }

  /** Greedy optimality: `split_index + 1` pages reach 70% of the accesses, and no non-empty
      sub-collection of fewer pages does, whatever pages it picks. */
  lemma GreedyIsOptimal(counts: seq<int>)
    requires counts != [] && NonNegative(counts)
    ensures exists sub ::
              && multiset(sub) <= multiset(counts) && |sub| == SplitIndex(counts) + 1
              && 10 * Sum(sub) >= 7 * Sum(counts)
    ensures forall sub: seq<int> |
              multiset(sub) <= multiset(counts) && sub != [] && 10 * Sum(sub) >= 7 * Sum(counts) ::
              |sub| >= SplitIndex(counts) + 1
  {
    var _ := BestCover(counts);
    forall sub: seq<int> | multiset(sub) <= multiset(counts) && sub != [] && 10 * Sum(sub) >= 7 * Sum(counts)
      ensures |sub| >= SplitIndex(counts) + 1
    {
      NoSmallerCover(counts, sub);
    }
  }

  lemma BestCover(counts: seq<int>) returns (best: seq<int>)
    requires counts != [] && NonNegative(counts)
    ensures multiset(best) <= multiset(counts) && |best| == SplitIndex(counts) + 1
    ensures Covers(Sum(best), Sum(counts))
  {
    SplitCovers(counts);
    best := TakePrefix(SortDesc(counts), Sum(counts), SplitIndex(counts));
  }

  lemma TakePrefix(s: seq<int>, total: int, k: nat) returns (best: seq<int>)
    requires k < |s| && CoveredAt(s, total, k)
    ensures multiset(best) <= multiset(s) && |best| == k + 1 && Covers(Sum(best), total)
  {
    best := s[..k + 1];
    assert s == best + s[k + 1..];
  }

  lemma NoSmallerCover(counts: seq<int>, sub: seq<int>)
    requires counts != [] && NonNegative(counts)
    requires multiset(sub) <= multiset(counts) && sub != [] && Covers(Sum(sub), Sum(counts))
    ensures |sub| >= SplitIndex(counts) + 1
  {
    var s, j := SortDesc(counts), |sub| - 1;
    SplitCovers(counts);
    PrefixIsHeaviest(s, sub);
    assert CoveredAt(s, Sum(counts), j);
  }

  /** With the empty sub-collection admitted too, the split is optimal exactly when there was
      any access at all: for all-zero counts nothing already reaches 70% of nothing. */
  lemma OptimalIffAccessed(counts: seq<int>)
    requires counts != [] && NonNegative(counts)
    ensures (forall sub: seq<int> | multiset(sub) <= multiset(counts) && Covers(Sum(sub), Sum(counts)) ::
               |sub| >= SplitIndex(counts) + 1)
            <==> Sum(counts) > 0
  {
    GreedyIsOptimal(counts);
    SumNonNegative(counts);
    var none: seq<int> := [];
    assert multiset(none) <= multiset(counts) && Sum(none) == 0;
    if Sum(counts) > 0 {
      forall sub: seq<int> | multiset(sub) <= multiset(counts) && Covers(Sum(sub), Sum(counts))
        ensures |sub| >= SplitIndex(counts) + 1
      {
        assert sub == [] ==> Sum(sub) == 0;
      }
    }
  }

  // ------------------------------------------------------------ averaging

  /** Every element of the first `k` is at least every later one, so the prefix sum is at least
      k times the element that follows. */
  lemma {:induction false} PrefixAboveNext(s: seq<int>, k: nat)
    requires Descending(s) && k < |s|
    ensures Sum(s[..k]) >= k * s[k]
  {
    if k > 0 {
      PrefixAboveNext(s, k - 1);
      SumPrefix(s, k - 1);
      var a, b := s[k - 1], s[k];
      assert Sum(s[..k]) >= (k - 1) * a + a == k * a;
      assert k * a >= k * b by { MulMonotone(k, b, a); }
    }
  }

  /** The k largest of n carry at least k/n of the total. */
  lemma {:induction false} PrefixAboveAverage(s: seq<int>, k: nat, n: nat)
    requires Descending(s) && k <= n <= |s|
    ensures n * Sum(s[..k]) >= k * Sum(s[..n])
    decreases n - k
  {
    if k < n {
      var m := n - 1;
      PrefixAboveAverage(s, k, m);
      SumPrefix(s, m);
      PrefixAboveNext(s, k);
      MulMonotone(k, s[m], s[k]);
      AverageStep(m, k, Sum(s[..k]), Sum(s[..m]), s[m]);
    }
  }

  lemma AverageStep(m: nat, k: nat, p: int, q: int, x: int)
    requires m * p >= k * q && p >= k * x
    ensures (m + 1) * p >= k * (q + x)
  {
    assert (m + 1) * p == m * p + p;
    assert k * (q + x) == k * q + k * x;
  }

  /** Averaging bound: at most ceil(7n/10) pages are ever needed. */
  lemma SplitIsAtMostCeiling(counts: seq<int>)
    requires counts != [] && NonNegative(counts)
    ensures 10 * (SplitIndex(counts) + 1) <= 7 * |counts| + 9
  {
    var s, n, total := SortDesc(counts), |counts|, Sum(counts);
    SplitCovers(counts);
    SumOfPermutation(s, counts);
    SumNonNegative(counts);
    var k := (7 * n + 9) / 10;
    PrefixAboveAverage(s, k, n);
    assert s[..n] == s;
    var p := Sum(s[..k]);
    assert n * p >= k * total;
    assert 10 * k >= 7 * n;
    Average(n, k, p, total);
    assert CoveredAt(s, total, k - 1);
  }

  lemma Average(n: nat, k: nat, p: int, total: int)
    requires n > 0 && total >= 0 && n * p >= k * total && 10 * k >= 7 * n
    ensures Covers(p, total)
  {
    MulMonotone(total, 7 * n, 10 * k);
    var d := 10 * p - 7 * total;
    assert n * d == 10 * (n * p) - (7 * n) * total;
    assert (10 * k) * total == 10 * (k * total);
    assert n * d >= 0;
  }

  // ------------------------------------------------------------ concentration

  /** Same size, same total, and at every length the prefix of `a` carries at least as much. */
  predicate MoreConcentrated(a: seq<int>, b: seq<int>) {
    && |a| == |b| && Sum(a) == Sum(b)
    && forall k | 0 <= k <= |a| :: Sum(SortDesc(a)[..k]) >= Sum(SortDesc(b)[..k])
  }

  /** A more concentrated sample needs no more pages. */
  lemma ConcentrationShrinksSplit(a: seq<int>, b: seq<int>)
    requires a != [] && NonNegative(a) && NonNegative(b) && MoreConcentrated(a, b)
    ensures SplitIndex(a) <= SplitIndex(b)
  {
    SplitCovers(a);
    SplitCovers(b);
    var k := SplitIndex(b);
    assert Sum(SortDesc(a)[..k + 1]) >= Sum(SortDesc(b)[..k + 1]);
    assert CoveredAt(SortDesc(a), Sum(a), k);
  }

  lemma SplitIgnoresOrder(a: seq<int>, b: seq<int>)
    requires multiset(a) == multiset(b)
    ensures SplitIndex(a) == SplitIndex(b)
  {
    DescendingIsUnique(SortDesc(a), SortDesc(b));
    SumOfPermutation(a, b);
  }

  function Scaled(c: int, s: seq<int>): (r: seq<int>)
    ensures |r| == |s| && forall i | 0 <= i < |s| :: r[i] == c * s[i]
  {
    if s == [] then [] else [c * s[0]] + Scaled(c, s[1..])
  }

  lemma {:induction false} SumScaled(c: int, s: seq<int>)
    ensures Sum(Scaled(c, s)) == c * Sum(s)
  {
    if s != [] {
      SumScaled(c, s[1..]);
      assert Scaled(c, s)[1..] == Scaled(c, s[1..]);
    }
  }

  lemma {:induction false} ScaledOccurrences(c: int, s: seq<int>, x: int)
    requires c > 0
    ensures multiset(Scaled(c, s))[c * x] == multiset(s)[x]
  {
    if s != [] {
      ScaledOccurrences(c, s[1..], x);
      assert s == [s[0]] + s[1..];
      assert Scaled(c, s) == [c * s[0]] + Scaled(c, s[1..]);
      assert c * s[0] == c * x <==> s[0] == x by { MulInjective(c, s[0], x); }
    }
  }

  lemma MulInjective(c: int, a: int, b: int)
    requires c > 0
    ensures c * a == c * b <==> a == b
  {
    assert c * a - c * b == c * (a - b);
  }

  lemma ScaledSource(c: int, s: seq<int>, y: int) returns (z: int)
    requires y in multiset(Scaled(c, s))
    ensures y == c * z
  {
    var r := Scaled(c, s);
    assert y in r;
    var i :| 0 <= i < |r| && r[i] == y;
    z := s[i];
  }

  lemma ScaledPermutation(c: int, a: seq<int>, b: seq<int>)
    requires c > 0 && multiset(a) == multiset(b)
    ensures multiset(Scaled(c, a)) == multiset(Scaled(c, b))
  {
    var ma, mb := multiset(Scaled(c, a)), multiset(Scaled(c, b));
    forall y
      ensures ma[y] == mb[y]
    {
      if y in ma {
        var z := ScaledSource(c, a, y);
        ScaledOccurrences(c, a, z);
        ScaledOccurrences(c, b, z);
      } else if y in mb {
        var z := ScaledSource(c, b, y);
        ScaledOccurrences(c, a, z);
        ScaledOccurrences(c, b, z);
      }
    }
  }

  lemma ScaledDescending(c: int, s: seq<int>)
    requires c > 0 && Descending(s)
    ensures Descending(Scaled(c, s))
  {
    forall i, j | 0 <= i < j < |s|
      ensures c * s[i] >= c * s[j]
    {
      MulMonotone(c, s[j], s[i]);
    }
  }

  /** Multiplying every count by the same positive number leaves the split where it is. */
  lemma SplitIgnoresScale(c: int, counts: seq<int>)
    requires c > 0
    ensures SplitIndex(Scaled(c, counts)) == SplitIndex(counts)
  {
    var s := SortDesc(counts);
    ScaledPermutation(c, s, counts);
    ScaledDescending(c, s);
    DescendingIsUnique(SortDesc(Scaled(c, counts)), Scaled(c, s));
    SumScaled(c, counts);
    ScaledFirstCovering(c, s, Sum(counts), 0);
  }

  lemma {:induction false} ScaledFirstCovering(c: int, s: seq<int>, total: int, i: nat)
    requires c > 0 && i <= |s|
    ensures FirstCovering(Scaled(c, s), c * total, i) == FirstCovering(s, total, i)
    decreases |s| - i
  {
    if i < |s| {
      ScaledFirstCovering(c, s, total, i + 1);
      assert Scaled(c, s)[..i + 1] == Scaled(c, s[..i + 1]);
      SumScaled(c, s[..i + 1]);
      CoversScaled(c, Sum(s[..i + 1]), total);
    }
  }

  lemma CoversScaled(c: int, part: int, total: int)
    requires c > 0
    ensures Covers(c * part, c * total) <==> Covers(part, total)
  {
    var d := 10 * part - 7 * total;
    assert 10 * (c * part) - 7 * (c * total) == c * d;
    assert d >= 0 ==> c * d >= 0;
    assert d < 0 ==> c * d < 0;
  }
}
