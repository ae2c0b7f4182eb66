/** The statistics of examples/c/benchmark.c over an array of latencies. */
module LatencyStats {
  import opened Arithmetic
  import opened Counts

  /** Integer division towards zero, as in C; also the conversion of an exact quotient. */
  function TruncDiv(a: int, b: nat): int
    requires b > 0
  {
    if a >= 0 then a / b else -((-a) / b)
  }

  predicate Ascending(s: seq<int>) {
    forall i, j | 0 <= i < j < |s| :: s[i] <= s[j]
  }

  predicate Within(s: seq<int>, lo: int, hi: int) {
    forall i | 0 <= i < |s| :: lo <= s[i] <= hi
  }

  function Mean(s: seq<int>): int
    requires s != []
  {
    TruncDiv(Sum(s), |s|)
  }

  method CalculateAverage(arr: array<int>) returns (average: int)
    requires arr.Length > 0
    ensures average == Mean(arr[..])
  {
    var sum := 0;
    for i := 0 to arr.Length
      invariant sum == Sum(arr[..i])
    {
      SumPrefix(arr[..], i);
      assert arr[..][..i] == arr[..i] && arr[..][..i + 1] == arr[..i + 1];
      sum := sum + arr[i];
    }
    assert arr[..arr.Length] == arr[..];
    average := TruncDiv(sum, arr.Length);
  }

  /** Sum of squared differences from `mean`. */
  function SquaredDiffs(s: seq<int>, mean: int): nat {
    if s == [] then 0
    else
      var diff := s[|s| - 1] - mean;
      SquaredDiffs(s[..|s| - 1], mean) + Square(diff)
  }

  function Square(x: int): nat {
    if x >= 0 then x * x else (-x) * (-x)
  }

  /** The integer part of the square root. */
  function FloorSqrt(x: nat): (r: nat)
    ensures r * r <= x < (r + 1) * (r + 1)
  {
    if x == 0 then 0
    else
      var r := FloorSqrt(x - 1);
      if (r + 1) * (r + 1) <= x then
        assert x < (r + 2) * (r + 2);
        r + 1
      else r
  }

  function StandardDeviation(s: seq<int>, mean: int): nat
    requires s != []
  {
    FloorSqrt(SquaredDiffs(s, mean) / |s|)
  }

  method CalculateStandardDeviation(arr: array<int>, mean: int) returns (deviation: nat)
    requires arr.Length > 0
    ensures deviation == StandardDeviation(arr[..], mean)
  {
    var sum: nat := 0;
    for i := 0 to arr.Length
      invariant sum == SquaredDiffs(arr[..i], mean)
    {
      var diff := arr[i] - mean;
      assert arr[..i + 1][..i] == arr[..i];
      assert Square(diff) == diff * diff;
      sum := sum + diff * diff;
    }
    assert arr[..arr.Length] == arr[..];
    deviation := FloorSqrt(sum / arr.Length);
  }

  /** Median of sorted data: the middle element, or the truncated mean of the middle two. */
  function Median(s: seq<int>): int
    requires s != []
  {
    var n := |s|;
    if n % 2 == 0 then TruncDiv(s[n / 2 - 1] + s[n / 2], 2) else s[n / 2]
  }

  /** One hundred times the exact value at rank `r`/100 on the piecewise linear curve through the
      sorted data. */
  function Interpolated(s: seq<int>, r: nat): int
    requires s != [] && r <= 100 * (|s| - 1)
  {
    var lower, weight := r / 100, r % 100;
    if lower + 1 >= |s| then 100 * s[lower]
    else s[lower] * (100 - weight) + s[lower + 1] * weight
  }

  function Percentile(s: seq<int>, percentile: nat): int
    requires s != [] && percentile <= 100
  {
    RankInRange(|s|, percentile);
    TruncDiv(Interpolated(s, percentile * (|s| - 1)), 100)
  }

  lemma RankInRange(n: nat, percentile: nat)
    requires n > 0 && percentile <= 100
    ensures 0 <= percentile * (n - 1) <= 100 * (n - 1)
  {
    MulMonotone(n - 1, 0, percentile);
    MulMonotone(n - 1, percentile, 100);
  }

  /** Of `n` data the percentile has rank `l` and `weight` hundredths. */
  predicate AtRank(n: nat, percentile: nat, l: int, weight: int) {
    0 <= l < n - 1 && 0 <= weight <= 100 && percentile * (n - 1) == 100 * l + weight
  }

  method CalculatePercentile(arr: array<int>, percentile: nat) returns (value: int)
    requires arr.Length > 0 && percentile <= 100
    ensures value == Percentile(arr[..], percentile)
    ensures forall l, weight | AtRank(arr.Length, percentile, l, weight) ::
              value == TruncDiv(100 * arr[l] + weight * (arr[l + 1] - arr[l]), 100)
  {
    PercentileOnCurve(arr[..], percentile);
    RankInRange(arr.Length, percentile);
    var rank := percentile * (arr.Length - 1);
    var lower := rank / 100;
    var upper := lower + 1;
    if upper >= arr.Length {
      return arr[lower];
    }
    var weight := rank % 100;
    value := TruncDiv(arr[lower] * (100 - weight) + arr[upper] * weight, 100);
  }

  // ------------------------------------------------------------ percentiles

  lemma TruncMonotone(a: int, b: int, n: nat)
    requires n > 0 && a <= b
    ensures TruncDiv(a, n) <= TruncDiv(b, n)
  {
    if a >= 0 {
      QuotientMonotone(a, b, n);
    } else if b < 0 {
      QuotientMonotone(-b, -a, n);
    } else {
      QuotientNonNegative(-a, n);
      QuotientNonNegative(b, n);
    }
  }

  /** Truncation is towards zero: the quotient keeps the sign of `a` and its size is rounded down. */
  lemma TruncTowardsZero(a: int, n: nat)
    requires n > 0
    ensures a >= 0 ==> 0 <= TruncDiv(a, n) * n <= a < (TruncDiv(a, n) + 1) * n
    ensures a <= 0 ==> (TruncDiv(a, n) - 1) * n < a <= TruncDiv(a, n) * n <= 0
  {
    var b := if a >= 0 then a else -a;
    var q := b / n;
    assert b == q * n + b % n;
    assert (q + 1) * n == q * n + n;
    QuotientNonNegative(b, n);
    MulMonotone(n, 0, q);
    assert (-q) * n == -(q * n) && (-q - 1) * n == -(q * n) - n;
  }

  lemma TruncExact(x: int, n: nat)
    requires n > 0
    ensures TruncDiv(x * n, n) == x
  {
    if x >= 0 {
      MulMonotone(n, 0, x);
      ExactQuotient(x, n);
    } else {
      MulGap(0, x, n);
      assert -(x * n) == (-x) * n;
      ExactQuotient(-x, n);
    }
  }

  /** Between neighbouring ranks the value rises by the same amount per hundredth of rank. */
  lemma InterpolationIsLinear(s: seq<int>, l: nat, weight: nat)
    requires l + 1 < |s| && weight <= 100
    ensures Interpolated(s, 100 * l + weight) == 100 * s[l] + weight * (s[l + 1] - s[l])
  {
    var r, a, b := 100 * l + weight, s[l], s[l + 1];
    if weight < 100 {
      assert r / 100 == l && r % 100 == weight;
      assert a * (100 - weight) + b * weight == 100 * a + weight * (b - a);
    } else {
      assert r / 100 == l + 1 && r % 100 == 0;
    }
  }

  /** The percentile lies at rank p(n-1)/100 of that curve, rounded towards zero. */
  lemma PercentileOnCurve(s: seq<int>, percentile: nat)
    requires s != [] && percentile <= 100
    ensures forall l, weight | AtRank(|s|, percentile, l, weight) ::
              Percentile(s, percentile) == TruncDiv(100 * s[l] + weight * (s[l + 1] - s[l]), 100)
  {
    forall l, weight | AtRank(|s|, percentile, l, weight)
      ensures Percentile(s, percentile) == TruncDiv(100 * s[l] + weight * (s[l + 1] - s[l]), 100)
    {
      InterpolationIsLinear(s, l, weight);
    }
  }

  lemma InterpolatedStep(s: seq<int>, r: nat)
    requires Ascending(s) && s != [] && r + 1 <= 100 * (|s| - 1)
    ensures Interpolated(s, r) <= Interpolated(s, r + 1)
  {
    var l, w := r / 100, r % 100;
    assert l + 1 < |s|;
    var a, b := s[l], s[l + 1];
    assert a <= b;
    if w < 99 {
      assert (r + 1) / 100 == l && (r + 1) % 100 == w + 1;
      assert a * (100 - w) + b * w + (b - a) == a * (100 - (w + 1)) + b * (w + 1);
    } else {
      assert (r + 1) / 100 == l + 1 && (r + 1) % 100 == 0;
      assert Interpolated(s, r + 1) == 100 * b;
    }
  }

  lemma {:induction false} InterpolatedMonotone(s: seq<int>, r: nat, q: nat)
    requires Ascending(s) && s != [] && r <= q <= 100 * (|s| - 1)
    ensures Interpolated(s, r) <= Interpolated(s, q)
    decreases q
  {
    if r < q {
      InterpolatedMonotone(s, r, q - 1);
      InterpolatedStep(s, q - 1);
    }
  }

  lemma PercentileMonotone(s: seq<int>, p: nat, q: nat)
    requires Ascending(s) && s != [] && p <= q <= 100
    ensures Percentile(s, p) <= Percentile(s, q)
  {
    RankInRange(|s|, p);
    RankInRange(|s|, q);
    var a, b := p * (|s| - 1), q * (|s| - 1);
    RankMonotone(|s|, p, q);
    InterpolatedMonotone(s, a, b);
    TruncMonotone(Interpolated(s, a), Interpolated(s, b), 100);
  }

  lemma RankMonotone(n: nat, p: nat, q: nat)
    requires n > 0 && p <= q
    ensures p * (n - 1) <= q * (n - 1)
  {
    MulMonotone(n - 1, p, q);
  }

  lemma PercentileExtremes(s: seq<int>)
    requires s != []
    ensures Percentile(s, 0) == s[0] && Percentile(s, 100) == s[|s| - 1]
  {
    TruncExact(s[0], 100);
    TruncExact(s[|s| - 1], 100);
  }

  /** On sorted data percentiles lie between the extremes and increase with p. */
  lemma PercentilesAreOrdered(s: seq<int>, p: nat, q: nat)
    requires Ascending(s) && s != [] && p <= q <= 100
    ensures s[0] == Percentile(s, 0) <= Percentile(s, p) <= Percentile(s, q) <= Percentile(s, 100) == s[|s| - 1]
  {
    PercentileMonotone(s, 0, p);
    PercentileMonotone(s, p, q);
    PercentileMonotone(s, q, 100);
    PercentileExtremes(s);
  }

  /** The median is the 50th percentile, for both parities and for any data, sorted or not. */
  lemma MedianIsFiftieth(s: seq<int>)
    requires s != []
    ensures Median(s) == Percentile(s, 50)
  {
    var n := |s|;
    RankInRange(n, 50);
    var r := 50 * (n - 1);
    if n % 2 == 0 {
      assert r / 100 == n / 2 - 1 && r % 100 == 50;
      var a, b := s[n / 2 - 1], s[n / 2];
      assert Interpolated(s, r) == 50 * (a + b);
      HalfIsFiftyHundredths(a + b);
    } else {
      assert r / 100 == n / 2 && r % 100 == 0;
      assert Interpolated(s, r) == 100 * s[n / 2];
      TruncExact(s[n / 2], 100);
    }
  }

  lemma HalfIsFiftyHundredths(x: int)
    ensures TruncDiv(50 * x, 100) == TruncDiv(x, 2)
  {
  }

  // ------------------------------------------------------------ mean and deviation

  lemma {:induction false} SumWithin(s: seq<int>, lo: int, hi: int)
    requires Within(s, lo, hi)
    ensures lo * |s| <= Sum(s) <= hi * |s|
  {
    if s != [] {
      SumWithin(s[1..], lo, hi);
      assert lo * |s| == lo * (|s| - 1) + lo && hi * |s| == hi * (|s| - 1) + hi;
    }
  }

  /** The truncated mean stays between any integer bounds on the data, negative ones included. */
  lemma MeanWithin(s: seq<int>, lo: int, hi: int)
    requires s != [] && Within(s, lo, hi)
    ensures lo <= Mean(s) <= hi
  {
    var n := |s|;
    SumWithin(s, lo, hi);
    TruncMonotone(lo * n, Sum(s), n);
    TruncMonotone(Sum(s), hi * n, n);
    TruncExact(lo, n);
    TruncExact(hi, n);
  }

  function SumSquares(s: seq<int>): nat {
    if s == [] then 0 else SumSquares(s[..|s| - 1]) + Square(s[|s| - 1])
  }

  /** The loop's sum, expanded: sum of squares, minus twice the mean times the sum, plus n times the
      squared mean. */
  lemma {:induction false} SquaredDiffsExpand(s: seq<int>, mean: int)
    ensures SquaredDiffs(s, mean) == SumSquares(s) - 2 * mean * Sum(s) + Square(mean) * |s|
  {
    if s != [] {
      var n := |s| - 1;
      var prior, x := s[..n], s[n];
      SquaredDiffsExpand(prior, mean);
      SumPrefix(s, n);
      assert s[..n + 1] == s;
      ExpandStep(x, mean, Sum(prior), n);
    }
  }

  lemma ExpandStep(x: int, mean: int, sum: int, n: nat)
    ensures Square(x - mean) == Square(x) - 2 * mean * x + Square(mean)
    ensures 2 * mean * (sum + x) == 2 * mean * sum + 2 * mean * x
    ensures Square(mean) * (n + 1) == Square(mean) * n + Square(mean)
  {
    assert Square(x) == x * x && Square(mean) == mean * mean;
    assert Square(x - mean) == (x - mean) * (x - mean);
  }

  /** The result is the root of the mean square, rounded down once: the intermediate truncated
      division loses nothing more. */
  lemma DeviationIsRoot(s: seq<int>, mean: int)
    requires s != []
    ensures var r := StandardDeviation(s, mean);
            Square(r) * |s| <= SquaredDiffs(s, mean) < Square(r + 1) * |s|
  {
    var d, r := SquaredDiffs(s, mean) / |s|, StandardDeviation(s, mean);
    assert Square(r) <= d < Square(r + 1);
    QuotientBetween(SquaredDiffs(s, mean), |s|, Square(r), Square(r + 1));
  }

  lemma QuotientBetween(q: nat, n: nat, lo: nat, hi: nat)
    requires n > 0 && lo <= q / n < hi
    ensures lo * n <= q < hi * n
  {
    var d := q / n;
    assert q == d * n + q % n;
    MulMonotone(n, lo, d);
    MulGap(hi, d, n);
  }

  // ------------------------------------------------------------ deviation and spread

  /** No point of [lo, hi] lies above the chord of the parabola through the two ends. */
  lemma Chord(x: int, lo: int, hi: int)
    requires lo <= x <= hi
    ensures Square(x) <= (lo + hi) * x - lo * hi
  {
    MulMonotone(x - lo, 0, hi - x);
    assert Square(x) == x * x;
    assert (x - lo) * (hi - x) == (lo + hi) * x - lo * hi - x * x;
  }

  lemma {:induction false} SumSquaresWithin(s: seq<int>, lo: int, hi: int)
    requires Within(s, lo, hi)
    ensures SumSquares(s) <= (lo + hi) * Sum(s) - lo * hi * |s|
  {
    if s != [] {
      var n := |s| - 1;
      var prior, x := s[..n], s[n];
      SumSquaresWithin(prior, lo, hi);
      SumPrefix(s, n);
      assert s[..n + 1] == s;
      Chord(x, lo, hi);
      ChordStep(lo + hi, lo * hi, Sum(prior), x, n);
    }
  }

  lemma ChordStep(slope: int, offset: int, sum: int, x: int, n: nat)
    ensures slope * (sum + x) == slope * sum + slope * x
    ensures offset * (n + 1) == offset * n + offset
  {
  }

  /** Truncation moves a quotient by less than one. */
  lemma TruncRemainder(a: int, n: nat) returns (rest: int)
    requires n > 0
    ensures a == TruncDiv(a, n) * n + rest && rest < n && -rest < n
  {
    if a >= 0 {
      rest := a % n;
      assert a == a / n * n + rest;
    } else {
      var q := (-a) / n;
      rest := -((-a) % n);
      assert -a == q * n - rest;
      assert (-q) * n == -(q * n);
    }
  }

  /** The sum of squared differences about the mean: the product of the distances to the two ends,
      and what truncating the mean can add. */
  lemma SquaredDiffsWithin(s: seq<int>, lo: int, hi: int)
    requires s != [] && Within(s, lo, hi)
    ensures var below, above := Mean(s) - lo, hi - Mean(s);
            SquaredDiffs(s, Mean(s)) <= (below * above + Distance(above, below)) * |s|
  {
    var n, m := |s|, Mean(s);
    var rest := TruncRemainder(Sum(s), n);
    SquaredDiffsExpand(s, m);
    SumSquaresWithin(s, lo, hi);
    CollectMean(m, lo, hi, n, Sum(s), rest);
  }

  function Distance(x: int, y: int): nat {
    if x >= y then x - y else y - x
  }

  lemma CollectMean(m: int, lo: int, hi: int, n: nat, sum: int, rest: int)
    requires sum == m * n + rest && rest < n && -rest < n
    ensures var below, above := m - lo, hi - m;
            (lo + hi) * sum - lo * hi * n - 2 * m * sum + Square(m) * n
            <= (below * above + Distance(above, below)) * n
  {
    var below, above := m - lo, hi - m;
    var slope, product := above - below, below * above;
    Regroup(slope, m, n, rest);
    ProductOfEnds(m, lo, hi);
    Distribute(Square(m), m * slope, product, n);
    assert (lo + hi) * sum == (2 * m + slope) * sum == 2 * m * sum + slope * sum;
    RestBound(above, below, rest, n);
    Distribute(product, Distance(above, below), 0, n);
  }

  lemma Distribute(a: int, b: int, c: int, n: int)
    ensures (a + b - c) * n == a * n + b * n - c * n
  {
  }

  lemma Regroup(slope: int, m: int, n: nat, rest: int)
    ensures slope * (m * n + rest) == m * slope * n + slope * rest
  {
  }

  lemma ProductOfEnds(m: int, lo: int, hi: int)
    ensures lo * hi == Square(m) + m * ((hi - m) - (m - lo)) - (m - lo) * (hi - m)
  {
    assert Square(m) == m * m;
  }

  lemma RestBound(x: int, y: int, rest: int, n: nat)
    requires rest < n && -rest < n
    ensures (x - y) * rest <= Distance(x, y) * n
  {
    if x >= y {
      MulMonotone(x - y, rest, n);
    } else {
      MulMonotone(y - x, -rest, n);
    }
  }

  /** At most half the spread, up to rounding: with `below` and `above` the distances of the mean to
      the ends, r squared is at most their product plus their difference. */
  lemma HalfSpread(r: nat, below: nat, above: nat)
    requires r * r <= below * above + Distance(above, below)
    ensures 2 * r <= below + above + 1
  {
    if 2 * r >= below + above + 2 {
      SquareGap(r, below + above);
      ProductBound(below, above);
      assert false;
    }
  }

  /** Four times the product is the square of the sum minus the square of the difference. */
  lemma ProductBound(below: nat, above: nat)
    ensures 4 * (below * above + Distance(above, below)) <= (below + above) * (below + above) + 4
    ensures below + above == 0 ==> below * above + Distance(above, below) == 0
  {
    var d: int, e: int := below + above, above - below;
    assert d * d == 4 * (below * above) + e * e;
    assert (e - 2) * (e - 2) == e * e - 4 * e + 4 && (e + 2) * (e + 2) == e * e + 4 * e + 4;
    SquareIsNat(e - 2);
    SquareIsNat(e + 2);
  }

  lemma SquareIsNat(x: int)
    ensures x * x >= 0
  {
  }

  lemma SquareGap(r: nat, d: nat)
    requires 2 * r >= d + 2
    ensures 4 * (r * r) >= d * d + 4 * d + 4
  {
    MulMonotone(2 * r, d + 2, 2 * r);
    MulMonotone(d + 2, d + 2, 2 * r);
  }

  /** The standard deviation about the truncated mean is at most half the spread of the data, up to
      the rounding of the mean; so it never exceeds the spread. */
  lemma DeviationWithinSpread(s: seq<int>, lo: int, hi: int)
    requires s != [] && Within(s, lo, hi)
    ensures 2 * StandardDeviation(s, Mean(s)) <= hi - lo + 1
    ensures StandardDeviation(s, Mean(s)) <= hi - lo
  {
    MeanWithin(s, lo, hi);
    var r, below, above := StandardDeviation(s, Mean(s)), Mean(s) - lo, hi - Mean(s);
    DeviationIsRoot(s, Mean(s));
    SquaredDiffsWithin(s, lo, hi);
    MulCancel(Square(r), below * above + Distance(above, below), |s|);
    HalfSpread(r, below, above);
  }
}
