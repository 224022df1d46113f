/** Statistics of the benchmark framework, over the reals in place of doubles. */
module BenchmarkStatistics {

  // ------------------------------------------------------------------ sorting

  ghost predicate Sorted(s: seq<int>) {
    forall i, j | 0 <= i <= j < |s| :: s[i] <= s[j]
  }

  function Insert(x: int, s: seq<int>): seq<int> {
    if s == [] || x <= s[0] then [x] + s else [s[0]] + Insert(x, s[1..])
  }

  /** std::sort, by its result. */
  function Sort(s: seq<int>): seq<int> {
    if s == [] then [] else Insert(s[0], Sort(s[1..]))
  }

  lemma {:induction false} InsertKeeps(x: int, s: seq<int>)
    ensures multiset(Insert(x, s)) == multiset(s) + multiset{x} && |Insert(x, s)| == |s| + 1
    decreases |s|
  {
    if s != [] && x > s[0] {
      InsertKeeps(x, s[1..]);
      assert s == [s[0]] + s[1..];
    }
  }

  lemma {:induction false} InsertSorts(x: int, s: seq<int>)
    requires Sorted(s)
    ensures Sorted(Insert(x, s)) && Insert(x, s) != []
    ensures Insert(x, s)[0] == if s == [] || x <= s[0] then x else s[0]
    decreases |s|
  {
    if s != [] && x > s[0] {
      InsertSorts(x, s[1..]);
    }
  }

  lemma {:induction false} SortSorts(s: seq<int>)
    ensures Sorted(Sort(s)) && multiset(Sort(s)) == multiset(s) && |Sort(s)| == |s|
    decreases |s|
  {
    if s != [] {
      hide Sorted, Insert;
      SortSorts(s[1..]);
      InsertSorts(s[0], Sort(s[1..]));
      InsertKeeps(s[0], Sort(s[1..]));
      assert s == [s[0]] + s[1..];
    }
  }

  lemma {:induction false} SortOfSorted(s: seq<int>)
    requires Sorted(s)
    ensures Sort(s) == s
    decreases |s|
  {
    if s != [] {
      SortOfSorted(s[1..]);
    }
  }

  // ------------------------------------------------------- sums and deviations

  function Times(a: real, b: real): real { a * b }

  lemma TimesNonNegative(a: real, b: real)
    requires a >= 0.0 && b >= 0.0
    ensures Times(a, b) >= 0.0
  {
  }

  function Sum(s: seq<int>): real {
    if s == [] then 0.0 else Sum(s[..|s| - 1]) + s[|s| - 1] as real
  }

  function Mean(s: seq<int>): real
    requires s != []
  {
    Sum(s) / |s| as real
  }

  /** The sum of squared deviations from m. */
  function Squares(s: seq<int>, m: real): real {
    if s == [] then 0.0
    else Squares(s[..|s| - 1], m) + (s[|s| - 1] as real - m) * (s[|s| - 1] as real - m)
  }

  predicate Within(v: int, lower: real, upper: real) {
    lower <= v as real <= upper
  }

  function Filter(s: seq<int>, lower: real, upper: real): seq<int> {
    if s == [] then []
    else Filter(s[..|s| - 1], lower, upper) + (if Within(s[|s| - 1], lower, upper) then [s[|s| - 1]] else [])
  }

  lemma {:induction false} SquaresNonNegative(s: seq<int>, m: real)
    ensures Squares(s, m) >= 0.0
    decreases |s|
  {
    if s != [] {
      SquaresNonNegative(s[..|s| - 1], m);
      SquareNonNegative(s[|s| - 1] as real - m);
    }
  }

  lemma SquareNonNegative(x: real)
    ensures x * x >= 0.0
  {
    if x < 0.0 {
      assert (-x) * (-x) >= 0.0;
    }
  }

  /** Removed samples alone weigh more than t squared each. */
  lemma {:induction false} RemovedWeigh(s: seq<int>, m: real, t: real)
    requires t >= 0.0
    ensures var removed := |s| - |Filter(s, m - t, m + t)|;
      removed >= 0 && Squares(s, m) >= removed as real * (t * t)
      && (removed > 0 ==> Squares(s, m) > removed as real * (t * t))
    decreases |s|
  {
    if s != [] {
      var v := s[|s| - 1];
      var d := v as real - m;
      var before := s[..|s| - 1];
      RemovedWeigh(before, m, t);
      SquareNonNegative(d);
      if !Within(v, m - t, m + t) {
        FarSquare(d, t);
        var removed := |before| - |Filter(before, m - t, m + t)|;
        assert (removed + 1) as real * (t * t) == removed as real * (t * t) + t * t;
      }
    }
  }

  lemma Scale(a: real, b: real, c: real)
    requires a <= b && c >= 0.0
    ensures a * c <= b * c && (a < b && c > 0.0 ==> a * c < b * c)
  {
    var d := b - a;
    assert b * c == a * c + d * c;
  }

  lemma LargerSquare(d: real, t: real)
    requires d > t >= 0.0
    ensures d * d > t * t
  {
    ProductPositive(d - t, d + t);
    assert (d - t) * (d + t) == d * d - t * t;
  }

  lemma FarSquare(d: real, t: real)
    requires t >= 0.0 && (d > t || d < -t)
    ensures d * d > t * t
  {
    if d > t {
      LargerSquare(d, t);
    } else {
      var e := -d;
      LargerSquare(e, t);
      assert e * e == d * d;
    }
  }

  lemma ProductPositive(a: real, b: real)
    requires a > 0.0 && b > 0.0
    ensures a * b > 0.0
  {
  }

  /** Of n samples fewer than n / k^2 are gone, if any are. */
  ghost predicate FewRemoved(n: nat, kept: nat, k: real) {
    kept <= n && (kept < n ==> (n - kept) as real * (k * k) < n as real)
  }

  /** Main result: with threshold k, whenever samples are removed they are fewer than
      n / k^2; so a threshold of at least one never removes all of them. */
  lemma Chebyshev(s: seq<int>, k: real, stddev: real)
    requires s != [] && k >= 0.0 && stddev >= 0.0
    requires stddev * stddev == Squares(s, Mean(s)) / |s| as real
    ensures var f := Filter(s, Mean(s) - Times(k, stddev), Mean(s) + Times(k, stddev));
      FewRemoved(|s|, |f|, k) && (k >= 1.0 ==> f != [])
  {
    TimesNonNegative(k, stddev);
    hide Squares, Filter, Times, FewRemoved;
    var m, t := Mean(s), Times(k, stddev);
    var f := Filter(s, m - t, m + t);
    RemovedWeigh(s, m, t);
    Conclude(|s|, |f|, k, stddev, Squares(s, m));
  }

  lemma Conclude(n: nat, kept: nat, k: real, stddev: real, squares: real)
    requires n > 0 && kept <= n && k >= 0.0 && stddev >= 0.0
    requires stddev * stddev == squares / n as real
    requires kept < n ==> squares > (n - kept) as real * (Times(k, stddev) * Times(k, stddev))
    ensures FewRemoved(n, kept, k) && (k >= 1.0 ==> kept > 0)
  {
    if kept < n {
      Cancel(n as real, (n - kept) as real, k, stddev, squares);
    }
  }

  lemma Cancel(n: real, r: real, k: real, stddev: real, squares: real)
    requires n > 0.0 && r > 0.0 && k >= 0.0 && stddev >= 0.0
    requires stddev * stddev == squares / n && squares > r * (Times(k, stddev) * Times(k, stddev))
    ensures r * (k * k) < n && (k >= 1.0 ==> r < n)
  {
    var q, v := k * k, stddev * stddev;
    assert (k * stddev) * (k * stddev) == q * v;
    assert squares == n * v;
    assert r * (q * v) == (r * q) * v;
    if n <= r * q {
      Scale(n, r * q, v);
      assert false;
    }
    if k >= 1.0 {
      Scale(1.0, k, k);
      Scale(1.0, q, r);
    }
  }

  // --------------------------------------------------------------- percentiles

  /** Linear interpolation between the two samples around position idx. */
  function Interpolate(s: seq<int>, idx: real): real
    requires s != [] && 0.0 <= idx && idx.Floor < |s|
  {
    var lower := idx.Floor;
    var upper := lower + 1;
    var frac := idx - lower as real;
    if upper >= |s| then s[|s| - 1] as real
    else s[lower] as real * (1.0 - frac) + s[upper] as real * frac
  }

  function Position(p: real, n: nat): real { Times(p, (n - 1) as real) }

  function Percentile(s: seq<int>, p: real): real
    requires 0.0 <= p <= 1.0
  {
    if s == [] then 0.0
    else
      PositionMonotone(p, p, |s|);
      Interpolate(s, Position(p, |s|))
  }

  lemma PositionMonotone(p: real, q: real, n: nat)
    requires 0.0 <= p <= q <= 1.0 && n > 0
    ensures 0.0 <= Position(p, n) <= Position(q, n) <= (n - 1) as real
    ensures 0 <= Position(q, n).Floor <= n - 1
  {
    hide Times;
    Shares(p, q, (n - 1) as real);
  }

  lemma Shares(p: real, q: real, whole: real)
    requires 0.0 <= p <= q <= 1.0 && whole >= 0.0
    ensures 0.0 <= Times(p, whole) <= Times(q, whole) <= whole
  {
    hide Times;
    TimesUnits(whole);
    TimesMonotone(0.0, p, whole);
    TimesMonotone(p, q, whole);
    TimesMonotone(q, 1.0, whole);
  }

  lemma TimesMonotone(a: real, b: real, c: real)
    requires a <= b && c >= 0.0
    ensures Times(a, c) <= Times(b, c)
  {
    TimesNonNegative(b - a, c);
  }

  lemma TimesUnits(c: real)
    ensures Times(0.0, c) == 0.0 && Times(1.0, c) == c
  {
  }

  /** A mean of two samples lies between them and grows with its weight. */
  lemma Between(a: real, b: real, f: real, g: real)
    requires a <= b && 0.0 <= f <= g <= 1.0
    ensures a <= a * (1.0 - f) + b * f <= a * (1.0 - g) + b * g <= b
  {
    Scale(0.0, f, b - a);
    Scale(f, g, b - a);
    Scale(g, 1.0, b - a);
    assert a * (1.0 - f) + b * f == a + (b - a) * f;
    assert a * (1.0 - g) + b * g == a + (b - a) * g;
  }

  /** The interpolated value lies between the samples around its position. */
  lemma Brackets(s: seq<int>, x: real)
    requires Sorted(s) && s != [] && 0.0 <= x && x.Floor < |s|
    ensures var i := x.Floor;
      s[i] as real <= Interpolate(s, x) <= s[if i + 1 < |s| then i + 1 else i] as real
  {
    var i := x.Floor;
    if i + 1 < |s| {
      Between(s[i] as real, s[i + 1] as real, x - i as real, x - i as real);
    }
  }

  lemma InterpolateMonotone(s: seq<int>, x: real, y: real)
    requires Sorted(s) && s != [] && 0.0 <= x <= y && y.Floor < |s|
    ensures x.Floor < |s| && s[0] as real <= Interpolate(s, x) <= Interpolate(s, y) <= s[|s| - 1] as real
  {
    var i, j := x.Floor, y.Floor;
    assert i <= j;
    Brackets(s, x);
    Brackets(s, y);
    if i == j && i + 1 < |s| {
      Between(s[i] as real, s[i + 1] as real, x - i as real, y - i as real);
    }
  }

  /** Main result: percentiles never decrease with p and stay between the extremes. */
  lemma PercentileMonotone(s: seq<int>, p: real, q: real)
    requires Sorted(s) && s != [] && 0.0 <= p <= q <= 1.0
    ensures s[0] as real <= Percentile(s, p) <= Percentile(s, q) <= s[|s| - 1] as real
  {
    hide Interpolate, Sorted, Position;
    PositionMonotone(p, q, |s|);
    InterpolateMonotone(s, Position(p, |s|), Position(q, |s|));
  }

  /** The value at a position x between the samples i and i + 1. */
  lemma BetweenSamples(s: seq<int>, x: real, i: nat)
    requires i < |s| && i as real <= x <= (i + 1) as real && x <= (|s| - 1) as real
    ensures Interpolate(s, x)
         == if i + 1 == |s| then s[i] as real
            else s[i] as real + (x - i as real) * (s[i + 1] as real - s[i] as real)
  {
    var frac := x - x.Floor as real;
    if x == (i + 1) as real {
      assert x.Floor == i + 1;
      assert i + 2 < |s| ==> s[i + 1] as real * (1.0 - frac) + s[i + 2] as real * frac == s[i + 1] as real;
    } else {
      assert x.Floor == i;
      if i + 1 < |s| {
        var a, b := s[i] as real, s[i + 1] as real;
        assert a * (1.0 - frac) + b * frac == a + frac * (b - a);
      }
    }
  }

  /** Main result on percentiles: with position p(n - 1), the percentile at the position of
      a sample is that sample, and between two neighbouring positions it grows in
      proportion to the position. */
  lemma PercentileIsLinear(s: seq<int>, i: nat, p: real, q: real)
    requires i + 1 < |s| && 0.0 <= p <= q <= 1.0
    requires i as real <= p * (|s| - 1) as real && q * (|s| - 1) as real <= (i + 1) as real
    ensures p * (|s| - 1) as real == i as real ==> Percentile(s, p) == s[i] as real
    ensures q * (|s| - 1) as real == (i + 1) as real ==> Percentile(s, q) == s[i + 1] as real
    ensures Percentile(s, q) - Percentile(s, p)
         == (q * (|s| - 1) as real - p * (|s| - 1) as real) * (s[i + 1] as real - s[i] as real)
  {
    hide Interpolate;
    PositionMonotone(p, q, |s|);
    var x, y := Position(p, |s|), Position(q, |s|);
    BetweenSamples(s, x, i);
    BetweenSamples(s, y, i);
    Slope(s[i] as real, s[i + 1] as real - s[i] as real, x, y, i as real);
  }

  lemma Slope(a: real, d: real, x: real, y: real, i: real)
    ensures (a + (y - i) * d) - (a + (x - i) * d) == (y - x) * d
    ensures a + (i - i) * d == a && a + (i + 1.0 - i) * d == a + d
  {
  }

  /** The median is the middle sample, or the mean of the two middle ones. */
  lemma MedianIsMiddle(s: seq<int>, m: nat)
    requires m < |s|
    ensures |s| == 2 * m + 1 ==> Percentile(s, 0.50) == s[m] as real
    ensures |s| == 2 * m + 2 ==> Percentile(s, 0.50) == (s[m] as real + s[m + 1] as real) / 2.0
  {
    hide Interpolate;
    var x := Position(0.50, |s|);
    PositionMonotone(0.50, 0.50, |s|);
    if |s| == 2 * m + 1 || |s| == 2 * m + 2 {
      assert x == (|s| - 1) as real / 2.0;
      BetweenSamples(s, x, m);
    }
  }

  // ----------------------------------------------------------- the whole report

  datatype Report = Report(
    iterations: nat, mean: real, stddev: real, min: int, max: int,
    p50: real, p75: real, p90: real, p95: real, p99: real, p999: real, median: real, opsPerSec: real)

  lemma {:induction false} FilterSelects(s: seq<int>, lower: real, upper: real)
    ensures var f := Filter(s, lower, upper);
      |f| <= |s| && forall i | 0 <= i < |f| :: Within(f[i], lower, upper) && exists j :: 0 <= j < |s| && s[j] == f[i]
    decreases |s|
  {
    if s != [] {
      hide Within;
      var n := |s| - 1;
      var before, f := Filter(s[..n], lower, upper), Filter(s, lower, upper);
      FilterSelects(s[..n], lower, upper);
      forall i | 0 <= i < |f|
        ensures Within(f[i], lower, upper) && exists j :: 0 <= j < |s| && s[j] == f[i]
      {
        if i < |before| {
          var j :| 0 <= j < n && s[..n][j] == before[i];
          assert s[j] == f[i];
        } else {
          assert s[n] == f[i];
        }
      }
    }
  }

  lemma {:induction false} FilterSorted(s: seq<int>, lower: real, upper: real)
    requires Sorted(s)
    ensures Sorted(Filter(s, lower, upper))
    decreases |s|
  {
    if s != [] {
      hide Within;
      var n := |s| - 1;
      var before := Filter(s[..n], lower, upper);
      FilterSorted(s[..n], lower, upper);
      FilterSelects(s[..n], lower, upper);
      forall i | 0 <= i < |before|
        ensures before[i] <= s[n]
      {
        var j :| 0 <= j < n && s[..n][j] == before[i];
      }
    }
  }

  /** std::sqrt on the non-negative reals. */
  ghost predicate IsSquareRoot(sqrt: real -> real) {
    forall x | x >= 0.0 :: sqrt(x) >= 0.0 && sqrt(x) * sqrt(x) == x
  }

  function Deviation(s: seq<int>, sqrt: real -> real): real
    requires s != []
  {
    sqrt(Squares(s, Mean(s)) / |s| as real)
  }

  lemma DeviationSquared(s: seq<int>, sqrt: real -> real)
    requires s != [] && IsSquareRoot(sqrt)
    ensures var d := Deviation(s, sqrt); d >= 0.0 && d * d == Squares(s, Mean(s)) / |s| as real
  {
    hide Squares;
    SquaresNonNegative(s, Mean(s));
    assert Squares(s, Mean(s)) / |s| as real >= 0.0;
  }

  /** The samples within k deviations of the mean, unless that leaves none. */
  ghost function WithoutOutliers(s: seq<int>, k: real, sqrt: real -> real): seq<int>
    requires s != []
  {
    var t := Times(k, Deviation(s, sqrt));
    var f := Filter(s, Mean(s) - t, Mean(s) + t);
    if f != [] then f else s
  }

  lemma OutlierFacts(s: seq<int>, k: real, sqrt: real -> real)
    requires s != [] && Sorted(s) && IsSquareRoot(sqrt)
    ensures var f := WithoutOutliers(s, k, sqrt);
      f != [] && Sorted(f) && |f| <= |s| && (k >= 0.0 ==> FewRemoved(|s|, |f|, k))
  {
    hide Times, Filter, Sorted, Squares, Mean, Deviation, FewRemoved;
    var d := Deviation(s, sqrt);
    FilterSelects(s, Mean(s) - Times(k, d), Mean(s) + Times(k, d));
    FilterSorted(s, Mean(s) - Times(k, d), Mean(s) + Times(k, d));
    DeviationSquared(s, sqrt);
    if k >= 0.0 {
      Chebyshev(s, k, d);
      NoneRemoved(|s|, k);
    }
  }

  lemma {:induction false} FilterCounts(s: seq<int>, lower: real, upper: real, v: int)
    ensures multiset(Filter(s, lower, upper))[v] == if lower <= v as real <= upper then multiset(s)[v] else 0
    decreases |s|
  {
    if s != [] {
      FilterCounts(s[..|s| - 1], lower, upper, v);
      assert s == s[..|s| - 1] + [s[|s| - 1]];
    }
  }

  lemma FilterEmpty(s: seq<int>, lower: real, upper: real)
    ensures Filter(s, lower, upper) != [] <==> exists x :: x in s && lower <= x as real <= upper
  {
    hide Filter;
    var f := Filter(s, lower, upper);
    if f != [] {
      FilterCounts(s, lower, upper, f[0]);
      assert f[0] in multiset(f) && f[0] in s;
    }
    if x :| x in s && lower <= x as real <= upper {
      FilterCounts(s, lower, upper, x);
      assert x in multiset(s) && x in multiset(f);
    }
  }

  /** At most k standard deviations from the mean. */
  predicate IsNear(v: int, s: seq<int>, k: real, sqrt: real -> real)
    requires s != []
  {
    var distance := k * sqrt(Squares(s, Mean(s)) / |s| as real);
    -distance <= v as real - Mean(s) <= distance
  }

  lemma NearIsWithin(v: int, s: seq<int>, k: real, sqrt: real -> real)
    requires s != []
    ensures var t := Times(k, Deviation(s, sqrt)); IsNear(v, s, k, sqrt) <==> Mean(s) - t <= v as real <= Mean(s) + t
  {
    hide Squares, Mean;
  }

  /** Every sample at most k deviations from the mean is kept as often as it occurs, and no
      other, unless none is that near. */
  lemma KeptExactly(s: seq<int>, k: real, sqrt: real -> real, v: int)
    requires s != []
    ensures var kept := WithoutOutliers(s, k, sqrt);
      if exists x :: x in s && IsNear(x, s, k, sqrt)
      then multiset(kept)[v] == if IsNear(v, s, k, sqrt) then multiset(s)[v] else 0
      else kept == s
  {
    hide IsNear, Filter, Mean, Squares, Times, Deviation;
    var t := Times(k, Deviation(s, sqrt));
    forall x: int
      ensures IsNear(x, s, k, sqrt) <==> Mean(s) - t <= x as real <= Mean(s) + t
    {
      NearIsWithin(x, s, k, sqrt);
    }
    FilterEmpty(s, Mean(s) - t, Mean(s) + t);
    FilterCounts(s, Mean(s) - t, Mean(s) + t, v);
  }

  lemma NoneRemoved(n: nat, k: real)
    ensures FewRemoved(n, n, k)
  {
  }

  lemma {:induction false} SumBetween(s: seq<int>, low: int, high: int)
    requires forall i | 0 <= i < |s| :: low <= s[i] <= high
    ensures |s| as real * low as real <= Sum(s) <= |s| as real * high as real
    decreases |s|
  {
    if s != [] {
      SumBetween(s[..|s| - 1], low, high);
    }
  }

  method Accumulate(s: seq<int>) returns (sum: real)
    ensures sum == Sum(s)
  {
    sum := 0.0;
    for i := 0 to |s|
      invariant sum == Sum(s[..i])
    {
      assert s[..i + 1][..i] == s[..i];
      sum := sum + s[i] as real;
    }
    assert s[..|s|] == s;
  }

  method AccumulateSquares(s: seq<int>, mean: real) returns (sum: real)
    ensures sum == Squares(s, mean)
  {
    sum := 0.0;
    for i := 0 to |s|
      invariant sum == Squares(s[..i], mean)
    {
      assert s[..i + 1][..i] == s[..i];
      sum := sum + (s[i] as real - mean) * (s[i] as real - mean);
    }
    assert s[..|s|] == s;
  }

  method KeepWithin(s: seq<int>, lower: real, upper: real) returns (filtered: seq<int>)
    ensures filtered == Filter(s, lower, upper)
  {
    filtered := [];
    for i := 0 to |s|
      invariant filtered == Filter(s[..i], lower, upper)
    {
      assert s[..i + 1][..i] == s[..i];
      if s[i] as real >= lower && s[i] as real <= upper {
        filtered := filtered + [s[i]];
      }
    }
    assert s[..|s|] == s;
  }

  method RemoveOutliers(s: seq<int>, k: real, sqrt: real -> real) returns (samples: seq<int>)
    requires s != [] && Sorted(s) && IsSquareRoot(sqrt)
    ensures samples == WithoutOutliers(s, k, sqrt)
  {
    hide Times, Filter, Squares, Sort, Sum;
    samples := s;
    var sum := Accumulate(s);
    var mean := sum / |s| as real;
    var squares := AccumulateSquares(s, mean);
    var stddev := sqrt(squares / |s| as real);
    assert mean == Mean(s) && stddev == Deviation(s, sqrt);
    var t := Times(k, stddev);
    var filtered := KeepWithin(s, mean - t, mean + t);
    if filtered != [] {
      FilterSorted(s, mean - t, mean + t);
      SortOfSorted(filtered);
      samples := Sort(filtered);
    }
  }

  /** Sorts the samples, drops the outliers of more than ten and reports on the rest. */
  method CalculateStatistics(latencies: seq<int>, removeOutliers: bool, k: real, sqrt: real -> real)
    returns (samples: seq<int>, r: Report)
    requires IsSquareRoot(sqrt)
    ensures samples == (if removeOutliers && |latencies| > 10 && Sort(latencies) != [] then
                          WithoutOutliers(Sort(latencies), k, sqrt)
                        else Sort(latencies))
    ensures (latencies != [] ==> Describes(r, samples)) && |samples| <= |latencies|
    ensures k >= 0.0 ==> FewRemoved(|latencies|, |samples|, k)
  {
    if latencies == [] {
      return [], Report(0, 0.0, 0.0, 0, 0, 0.0, 0.0, 0.0, 0.0, 0.0, 0.0, 0.0, 0.0);
    }
    hide *;
    SortSorts(latencies);
    NoneRemoved(|latencies|, k);
    samples := Sort(latencies);
    if removeOutliers && |samples| > 10 {
      OutlierFacts(samples, k, sqrt);
      samples := RemoveOutliers(samples, k, sqrt);
    }
    r := Summarize(samples, sqrt);
  }

  /** Minimum, percentiles and maximum never decrease. */
  ghost predicate InOrder(s: seq<int>)
    requires s != []
  {
    && s[0] as real <= Percentile(s, 0.50) <= Percentile(s, 0.75) <= Percentile(s, 0.90)
    && Percentile(s, 0.90) <= Percentile(s, 0.95) <= Percentile(s, 0.99) <= Percentile(s, 0.999) <= s[|s| - 1] as real
  }

  /** What a report says about its (sorted) samples. */
  ghost predicate Describes(r: Report, s: seq<int>) {
    && s != [] && r.iterations == |s| && r.min == s[0] && r.max == s[|s| - 1] && r.median == r.p50
    && InOrder(s)
    && r.p50 == Percentile(s, 0.50) && r.p99 == Percentile(s, 0.99) && r.p999 == Percentile(s, 0.999)
    && r.p75 == Percentile(s, 0.75) && r.p90 == Percentile(s, 0.90) && r.p95 == Percentile(s, 0.95)
    && r.mean == Mean(s) && r.min as real <= r.mean <= r.max as real
    && IsDeviation(r.stddev, s, r.mean) && IsThroughput(r.opsPerSec, r.mean)
  }

  /** The square root of the mean squared deviation. */
  ghost predicate IsDeviation(d: real, s: seq<int>, mean: real)
    requires s != []
  {
    d >= 0.0 && d * d == Squares(s, mean) / |s| as real
  }

  /** Operations per second, where the mean says anything about them. */
  ghost predicate IsThroughput(opsPerSec: real, mean: real) {
    if mean > 0.0 then Times(opsPerSec, mean) == NANOSECONDS else opsPerSec == 0.0
  }

  const NANOSECONDS: real := 1000000000.0

  lemma PerSecond(mean: real)
    requires mean > 0.0
    ensures Times(NANOSECONDS / mean, mean) == NANOSECONDS
  {
  }

  lemma PercentilesInOrder(s: seq<int>)
    requires s != [] && Sorted(s)
    ensures InOrder(s)
  {
    hide Percentile, Sorted;
    PercentileMonotone(s, 0.50, 0.75);
    PercentileMonotone(s, 0.75, 0.90);
    PercentileMonotone(s, 0.90, 0.95);
    PercentileMonotone(s, 0.95, 0.99);
    PercentileMonotone(s, 0.99, 0.999);
  }

  /** The throughput, where there is one. */
  method Throughput(mean: real) returns (opsPerSec: real)
    ensures IsThroughput(opsPerSec, mean)
  {
    opsPerSec := 0.0;
    if mean > 0.0 {
      PerSecond(mean);
      opsPerSec := NANOSECONDS / mean;
    }
  }

  /** Mean and deviation. */
  method Moments(s: seq<int>, sqrt: real -> real) returns (mean: real, stddev: real)
    requires s != [] && Sorted(s) && IsSquareRoot(sqrt)
    ensures mean == Mean(s) && s[0] as real <= mean <= s[|s| - 1] as real
    ensures IsDeviation(stddev, s, mean)
  {
    hide Squares, Sum;
    SumBetween(s, s[0], s[|s| - 1]);
    DeviationSquared(s, sqrt);
    var sum := Accumulate(s);
    mean := sum / |s| as real;
    MeanBetween(sum, |s| as real, s[0] as real, s[|s| - 1] as real);
    var squares := AccumulateSquares(s, mean);
    stddev := sqrt(squares / |s| as real);
  }

  method Summarize(s: seq<int>, sqrt: real -> real) returns (r: Report)
    requires s != [] && Sorted(s) && IsSquareRoot(sqrt)
    ensures Describes(r, s)
  {
    PercentilesInOrder(s);
    hide Percentile, Mean, Sorted, IsSquareRoot, InOrder, IsDeviation, IsThroughput;
    var mean, stddev := Moments(s, sqrt);
    var p50 := Percentile(s, 0.50);
    var opsPerSec := Throughput(mean);
    r := Report(
      |s|, mean, stddev, s[0], s[|s| - 1],
      p50, Percentile(s, 0.75), Percentile(s, 0.90), Percentile(s, 0.95),
      Percentile(s, 0.99), Percentile(s, 0.999), p50, opsPerSec);
  }

  lemma MeanBetween(sum: real, n: real, low: real, high: real)
    requires n > 0.0 && n * low <= sum <= n * high
    ensures low <= sum / n <= high
  {
    var m := sum / n;
    assert m * n == sum;
    if m < low {
      Scale(m, low, n);
    } else if m > high {
      Scale(high, m, n);
    }
  }
}
