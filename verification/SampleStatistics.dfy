/** The two trained thresholds as real-valued functions of the training samples, and the bounds
    they give on how many of those samples lie above them. */
module SampleStatistics {

  function Sum(s: seq<real>): real {
    if s == [] then 0.0 else s[0] + Sum(s[1..])
  }

  /** Number of samples strictly above t, as the sliding window compares them. */
  function CountAbove(s: seq<real>, t: real): (n: nat)
    ensures n <= |s|
  {
    if s == [] then 0 else (if s[0] > t then 1 else 0) + CountAbove(s[1..], t)
  }

  // ----- mean + k * std -----

  function Mean(s: seq<real>): real
    requires s != []
  {
    Sum(s) / |s| as real
  }

  function Square(x: real): real { x * x }

  lemma ProductPositive(a: real, b: real, p: real)
    requires p == a * b && a > 0.0 && b > 0.0
    ensures p > 0.0
  {
  }

  lemma SquarePositive(x: real)
    requires x != 0.0
    ensures Square(x) > 0.0
  {
    if x > 0.0 {
      ProductPositive(x, x, Square(x));
    } else {
      var y := -x;
      assert y * y == x * x;
      ProductPositive(y, y, Square(x));
    }
  }

  lemma SquareSign(x: real)
    ensures Square(x) >= 0.0
  {
    if x != 0.0 { SquarePositive(x); }
  }

  function SquaredDeviations(s: seq<real>, m: real): real {
    if s == [] then 0.0 else Square(s[0] - m) + SquaredDeviations(s[1..], m)
  }

  lemma {:induction false} DeviationsNonNegative(s: seq<real>, m: real)
    ensures SquaredDeviations(s, m) >= 0.0
  {
    if s == [] {
    } else {
      SquareSign(s[0] - m);
      DeviationsNonNegative(s[1..], m);
    }
  }

  /** std as numpy returns it, on reals: the non-negative root of the mean squared deviation. */
  ghost predicate IsStd(s: seq<real>, std: real)
    requires s != []
  {
    std >= 0.0 && Square(std) * |s| as real == SquaredDeviations(s, Mean(s))
  }

  /** k is the n_sigma parameter. */
  function NSigmaThreshold(s: seq<real>, std: real, k: real): real
    requires s != []
  {
    Mean(s) + k * std
  }

  lemma SquareMonotone(a: real, b: real)
    requires 0.0 <= a <= b
    ensures Square(a) <= Square(b)
  {
    ProductNonNegative(b - a, b + a);
    assert b * b - a * a == (b - a) * (b + a);
  }

  lemma {:induction false} DeviationsBoundCount(s: seq<real>, m: real, d: real)
    requires d >= 0.0
    ensures SquaredDeviations(s, m) >= CountAbove(s, m + d) as real * Square(d)
  {
    if s == [] {
    } else {
      DeviationsBoundCount(s[1..], m, d);
      SquareSign(s[0] - m);
      if s[0] > m + d {
        SquareMonotone(d, s[0] - m);
        OneMore(CountAbove(s[1..], m + d) as real, Square(d));
      }
    }
  }

  lemma OneMore(n: real, x: real)
    ensures (1.0 + n) * x == x + n * x
  {
  }

  lemma {:induction false} NoDeviationsNoneAbove(s: seq<real>, m: real)
    requires SquaredDeviations(s, m) == 0.0
    ensures CountAbove(s, m) == 0
  {
    if s == [] {
    } else {
      SquareSign(s[0] - m);
      DeviationsNonNegative(s[1..], m);
      NoDeviationsNoneAbove(s[1..], m);
      if s[0] > m { SquarePositive(s[0] - m); }
    }
  }

  /** count is at most N / (k * k). */
  predicate AtMostInverseSquare(count: nat, n: nat, k: real) { count as real * (k * k) <= n as real }

  /** At most N / (k * k) training samples lie above the threshold, and none when all are equal. */
  lemma NSigmaBound(s: seq<real>, std: real, k: real)
    requires s != [] && IsStd(s, std) && k > 0.0
    ensures AtMostInverseSquare(CountAbove(s, NSigmaThreshold(s, std, k)), |s|, k)
    ensures std == 0.0 ==> CountAbove(s, NSigmaThreshold(s, std, k)) == 0
  {
    NSigmaBoundFor(s, Mean(s), std, k);
  }

  /** The same for any centre m the deviations are taken from. */
  lemma NSigmaBoundFor(s: seq<real>, m: real, std: real, k: real)
    requires s != [] && std >= 0.0 && k > 0.0 && SquaredDeviations(s, m) == Square(std) * |s| as real
    ensures AtMostInverseSquare(CountAbove(s, m + k * std), |s|, k)
    ensures std == 0.0 ==> CountAbove(s, m + k * std) == 0
  {
    if std == 0.0 {
      assert k * std == 0.0;
      NoDeviationsNoneAbove(s, m);
    } else {
      var d := k * std;
      ProductPositive(k, std, d);
      DeviationsBoundCount(s, m, d);
      CancelVariance(CountAbove(s, m + d), |s|, k, std, d, SquaredDeviations(s, m));
    }
  }

  lemma CancelVariance(above: nat, n: nat, k: real, std: real, d: real, deviations: real)
    requires std > 0.0 && d == k * std
    requires above as real * Square(d) <= deviations && deviations == Square(std) * n as real
    ensures AtMostInverseSquare(above, n, k)
  {
    SquarePositive(std);
    assert Square(d) == (k * k) * Square(std);
    CancelFactor(above as real, k * k, n as real, Square(std), above as real * ((k * k) * Square(std)));
  }

  lemma CancelFactor(a: real, b: real, n: real, v: real, p: real)
    requires v > 0.0 && p == a * (b * v) && p <= v * n
    ensures a * b <= n
  {
    assert p == (a * b) * v;
    if a * b > n {
      ProductPositive(a * b - n, v, (a * b - n) * v);
    }
  }

  lemma ProductNonNegative(a: real, b: real)
    requires a >= 0.0 && b >= 0.0
    ensures a * b >= 0.0
  {
  }

  // ----- box plot -----

  ghost predicate Ascending(s: seq<real>) { forall i, j :: 0 <= i < j < |s| ==> s[i] <= s[j] }

  function Insert(x: real, s: seq<real>): (r: seq<real>)
    requires Ascending(s)
    ensures Ascending(r) && |r| == |s| + 1
    ensures r[0] == if s == [] || x <= s[0] then x else s[0]
  {
    if s == [] || x <= s[0] then [x] + s else [s[0]] + Insert(x, s[1..])
  }

  lemma {:induction false} InsertKeepsSamples(x: real, s: seq<real>)
    requires Ascending(s)
    ensures multiset(Insert(x, s)) == multiset(s) + multiset{x}
  {
    if s == [] || x <= s[0] {
    } else {
      InsertKeepsSamples(x, s[1..]);
      assert s == [s[0]] + s[1..];
    }
  }

  function Sort(s: seq<real>): (r: seq<real>)
    ensures Ascending(r) && |r| == |s|
  {
    if s == [] then [] else Insert(s[0], Sort(s[1..]))
  }

  /** Sorting permutes: the quartiles are taken of the samples themselves. */
  lemma {:induction false} SortKeepsSamples(s: seq<real>)
    ensures multiset(Sort(s)) == multiset(s)
  {
    hide Insert;
    if s == [] {
    } else {
      SortKeepsSamples(s[1..]);
      InsertKeepsSamples(s[0], Sort(s[1..]));
      assert s == [s[0]] + s[1..];
    }
  }

  lemma {:induction false} InsertCount(x: real, s: seq<real>, t: real)
    requires Ascending(s)
    ensures CountAbove(Insert(x, s), t) == (if x > t then 1 else 0) + CountAbove(s, t)
  {
    var r := Insert(x, s);
    if s == [] || x <= s[0] {
      assert r[1..] == s;
    } else {
      InsertCount(x, s[1..], t);
      assert r[1..] == Insert(x, s[1..]);
    }
  }

  lemma {:induction false} SortCount(s: seq<real>, t: real)
    ensures CountAbove(Sort(s), t) == CountAbove(s, t)
  {
    if s == [] {
    } else {
      SortCount(s[1..], t);
      InsertCount(s[0], Sort(s[1..]), t);
    }
  }

  /** numpy's linear interpolation at the quantile quarters / 4 of the sorted samples. */
  function Quartile(sorted: seq<real>, quarters: nat): real
    requires sorted != [] && quarters <= 4
  {
    var at := (|sorted| - 1) * quarters;
    if at % 4 == 0 then sorted[at / 4] else Between(sorted[at / 4], sorted[at / 4 + 1], at % 4)
  }

  /** The point `quarters` quarters of the way from a to b. */
  function Between(a: real, b: real, quarters: nat): real {
    if quarters == 1 then a + 0.25 * (b - a)
    else if quarters == 2 then a + 0.5 * (b - a)
    else a + 0.75 * (b - a)
  }

  function UpperWhisker(q1: real, q3: real, parameter: real): real { q3 + parameter * (q3 - q1) }

  function BoxplotThreshold(s: seq<real>, parameter: real): real
    requires s != []
  {
    UpperWhisker(Quartile(Sort(s), 1), Quartile(Sort(s), 3), parameter)
  }

  lemma QuartileBetween(sorted: seq<real>, quarters: nat)
    requires sorted != [] && quarters <= 4 && Ascending(sorted)
    ensures var lo := (|sorted| - 1) * quarters / 4;
            sorted[lo] <= Quartile(sorted, quarters) &&
            Quartile(sorted, quarters) <= if (|sorted| - 1) * quarters % 4 == 0 then sorted[lo] else sorted[lo + 1]
  {
  }

  lemma QuartilesOrdered(sorted: seq<real>)
    requires sorted != [] && Ascending(sorted)
    ensures Quartile(sorted, 1) <= Quartile(sorted, 3)
  {
    var n := |sorted| - 1;
    QuartileBetween(sorted, 1);
    QuartileBetween(sorted, 3);
    if n == 1 {
      var a, d := sorted[0], sorted[1] - sorted[0];
      assert a + 0.25 * d <= a + 0.75 * d;
    } else if n >= 2 {
      assert n / 4 + (if n % 4 == 0 then 0 else 1) <= 3 * n / 4;
    }
  }

  lemma {:induction false} AboveOnlyToTheRight(sorted: seq<real>, j: nat, t: real)
    requires Ascending(sorted) && j < |sorted| && sorted[j] <= t
    ensures CountAbove(sorted, t) <= |sorted| - 1 - j
  {
    assert sorted[0] <= t;
    if j == 0 {
    } else {
      AboveOnlyToTheRight(sorted[1..], j - 1, t);
    }
  }

  lemma ThresholdAboveUpperQuartile(s: seq<real>, parameter: real)
    requires s != [] && parameter > 0.0
    ensures Quartile(Sort(s), 1) <= Quartile(Sort(s), 3) <= BoxplotThreshold(s, parameter)
  {
    QuartilesOrdered(Sort(s));
    WhiskerAtLeast(Quartile(Sort(s), 1), Quartile(Sort(s), 3), parameter);
  }

  lemma WhiskerAtLeast(q1: real, q3: real, parameter: real)
    requires q1 <= q3 && parameter > 0.0
    ensures UpperWhisker(q1, q3, parameter) >= q3
  {
    ProductNonNegative(parameter, q3 - q1);
  }

  /** The quartiles are ordered, the threshold is at least the upper one, and at most
      ceil((N - 1) / 4) of the N training samples lie above it. */
  lemma BoxplotBound(s: seq<real>, parameter: real)
    requires s != [] && parameter > 0.0
    ensures Quartile(Sort(s), 1) <= Quartile(Sort(s), 3) <= BoxplotThreshold(s, parameter)
    ensures CountAbove(s, BoxplotThreshold(s, parameter)) <= (|s| - 1 + 3) / 4
  {
    ThresholdAboveUpperQuartile(s, parameter);
    AtMostAQuarterAbove(Sort(s), BoxplotThreshold(s, parameter));
    SortCount(s, BoxplotThreshold(s, parameter));
  }

  lemma AtMostAQuarterAbove(sorted: seq<real>, t: real)
    requires sorted != [] && Ascending(sorted) && Quartile(sorted, 3) <= t
    ensures CountAbove(sorted, t) <= (|sorted| - 1 + 3) / 4
  {
    QuartileBetween(sorted, 3);
    AboveOnlyToTheRight(sorted, (|sorted| - 1) * 3 / 4, t);
  }
}
