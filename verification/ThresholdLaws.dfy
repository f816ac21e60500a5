/** What the trained thresholds are: laws that no other function of the samples satisfies. */
module ThresholdLaws {
  import opened SampleStatistics

  // ----- the quartiles -----

  /** Linear interpolation: position (N - 1) * k / 4 among the sorted samples, counted from 0. */
  lemma QuartileInterpolates(sorted: seq<real>, k: nat)
    requires sorted != [] && k <= 4
    ensures var i, r := (|sorted| - 1) * k / 4, (|sorted| - 1) * k % 4;
            && (r > 0 ==> i + 1 < |sorted|)
            && 4.0 * Quartile(sorted, k) ==
               (4 - r) as real * sorted[i] + if r > 0 then r as real * sorted[i + 1] else 0.0
  {
    var at := (|sorted| - 1) * k;
    if at % 4 > 0 {
      NextExists(|sorted| - 1, k);
      QuartersBetween(sorted[at / 4], sorted[at / 4 + 1], at % 4);
    }
  }

  lemma NextExists(last: nat, k: nat)
    requires k <= 4 && last * k % 4 > 0
    ensures last * k / 4 + 1 <= last
  {
    if k == 1 {
    } else if k == 2 {
    } else {
      assert k == 3;
    }
  }

  lemma QuartersBetween(a: real, b: real, r: nat)
    requires 1 <= r <= 3
    ensures 4.0 * Between(a, b, r) == (4 - r) as real * a + r as real * b
  {
    if r == 1 {
    } else if r == 2 {
    } else {
      assert r == 3;
    }
  }

  // ----- the box plot threshold -----

  /** A value is above the threshold if and only if it lies above the upper quartile by more than so many times the
      distance of the quartiles. */
  lemma AboveBoxplotExactly(s: seq<real>, p: real, x: real)
    requires s != []
    ensures var q1, q3 := Quartile(Sort(s), 1), Quartile(Sort(s), 3);
            x > BoxplotThreshold(s, p) <==> x - q3 > p * (q3 - q1)
  {
    hide Sort, Quartile, UpperWhisker;
    WhiskerAbove(Quartile(Sort(s), 1), Quartile(Sort(s), 3), p, x);
  }

  lemma WhiskerAbove(q1: real, q3: real, p: real, x: real)
    ensures x > UpperWhisker(q1, q3, p) <==> x - q3 > p * (q3 - q1)
  {
    var d := p * (q3 - q1);
    assert UpperWhisker(q1, q3, p) == q3 + d;
  }

  /** The value x in another unit and from another zero. */
  function Rescale(x: real, a: real, b: real): real { a * x + b }

  function Map(s: seq<real>, a: real, b: real): (r: seq<real>)
    ensures |r| == |s| && forall i :: 0 <= i < |s| ==> r[i] == Rescale(s[i], a, b)
  {
    seq(|s|, i requires 0 <= i < |s| => Rescale(s[i], a, b))
  }

  lemma RescaleKeepsOrder(a: real, b: real, x: real, y: real)
    requires a > 0.0
    ensures Rescale(x, a, b) <= Rescale(y, a, b) <==> x <= y
  {
    assert a * y - a * x == a * (y - x);
    if x < y {
      ProductPositive(a, y - x, a * (y - x));
    } else if y < x {
      ProductPositive(a, x - y, a * (x - y));
      assert a * (x - y) == a * x - a * y;
    }
  }

  lemma MapKeepsOrder(s: seq<real>, a: real, b: real)
    requires a > 0.0 && Ascending(s)
    ensures Ascending(Map(s, a, b))
  {
    hide Rescale;
    forall i, j | 0 <= i < j < |s| ensures Map(s, a, b)[i] <= Map(s, a, b)[j] {
      RescaleKeepsOrder(a, b, s[i], s[j]);
    }
  }

  lemma MapTail(s: seq<real>, a: real, b: real)
    requires s != []
    ensures Map(s, a, b) == [Rescale(s[0], a, b)] + Map(s[1..], a, b)
  {
    hide Rescale;
  }

  lemma {:induction false} InsertMap(x: real, s: seq<real>, a: real, b: real)
    requires a > 0.0 && Ascending(s)
    ensures Ascending(Map(s, a, b)) && Insert(Rescale(x, a, b), Map(s, a, b)) == Map(Insert(x, s), a, b)
  {
    hide Rescale, Map;
    MapKeepsOrder(s, a, b);
    var t := Insert(x, s);
    MapTail(t, a, b);
    if s == [] {
      assert t[1..] == s;
    } else {
      MapTail(s, a, b);
      RescaleKeepsOrder(a, b, x, s[0]);
      if x <= s[0] {
        assert t[1..] == s;
      } else {
        InsertMap(x, s[1..], a, b);
        assert t[1..] == Insert(x, s[1..]);
        assert Map(s, a, b)[1..] == Map(s[1..], a, b);
      }
    }
  }

  lemma {:induction false} SortMap(s: seq<real>, a: real, b: real)
    requires a > 0.0
    ensures Sort(Map(s, a, b)) == Map(Sort(s), a, b)
  {
    hide Rescale, Map, Insert;
    if s == [] {
    } else {
      SortMap(s[1..], a, b);
      InsertMap(s[0], Sort(s[1..]), a, b);
      MapTail(s, a, b);
      assert Map(s, a, b)[1..] == Map(s[1..], a, b);
    }
  }

  lemma QuartileMap(sorted: seq<real>, k: nat, a: real, b: real)
    requires sorted != [] && k <= 4
    ensures Quartile(Map(sorted, a, b), k) == Rescale(Quartile(sorted, k), a, b)
  {
    var i, r := (|sorted| - 1) * k / 4, (|sorted| - 1) * k % 4;
    if r > 0 {
      QuartileInterpolates(sorted, k);
      BetweenMap(sorted[i], sorted[i + 1], r, a, b);
    }
  }

  lemma BetweenMap(x: real, y: real, r: nat, a: real, b: real)
    ensures Between(Rescale(x, a, b), Rescale(y, a, b), r) == Rescale(Between(x, y, r), a, b)
  {
    assert a * y - a * x == a * (y - x);
    ScaledPart(a, y - x, 0.25);
    ScaledPart(a, y - x, 0.5);
    ScaledPart(a, y - x, 0.75);
  }

  lemma ScaledPart(a: real, d: real, c: real)
    ensures c * (a * d) == a * (c * d)
  {
  }

  /** In another unit, or from another zero, the threshold is the same point. */
  lemma BoxplotScales(s: seq<real>, p: real, a: real, b: real)
    requires s != [] && a > 0.0
    ensures BoxplotThreshold(Map(s, a, b), p) == Rescale(BoxplotThreshold(s, p), a, b)
  {
    SortMap(s, a, b);
    QuartileMap(Sort(s), 1, a, b);
    QuartileMap(Sort(s), 3, a, b);
    hide Sort, Quartile, UpperWhisker, Rescale;
    WhiskerMap(Quartile(Sort(s), 1), Quartile(Sort(s), 3), p, a, b);
  }

  lemma WhiskerMap(q1: real, q3: real, p: real, a: real, b: real)
    ensures UpperWhisker(Rescale(q1, a, b), Rescale(q3, a, b), p) == Rescale(UpperWhisker(q1, q3, p), a, b)
  {
    assert (a * q3 + b) - (a * q1 + b) == a * (q3 - q1);
    ScaledPart(a, q3 - q1, p);
  }

  /** The parameter counts: with quartiles apart a greater one gives a greater threshold, by the distance of the
      quartiles for each unit, and zero gives the upper quartile. */
  lemma BoxplotGrows(s: seq<real>, p: real, p': real)
    requires s != []
    ensures var q1, q3 := Quartile(Sort(s), 1), Quartile(Sort(s), 3);
            && BoxplotThreshold(s, p') - BoxplotThreshold(s, p) == (p' - p) * (q3 - q1)
            && BoxplotThreshold(s, 0.0) == q3
            && (q1 < q3 && p < p' ==> BoxplotThreshold(s, p) < BoxplotThreshold(s, p'))
  {
    hide Sort, Quartile, UpperWhisker;
    WhiskerGrows(Quartile(Sort(s), 1), Quartile(Sort(s), 3), p, p');
    WhiskerGrows(Quartile(Sort(s), 1), Quartile(Sort(s), 3), 0.0, p);
  }

  lemma WhiskerGrows(q1: real, q3: real, p: real, p': real)
    ensures UpperWhisker(q1, q3, p') - UpperWhisker(q1, q3, p) == (p' - p) * (q3 - q1)
    ensures UpperWhisker(q1, q3, 0.0) == q3
    ensures q1 < q3 && p < p' ==> UpperWhisker(q1, q3, p) < UpperWhisker(q1, q3, p')
  {
    var d := q3 - q1;
    assert p' * d - p * d == (p' - p) * d;
    if d > 0.0 && p < p' {
      ProductPositive(p' - p, d, (p' - p) * d);
    }
  }

  lemma {:induction false} SortAscending(s: seq<real>)
    requires Ascending(s)
    ensures Sort(s) == s
  {
    if s == [] {
    } else {
      SortAscending(s[1..]);
      assert s == [s[0]] + s[1..];
    }
  }

  /** The samples 1 to 5 with parameter 1.5. */
  lemma BoxplotExample()
    ensures BoxplotThreshold([1.0, 2.0, 3.0, 4.0, 5.0], 1.5) == 7.0
  {
    var sorted := [1.0, 2.0, 3.0, 4.0, 5.0];
    SortAscending(sorted);
    QuartilesOfFive(sorted);
    hide Sort, Quartile;
  }

  lemma QuartilesOfFive(sorted: seq<real>)
    requires |sorted| == 5
    ensures Quartile(sorted, 1) == sorted[1] && Quartile(sorted, 3) == sorted[3]
  {
  }

  // ----- the n-sigma threshold -----

  function DeviationSum(s: seq<real>, m: real): real {
    if s == [] then 0.0 else (s[0] - m) + DeviationSum(s[1..], m)
  }

  lemma {:induction false} DeviationSumIs(s: seq<real>, m: real)
    ensures DeviationSum(s, m) == Sum(s) - |s| as real * m
  {
    if s == [] {
    } else {
      DeviationSumIs(s[1..], m);
      assert |s| as real * m == m + |s[1..]| as real * m;
    }
  }

  /** The mean is the one number the samples lie around evenly. */
  lemma MeanExactly(s: seq<real>, m: real)
    requires s != []
    ensures m == Mean(s) <==> DeviationSum(s, m) == 0.0
  {
    DeviationSumIs(s, m);
    hide Sum, DeviationSum;
    Quotient(Sum(s), |s| as real, m);
  }

  lemma Quotient(x: real, n: real, m: real)
    requires n > 0.0
    ensures m == x / n <==> x - n * m == 0.0
  {
    assert (x / n) * n == x;
  }

  /** The threshold is the point above the mean whose squared distance from it is k * k variances. */
  lemma NSigmaExactly(s: seq<real>, std: real, k: real, t: real)
    requires s != [] && IsStd(s, std) && k > 0.0
    ensures t == NSigmaThreshold(s, std, k) <==>
              t >= Mean(s) && Square(t - Mean(s)) * |s| as real == (k * k) * SquaredDeviations(s, Mean(s))
  {
    hide Mean, SquaredDeviations;
    ScaledSquare(k, std, |s| as real, SquaredDeviations(s, Mean(s)));
    ProductNonNegative(k, std);
    if t >= Mean(s) {
      SameSquare(t - Mean(s), k * std, |s| as real);
    }
  }

  lemma ScaledSquare(k: real, std: real, n: real, deviations: real)
    requires Square(std) * n == deviations
    ensures Square(k * std) * n == (k * k) * deviations
  {
    assert Square(k * std) == (k * k) * Square(std);
    assert ((k * k) * Square(std)) * n == (k * k) * (Square(std) * n);
  }

  lemma SameSquare(a: real, b: real, n: real)
    requires a >= 0.0 && b >= 0.0 && n > 0.0
    ensures Square(a) * n == Square(b) * n <==> a == b
  {
    if a < b {
      LowerSquare(a, b, n);
    } else if b < a {
      LowerSquare(b, a, n);
    }
  }

  lemma LowerSquare(a: real, b: real, n: real)
    requires 0.0 <= a < b && n > 0.0
    ensures Square(a) * n < Square(b) * n
  {
    ProductPositive(b - a, b + a, (b - a) * (b + a));
    assert (b - a) * (b + a) == Square(b) - Square(a);
    ProductPositive(Square(b) - Square(a), n, (Square(b) - Square(a)) * n);
    assert (Square(b) - Square(a)) * n == Square(b) * n - Square(a) * n;
  }
}
