/** The anomaly score (internal/anomaly/anomaly.go) over the reals: the single-pass loop computes the two-pass mean and
    deviation, and what a score can be. */
module Anomaly {
  import opened Bytes
  import opened Points

  const WINDOW: nat := 256
  const MIN_SAMPLES: nat := 8

  ghost predicate IsSqrt(sqrt: real -> real) {
    forall x: real | x >= 0.0 :: sqrt(x) >= 0.0 && sqrt(x) * sqrt(x) == x
  }

  function Power(p: Point<real>): (x: real)
    ensures x >= 0.0
  {
    p.ax * p.ax + p.ay * p.ay + p.az * p.az
  }

  function Magnitudes(sqrt: real -> real, points: seq<Point<real>>): (xs: seq<real>)
    ensures |xs| == |points|
  {
    seq(|points|, i requires 0 <= i < |points| => sqrt(Power(points[i])))
  }

  // The two-pass definitions.

  function Sum(xs: seq<real>): real {
    if xs == [] then 0.0 else Sum(xs[..|xs| - 1]) + xs[|xs| - 1]
  }

  function Mean(xs: seq<real>): real
    requires xs != []
  {
    Sum(xs) / |xs| as real
  }

  function Square(x: real): (y: real)
    ensures y >= 0.0
  {
    x * x
  }

  /** The sum of squared deviations from `c`. */
  function Deviations(xs: seq<real>, c: real): (d: real)
    ensures d >= 0.0
  {
    if xs == [] then 0.0 else Deviations(xs[..|xs| - 1], c) + Square(xs[|xs| - 1] - c)
  }

  datatype Report = Report(zscore: real, mean: real, stddev: real, samples: nat, anomalous: bool)

  /** The report by definition, from the magnitudes of a window, newest first. */
  function Score(sqrt: real -> real, xs: seq<real>): Report
    requires xs != []
  {
    var mean := Mean(xs);
    var stddev := sqrt(Deviations(xs, mean) / |xs| as real);
    var z := if stddev != 0.0 then (xs[0] - mean) / stddev else 0.0;
    Report(z, mean, stddev, |xs|, z > 3.0 || z < -3.0)
  }

  function Quadratic(q: real, s: real, k: real, c: real): real {
    q - 2.0 * (s * c) + k * Square(c)
  }

  /** Deviations from any centre, in terms of the sum and of the sum of squares. */
  lemma {:induction false} Expand(xs: seq<real>, c: real)
    ensures Deviations(xs, c) == Quadratic(Deviations(xs, 0.0), Sum(xs), |xs| as real, c)
    decreases |xs|
  {
    hide Square, Quadratic;
    if xs == [] {
      QuadraticZero(c);
    } else {
      var k := |xs| - 1;
      Expand(xs[..k], c);
      QuadraticStep(Deviations(xs[..k], 0.0), Sum(xs[..k]), k as real, xs[k], c);
    }
  }

  lemma QuadraticZero(c: real)
    ensures Quadratic(0.0, 0.0, 0.0, c) == 0.0
  {
  }

  lemma QuadraticStep(q: real, s: real, k: real, x: real, c: real)
    ensures Quadratic(q + Square(x - 0.0), s + x, k + 1.0, c) == Quadratic(q, s, k, c) + Square(x - c)
  {
    assert Square(x - c) == x * x - 2.0 * (x * c) + c * c;
    assert (s + x) * c == s * c + x * c;
    assert (k + 1.0) * (c * c) == k * (c * c) + c * c;
  }

  lemma OneMagnitudeMore(xs: seq<real>, x: real, c: real)
    ensures Sum(xs + [x]) == Sum(xs) + x && Deviations(xs + [x], c) == Deviations(xs, c) + Square(x - c)
  {
    hide Square;
    assert (xs + [x])[..|xs + [x]| - 1] == xs;
  }

  /** What the loop adds to m2. */
  function Gain(x: real, mean: real, next: real): real {
    (x - mean) * (x - next)
  }

  function NextMean(mean: real, x: real, n: nat): real
    requires n >= 1
  {
    mean + (x - mean) / n as real
  }

  ghost predicate IsMean(xs: seq<real>, mean: real) {
    Sum(xs) == |xs| as real * mean
  }

  /** One round of the loop: from the mean and deviations of a window to those of the window with one more magnitude. */
  lemma WelfordStep(xs: seq<real>, x: real, mean: real)
    requires IsMean(xs, mean)
    ensures var next := NextMean(mean, x, |xs| + 1);
            IsMean(xs + [x], next) && Deviations(xs + [x], next) == Deviations(xs, mean) + Gain(x, mean, next)
  {
    hide Square, Quadratic, Sum, Deviations, Gain, NextMean, IsMean;
    var next := NextMean(mean, x, |xs| + 1);
    MeanStep(xs, x, mean);
    OneMagnitudeMore(xs, x, next);
    Expand(xs, mean);
    Expand(xs, next);
    WelfordAlgebra(Deviations(xs, 0.0), xs, x, mean);
  }

  lemma MeanStep(xs: seq<real>, x: real, mean: real)
    requires IsMean(xs, mean)
    ensures IsMean(xs + [x], NextMean(mean, x, |xs| + 1))
  {
    hide Sum, Deviations;
    var k := |xs| as real;
    var next := NextMean(mean, x, |xs| + 1);
    OneMagnitudeMore(xs, x, next);
    assert (|xs| + 1) as real == k + 1.0;
    StepOf(k, x, mean, next - mean);
  }

  lemma WelfordAlgebra(q: real, xs: seq<real>, x: real, mean: real)
    requires IsMean(xs, mean)
    ensures var next := NextMean(mean, x, |xs| + 1); var s := Sum(xs); var k := |xs| as real;
            Quadratic(q, s, k, next) + Square(x - next) == Quadratic(q, s, k, mean) + Gain(x, mean, next)
  {
    hide Sum, Quadratic, Square, Gain;
    var k := |xs| as real;
    var next := NextMean(mean, x, |xs| + 1);
    assert (|xs| + 1) as real == k + 1.0;
    StepOf(k, x, mean, next - mean);
    RoundAlgebra(q, Sum(xs), k, x, mean, next - mean, next);
  }

  lemma StepOf(k: real, x: real, mean: real, step: real)
    requires k >= 0.0 && step == (x - mean) / (k + 1.0)
    ensures x - mean == (k + 1.0) * step
    ensures k * mean + x == (k + 1.0) * (mean + step)
  {
    assert (k + 1.0) * (mean + step) == (k * mean + mean) + (k + 1.0) * step;
  }

  lemma RoundAlgebra(q: real, s: real, k: real, x: real, mean: real, step: real, next: real)
    requires x - mean == (k + 1.0) * step && next == mean + step && s == k * mean
    ensures Quadratic(q, s, k, next) + Square(x - next) == Quadratic(q, s, k, mean) + Gain(x, mean, next)
  {
    Recentre(q, k, mean, step);
    assert x - next == k * step;
    hide Quadratic;
    LastTerm(k, step);
  }

  lemma LastTerm(k: real, step: real)
    ensures Square(k * step) + k * (step * step) == ((k + 1.0) * step) * (k * step)
  {
    assert ((k + 1.0) * step) * (k * step) == (k * step) * (k * step) + step * (k * step);
  }

  lemma Recentre(q: real, k: real, mean: real, step: real)
    ensures Quadratic(q, k * mean, k, mean + step) == Quadratic(q, k * mean, k, mean) + k * (step * step)
  {
    var a, b, c := mean * mean, mean * step, step * step;
    assert Square(mean + step) == a + 2.0 * b + c;
    assert k * (a + 2.0 * b + c) == k * a + 2.0 * (k * b) + k * c;
    assert (k * mean) * (mean + step) == k * a + k * b;
    assert (k * mean) * mean == k * a;
  }

  /** The single pass. */
  method Welford(points: seq<Point<real>>, sqrt: real -> real) returns (newestMag: real, mean: real, m2: real)
    requires IsSqrt(sqrt) && points != []
    ensures var xs := Magnitudes(sqrt, points);
            newestMag == xs[0] && mean == Mean(xs) && m2 == Deviations(xs, mean)
  {
    hide Sum, Deviations, Power, Square, IsSqrt, Mean, IsMean;
    ghost var xs := Magnitudes(sqrt, points);
    mean, m2, newestMag := 0.0, 0.0, 0.0;
    NoMagnitudes(xs);
    var i := 0;
    while i < |points|
      invariant 0 <= i <= |points|
      invariant IsMean(xs[..i], mean)
      invariant m2 == Deviations(xs[..i], mean)
      invariant i > 0 ==> newestMag == xs[0]
    {
      var mag := sqrt(Power(points[i]));
      if i == 0 {
        newestMag := mag;
      }
      WelfordStep(xs[..i], mag, mean);
      var delta := mag - mean;
      assert xs[..i] + [mag] == xs[..i + 1];
      mean := mean + delta / (i + 1) as real;
      m2 := m2 + delta * (mag - mean);
      i := i + 1;
    }
    assert xs[..i] == xs;
    MeanIs(xs, mean);
  }

  /** The newest 256 points at most, and an error below eight; otherwise the single pass gives the two-pass report. */
  method Compute(all: seq<Point<real>>, sqrt: real -> real) returns (r: Option<Report>)
    requires IsSqrt(sqrt)
    ensures |all| < 8 ==> r == None
    ensures |all| >= 8 ==>
              var n := if |all| > 256 then 256 else |all|;
              r == Some(Score(sqrt, Magnitudes(sqrt, all[..n])))
  {
    hide Mean, Deviations, Magnitudes, IsSqrt;
    if |all| < MIN_SAMPLES {
      return None;
    }
    var points := all;
    if |points| > WINDOW {
      points := points[..WINDOW];
    }
    assert points == all[..|points|];
    var newestMag, mean, m2 := Welford(points, sqrt);
    var stddev := sqrt(m2 / |points| as real);
    var z := 0.0;
    if stddev != 0.0 {
      z := (newestMag - mean) / stddev;
    }
    r := Some(Report(z, mean, stddev, |points|, z > 3.0 || z < -3.0));
  }

  lemma NoMagnitudes(xs: seq<real>)
    ensures IsMean(xs[..0], 0.0) && Deviations(xs[..0], 0.0) == 0.0
  {
  }

  lemma MeanIs(xs: seq<real>, mean: real)
    requires xs != [] && IsMean(xs, mean)
    ensures Mean(xs) == mean
  {
    hide Sum;
  }

  // Order does not matter.

  lemma {:induction false} SumSplit(xs: seq<real>, ys: seq<real>, c: real)
    ensures Sum(xs + ys) == Sum(xs) + Sum(ys) && Deviations(xs + ys, c) == Deviations(xs, c) + Deviations(ys, c)
    decreases |ys|
  {
    hide Square;
    if ys == [] {
      assert xs + ys == xs;
    } else {
      assert (xs + ys)[..|xs + ys| - 1] == xs + ys[..|ys| - 1];
      SumSplit(xs, ys[..|ys| - 1], c);
    }
  }

  lemma SumOne(x: real, c: real)
    ensures Sum([x]) == x && Deviations([x], c) == Square(x - c)
  {
    hide Square;
    assert [x][..0] == [];
  }

  /** Any permutation of a window has the same mean and the same deviation; only which point is newest matters. */
  lemma {:induction false} OrderIndependent(xs: seq<real>, ys: seq<real>, c: real)
    requires multiset(xs) == multiset(ys)
    ensures |xs| == |ys| && Sum(xs) == Sum(ys) && Deviations(xs, c) == Deviations(ys, c)
    decreases |xs|
  {
    hide Square, Sum, Deviations;
    assert |multiset(xs)| == |xs| && |multiset(ys)| == |ys|;
    if xs == [] {
      assert ys == [];
    } else {
      var k := |xs| - 1;
      var j := LastElsewhere(xs, ys);
      var x := xs[k];
      assert xs == xs[..k] + [x] && ys == (ys[..j] + [x]) + ys[j + 1..];
      OrderIndependent(xs[..k], ys[..j] + ys[j + 1..], c);
      SumSplit(xs[..k], [x], c);
      SumSplit(ys[..j], [x], c);
      SumSplit(ys[..j] + [x], ys[j + 1..], c);
      SumSplit(ys[..j], ys[j + 1..], c);
    }
  }

  lemma TakenOut(a: seq<real>, x: real, b: seq<real>)
    ensures multiset(a + [x] + b) == multiset(a + b) + multiset{x}
  {
    assert multiset(a + [x] + b) == multiset(a) + multiset{x} + multiset(b);
  }

  lemma LastElsewhere(xs: seq<real>, ys: seq<real>) returns (j: nat)
    requires xs != [] && multiset(xs) == multiset(ys)
    ensures j < |ys| && ys[j] == xs[|xs| - 1] && multiset(ys[..j] + ys[j + 1..]) == multiset(xs[..|xs| - 1])
  {
    var k := |xs| - 1;
    var x := xs[k];
    assert x in multiset(xs);
    j :| 0 <= j < |ys| && ys[j] == x;
    var front, rest := xs[..k], ys[..j] + ys[j + 1..];
    TakenOut(front, x, []);
    TakenOut(ys[..j], x, ys[j + 1..]);
    assert front + [x] + [] == xs && front + [] == front && ys[..j] + [x] + ys[j + 1..] == ys;
    SameRest(multiset(front), multiset(rest), x);
  }

  lemma SameRest(a: multiset<real>, b: multiset<real>, x: real)
    requires a + multiset{x} == b + multiset{x}
    ensures a == b
  {
    assert a == (a + multiset{x}) - multiset{x} && b == (b + multiset{x}) - multiset{x};
  }

  // What a score can be.

  /** The square of a sum is at most the number of terms times the sum of squares. */
  lemma CauchySum(ys: seq<real>)
    ensures Square(Sum(ys)) <= |ys| as real * Deviations(ys, 0.0)
  {
    hide Quadratic, Mean, Square;
    if ys == [] {
      SquareZero();
    } else {
      hide Sum, Deviations;
      var c := Mean(ys);
      Centred(ys);
      Expand(ys, c);
      CauchyAlgebra(Deviations(ys, 0.0), Sum(ys), |ys| as real, c);
    }
  }

  lemma NotNegative(a: real, b: real)
    requires a >= 0.0 && b >= 0.0
    ensures a * b >= 0.0
  {
  }

  lemma CauchyAlgebra(q: real, s: real, n: real, c: real)
    requires n >= 1.0 && s == n * c && Quadratic(q, s, n, c) >= 0.0
    ensures Square(s) <= n * q
  {
    var t := s * c;
    assert n * Square(c) == t by {
      assert n * (c * c) == (n * c) * c;
    }
    assert Quadratic(q, s, n, c) == q - 2.0 * t + t;
    NotNegative(n, q - t);
    assert n * (q - t) == n * q - n * t;
    assert n * t == s * (n * c);
  }

  /** A sum is as many times its mean as there are terms. */
  lemma Centred(xs: seq<real>)
    requires xs != []
    ensures Sum(xs) == |xs| as real * Mean(xs)
  {
    hide Sum;
  }

  /** Every term less `c`. */
  function Shifted(xs: seq<real>, c: real): (ys: seq<real>)
    ensures |ys| == |xs|
  {
    seq(|xs|, i requires 0 <= i < |xs| => xs[i] - c)
  }

  lemma {:induction false} ShiftedSum(xs: seq<real>, c: real)
    ensures Sum(Shifted(xs, c)) == Sum(xs) - |xs| as real * c && Deviations(Shifted(xs, c), 0.0) == Deviations(xs, c)
    decreases |xs|
  {
    hide Square;
    if xs != [] {
      var k := |xs| - 1;
      ShiftedSum(xs[..k], c);
      assert Shifted(xs, c)[..k] == Shifted(xs[..k], c);
      assert (k as real + 1.0) * c == k as real * c + c;
    }
  }

  /** Samuelson's inequality: no magnitude of a window lies further than sqrt(n-1) deviations from its mean. */
  lemma Samuelson(xs: seq<real>)
    requires xs != []
    ensures |xs| as real * Square(xs[0] - Mean(xs)) <= (|xs| - 1) as real * Deviations(xs, Mean(xs))
  {
    hide Square, Sum, Deviations, Mean;
    var m := Mean(xs);
    var rest := xs[1..];
    assert xs == [xs[0]] + rest;
    Centred(xs);
    SumSplit([xs[0]], rest, m);
    SumOne(xs[0], m);
    ShiftedSum(rest, m);
    CauchySum(Shifted(rest, m));
    var n := |xs| as real;
    assert |rest| as real == n - 1.0;
    assert Sum(Shifted(rest, m)) == Sum(rest) - (n - 1.0) * m;
    SamuelsonAlgebra(n, xs[0], m, Sum(rest), Deviations(rest, m));
  }

  lemma SamuelsonAlgebra(n: real, x: real, m: real, s: real, q: real)
    requires x + s == n * m && Square(s - (n - 1.0) * m) <= (n - 1.0) * q
    ensures n * Square(x - m) <= (n - 1.0) * (Square(x - m) + q)
  {
    assert (n - 1.0) * m == n * m - m;
    var d := x - m;
    assert Square(-d) == Square(d);
    assert (n - 1.0) * (Square(d) + q) == n * Square(d) - Square(d) + (n - 1.0) * q;
  }

  lemma RootOf(sqrt: real -> real, v: real)
    requires IsSqrt(sqrt) && v >= 0.0
    ensures sqrt(v) >= 0.0 && Square(sqrt(v)) == v && (sqrt(v) == 0.0 <==> v == 0.0)
  {
    SquareIsZero(sqrt(v));
  }

  lemma SquareOver(d: real, r: real)
    requires r != 0.0
    ensures Square(d / r) * Square(r) == Square(d)
  {
    var t := d / r;
    assert t * r == d;
    assert (t * t) * (r * r) == (t * r) * (t * r);
  }

  lemma PartOf(dev: real, n: real)
    requires dev >= 0.0 && n >= 1.0
    ensures dev / n >= 0.0 && n * (dev / n) == dev
  {
  }

  /** The square of a score is at most one less than the number of samples. */
  lemma ScoreBound(sqrt: real -> real, xs: seq<real>)
    requires IsSqrt(sqrt) && xs != []
    ensures Square(Score(sqrt, xs).zscore) <= (|xs| - 1) as real
  {
    hide Deviations, Sum, Mean, IsSqrt, Square;
    var n := |xs| as real;
    var m := Mean(xs);
    var dev := Deviations(xs, m);
    var v := dev / n;
    PartOf(dev, n);
    RootOf(sqrt, v);
    Samuelson(xs);
    if sqrt(v) != 0.0 {
      SquareOver(xs[0] - m, sqrt(v));
      Divide(n, Square(Score(sqrt, xs).zscore), v, dev);
    } else {
      SquareZero();
    }
  }

  lemma SquareZero()
    ensures Square(0.0) == 0.0
  {
  }

  lemma PositiveProduct(a: real, b: real, p: real)
    requires a > 0.0 && b > 0.0 && p == a * b
    ensures p > 0.0
  {
  }

  lemma Divide(n: real, z2: real, v: real, dev: real)
    requires n >= 1.0 && v > 0.0 && n * v == dev && n * (z2 * v) <= (n - 1.0) * dev
    ensures z2 <= n - 1.0
  {
    assert n * (z2 * v) == z2 * dev by {
      assert n * (z2 * v) == z2 * (n * v);
    }
    assert dev >= v by {
      assert (n - 1.0) * v >= 0.0;
      assert n * v == (n - 1.0) * v + v;
    }
    var over := z2 - (n - 1.0);
    assert over * dev == z2 * dev - (n - 1.0) * dev;
    if over > 0.0 {
      PositiveProduct(over, dev, over * dev);
      assert false;
    }
  }

  /** A window is reported anomalous only if it has at least eleven samples. */
  lemma AnomalousNeedsEleven(sqrt: real -> real, xs: seq<real>)
    requires IsSqrt(sqrt) && xs != [] && Score(sqrt, xs).anomalous
    ensures |xs| >= 11
  {
    hide Deviations, Sum, Mean, IsSqrt;
    ScoreBound(sqrt, xs);
    AboveThree(Score(sqrt, xs).zscore);
  }

  lemma AboveThree(z: real)
    requires z > 3.0 || z < -3.0
    ensures Square(z) > 9.0
  {
    if z > 3.0 {
      assert z * z > 3.0 * z;
    } else {
      assert (-z) * (-z) > 3.0 * (-z);
    }
  }

  // The bound is sharp.

  function Still(n: nat): (xs: seq<real>)
    ensures |xs| == n
  {
    seq(n, _ => 0.0)
  }

  /** One point of magnitude one, newest, among points at rest. */
  function OneOutlier(n: nat): (xs: seq<real>)
    requires n >= 1
    ensures |xs| == n
  {
    [1.0] + Still(n - 1)
  }

  lemma {:induction false} StillSums(n: nat, c: real)
    ensures Sum(Still(n)) == 0.0 && Deviations(Still(n), c) == n as real * Square(c)
    decreases n
  {
    if n > 0 {
      assert Still(n)[..n - 1] == Still(n - 1);
      StillSums(n - 1, c);
      assert Square(0.0 - c) == Square(c);
      hide Square;
      assert (n - 1) as real * Square(c) + Square(c) == n as real * Square(c);
    }
  }

  /** The bound is reached by every window size: one outlier has a score of exactly sqrt(n-1). So seventeen samples can
      score 4, and a window of any size from eleven on can be anomalous. */
  lemma BoundIsReached(sqrt: real -> real, n: nat)
    requires IsSqrt(sqrt) && n >= 2
    ensures var z := Score(sqrt, OneOutlier(n)).zscore;
            && z > 0.0 && Square(z) == (n - 1) as real
            && (n == 17 ==> z == 4.0)
            && (Score(sqrt, OneOutlier(n)).anomalous <==> n >= 11)
  {
    hide Deviations, Sum, IsSqrt, Square;
    var xs := OneOutlier(n);
    var k := n as real;
    var m := 1.0 / k;
    SumSplit([1.0], Still(n - 1), m);
    SumOne(1.0, m);
    StillSums(n - 1, m);
    assert Mean(xs) == m;
    hide Mean, Still;
    var dev := Deviations(xs, m);
    OutlierSpread(k, m, dev);
    var v := dev / k;
    PartOf(dev, k);
    RootOf(sqrt, v);
    SquareOver(1.0 - m, sqrt(v));
    var z := (1.0 - m) / sqrt(v);
    assert Score(sqrt, xs).zscore == z;
    OutlierScore(k, m, v, Square(z));
    Positive(1.0 - m, sqrt(v));
    Thresholds(z, k);
  }

  /** The points of such a window: one with acceleration one along x, the others with none. */
  function OutlierPoints(n: nat): (points: seq<Point<real>>)
    requires n >= 1
    ensures |points| == n
  {
    [Point(1, 0.0, 0.0, 0.0, false, 1.0, 0.0, 0.0)] + seq(n - 1, _ => Point(1, 0.0, 0.0, 0.0, false, 0.0, 0.0, 0.0))
  }

  lemma OutlierMagnitudes(sqrt: real -> real, n: nat)
    requires IsSqrt(sqrt) && n >= 1
    ensures Magnitudes(sqrt, OutlierPoints(n)) == OneOutlier(n)
  {
    RootOf(sqrt, 0.0);
    RootOf(sqrt, 1.0);
    UnitRoot(sqrt(1.0));
    var points := OutlierPoints(n);
    assert Power(points[0]) == 1.0;
    forall i | 0 < i < n ensures Power(points[i]) == 0.0 {}
  }

  lemma UnitRoot(r: real)
    requires r >= 0.0 && Square(r) == 1.0
    ensures r == 1.0
  {
    if r > 1.0 {
      PositiveProduct(r - 1.0, r + 1.0, Square(r) - 1.0);
    } else if r < 1.0 {
      PositiveProduct(1.0 - r, r + 1.0, 1.0 - Square(r));
    }
  }

  lemma Positive(a: real, b: real)
    requires a > 0.0 && b > 0.0
    ensures a / b > 0.0
  {
  }

  lemma OutlierSpread(k: real, m: real, dev: real)
    requires k >= 2.0 && m == 1.0 / k && dev == Square(1.0 - m) + (k - 1.0) * Square(m)
    ensures 0.0 < m < 1.0 && k * m == 1.0 && dev == 1.0 - m && dev / k > 0.0
  {
    assert k * m == 1.0;
    assert (k - 1.0) * (m * m) == (k * m) * m - m * m;
    assert (1.0 - m) * (1.0 - m) == 1.0 - 2.0 * m + m * m;
    assert m < 1.0;
    Positive(1.0 - m, k);
  }

  lemma OutlierScore(k: real, m: real, v: real, w: real)
    requires k >= 2.0 && k * m == 1.0 && 0.0 < m < 1.0 && k * v == 1.0 - m && w * v == Square(1.0 - m)
    ensures w == k - 1.0
  {
    var e := 1.0 - m;
    assert k * e == k - 1.0;
    assert w * (k * v) == k * (w * v);
    assert w * e == k * (e * e);
    assert k * (e * e) == (k * e) * e;
    assert (w - (k - 1.0)) * e == 0.0;
  }

  lemma Thresholds(z: real, k: real)
    requires z > 0.0 && Square(z) == k - 1.0
    ensures k == 17.0 ==> z == 4.0
    ensures z > 3.0 <==> k > 10.0
  {
    assert (z - 4.0) * (z + 4.0) == z * z - 16.0;
    assert (z - 3.0) * (z + 3.0) == z * z - 9.0;
  }

  lemma {:induction false} NoDeviation(xs: seq<real>, c: real)
    ensures Deviations(xs, c) == 0.0 <==> forall i | 0 <= i < |xs| :: xs[i] == c
    decreases |xs|
  {
    if xs != [] {
      NoDeviation(xs[..|xs| - 1], c);
      SquareIsZero(xs[|xs| - 1] - c);
      hide Square;
    }
  }

  lemma SquareIsZero(x: real)
    ensures Square(x) == 0.0 <==> x == 0.0
  {
    if x > 0.0 {
      PositiveProduct(x, x, Square(x));
    } else if x < 0.0 {
      PositiveProduct(-x, -x, Square(x));
    } else {
      SquareZero();
    }
  }

  /** The deviation is zero exactly when every magnitude equals the mean; such a window scores zero. */
  lemma ZeroSpread(sqrt: real -> real, xs: seq<real>)
    requires IsSqrt(sqrt) && xs != []
    ensures Score(sqrt, xs).stddev == 0.0 <==> forall i | 0 <= i < |xs| :: xs[i] == Mean(xs)
    ensures Score(sqrt, xs).stddev == 0.0 ==> Score(sqrt, xs).zscore == 0.0 && !Score(sqrt, xs).anomalous
  {
    hide Deviations, Sum, Mean, Square, IsSqrt;
    var m := Mean(xs);
    var n := |xs| as real;
    var dev := Deviations(xs, m);
    NoDeviation(xs, m);
    PartOf(dev, n);
    RootOf(sqrt, dev / n);
  }

  /** What a report says, without the order in which it is computed: how many magnitudes there are, their mean and their
      deviation, and how many deviations the newest lies from the mean. */
  lemma ReportMeans(sqrt: real -> real, xs: seq<real>)
    requires IsSqrt(sqrt) && xs != []
    ensures var r := Score(sqrt, xs); var n := |xs| as real;
            && r.samples == |xs| && n * r.mean == Sum(xs)
            && r.stddev >= 0.0 && n * Square(r.stddev) == Deviations(xs, r.mean)
            && (if r.stddev == 0.0 then r.zscore == 0.0 else r.zscore * r.stddev == xs[0] - r.mean)
  {
    hide Deviations, Sum, Mean, IsSqrt, Square;
    Centred(xs);
    var n := |xs| as real;
    var dev := Deviations(xs, Mean(xs));
    PartOf(dev, n);
    RootOf(sqrt, dev / n);
  }

  lemma BeyondThree(z: real)
    ensures z > 3.0 || z < -3.0 <==> Square(z) > 9.0
  {
    assert (z - 3.0) * (z + 3.0) == z * z - 9.0;
  }

  /** A window is anomalous exactly when the newest magnitude is more than three deviations from the mean, to either side:
      both sides squared, and without division or root. */
  lemma AnomalousExactly(sqrt: real -> real, xs: seq<real>)
    requires IsSqrt(sqrt) && xs != []
    ensures Score(sqrt, xs).anomalous <==> |xs| as real * Square(xs[0] - Mean(xs)) > 9.0 * Deviations(xs, Mean(xs))
  {
    hide Deviations, Sum, Mean, IsSqrt, Square;
    var n := |xs| as real;
    var m := Mean(xs);
    var dev := Deviations(xs, m);
    var v := dev / n;
    PartOf(dev, n);
    RootOf(sqrt, v);
    ZeroSpread(sqrt, xs);
    if sqrt(v) == 0.0 {
      assert xs[0] == m;
      SquareZero();
    } else {
      var z := Score(sqrt, xs).zscore;
      BeyondThree(z);
      SquareOver(xs[0] - m, sqrt(v));
      ScaledBy(n, Square(z), v, dev);
    }
  }

  lemma ScaledBy(n: real, z2: real, v: real, dev: real)
    requires n >= 1.0 && v >= 0.0 && dev > 0.0 && n * v == dev
    ensures n * (z2 * v) > 9.0 * dev <==> z2 > 9.0
  {
    assert n * (z2 * v) == z2 * (n * v);
    assert z2 * dev - 9.0 * dev == (z2 - 9.0) * dev;
    if z2 > 9.0 {
      PositiveProduct(z2 - 9.0, dev, (z2 - 9.0) * dev);
    } else {
      NotNegative(9.0 - z2, dev);
      assert (9.0 - z2) * dev == -((z2 - 9.0) * dev);
    }
  }

  // Both directions.

  /** Every magnitude as far on the other side of the middle. */
  function Mirrored(xs: seq<real>, c: real): (ys: seq<real>)
    ensures |ys| == |xs|
  {
    seq(|xs|, i requires 0 <= i < |xs| => c - xs[i])
  }

  lemma {:induction false} MirroredSums(xs: seq<real>, c: real, m: real)
    ensures Sum(Mirrored(xs, c)) == |xs| as real * c - Sum(xs)
    ensures Deviations(Mirrored(xs, c), c - m) == Deviations(xs, m)
    decreases |xs|
  {
    if xs != [] {
      var k := |xs| - 1;
      MirroredSums(xs[..k], c, m);
      assert Mirrored(xs, c)[..k] == Mirrored(xs[..k], c);
      assert Square((c - xs[k]) - (c - m)) == Square(xs[k] - m);
      hide Square;
      assert (k as real + 1.0) * c == k as real * c + c;
    }
  }

  /** The score knows both directions: mirroring a window turns the sign of its score and nothing else. */
  lemma MirroredScore(sqrt: real -> real, xs: seq<real>, c: real)
    requires IsSqrt(sqrt) && xs != []
    ensures var r, t := Score(sqrt, xs), Score(sqrt, Mirrored(xs, c));
            t.zscore == -r.zscore && t.stddev == r.stddev && t.samples == r.samples && t.anomalous == r.anomalous
  {
    hide Deviations, Sum, IsSqrt;
    var n := |xs| as real;
    MirroredSums(xs, c, Mean(xs));
    MirroredMean(n, c, Sum(xs));
    var ys := Mirrored(xs, c);
    assert Mean(ys) == c - Mean(xs);
    assert Deviations(ys, Mean(ys)) == Deviations(xs, Mean(xs));
    assert ys[0] - Mean(ys) == -(xs[0] - Mean(xs));
    hide Mean;
    var r := Score(sqrt, xs);
    if r.stddev != 0.0 {
      Opposite(xs[0] - Mean(xs), r.stddev);
    }
  }

  lemma MirroredMean(n: real, c: real, s: real)
    requires n >= 1.0
    ensures (n * c - s) / n == c - s / n
  {
    assert n * (c - s / n) == n * c - s;
  }

  lemma Opposite(d: real, r: real)
    requires r != 0.0
    ensures (-d) / r == -(d / r)
  {
  }

  /** The newest point at rest among points of magnitude one: anomalous below the mean from eleven samples on. */
  lemma DropIsReached(sqrt: real -> real, n: nat)
    requires IsSqrt(sqrt) && n >= 2
    ensures var xs := [0.0] + seq(n - 1, _ => 1.0); var z := Score(sqrt, xs).zscore;
            && z < 0.0 && Square(z) == (n - 1) as real
            && (n == 17 ==> z == -4.0)
            && (Score(sqrt, xs).anomalous <==> n >= 11)
  {
    hide Score, IsSqrt, Sum, Deviations;
    var xs := [0.0] + seq(n - 1, _ => 1.0);
    assert xs == Mirrored(OneOutlier(n), 1.0);
    BoundIsReached(sqrt, n);
    MirroredScore(sqrt, OneOutlier(n), 1.0);
    var z := Score(sqrt, OneOutlier(n)).zscore;
    assert Square(-z) == Square(z);
  }

  // Magnitudes.

  /** All three axes count alike: the square of a magnitude is the sum of the squares along them, and along one axis the
      magnitude is the absolute value. */
  lemma MagnitudeOfAxes(sqrt: real -> real, p: Point<real>)
    requires IsSqrt(sqrt)
    ensures Power(p) == Power(p.(ay := 0.0, az := 0.0)) + Power(p.(ax := 0.0, az := 0.0)) + Power(p.(ax := 0.0, ay := 0.0))
    ensures p.ay == p.az == 0.0 ==> sqrt(Power(p)) == if p.ax < 0.0 then -p.ax else p.ax
    ensures p.ax == p.az == 0.0 ==> sqrt(Power(p)) == if p.ay < 0.0 then -p.ay else p.ay
    ensures p.ax == p.ay == 0.0 ==> sqrt(Power(p)) == if p.az < 0.0 then -p.az else p.az
  {
    var r := sqrt(Power(p));
    assert r >= 0.0 && r * r == Power(p);
    if p.ay == p.az == 0.0 {
      SameRoot(r, p.ax);
    }
    if p.ax == p.az == 0.0 {
      SameRoot(r, p.ay);
    }
    if p.ax == p.ay == 0.0 {
      SameRoot(r, p.az);
    }
  }

  lemma SameRoot(r: real, a: real)
    requires r >= 0.0 && r * r == a * a
    ensures r == if a < 0.0 then -a else a
  {
    var b := if a < 0.0 then -a else a;
    if r > b {
      PositiveProduct(r - b, r + b, r * r - b * b);
    } else if r < b {
      PositiveProduct(b - r, r + b, b * b - r * r);
    }
  }
}
