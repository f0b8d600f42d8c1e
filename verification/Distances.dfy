/** Squared Euclidean distance over exact reals, and sums of it. */
module Distances {

  type Point = seq<real>

  function Sq(x: real): (r: real)
    ensures r >= 0.0
  {
    x * x
  }

  /** Squared distance over the first `d` coordinates. */
  function Dist(a: Point, b: Point, d: nat): (r: real)
    requires d <= |a| && d <= |b|
    ensures r >= 0.0
  {
    if d == 0 then 0.0 else Dist(a, b, d - 1) + Sq(a[d - 1] - b[d - 1])
  }

  /** Sum of the distances of the points to one centre. */
  ghost function SumDist(points: seq<Point>, c: Point, d: nat): (r: real)
    requires (forall i :: 0 <= i < |points| ==> d <= |points[i]|) && d <= |c|
    ensures r >= 0.0
  {
    if points == [] then 0.0
    else SumDist(points[..|points| - 1], c, d) + Dist(points[|points| - 1], c, d)
  }

  ghost function ColumnSum(points: seq<Point>, j: nat): real
    requires forall i :: 0 <= i < |points| ==> j < |points[i]|
  {
    if points == [] then 0.0 else ColumnSum(points[..|points| - 1], j) + points[|points| - 1][j]
  }

  /** Sum of the squared differences of column `j` to `c`. */
  ghost function ColumnSq(points: seq<Point>, j: nat, c: real): real
    requires forall i :: 0 <= i < |points| ==> j < |points[i]|
  {
    if points == [] then 0.0 else ColumnSq(points[..|points| - 1], j, c) + Sq(points[|points| - 1][j] - c)
  }

  lemma {:induction false} SumDistByColumn(points: seq<Point>, c: Point, d: nat)
    requires 0 < d <= |c| && forall i :: 0 <= i < |points| ==> d <= |points[i]|
    ensures SumDist(points, c, d) == SumDist(points, c, d - 1) + ColumnSq(points, d - 1, c[d - 1])
    decreases |points|
  {
    if points != [] {
      SumDistByColumn(points[..|points| - 1], c, d);
    }
  }

  lemma {:induction false} SumDistNoColumns(points: seq<Point>, c: Point)
    ensures SumDist(points, c, 0) == 0.0
    decreases |points|
  {
    if points != [] {
      SumDistNoColumns(points[..|points| - 1], c);
    }
  }

  /** How the squares of `n` values of sum `s` change when their reference moves from `m` to `c`. */
  ghost function Shift(s: real, n: real, c: real, m: real): real {
    2.0 * (m - c) * s + n * (c * c - m * m)
  }

  lemma {:induction false} ShiftAdd(s: real, n: real, c: real, m: real, x: real)
    ensures Shift(s + x, n + 1.0, c, m) == Shift(s, n, c, m) + Sq(x - c) - Sq(x - m)
  {
    SquareDiff(x, c, m);
    assert 2.0 * (m - c) * (s + x) == 2.0 * (m - c) * s + 2.0 * (m - c) * x;
    assert (n + 1.0) * (c * c - m * m) == n * (c * c - m * m) + (c * c - m * m);
  }

  lemma {:induction false} SquareDiff(x: real, c: real, m: real)
    ensures Sq(x - c) - Sq(x - m) == 2.0 * (m - c) * x + (c * c - m * m)
  {
    assert Sq(x - c) == x * x - 2.0 * x * c + c * c;
    assert Sq(x - m) == x * x - 2.0 * x * m + m * m;
  }

  lemma {:induction false} ColumnShift(points: seq<Point>, j: nat, c: real, m: real)
    requires forall i :: 0 <= i < |points| ==> j < |points[i]|
    ensures ColumnSq(points, j, c) - ColumnSq(points, j, m) == Shift(ColumnSum(points, j), |points| as real, c, m)
    decreases |points|
  {
    if points == [] {
      ShiftNothing(c, m);
    } else {
      hide Shift, Sq;
      var n := |points| - 1;
      ColumnShift(points[..n], j, c, m);
      ShiftAdd(ColumnSum(points[..n], j), n as real, c, m, points[n][j]);
    }
  }

  lemma {:induction false} ShiftNothing(c: real, m: real)
    ensures Shift(0.0, 0.0, c, m) == 0.0
  {
  }

  /** A column's squares about any value exceed those about its mean by the squared gap, once per point. */
  lemma {:induction false} ColumnMean(points: seq<Point>, j: nat, c: real, m: real)
    requires forall i :: 0 <= i < |points| ==> j < |points[i]|
    requires ColumnSum(points, j) == Scaled(|points|, m)
    ensures ColumnSq(points, j, c) == ColumnSq(points, j, m) + Scaled(|points|, Sq(c - m))
  {
    hide Shift, ColumnSq, ColumnSum, Scaled, Sq;
    ColumnShift(points, j, c, m);
    MeanGap(|points|, c, m);
  }

  ghost function Scaled(n: nat, m: real): real {
    (n as real) * m
  }

  lemma {:induction false} MeanGap(k: nat, c: real, m: real)
    ensures Shift(Scaled(k, m), k as real, c, m) == Scaled(k, Sq(c - m))
  {
    var n, g := k as real, c - m;
    assert n * (g * g) == n * (c * c) - 2.0 * (n * (c * m)) + n * (m * m);
    assert 2.0 * (m - c) * (n * m) == 2.0 * (n * (m * m)) - 2.0 * (n * (c * m));
    assert n * (c * c - m * m) == n * (c * c) - n * (m * m);
  }

  lemma {:induction false} ScaledSum(k: nat, a: real, b: real)
    ensures Scaled(k, a + b) == Scaled(k, a) + Scaled(k, b)
    ensures Scaled(k, 0.0) == 0.0 && (a >= 0.0 ==> Scaled(k, a) >= 0.0)
    ensures k >= 1 && Scaled(k, a) < Scaled(k, b) ==> a < b
  {
    var n := k as real;
    assert n * (a + b) == n * a + n * b;
    if k >= 1 && a >= b {
      assert n * (a - b) >= 0.0 && n * (a - b) == n * a - n * b;
    }
  }

  ghost predicate IsMean(points: seq<Point>, m: Point, d: nat)
    requires forall i :: 0 <= i < |points| ==> d <= |points[i]|
  {
    |m| == d && forall j :: 0 <= j < d ==> ColumnSum(points, j) == Scaled(|points|, m[j])
  }

  /** The sum of squared distances to any centre is that to the mean plus, once per point, the distance of
      the centre from the mean. */
  lemma {:induction false} MeanDistance(points: seq<Point>, m: Point, c: Point, d: nat, e: nat)
    requires forall i :: 0 <= i < |points| ==> d <= |points[i]|
    requires IsMean(points, m, d) && e <= d <= |c|
    ensures SumDist(points, c, e) == SumDist(points, m, e) + Scaled(|points|, Dist(c, m, e))
    decreases e
  {
    hide Sq, Scaled, ColumnSq, ColumnSum, SumDist;
    if e == 0 {
      SumDistNoColumns(points, m);
      SumDistNoColumns(points, c);
      ScaledSum(|points|, 0.0, 0.0);
    } else {
      MeanDistance(points, m, c, d, e - 1);
      SumDistByColumn(points, m, e);
      SumDistByColumn(points, c, e);
      ColumnMean(points, e - 1, c[e - 1], m[e - 1]);
      ScaledSum(|points|, Dist(c, m, e - 1), Sq(c[e - 1] - m[e - 1]));
    }
  }

  /** No centre has a smaller sum of squared distances than the mean. */
  lemma {:induction false} MeanIsBest(points: seq<Point>, m: Point, c: Point, d: nat)
    requires forall i :: 0 <= i < |points| ==> d <= |points[i]|
    requires IsMean(points, m, d) && d <= |c|
    ensures SumDist(points, m, d) <= SumDist(points, c, d)
  {
    hide Scaled, Dist, SumDist;
    MeanDistance(points, m, c, d, d);
    ScaledSum(|points|, Dist(c, m, d), 0.0);
  }

  lemma {:induction false} SumBelow(points: seq<Point>, c: Point, d: nat, bound: real)
    requires points != [] && d <= |c| && forall i :: 0 <= i < |points| ==> d <= |points[i]| && Dist(points[i], c, d) < bound
    ensures SumDist(points, c, d) < Scaled(|points|, bound)
    decreases |points|
  {
    hide Dist;
    var n := |points| - 1;
    assert Scaled(n + 1, bound) == Scaled(n, bound) + bound;
    if n > 0 {
      SumBelow(points[..n], c, d, bound);
    } else {
      assert points[..0] == [] && SumDist(points[..0], c, d) == 0.0;
    }
  }

  /** A mean is no farther from a point than the farthest of its points. */
  lemma {:induction false} MeanWithin(points: seq<Point>, m: Point, x: Point, d: nat, bound: real)
    requires points != [] && d <= |x| && forall i :: 0 <= i < |points| ==> d <= |points[i]| && Dist(points[i], x, d) < bound
    requires IsMean(points, m, d)
    ensures Dist(x, m, d) < bound
  {
    hide Dist, Scaled, SumDist;
    SumBelow(points, x, d, bound);
    MeanDistance(points, m, x, d, d);
    ScaledSum(|points|, Dist(x, m, d), bound);
  }
}
