/**
 Lloyd's k-means as product quantization trains its codebooks, over exact reals and squared L2.
 */
module KMeans {
  import opened Distances

  datatype Cluster = Cluster(center: Point, points: seq<Point>)

  // ----- cost of a set of centres

  /** Distance to the nearest of the first `k` centres. */
  ghost function MinDist(x: Point, cs: seq<Point>, d: nat, k: nat): (r: real)
    requires 1 <= k <= |cs| && d <= |x| && forall j :: 0 <= j < |cs| ==> d <= |cs[j]|
    ensures r >= 0.0
    decreases k
  {
    if k == 1 then Dist(x, cs[0], d)
    else
      var rest := MinDist(x, cs, d, k - 1);
      if Dist(x, cs[k - 1], d) < rest then Dist(x, cs[k - 1], d) else rest
  }

  ghost predicate Shaped(xs: seq<Point>, cs: seq<Point>, d: nat) {
    && |cs| >= 1
    && (forall i :: 0 <= i < |xs| ==> |xs[i]| == d)
    && (forall j :: 0 <= j < |cs| ==> |cs[j]| == d)
  }

  /** The objective: each point's distance to its nearest centre, summed. */
  ghost function Cost(xs: seq<Point>, cs: seq<Point>, d: nat): (r: real)
    requires Shaped(xs, cs, d)
    ensures r >= 0.0
  {
    if xs == [] then 0.0
    else Cost(xs[..|xs| - 1], cs, d) + MinDist(xs[|xs| - 1], cs, d, |cs|)
  }

  ghost predicate IsAssignment(xs: seq<Point>, asg: seq<nat>, k: nat) {
    |asg| == |xs| && forall i :: 0 <= i < |asg| ==> asg[i] < k
  }

  ghost function AssignedCost(xs: seq<Point>, asg: seq<nat>, cs: seq<Point>, d: nat): real
    requires Shaped(xs, cs, d) && IsAssignment(xs, asg, |cs|)
  {
    if xs == [] then 0.0
    else
      var n := |xs| - 1;
      AssignedCost(xs[..n], asg[..n], cs, d) + Dist(xs[n], cs[asg[n]], d)
  }

  /** Centre j is the first of the nearest ones. */
  ghost predicate NearestTo(x: Point, cs: seq<Point>, d: nat, j: nat)
    requires d <= |x| && forall i :: 0 <= i < |cs| ==> d <= |cs[i]|
  {
    && j < |cs|
    && (forall i :: 0 <= i < |cs| ==> Dist(x, cs[j], d) <= Dist(x, cs[i], d))
    && (forall i :: 0 <= i < j ==> Dist(x, cs[j], d) < Dist(x, cs[i], d))
  }

  lemma {:induction false} MinDistBelow(x: Point, cs: seq<Point>, d: nat, k: nat, j: nat)
    requires 1 <= k <= |cs| && d <= |x| && (forall i :: 0 <= i < |cs| ==> d <= |cs[i]|) && j < k
    ensures MinDist(x, cs, d, k) <= Dist(x, cs[j], d)
    decreases k
  {
    hide Dist;
    if j < k - 1 {
      MinDistBelow(x, cs, d, k - 1, j);
    }
  }

  lemma {:induction false} MinDistAttained(x: Point, cs: seq<Point>, d: nat, k: nat) returns (j: nat)
    requires 1 <= k <= |cs| && d <= |x| && forall i :: 0 <= i < |cs| ==> d <= |cs[i]|
    ensures j < k && MinDist(x, cs, d, k) == Dist(x, cs[j], d)
    decreases k
  {
    hide Dist;
    if k == 1 || Dist(x, cs[k - 1], d) < MinDist(x, cs, d, k - 1) {
      j := k - 1;
    } else {
      j := MinDistAttained(x, cs, d, k - 1);
    }
  }

  /** No assignment costs less than the objective, and one of nearest centres costs exactly that. */
  lemma {:induction false} CostIsLeast(xs: seq<Point>, asg: seq<nat>, cs: seq<Point>, d: nat)
    requires Shaped(xs, cs, d) && IsAssignment(xs, asg, |cs|)
    ensures Cost(xs, cs, d) <= AssignedCost(xs, asg, cs, d)
    ensures (forall i :: 0 <= i < |xs| ==> NearestTo(xs[i], cs, d, asg[i])) ==>
              Cost(xs, cs, d) == AssignedCost(xs, asg, cs, d)
    decreases |xs|
  {
    hide Dist, MinDist;
    if xs != [] {
      var n := |xs| - 1;
      CostIsLeast(xs[..n], asg[..n], cs, d);
      MinDistBelow(xs[n], cs, d, |cs|, asg[n]);
      var j := MinDistAttained(xs[n], cs, d, |cs|);
      assert NearestTo(xs[n], cs, d, asg[n]) ==> Dist(xs[n], cs[asg[n]], d) <= Dist(xs[n], cs[j], d);
    }
  }

  lemma {:induction false} CostBoundsPoint(xs: seq<Point>, cs: seq<Point>, d: nat, i: nat)
    requires Shaped(xs, cs, d) && i < |xs|
    ensures MinDist(xs[i], cs, d, |cs|) <= Cost(xs, cs, d)
    decreases |xs|
  {
    hide MinDist;
    var n := |xs| - 1;
    if i < n {
      CostBoundsPoint(xs[..n], cs, d, i);
    }
  }

  // ----- points of a cluster

  ghost function PointsOf(xs: seq<Point>, asg: seq<nat>, j: nat): seq<Point>
    requires |asg| == |xs|
  {
    if xs == [] then []
    else
      var n := |xs| - 1;
      PointsOf(xs[..n], asg[..n], j) + if asg[n] == j then [xs[n]] else []
  }

  lemma {:induction false} PointsOfDim(xs: seq<Point>, asg: seq<nat>, j: nat, d: nat)
    requires |asg| == |xs| && forall i :: 0 <= i < |xs| ==> |xs[i]| == d
    ensures forall i :: 0 <= i < |PointsOf(xs, asg, j)| ==> |PointsOf(xs, asg, j)[i]| == d
    decreases |xs|
  {
    if xs != [] {
      PointsOfDim(xs[..|xs| - 1], asg[..|xs| - 1], j, d);
    }
  }

  /** Every point is in exactly one cluster: the cluster sizes add up. */
  ghost function ClusterSizes(xs: seq<Point>, asg: seq<nat>, k: nat): nat
    requires |asg| == |xs|
  {
    if k == 0 then 0 else ClusterSizes(xs, asg, k - 1) + |PointsOf(xs, asg, k - 1)|
  }

  lemma {:induction false} ClusterSizesSnoc(xs: seq<Point>, asg: seq<nat>, k: nat)
    requires |asg| == |xs| && xs != []
    ensures var n := |xs| - 1;
      ClusterSizes(xs, asg, k) == ClusterSizes(xs[..n], asg[..n], k) + if asg[n] < k then 1 else 0
    decreases k
  {
    if k > 0 {
      ClusterSizesSnoc(xs, asg, k - 1);
    }
  }

  lemma {:induction false} ClustersPartition(xs: seq<Point>, asg: seq<nat>, k: nat)
    requires IsAssignment(xs, asg, k)
    ensures ClusterSizes(xs, asg, k) == |xs|
    decreases |xs|
  {
    if xs == [] {
      NoPoints(asg, k);
    } else {
      var n := |xs| - 1;
      ClustersPartition(xs[..n], asg[..n], k);
      ClusterSizesSnoc(xs, asg, k);
    }
  }

  lemma {:induction false} NoPoints(asg: seq<nat>, k: nat)
    requires asg == []
    ensures ClusterSizes([], asg, k) == 0
    decreases k
  {
    if k > 0 {
      NoPoints(asg, k - 1);
    }
  }

  /** Moving one centre changes the assigned cost by that cluster's share only. */
  lemma {:induction false} MoveCentre(xs: seq<Point>, asg: seq<nat>, cs: seq<Point>, d: nat, j: nat, c: Point)
    requires Shaped(xs, cs, d) && IsAssignment(xs, asg, |cs|) && j < |cs| && |c| == d
    ensures forall i :: 0 <= i < |PointsOf(xs, asg, j)| ==> |PointsOf(xs, asg, j)[i]| == d
    ensures AssignedCost(xs, asg, cs[j := c], d) + SumDist(PointsOf(xs, asg, j), cs[j], d)
         == AssignedCost(xs, asg, cs, d) + SumDist(PointsOf(xs, asg, j), c, d)
    decreases |xs|
  {
    hide Dist;
    PointsOfDim(xs, asg, j, d);
    if xs != [] {
      var n := |xs| - 1;
      MoveCentre(xs[..n], asg[..n], cs, d, j, c);
      if asg[n] == j {
        var before := PointsOf(xs[..n], asg[..n], j);
        assert (before + [xs[n]])[..|before|] == before;
      } else {
        assert PointsOf(xs, asg, j) == PointsOf(xs[..n], asg[..n], j);
      }
    }
  }

  /** `cs'` holds the means of the clusters, and the old centre where a cluster is empty. */
  ghost predicate Updated(xs: seq<Point>, asg: seq<nat>, cs: seq<Point>, cs': seq<Point>, d: nat, k: nat)
    requires |asg| == |xs| && forall i :: 0 <= i < |xs| ==> |xs[i]| == d
  {
    && |cs'| == |cs| && k <= |cs|
    && (forall j :: k <= j < |cs| ==> cs'[j] == cs[j])
    && forall j :: 0 <= j < k ==> UpdatedCentre(PointsOf(xs, asg, j), cs[j], cs'[j], d)
  }

  ghost predicate UpdatedCentre(points: seq<Point>, c: Point, c': Point, d: nat) {
    if points == [] then c' == c
    else (forall i :: 0 <= i < |points| ==> d <= |points[i]|) && IsMean(points, c', d)
  }

  lemma {:induction false} UpdateLowersAssigned(xs: seq<Point>, asg: seq<nat>, cs: seq<Point>, cs': seq<Point>, d: nat, k: nat)
    requires Shaped(xs, cs, d) && IsAssignment(xs, asg, |cs|) && Updated(xs, asg, cs, cs', d, k)
    ensures Shaped(xs, cs', d) && AssignedCost(xs, asg, cs', d) <= AssignedCost(xs, asg, cs, d)
    decreases k
  {
    hide AssignedCost, SumDist, IsMean, PointsOf;
    if k == 0 {
      assert cs' == cs;
    } else {
      var j := k - 1;
      var mid := cs'[j := cs[j]];
      UpdateLowersAssigned(xs, asg, cs, mid, d, j);
      assert UpdatedCentre(PointsOf(xs, asg, j), cs[j], cs'[j], d);
      assert mid[j := cs'[j]] == cs';
      if PointsOf(xs, asg, j) == [] {
        assert mid == cs';
      } else {
        MeanHasDim(PointsOf(xs, asg, j), cs'[j], d);
        MoveCentre(xs, asg, mid, d, j, cs'[j]);
        MeanIsBest(PointsOf(xs, asg, j), cs'[j], cs[j], d);
      }
    }
  }

  lemma {:induction false} MeanHasDim(points: seq<Point>, m: Point, d: nat)
    requires (forall i :: 0 <= i < |points| ==> d <= |points[i]|) && IsMean(points, m, d)
    ensures |m| == d
  {
  }

  /** One iteration never raises the objective, empty clusters included. */
  lemma {:induction false} IterationNeverRaisesCost(xs: seq<Point>, asg: seq<nat>, cs: seq<Point>, cs': seq<Point>, d: nat)
    requires Shaped(xs, cs, d) && IsAssignment(xs, asg, |cs|)
    requires forall i :: 0 <= i < |xs| ==> NearestTo(xs[i], cs, d, asg[i])
    requires Updated(xs, asg, cs, cs', d, |cs|)
    ensures Shaped(xs, cs', d) && Cost(xs, cs', d) <= Cost(xs, cs, d)
  {
    hide Cost, AssignedCost, PointsOf;
    UpdateLowersAssigned(xs, asg, cs, cs', d, |cs|);
    CostIsLeast(xs, asg, cs, d);
    CostIsLeast(xs, asg, cs', d);
  }

  // ----- the code

  ghost function Centers(clusters: seq<Cluster>): seq<Point> {
    seq(|clusters|, j requires 0 <= j < |clusters| => clusters[j].center)
  }

  /** The part of every vector one codebook is trained on. */
  ghost function Subvectors(dataset: seq<Point>, start: nat, d: nat): seq<Point>
    requires forall i :: 0 <= i < |dataset| ==> start + d <= |dataset[i]|
  {
    seq(|dataset|, i requires 0 <= i < |dataset| => dataset[i][start..start + d])
  }

  /** The inner loop of assign_to_clusters. The index found for the previous point is kept when no
      centre is closer than FLT_MAX. */
  method NearestCluster(x: Point, clusters: array<Cluster>, d: nat, fltMax: real, previous: nat) returns (best: nat)
    requires |x| == d && previous < clusters.Length
    requires forall j :: 0 <= j < clusters.Length ==> |clusters[j].center| == d
    ensures best < clusters.Length
    ensures (exists j :: 0 <= j < clusters.Length && Dist(x, clusters[j].center, d) < fltMax) ==>
              NearestTo(x, Centers(clusters[..]), d, best)
    ensures (forall j :: 0 <= j < clusters.Length ==> Dist(x, clusters[j].center, d) >= fltMax) ==> best == previous
  {
    hide Dist;
    best := previous;
    var minDist := fltMax;
    for j := 0 to clusters.Length
      invariant best < clusters.Length && minDist <= fltMax
      invariant forall i :: 0 <= i < j ==> minDist <= Dist(x, clusters[i].center, d)
      invariant if minDist == fltMax then best == previous
                else best < j && Dist(x, clusters[best].center, d) == minDist
                     && forall i :: 0 <= i < best ==> minDist < Dist(x, clusters[i].center, d)
    {
      var distance := Dist(x, clusters[j].center, d);
      if distance < minDist {
        minDist, best := distance, j;
      }
    }
  }

  method AssignToClusters(dataset: seq<Point>, start: nat, d: nat, clusters: array<Cluster>, fltMax: real)
    returns (ghost asg: seq<nat>)
    requires forall i :: 0 <= i < |dataset| ==> start + d <= |dataset[i]|
    requires clusters.Length >= 1
    requires forall j :: 0 <= j < clusters.Length ==> |clusters[j].center| == d && clusters[j].points == []
    modifies clusters
    ensures Centers(clusters[..]) == old(Centers(clusters[..]))
    ensures IsAssignment(Subvectors(dataset, start, d), asg, clusters.Length)
    ensures forall j :: 0 <= j < clusters.Length ==>
              clusters[j].points == PointsOf(Subvectors(dataset, start, d), asg, j)
    ensures forall i :: 0 <= i < |dataset| ==>
              var x := dataset[i][start..start + d];
              (exists j :: 0 <= j < clusters.Length && Dist(x, old(clusters[j]).center, d) < fltMax) ==>
                NearestTo(x, old(Centers(clusters[..])), d, asg[i])
  {
    hide Dist, PointsOf, NearestTo;
    ghost var xs, cs := Subvectors(dataset, start, d), Centers(clusters[..]);
    asg := [];
    NothingAssigned(xs, asg);
    var best := 0;
    for i := 0 to |dataset|
      invariant |asg| == i && best < clusters.Length && IsAssignment(xs[..i], asg, clusters.Length)
      invariant Centers(clusters[..]) == cs
      invariant forall j :: 0 <= j < clusters.Length ==> clusters[j].center == old(clusters[j]).center
      invariant forall j :: 0 <= j < clusters.Length ==> clusters[j].points == PointsOf(xs[..i], asg, j)
      invariant forall m :: 0 <= m < i ==>
                  (exists j :: 0 <= j < clusters.Length && Dist(dataset[m][start..start + d], old(clusters[j]).center, d) < fltMax) ==>
                    NearestTo(dataset[m][start..start + d], cs, d, asg[m])
    {
      var x := dataset[i][start..start + d];
      best := NearestCluster(x, clusters, d, fltMax, best);
      ghost var before := asg;
      asg := asg + [best];
      forall j | 0 <= j < clusters.Length ensures PointsOf(xs[..i + 1], asg, j) == clusters[j].points + if j == best then [x] else [] {
        AssignOne(xs, before, best, i, j);
      }
      clusters[best] := clusters[best].(points := clusters[best].points + [x]);
      assert Centers(clusters[..]) == cs;
    }
    assert xs[..|dataset|] == xs;
  }

  lemma {:induction false} NothingAssigned(xs: seq<Point>, asg: seq<nat>)
    requires asg == []
    ensures forall j :: PointsOf(xs[..0], asg, j) == []
  {
  }

  lemma {:induction false} AssignOne(xs: seq<Point>, asg: seq<nat>, best: nat, i: nat, j: nat)
    requires i < |xs| && |asg| == i
    ensures PointsOf(xs[..i + 1], asg + [best], j) == PointsOf(xs[..i], asg, j) + if j == best then [xs[i]] else []
  {
    assert xs[..i + 1][..i] == xs[..i] && (asg + [best])[..i] == asg;
  }

  /** calculate_mean: column sums row by row, then one division per column. */
  method CalculateMean(points: seq<Point>, d: nat) returns (mean: Point)
    requires points != [] && forall i :: 0 <= i < |points| ==> |points[i]| == d
    ensures IsMean(points, mean, d)
  {
    hide Scaled;
    var sums := new real[d](i => 0.0);
    for i := 0 to |points|
      invariant forall j :: 0 <= j < d ==> sums[j] == ColumnSum(points[..i], j)
    {
      AddRow(sums, points[i]);
      forall j | 0 <= j < d ensures ColumnSum(points[..i + 1], j) == ColumnSum(points[..i], j) + points[i][j] {
        assert points[..i + 1][..i] == points[..i];
      }
    }
    assert points[..|points|] == points;
    var n := |points| as real;
    for j := 0 to d
      invariant forall m :: j <= m < d ==> sums[m] == ColumnSum(points, m)
      invariant forall m :: 0 <= m < j ==> Scaled(|points|, sums[m]) == ColumnSum(points, m)
    {
      DivideBack(sums[j], |points|);
      sums[j] := sums[j] / n;
    }
    mean := sums[..];
  }

  method AddRow(sums: array<real>, row: Point)
    requires |row| == sums.Length
    modifies sums
    ensures forall j :: 0 <= j < sums.Length ==> sums[j] == old(sums[j]) + row[j]
  {
    for j := 0 to sums.Length
      invariant forall m :: 0 <= m < j ==> sums[m] == old(sums[m]) + row[m]
      invariant forall m :: j <= m < sums.Length ==> sums[m] == old(sums[m])
    {
      sums[j] := sums[j] + row[j];
    }
  }

  lemma {:induction false} DivideBack(s: real, n: nat)
    requires n > 0
    ensures Scaled(n, s / (n as real)) == s
  {
  }

  /** update_centers: means for the non-empty clusters, which are then emptied. */
  method UpdateCenters(clusters: array<Cluster>, d: nat)
    requires forall j, i :: 0 <= j < clusters.Length && 0 <= i < |clusters[j].points| ==> |clusters[j].points[i]| == d
    modifies clusters
    ensures forall j :: 0 <= j < clusters.Length ==>
              clusters[j].points == [] && UpdatedCentre(old(clusters[j]).points, old(clusters[j]).center, clusters[j].center, d)
  {
    hide IsMean;
    for i := 0 to clusters.Length
      invariant forall j :: i <= j < clusters.Length ==> clusters[j] == old(clusters[j])
      invariant forall j :: 0 <= j < i ==>
                  clusters[j].points == [] && UpdatedCentre(old(clusters[j]).points, old(clusters[j]).center, clusters[j].center, d)
    {
      if clusters[i].points != [] {
        var mean := CalculateMean(clusters[i].points, d);
        clusters[i] := Cluster(mean, []);
      }
    }
  }

  ghost predicate OfDim(cs: seq<Point>, d: nat) {
    forall j :: 0 <= j < |cs| ==> |cs[j]| == d
  }

  /** How far the first `k` centres moved, all together. */
  ghost function Moved(before: seq<Point>, after: seq<Point>, d: nat, k: nat): real
    requires OfDim(before, d) && OfDim(after, d) && k <= |before| == |after|
  {
    if k == 0 then 0.0 else Moved(before, after, d, k - 1) + Dist(before[k - 1], after[k - 1], d)
  }

  /** The centres moved by at most 0.1 on average. */
  ghost predicate Settled(before: seq<Point>, after: seq<Point>, d: nat) {
    OfDim(before, d) && OfDim(after, d) && 1 <= |before| == |after|
    && Moved(before, after, d, |before|) / (|before| as real) <= 0.1
  }

  /** should_stop_iterations. */
  method ShouldStop(oldCenters: seq<Point>, clusters: array<Cluster>, d: nat) returns (stop: bool)
    requires |oldCenters| == clusters.Length >= 1
    requires forall j :: 0 <= j < clusters.Length ==> |oldCenters[j]| == d && |clusters[j].center| == d
    ensures stop <==> Settled(oldCenters, Centers(clusters[..]), d)
  {
    hide Dist;
    ghost var after := Centers(clusters[..]);
    var distance := 0.0;
    for i := 0 to clusters.Length
      invariant distance == Moved(oldCenters, after, d, i)
    {
      distance := distance + Dist(oldCenters[i], clusters[i].center, d);
    }
    stop := distance / (clusters.Length as real) <= 0.1;
  }

  /** One iteration: every point goes to a nearest centre, every centre to the mean of its points. */
  ghost predicate IsIteration(xs: seq<Point>, cs: seq<Point>, cs': seq<Point>, d: nat) {
    Shaped(xs, cs, d) && Shaped(xs, cs', d) && exists asg :: IteratesBy(xs, cs, cs', d, asg)
  }

  ghost predicate IteratesBy(xs: seq<Point>, cs: seq<Point>, cs': seq<Point>, d: nat, asg: seq<nat>)
    requires Shaped(xs, cs, d)
  {
    && IsAssignment(xs, asg, |cs|)
    && (forall i :: 0 <= i < |xs| ==> NearestTo(xs[i], cs, d, asg[i]))
    && Updated(xs, asg, cs, cs', d, |cs|)
  }

  /** One iteration of the k_means loop on clusters that are all empty; they are empty again after it. */
  method Iterate(dataset: seq<Point>, start: nat, d: nat, clusters: array<Cluster>, fltMax: real)
    requires forall i :: 0 <= i < |dataset| ==> start + d <= |dataset[i]|
    requires clusters.Length >= 1
    requires forall j :: 0 <= j < clusters.Length ==> |clusters[j].center| == d && clusters[j].points == []
    requires Shaped(Subvectors(dataset, start, d), Centers(clusters[..]), d)
    requires EachInReach(Subvectors(dataset, start, d), Centers(clusters[..]), d, fltMax)
    modifies clusters
    ensures forall j :: 0 <= j < clusters.Length ==> |clusters[j].center| == d && clusters[j].points == []
    ensures Shaped(Subvectors(dataset, start, d), Centers(clusters[..]), d)
    ensures Cost(Subvectors(dataset, start, d), Centers(clusters[..]), d)
         <= old(Cost(Subvectors(dataset, start, d), Centers(clusters[..]), d))
    ensures var xs := Subvectors(dataset, start, d);
      AllNear(xs, xs, d, fltMax) && AllNear(xs, old(Centers(clusters[..])), d, fltMax)
      ==> AllNear(xs, Centers(clusters[..]), d, fltMax)
    ensures IsIteration(Subvectors(dataset, start, d), old(Centers(clusters[..])), Centers(clusters[..]), d)
  {
    hide Cost, Dist, PointsOf, NearestTo, IsMean, AllNear;
    ghost var xs, cs := Subvectors(dataset, start, d), Centers(clusters[..]);
    ghost var asg := AssignToClusters(dataset, start, d, clusters, fltMax);
    forall i: nat | i < |xs| ensures NearestTo(xs[i], cs, d, asg[i]) {
      assert InReach(xs[i], cs, d, fltMax);
    }
    forall j | 0 <= j < clusters.Length
      ensures forall i :: 0 <= i < |clusters[j].points| ==> |clusters[j].points[i]| == d
    {
      PointsOfDim(xs, asg, j, d);
    }
    UpdateCenters(clusters, d);
    IterationNeverRaisesCost(xs, asg, cs, Centers(clusters[..]), d);
    assert IteratesBy(xs, cs, Centers(clusters[..]), d, asg);
    if AllNear(xs, xs, d, fltMax) && AllNear(xs, cs, d, fltMax) {
      StaysNear(xs, asg, cs, Centers(clusters[..]), d, fltMax);
    }
  }

  /** Every distance between a point and a centre is below the bound. */
  ghost predicate AllNear(xs: seq<Point>, cs: seq<Point>, d: nat, bound: real) {
    forall i, j :: 0 <= i < |xs| && 0 <= j < |cs| ==> Near(xs[i], cs[j], d, bound)
  }

  ghost predicate Near(x: Point, c: Point, d: nat, bound: real) {
    d <= |x| && d <= |c| && Dist(x, c, d) < bound
  }

  ghost predicate InReach(x: Point, cs: seq<Point>, d: nat, bound: real) {
    exists j :: 0 <= j < |cs| && Near(x, cs[j], d, bound)
  }

  ghost predicate EachInReach(xs: seq<Point>, cs: seq<Point>, d: nat, bound: real) {
    forall i :: 0 <= i < |xs| ==> InReach(xs[i], cs, d, bound)
  }

  lemma {:induction false} PointsFrom(xs: seq<Point>, asg: seq<nat>, j: nat)
    requires |asg| == |xs|
    ensures forall i :: 0 <= i < |PointsOf(xs, asg, j)| ==> PointsOf(xs, asg, j)[i] in xs
    decreases |xs|
  {
    if xs != [] {
      var n := |xs| - 1;
      PointsFrom(xs[..n], asg[..n], j);
    }
  }

  /** If the points are all near each other and near the centres, they are near the updated centres. */
  lemma {:induction false} StaysNear(xs: seq<Point>, asg: seq<nat>, cs: seq<Point>, cs': seq<Point>, d: nat, bound: real)
    requires Shaped(xs, cs, d) && IsAssignment(xs, asg, |cs|) && Updated(xs, asg, cs, cs', d, |cs|)
    requires AllNear(xs, xs, d, bound) && AllNear(xs, cs, d, bound)
    ensures AllNear(xs, cs', d, bound)
  {
    hide Dist, IsMean, PointsOf;
    forall i, j | 0 <= i < |xs| && 0 <= j < |cs'| ensures Near(xs[i], cs'[j], d, bound) {
      var points := PointsOf(xs, asg, j);
      assert UpdatedCentre(points, cs[j], cs'[j], d) && Near(xs[i], cs[j], d, bound);
      if points != [] {
        PointsFrom(xs, asg, j);
        forall k | 0 <= k < |points| ensures Near(points[k], xs[i], d, bound) {
          var a :| 0 <= a < |xs| && xs[a] == points[k];
          assert Near(xs[a], xs[i], d, bound);
        }
        MeanHasDim(points, cs'[j], d);
        MeanWithin(points, cs'[j], xs[i], d, bound);
      }
    }
  }

  /** The objective bounds each point's nearest distance, so all of them stay below FLT_MAX. */
  lemma {:induction false} SomeCentreInReach(xs: seq<Point>, cs: seq<Point>, d: nat, i: nat, fltMax: real)
    requires Shaped(xs, cs, d) && i < |xs| && Cost(xs, cs, d) < fltMax
    ensures InReach(xs[i], cs, d, fltMax)
  {
    hide Cost, Dist, MinDist;
    CostBoundsPoint(xs, cs, d, i);
    var j := MinDistAttained(xs[i], cs, d, |cs|);
    assert Near(xs[i], cs[j], d, fltMax);
  }

  /** Both ways to keep every point in reach of a centre: a small objective, or points close together. */
  lemma {:induction false} ReachKept(xs: seq<Point>, cs: seq<Point>, d: nat, fltMax: real)
    requires Shaped(xs, cs, d) && |cs| >= 1 && (Cost(xs, cs, d) < fltMax || AllNear(xs, cs, d, fltMax))
    ensures EachInReach(xs, cs, d, fltMax)
  {
    hide Cost, Near;
    forall i: nat | i < |xs| ensures InReach(xs[i], cs, d, fltMax) {
      if Cost(xs, cs, d) < fltMax {
        SomeCentreInReach(xs, cs, d, i, fltMax);
      } else {
        assert Near(xs[i], cs[0], d, fltMax);
      }
    }
  }

  /** The centre lists of a run: each the iteration of the one before, as many as asked for, or up to the first
      step that settles. */
  ghost predicate IsTrace(xs: seq<Point>, trace: seq<seq<Point>>, d: nat, iterations: nat) {
    && 1 <= |trace| <= iterations + 1
    && (forall i :: 0 <= i < |trace| - 1 ==> IsIteration(xs, trace[i], Next(trace, i), d))
    && (forall i :: 0 <= i < |trace| - 2 ==> !Settled(trace[i], Next(trace, i), d))
    && (|trace| == iterations + 1 || (|trace| >= 2 && Settled(trace[|trace| - 2], trace[|trace| - 1], d)))
  }

  ghost function Next(trace: seq<seq<Point>>, i: nat): seq<Point>
    requires i + 1 < |trace|
  {
    trace[i + 1]
  }

  /** The trace while the loop runs: no step has settled yet. */
  ghost predicate IsUnsettled(xs: seq<Point>, trace: seq<seq<Point>>, d: nat) {
    && trace != []
    && (forall i :: 0 <= i < |trace| - 1 ==> IsIteration(xs, trace[i], Next(trace, i), d))
    && (forall i :: 0 <= i < |trace| - 1 ==> !Settled(trace[i], Next(trace, i), d))
  }

  lemma {:induction false} TraceStep(xs: seq<Point>, trace: seq<seq<Point>>, d: nat, cs: seq<Point>, iterations: nat)
    requires IsUnsettled(xs, trace, d) && IsIteration(xs, trace[|trace| - 1], cs, d)
    ensures Settled(trace[|trace| - 1], cs, d) && |trace| <= iterations ==> IsTrace(xs, trace + [cs], d, iterations)
    ensures !Settled(trace[|trace| - 1], cs, d) ==> IsUnsettled(xs, trace + [cs], d)
  {
    hide IsIteration, Settled;
    var longer, n := trace + [cs], |trace| - 1;
    assert Next(longer, n) == cs;
    forall i | 0 <= i < n ensures Next(longer, i) == Next(trace, i) && longer[i] == trace[i] {
    }
  }

  lemma {:induction false} TraceEnd(xs: seq<Point>, trace: seq<seq<Point>>, d: nat, iterations: nat)
    requires IsUnsettled(xs, trace, d) && |trace| == iterations + 1
    ensures IsTrace(xs, trace, d, iterations)
  {
    hide IsIteration, Settled;
  }

  /** Along a run the objective never rises. */
  lemma {:induction false} TraceNeverRaisesCost(xs: seq<Point>, trace: seq<seq<Point>>, d: nat, iterations: nat, i: nat, j: nat)
    requires IsTrace(xs, trace, d, iterations) && i <= j < |trace| && Shaped(xs, trace[0], d)
    ensures Shaped(xs, trace[i], d) && Shaped(xs, trace[j], d) && Cost(xs, trace[j], d) <= Cost(xs, trace[i], d)
    decreases j
  {
    hide Cost, Settled, Updated, NearestTo, IsAssignment, Shaped;
    if j > 0 {
      assert IsIteration(xs, trace[j - 1], Next(trace, j - 1), d);
      if i < j {
        TraceNeverRaisesCost(xs, trace, d, iterations, i, j - 1);
        var asg :| IteratesBy(xs, trace[j - 1], trace[j], d, asg);
        IterationNeverRaisesCost(xs, asg, trace[j - 1], trace[j], d);
      }
    }
  }

  /** k_means from the picked points: the run the iterations make of them, and so centroids that cost no more. */
  method Run(picks: seq<nat>, dataset: seq<Point>, start: nat, d: nat, iterations: nat, fltMax: real)
    returns (centroids: seq<Point>, ghost trace: seq<seq<Point>>)
    requires forall i :: 0 <= i < |dataset| ==> start + d <= |dataset[i]|
    requires |picks| >= 1 && forall j :: 0 <= j < |picks| ==> picks[j] < |dataset|
    requires var xs := Subvectors(dataset, start, d);
      Cost(xs, Picked(dataset, picks, start, d), d) < fltMax || AllNear(xs, xs, d, fltMax)
    ensures IsTrace(Subvectors(dataset, start, d), trace, d, iterations)
    ensures trace[0] == Picked(dataset, picks, start, d) && trace[|trace| - 1] == centroids
    ensures |centroids| == |picks| && Shaped(Subvectors(dataset, start, d), centroids, d)
    ensures Cost(Subvectors(dataset, start, d), centroids, d)
         <= Cost(Subvectors(dataset, start, d), Picked(dataset, picks, start, d), d)
  {
    hide Cost, AllNear, EachInReach, IsIteration, Settled, IsTrace, IsUnsettled;
    var clusters := new Cluster[|picks|](j requires 0 <= j < |picks| =>
      Cluster(dataset[picks[j]][start..start + d], []));
    ghost var xs, first := Subvectors(dataset, start, d), Picked(dataset, picks, start, d);
    assert Centers(clusters[..]) == first;
    trace := [first];
    OneIsUnsettled(xs, first, d);
    if AllNear(xs, xs, d, fltMax) {
      PickedNear(xs, first, picks, d, fltMax);
    }
    for i := 0 to iterations
      invariant forall j :: 0 <= j < clusters.Length ==> |clusters[j].center| == d && clusters[j].points == []
      invariant Shaped(xs, Centers(clusters[..]), d) && Cost(xs, Centers(clusters[..]), d) <= Cost(xs, first, d)
      invariant AllNear(xs, xs, d, fltMax) ==> AllNear(xs, Centers(clusters[..]), d, fltMax)
      invariant |trace| == i + 1 && trace[0] == first && trace[i] == Centers(clusters[..]) && IsUnsettled(xs, trace, d)
    {
      ReachKept(xs, Centers(clusters[..]), d, fltMax);
      var oldCenters := seq(clusters.Length, j requires 0 <= j < clusters.Length reads clusters => clusters[j].center);
      assert oldCenters == Centers(clusters[..]);
      Iterate(dataset, start, d, clusters, fltMax);
      var stop := ShouldStop(oldCenters, clusters, d);
      TraceStep(xs, trace, d, Centers(clusters[..]), iterations);
      trace := trace + [Centers(clusters[..])];
      if stop {
        centroids := seq(clusters.Length, j requires 0 <= j < clusters.Length reads clusters => clusters[j].center);
        assert centroids == Centers(clusters[..]);
        return;
      }
    }
    TraceEnd(xs, trace, d, iterations);
    centroids := seq(clusters.Length, j requires 0 <= j < clusters.Length reads clusters => clusters[j].center);
    assert centroids == Centers(clusters[..]);
  }

  lemma {:induction false} OneIsUnsettled(xs: seq<Point>, cs: seq<Point>, d: nat)
    ensures IsUnsettled(xs, [cs], d)
  {
  }

  lemma {:induction false} PickedNear(xs: seq<Point>, first: seq<Point>, picks: seq<nat>, d: nat, bound: real)
    requires AllNear(xs, xs, d, bound) && |first| == |picks|
    requires forall j :: 0 <= j < |picks| ==> picks[j] < |xs| && first[j] == xs[picks[j]]
    ensures AllNear(xs, first, d, bound)
  {
    hide Near;
  }

  /** The initial centres: the picked points of the dataset. */
  ghost function Picked(dataset: seq<Point>, picks: seq<nat>, start: nat, d: nat): (cs: seq<Point>)
    requires forall i :: 0 <= i < |dataset| ==> start + d <= |dataset[i]|
    requires |picks| >= 1 && forall j :: 0 <= j < |picks| ==> picks[j] < |dataset|
    ensures Shaped(Subvectors(dataset, start, d), cs, d)
  {
    seq(|picks|, j requires 0 <= j < |picks| => dataset[picks[j]][start..start + d])
  }
}
