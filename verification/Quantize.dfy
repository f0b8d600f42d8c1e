/**
 Product quantization of vectors: each part of a vector is replaced by the index of its nearest
 centroid, and the parts' choices together are the best codeword for the whole vector.
 */
module Quantize {
  import opened Distances

  /** The index a byte keeps. */
  function AsByte(i: nat): nat {
    i % 256
  }

  ghost predicate SameDim(centroids: seq<Point>, d: nat) {
    forall j :: 0 <= j < |centroids| ==> |centroids[j]| == d
  }

  /** The first index of a least distance. */
  ghost function Closest(centroids: seq<Point>, x: Point, n: nat): (j: nat)
    requires SameDim(centroids, |x|) && 1 <= n <= |centroids|
    ensures j < n
    ensures forall i :: 0 <= i < n ==> Dist(centroids[j], x, |x|) <= Dist(centroids[i], x, |x|)
    ensures forall i :: 0 <= i < j ==> Dist(centroids[j], x, |x|) < Dist(centroids[i], x, |x|)
  {
    if n == 1 then 0
    else
      var j := Closest(centroids, x, n - 1);
      if Dist(centroids[n - 1], x, |x|) < Dist(centroids[j], x, |x|) then n - 1 else j
  }

  /** get_closest_centroid: the first centroid at the least distance, its index cut to a byte. */
  method GetClosestCentroid(centroids: seq<Point>, x: Point, f32Max: real) returns (code: nat)
    requires SameDim(centroids, |x|)
    ensures (exists j :: 0 <= j < |centroids| && Dist(centroids[j], x, |x|) < f32Max) ==>
              code == AsByte(Closest(centroids, x, |centroids|))
    ensures (forall j :: 0 <= j < |centroids| ==> Dist(centroids[j], x, |x|) >= f32Max) ==> code == 0
  {
    hide Dist, AsByte;
    var best := f32Max;
    code := 0;
    ghost var closest := 0;
    for i := 0 to |centroids|
      invariant best <= f32Max && (best == f32Max ==> code == 0)
      invariant forall j :: 0 <= j < i ==> best <= Dist(centroids[j], x, |x|)
      invariant best < f32Max ==>
                  && closest < i && Dist(centroids[closest], x, |x|) == best && code == AsByte(closest)
                  && forall j :: 0 <= j < closest ==> best < Dist(centroids[j], x, |x|)
    {
      var distance := Dist(centroids[i], x, |x|);
      if distance < best {
        best, code, closest := distance, AsByte(i), i;
      }
    }
    if best < f32Max {
      FirstIsClosest(centroids, x, closest);
    }
  }

  lemma {:induction false} FirstIsClosest(centroids: seq<Point>, x: Point, closest: nat)
    requires SameDim(centroids, |x|) && closest < |centroids|
    requires forall i :: 0 <= i < |centroids| ==> Dist(centroids[closest], x, |x|) <= Dist(centroids[i], x, |x|)
    requires forall i :: 0 <= i < closest ==> Dist(centroids[closest], x, |x|) < Dist(centroids[i], x, |x|)
    ensures closest == Closest(centroids, x, |centroids|)
  {
    hide Dist;
  }

  ghost predicate ByteCodeIsNearest(centroids: seq<Point>, x: Point)
    requires SameDim(centroids, |x|) && |centroids| >= 1
  {
    var code := AsByte(Closest(centroids, x, |centroids|));
    forall i :: 0 <= i < |centroids| ==> Dist(centroids[code], x, |x|) <= Dist(centroids[i], x, |x|)
  }

  /** A part's centroids can be told apart by a byte for every input exactly when there are at most 256. */
  lemma {:induction false} ByteIsEnoughExactly(n: nat)
    requires n >= 1
    ensures n <= 256 <==> forall centroids: seq<Point>, x: Point ::
              |centroids| == n && SameDim(centroids, |x|) ==> ByteCodeIsNearest(centroids, x)
  {
    if n > 256 {
      var centroids := seq(n, i => if i == 256 then [0.0] else [1.0]);
      WrapsAround(centroids, n);
      assert |centroids| == n && SameDim(centroids, |[0.0]|) && !ByteCodeIsNearest(centroids, [0.0]);
    } else {
      forall centroids: seq<Point>, x: Point | |centroids| == n && SameDim(centroids, |x|)
        ensures ByteCodeIsNearest(centroids, x)
      {
        hide Dist;
        assert AsByte(Closest(centroids, x, n)) == Closest(centroids, x, n);
      }
    }
  }

  lemma {:induction false} WrapsAround(centroids: seq<Point>, n: nat)
    requires n > 256 && centroids == seq(n, i => if i == 256 then [0.0] else [1.0])
    ensures SameDim(centroids, 1) && !ByteCodeIsNearest(centroids, [0.0])
  {
    var x := [0.0];
    OneDim(0.0);
    OneDim(1.0);
    var j := Closest(centroids, x, n);
    assert Dist(centroids[j], x, 1) <= Dist(centroids[256], x, 1);
    assert j == 256;
    assert Dist(centroids[0], x, 1) > Dist(centroids[256], x, 1);
  }

  lemma {:induction false} OneDim(v: real)
    ensures Dist([v], [0.0], 1) == v * v
  {
    assert Dist([v], [0.0], 0) == 0.0;
  }

  // ----- whole vectors

  /** Start of part `i`: the recursive form of i * d. */
  function PartStart(i: nat, d: nat): nat {
    if i == 0 then 0 else PartStart(i - 1, d) + d
  }

  lemma {:induction false} PartStartIs(i: nat, d: nat)
    ensures PartStart(i, d) == i * d
    decreases i
  {
    if i > 0 {
      PartStartIs(i - 1, d);
      assert i * d == (i - 1) * d + d;
    }
  }

  lemma {:induction false} PartStartMonotone(i: nat, j: nat, d: nat)
    requires i <= j
    ensures PartStart(i, d) <= PartStart(j, d)
    decreases j
  {
    if i < j {
      PartStartMonotone(i, j - 1, d);
    }
  }

  lemma {:induction false} PartFits(s: nat, n: nat, d: nat)
    requires s < n
    ensures PartStart(s, d) == s * d && s * d + d <= n * d
  {
    PartStartIs(s, d);
    PartStartIs(n, d);
    PartStartMonotone(s + 1, n, d);
  }

  type Codebooks = seq<seq<Point>>

  ghost predicate Codebook(cb: Codebooks, d: nat) {
    forall s :: 0 <= s < |cb| ==> |cb[s]| >= 1 && SameDim(cb[s], d)
  }

  ghost predicate Codeword(cb: Codebooks, w: seq<nat>) {
    |w| == |cb| && forall s :: 0 <= s < |w| ==> w[s] < |cb[s]|
  }

  /** The vector a codeword stands for, up to part `n`. */
  ghost function DecodeTo(cb: Codebooks, w: seq<nat>, n: nat, d: nat): (y: Point)
    requires Codebook(cb, d) && Codeword(cb, w) && n <= |cb|
    ensures |y| == PartStart(n, d)
  {
    if n == 0 then [] else DecodeTo(cb, w, n - 1, d) + cb[n - 1][w[n - 1]]
  }

  /** Distances of two concatenated stretches add up. */
  lemma {:induction false} DistAppend(x: Point, y: Point, z: Point, m: nat, s: nat)
    requires |y| == m && s <= |z| && m + s <= |x|
    ensures Dist(x, y + z, m + s) == Dist(x, y, m) + Dist(x[m..m + s], z, s)
    decreases s
  {
    hide Sq;
    if s == 0 {
      DistPrefix(x, y + z, y, m);
    } else {
      DistAppend(x, y, z, m, s - 1);
      assert (y + z)[m + s - 1] == z[s - 1];
      assert x[m..m + s][s - 1] == x[m + s - 1];
      DistPrefixLeft(x[m..m + s], x[m..m + s - 1], z, s - 1);
    }
  }

  lemma {:induction false} DistPrefix(x: Point, y: Point, z: Point, m: nat)
    requires m <= |x| && m <= |y| && m <= |z| && forall i :: 0 <= i < m ==> y[i] == z[i]
    ensures Dist(x, y, m) == Dist(x, z, m)
    decreases m
  {
    if m > 0 {
      DistPrefix(x, y, z, m - 1);
    }
  }

  lemma {:induction false} DistPrefixLeft(x: Point, x': Point, y: Point, m: nat)
    requires m <= |x| && m <= |x'| && m <= |y| && forall i :: 0 <= i < m ==> x[i] == x'[i]
    ensures Dist(x, y, m) == Dist(x', y, m)
    decreases m
  {
    if m > 0 {
      DistPrefixLeft(x, x', y, m - 1);
    }
  }

  lemma {:induction false} DistSymmetric(x: Point, y: Point, m: nat)
    requires m <= |x| && m <= |y|
    ensures Dist(x, y, m) == Dist(y, x, m)
    decreases m
  {
    if m > 0 {
      DistSymmetric(x, y, m - 1);
      assert Sq(x[m - 1] - y[m - 1]) == Sq(y[m - 1] - x[m - 1]);
    }
  }

  /** Part `s` of the code is nearest among that part's centroids. */
  ghost predicate PartIsNearest(x: Point, cb: Codebooks, w: seq<nat>, d: nat, s: nat)
    requires Codebook(cb, d) && Codeword(cb, w) && s < |cb| && PartStart(s, d) + d <= |x|
  {
    var part := x[PartStart(s, d)..PartStart(s, d) + d];
    forall j :: 0 <= j < |cb[s]| ==> Dist(cb[s][w[s]], part, d) <= Dist(cb[s][j], part, d)
  }

  /** If every part is nearest, no codeword at all is closer to the whole vector. */
  lemma {:induction false} PartsGiveTheWhole(x: Point, cb: Codebooks, w: seq<nat>, v: seq<nat>, d: nat, n: nat)
    requires Codebook(cb, d) && Codeword(cb, w) && Codeword(cb, v) && n <= |cb|
    requires PartStart(|cb|, d) <= |x|
    requires forall s :: 0 <= s < |cb| ==> PartStart(s, d) + d <= |x| && PartIsNearest(x, cb, w, d, s)
    ensures PartStart(n, d) <= |x|
    ensures Dist(x, DecodeTo(cb, w, n, d), PartStart(n, d)) <= Dist(x, DecodeTo(cb, v, n, d), PartStart(n, d))
    decreases n
  {
    hide *;
    PartStartMonotone(n, |cb|, d);
    if n == 0 {
      NoParts(x, cb, w, d);
      NoParts(x, cb, v, d);
    } else {
      PartsGiveTheWhole(x, cb, w, v, d, n - 1);
      OnePart(x, cb, w, d, n);
      OnePart(x, cb, v, d, n);
      NearestPart(x, cb, w, v, d, n - 1);
    }
  }

  lemma {:induction false} NearestPart(x: Point, cb: Codebooks, w: seq<nat>, v: seq<nat>, d: nat, s: nat)
    requires Codebook(cb, d) && Codeword(cb, w) && Codeword(cb, v) && s < |cb| && PartStart(s, d) + d <= |x|
    requires PartIsNearest(x, cb, w, d, s)
    ensures var part := x[PartStart(s, d)..PartStart(s, d) + d];
      Dist(cb[s][w[s]], part, d) <= Dist(cb[s][v[s]], part, d)
  {
    hide Dist;
  }

  lemma {:induction false} OnePart(x: Point, cb: Codebooks, w: seq<nat>, d: nat, n: nat)
    requires Codebook(cb, d) && Codeword(cb, w) && 1 <= n <= |cb| && PartStart(n, d) <= |x|
    ensures var m := PartStart(n - 1, d);
      Dist(x, DecodeTo(cb, w, n, d), PartStart(n, d))
      == Dist(x, DecodeTo(cb, w, n - 1, d), m) + Dist(cb[n - 1][w[n - 1]], x[m..m + d], d)
  {
    hide Dist;
    var m := PartStart(n - 1, d);
    DistAppend(x, DecodeTo(cb, w, n - 1, d), cb[n - 1][w[n - 1]], m, d);
    DistSymmetric(x[m..m + d], cb[n - 1][w[n - 1]], d);
  }

  lemma {:induction false} NoParts(x: Point, cb: Codebooks, w: seq<nat>, d: nat)
    requires Codebook(cb, d) && Codeword(cb, w)
    ensures PartStart(0, d) == 0 && Dist(x, DecodeTo(cb, w, 0, d), 0) == 0.0
  {
  }

  /** quantize_vectors for one row: the code is a global minimiser of the full squared distance over all
      codewords. */
  method QuantizeVector(x: Point, dim: nat, d: nat, cb: Codebooks, f32Max: real) returns (codes: seq<nat>)
    requires |x| == dim == |cb| * d && Codebook(cb, d)
    requires forall s :: 0 <= s < |cb| ==> |cb[s]| <= 256
    requires forall s, j :: 0 <= s < |cb| && 0 <= j < |cb[s]| && PartStart(s, d) + d <= |x| ==>
               Dist(cb[s][j], x[PartStart(s, d)..PartStart(s, d) + d], d) < f32Max
    ensures Codeword(cb, codes) && PartStart(|cb|, d) == dim
    ensures forall v: seq<nat> :: Codeword(cb, v) ==>
              Dist(x, DecodeTo(cb, codes, |cb|, d), dim) <= Dist(x, DecodeTo(cb, v, |cb|, d), dim)
  {
    hide Dist, SameDim, CodeIsNearest, DecodeTo, PartStart;
    codes := [];
    PartStartIs(|cb|, d);
    for s := 0 to |cb|
      invariant |codes| == s && forall i :: 0 <= i < s ==> codes[i] < |cb[i]|
      invariant forall i :: 0 <= i < s ==> PartStart(i, d) + d <= |x| && CodeIsNearest(x, cb, codes[i], d, i)
    {
      PartFits(s, |cb|, d);
      var from := s * d;
      var to := if from + d < dim then from + d else dim;
      var code := QuantizePart(x, cb, d, s, x[from..to], f32Max);
      codes := codes + [code];
    }
    forall v: seq<nat> | Codeword(cb, v)
      ensures Dist(x, DecodeTo(cb, codes, |cb|, d), dim) <= Dist(x, DecodeTo(cb, v, |cb|, d), dim)
    {
      CodesAreBest(x, cb, codes, v, d);
    }
  }

  method QuantizePart(x: Point, cb: Codebooks, d: nat, s: nat, part: Point, f32Max: real) returns (code: nat)
    requires Codebook(cb, d) && s < |cb| && PartStart(s, d) + d <= |x| && |cb[s]| <= 256
    requires part == x[PartStart(s, d)..PartStart(s, d) + d]
    requires forall j :: 0 <= j < |cb[s]| ==> Dist(cb[s][j], part, d) < f32Max
    ensures code < |cb[s]| && CodeIsNearest(x, cb, code, d, s)
  {
    hide Dist;
    code := GetClosestCentroid(cb[s], part, f32Max);
    assert Dist(cb[s][0], part, d) < f32Max;
  }

  lemma {:induction false} CodesAreBest(x: Point, cb: Codebooks, codes: seq<nat>, v: seq<nat>, d: nat)
    requires Codebook(cb, d) && Codeword(cb, codes) && Codeword(cb, v) && PartStart(|cb|, d) <= |x|
    requires forall s :: 0 <= s < |cb| ==> PartStart(s, d) + d <= |x| && CodeIsNearest(x, cb, codes[s], d, s)
    ensures Dist(x, DecodeTo(cb, codes, |cb|, d), PartStart(|cb|, d)) <= Dist(x, DecodeTo(cb, v, |cb|, d), PartStart(|cb|, d))
  {
    hide Dist, DecodeTo, SameDim;
    forall s | 0 <= s < |cb| ensures PartStart(s, d) + d <= |x| && PartIsNearest(x, cb, codes, d, s) {
      assert CodeIsNearest(x, cb, codes[s], d, s);
    }
    PartsGiveTheWhole(x, cb, codes, v, d, |cb|);
  }

  ghost predicate CodeIsNearest(x: Point, cb: Codebooks, code: nat, d: nat, s: nat)
    requires Codebook(cb, d) && s < |cb| && code < |cb[s]| && PartStart(s, d) + d <= |x|
  {
    var part := x[PartStart(s, d)..PartStart(s, d) + d];
    forall j :: 0 <= j < |cb[s]| ==> Dist(cb[s][code], part, d) <= Dist(cb[s][j], part, d)
  }
}
