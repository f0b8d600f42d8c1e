/**
 Reading a codebook table: into one flat array for the index (any row order), and into one list of
 centroids per part for the quantizer (rows ordered by centroid id).
 */
module Codebook {
  import opened Distances

  datatype CodeRow = CodeRow(part: nat, centroid: nat, vector: Point)

  /** A table with every centroid of every part exactly once, all parts of dimension `d`. */
  ghost predicate Complete(rows: seq<CodeRow>, parts: nat, centroids: nat, d: nat) {
    && (forall i :: 0 <= i < |rows| ==> rows[i].part < parts && rows[i].centroid < centroids && |rows[i].vector| == d)
    && (forall i, j :: 0 <= i < j < |rows| ==> Key(rows[i]) != Key(rows[j]))
    && (forall s, c :: 0 <= s < parts && 0 <= c < centroids ==> exists i :: 0 <= i < |rows| && Key(rows[i]) == (s, c))
  }

  ghost function Key(r: CodeRow): (nat, nat) {
    (r.part, r.centroid)
  }

  // ----- how many rows a complete table has

  lemma {:induction false} KeysOfRows(rows: seq<CodeRow>, keys: set<(nat, nat)>)
    requires forall i, j :: 0 <= i < j < |rows| ==> Key(rows[i]) != Key(rows[j])
    requires forall i :: 0 <= i < |rows| ==> Key(rows[i]) in keys
    requires forall k :: k in keys ==> exists i :: 0 <= i < |rows| && Key(rows[i]) == k
    ensures |rows| == |keys|
    decreases |rows|
  {
    if rows == [] {
      assert keys == {};
    } else {
      var n := |rows| - 1;
      var last := Key(rows[n]);
      forall k | k in keys - {last} ensures exists i :: 0 <= i < n && Key(rows[..n][i]) == k {
        var i :| 0 <= i < |rows| && Key(rows[i]) == k;
        assert Key(rows[..n][i]) == k;
      }
      KeysOfRows(rows[..n], keys - {last});
    }
  }

  ghost function Column(s: nat, centroids: nat): (r: set<(nat, nat)>)
    ensures forall k :: k in r <==> k.0 == s && k.1 < centroids
    ensures |r| == centroids
  {
    if centroids == 0 then {} else Column(s, centroids - 1) + {(s, centroids - 1)}
  }

  ghost function Grid(parts: nat, centroids: nat): (r: set<(nat, nat)>)
    ensures forall k :: k in r <==> k.0 < parts && k.1 < centroids
    ensures |r| == parts * centroids
  {
    if parts == 0 then {}
    else
      var before, last := Grid(parts - 1, centroids), Column(parts - 1, centroids);
      assert before !! last;
      assert |before + last| == |before| + |last|;
      assert parts * centroids == (parts - 1) * centroids + centroids;
      before + last
  }

  lemma {:induction false} CompleteSize(rows: seq<CodeRow>, parts: nat, centroids: nat, d: nat)
    requires Complete(rows, parts, centroids, d)
    ensures |rows| == parts * centroids
  {
    hide Grid;
    var keys := Grid(parts, centroids);
    forall k | k in keys ensures exists i :: 0 <= i < |rows| && Key(rows[i]) == k {
      var i :| 0 <= i < |rows| && Key(rows[i]) == (k.0, k.1);
    }
    KeysOfRows(rows, keys);
  }

  // ----- the flat array

  /** Index of element `t` of centroid `c` of part `s`. */
  function Slot(dimensions: nat, d: nat, s: nat, c: nat, t: nat): nat {
    c * dimensions + s * d + t
  }

  lemma {:induction false} MulStep(a: nat, b: nat, m: nat)
    requires a < b
    ensures a * m + m <= b * m
    decreases b
  {
    assert b * m == (b - 1) * m + m;
    if a < b - 1 {
      MulStep(a, b - 1, m);
    }
  }

  /** Rows write disjoint ranges. */
  lemma {:induction false} RangesApart(parts: nat, d: nat, s: nat, c: nat, s': nat, c': nat)
    requires s < parts && s' < parts && (s != s' || c != c')
    ensures c * (parts * d) + s * d + d <= c' * (parts * d) + s' * d
         || c' * (parts * d) + s' * d + d <= c * (parts * d) + s * d
  {
    MulStep(s, parts, d);
    MulStep(s', parts, d);
    if c < c' {
      MulStep(c, c', parts * d);
    } else if c' < c {
      MulStep(c', c, parts * d);
    } else if s < s' {
      MulStep(s, s', d);
    } else {
      MulStep(s', s, d);
    }
  }

  ghost predicate RowWritten(flat: seq<real>, dimensions: nat, d: nat, r: CodeRow) {
    |r.vector| == d && forall t :: 0 <= t < d ==>
      Slot(dimensions, d, r.part, r.centroid, t) < |flat| && flat[Slot(dimensions, d, r.part, r.centroid, t)] == r.vector[t]
  }

  /** memcpy into the flat codebook. */
  method Copy(flat: array<real>, at: nat, v: Point)
    requires at + |v| <= flat.Length
    modifies flat
    ensures forall u :: 0 <= u < |v| ==> flat[at + u] == v[u]
    ensures forall i :: 0 <= i < flat.Length && !(at <= i < at + |v|) ==> flat[i] == old(flat[i])
  {
    for t := 0 to |v|
      invariant forall i :: 0 <= i < flat.Length && !(at <= i < at + t) ==> flat[i] == old(flat[i])
      invariant forall u :: 0 <= u < t ==> flat[at + u] == v[u]
    {
      flat[at + t] := v[t];
    }
  }

  lemma {:induction false} RangeInBounds(parts: nat, d: nat, s: nat, c: nat, centroids: nat)
    requires s < parts && c < centroids <= 256
    ensures c * (parts * d) + s * d + d <= centroids * (parts * d) <= (parts * d) * 256
  {
    MulStep(s, parts, d);
    MulStep(c, centroids, parts * d);
    if centroids < 256 {
      MulStep(centroids, 256, parts * d);
    }
  }

  lemma {:induction false} WrittenFrom(flat: seq<real>, dimensions: nat, d: nat, r: CodeRow, at: nat)
    requires at == r.centroid * dimensions + r.part * d && at + d <= |flat| && |r.vector| == d
    requires forall u :: 0 <= u < d ==> flat[at + u] == r.vector[u]
    ensures RowWritten(flat, dimensions, d, r)
  {
    forall t | 0 <= t < d
      ensures Slot(dimensions, d, r.part, r.centroid, t) < |flat| && flat[Slot(dimensions, d, r.part, r.centroid, t)] == r.vector[t]
    {
      assert Slot(dimensions, d, r.part, r.centroid, t) == at + t;
    }
  }

  /** The array of a load: its full length, every row in its place, and zeros behind the last centroid. */
  ghost predicate Loaded(flat: seq<real>, rows: seq<CodeRow>, parts: nat, centroids: nat, d: nat) {
    && |flat| == (parts * d) * 256
    && (forall i :: 0 <= i < |rows| ==> RowWritten(flat, parts * d, d, rows[i]))
    && forall k :: centroids * (parts * d) <= k < |flat| ==> flat[k] == 0.0
  }

  /** load_pq_codebook: whatever the heap order of a complete table, the array holds each centroid
      where its ids say, and the derived counts are the true ones. */
  method LoadCodebook(rows: seq<CodeRow>, dimensions: nat, ghost parts: nat, ghost centroids: nat, ghost d: nat)
    returns (flat: array<real>, numCentroids: nat, numParts: nat)
    requires Complete(rows, parts, centroids, d)
    requires parts >= 1 && 1 <= centroids <= 256 && d >= 1 && dimensions == parts * d
    ensures fresh(flat) && numCentroids == centroids && numParts == parts
    ensures Loaded(flat[..], rows, parts, centroids, d)
  {
    hide Complete, RowWritten, RowsFit;
    flat := new real[dimensions * 256](i => 0.0);
    CompleteSize(rows, parts, centroids, d);
    SomeRow(rows, parts, centroids);
    AllRowsFit(rows, parts, centroids, d);
    var rowCount, subvectorDim := CopyRows(rows, flat, dimensions, parts, centroids, d, centroids * dimensions);
    numParts, numCentroids := Counts(rowCount, dimensions, subvectorDim, parts, centroids);
  }

  /** Where a row's vector begins in the array. */
  function Place(dimensions: nat, d: nat, r: CodeRow): nat {
    r.centroid * dimensions + r.part * d
  }

  ghost predicate RowsFit(rows: seq<CodeRow>, dimensions: nat, d: nat, end: nat) {
    forall i :: 0 <= i < |rows| ==> |rows[i].vector| == d && Place(dimensions, d, rows[i]) + d <= end
  }

  lemma {:induction false} AllRowsFit(rows: seq<CodeRow>, parts: nat, centroids: nat, d: nat)
    requires Complete(rows, parts, centroids, d) && centroids <= 256
    ensures RowsFit(rows, parts * d, d, centroids * (parts * d)) && centroids * (parts * d) <= (parts * d) * 256
  {
    forall i | 0 <= i < |rows| ensures Place(parts * d, d, rows[i]) + d <= centroids * (parts * d) {
      RangeInBounds(parts, d, rows[i].part, rows[i].centroid, centroids);
    }
    if centroids < 256 {
      MulStep(centroids, 256, parts * d);
    }
  }

  /** The scan loop: each row's vector is copied to its place. */
  method CopyRows(rows: seq<CodeRow>, flat: array<real>, dimensions: nat,
                  ghost parts: nat, ghost centroids: nat, ghost d: nat, ghost end: nat)
    returns (rowCount: nat, subvectorDim: nat)
    requires Complete(rows, parts, centroids, d) && dimensions == parts * d
    requires RowsFit(rows, dimensions, d, end) && end <= flat.Length
    requires forall k :: end <= k < flat.Length ==> flat[k] == 0.0
    modifies flat
    ensures rowCount == |rows| && (rows != [] ==> subvectorDim == d)
    ensures forall i :: 0 <= i < |rows| ==> RowWritten(flat[..], dimensions, d, rows[i])
    ensures forall k :: end <= k < flat.Length ==> flat[k] == 0.0
  {
    hide RowWritten, Slot, Complete, Key, Place;
    rowCount, subvectorDim := 0, 0;
    for i := 0 to |rows|
      invariant rowCount == i && (i > 0 ==> subvectorDim == d)
      invariant forall j :: 0 <= j < i ==> RowWritten(flat[..], dimensions, d, rows[j])
      invariant forall k :: end <= k < flat.Length ==> flat[k] == 0.0
    {
      subvectorDim := |rows[i].vector|;
      rowCount := rowCount + 1;
      ghost var before := flat[..];
      var at := Place(dimensions, subvectorDim, rows[i]);
      Copy(flat, at, rows[i].vector);
      RowsAfterCopy(rows, before, flat[..], parts, centroids, d, i, at);
    }
  }

  /** The counts derived from the number of rows and the last row's dimension. */
  method Counts(rowCount: nat, dimensions: nat, d: nat, ghost parts: nat, ghost centroids: nat)
    returns (numParts: nat, numCentroids: nat)
    requires d >= 1 && parts >= 1 && dimensions == parts * d && rowCount == parts * centroids
    ensures numParts == parts && numCentroids == centroids
  {
    PartsOf(dimensions, d, parts);
    numParts := dimensions / d;
    PartsOf(rowCount, numParts, centroids);
    numCentroids := rowCount / numParts;
  }

  lemma {:induction false} RowsAfterCopy(rows: seq<CodeRow>, before: seq<real>, after: seq<real>,
                                         parts: nat, centroids: nat, d: nat, i: nat, at: nat)
    requires Complete(rows, parts, centroids, d) && i < |rows| && |after| == |before|
    requires at == Place(parts * d, d, rows[i]) && at + d <= |after|
    requires forall j :: 0 <= j < i ==> RowWritten(before, parts * d, d, rows[j])
    requires |rows[i].vector| == d
    requires forall u :: 0 <= u < d ==> after[at + u] == rows[i].vector[u]
    requires forall k :: 0 <= k < |before| && !(at <= k < at + d) ==> after[k] == before[k]
    ensures forall j :: 0 <= j < i + 1 ==> RowWritten(after, parts * d, d, rows[j])
  {
    hide RowWritten;
    WrittenFrom(after, parts * d, d, rows[i], at);
    forall j | 0 <= j < i ensures RowWritten(after, parts * d, d, rows[j]) {
      OthersStay(before, after, parts, d, rows[j], rows[i], at);
    }
  }

  lemma {:induction false} SomeRow(rows: seq<CodeRow>, parts: nat, centroids: nat)
    requires |rows| == parts * centroids && parts >= 1 && centroids >= 1
    ensures |rows| > 0
  {
  }

  lemma {:induction false} PartsOf(product: nat, a: nat, b: nat)
    requires a >= 1 && product == a * b
    ensures product / a == b && (product / a) * a == product
  {
    var q, r := product / a, product % a;
    assert product == a * q + r;
    assert a * q == q * a && a * b == b * a;
    if q < b {
      MulStep(q, b, a);
    }
    if b < q {
      MulStep(b, q, a);
    }
  }

  lemma {:induction false} OthersStay(before: seq<real>, after: seq<real>, parts: nat, d: nat, r: CodeRow, q: CodeRow, at: nat)
    requires RowWritten(before, parts * d, d, r) && |after| == |before|
    requires r.part < parts && q.part < parts && Key(r) != Key(q) && |q.vector| == d
    requires at == q.centroid * (parts * d) + q.part * d
    requires forall i :: 0 <= i < |before| && !(at <= i < at + d) ==> after[i] == before[i]
    ensures RowWritten(after, parts * d, d, r)
  {
    hide Slot;
    forall t | 0 <= t < d
      ensures Slot(parts * d, d, r.part, r.centroid, t) < |after|
      ensures after[Slot(parts * d, d, r.part, r.centroid, t)] == r.vector[t]
    {
      var i := Slot(parts * d, d, r.part, r.centroid, t);
      assert i < |before| && before[i] == r.vector[t];
      OutsideRange(parts, d, r, t, q, at);
    }
  }

  lemma {:induction false} OutsideRange(parts: nat, d: nat, r: CodeRow, t: nat, q: CodeRow, at: nat)
    requires r.part < parts && q.part < parts && Key(r) != Key(q) && t < d
    requires at == q.centroid * (parts * d) + q.part * d
    ensures var i := Slot(parts * d, d, r.part, r.centroid, t); i < at || at + d <= i
  {
    RangesApart(parts, d, r.part, r.centroid, q.part, q.centroid);
  }

  lemma {:induction false} Decompose(k: nat, n: nat, m: nat) returns (q: nat, r: nat)
    requires k < n * m && m >= 1
    ensures q < n && r < m && k == q * m + r
  {
    q, r := k / m, k % m;
    assert k == m * q + r && m * q == q * m;
    if n < q {
      MulStep(n, q, m);
    }
  }

  /** Every entry before the last centroid's end belongs to some row. */
  lemma {:induction false} EntryOfRow(rows: seq<CodeRow>, parts: nat, centroids: nat, d: nat, k: nat) returns (i: nat, t: nat)
    requires Complete(rows, parts, centroids, d) && parts >= 1 && d >= 1 && k < centroids * (parts * d)
    ensures i < |rows| && t < d == |rows[i].vector| && k == Slot(parts * d, d, rows[i].part, rows[i].centroid, t)
  {
    MulStep(0, parts, d);
    var c, rest := Decompose(k, centroids, parts * d);
    var s;
    s, t := Decompose(rest, parts, d);
    assert exists i :: 0 <= i < |rows| && Key(rows[i]) == (s, c);
    i :| 0 <= i < |rows| && Key(rows[i]) == (s, c);
  }

  /** Entry c * D + s * d + t of the array is element t of centroid c of part s. */
  lemma {:induction false} EntryIs(flat: seq<real>, rows: seq<CodeRow>, parts: nat, centroids: nat, d: nat, i: nat, t: nat)
    requires Loaded(flat, rows, parts, centroids, d) && i < |rows| && t < d
    ensures |rows[i].vector| == d
    ensures var at := rows[i].centroid * (parts * d) + rows[i].part * d + t;
      at < |flat| && flat[at] == rows[i].vector[t]
  {
    var r := rows[i];
    assert RowWritten(flat, parts * d, d, r);
    assert Slot(parts * d, d, r.part, r.centroid, t) == r.centroid * (parts * d) + r.part * d + t;
  }

  /** Loads of one complete table in any two orders give the same array. */
  lemma {:induction false} OrderDoesNotMatter(rows: seq<CodeRow>, rows': seq<CodeRow>, flat: seq<real>, flat': seq<real>,
                                              parts: nat, centroids: nat, d: nat)
    requires Complete(rows, parts, centroids, d) && parts >= 1 && d >= 1 && multiset(rows) == multiset(rows')
    requires Loaded(flat, rows, parts, centroids, d) && Loaded(flat', rows', parts, centroids, d)
    ensures flat == flat'
  {
    hide Slot, Complete;
    forall k | 0 <= k < |flat| ensures flat[k] == flat'[k] {
      if k < centroids * (parts * d) {
        var i, t := EntryOfRow(rows, parts, centroids, d, k);
        assert rows[i] in multiset(rows');
        var j :| 0 <= j < |rows'| && rows'[j] == rows[i];
        assert RowWritten(flat, parts * d, d, rows[i]) && RowWritten(flat', parts * d, d, rows'[j]);
      }
    }
  }

  // ----- the quantizer's map

  ghost predicate SortedByCentroid(rows: seq<CodeRow>) {
    forall i, j :: 0 <= i < j < |rows| ==> rows[i].centroid <= rows[j].centroid
  }

  function PartLength(m: map<nat, seq<Point>>, s: nat): nat {
    if s in m then |m[s]| else 0
  }

  /** The map holds exactly the rows read so far, each at its centroid id. */
  ghost predicate MapHolds(m: map<nat, seq<Point>>, rows: seq<CodeRow>, n: nat)
    requires n <= |rows|
  {
    && (forall i :: 0 <= i < n ==> rows[i].part in m && rows[i].centroid < |m[rows[i].part]|
                                   && m[rows[i].part][rows[i].centroid] == rows[i].vector)
    && (forall s :: s in m ==> |m[s]| > 0)
    && (forall s, c :: s in m && 0 <= c < |m[s]| ==> HasRow(rows, n, s, c))
  }

  ghost predicate HasRow(rows: seq<CodeRow>, n: nat, s: nat, c: nat)
    requires n <= |rows|
  {
    exists i :: 0 <= i < n && Key(rows[i]) == (s, c)
  }

  /** Each row's insert position is the current end of its part: no earlier centroid is missing and
      none is there twice. */
  lemma {:induction false} InsertsAtEnd(m: map<nat, seq<Point>>, rows: seq<CodeRow>, n: nat, parts: nat, centroids: nat, d: nat)
    requires Complete(rows, parts, centroids, d) && SortedByCentroid(rows) && n < |rows| && MapHolds(m, rows, n)
    ensures rows[n].centroid == PartLength(m, rows[n].part)
  {
    var s, c, len := rows[n].part, rows[n].centroid, PartLength(m, rows[n].part);
    assert forall i :: 0 <= i < n ==> Key(rows[i]) != Key(rows[n]);
    assert !HasRow(rows, n, s, c);
    assert c >= len;
    var i :| 0 <= i < |rows| && Key(rows[i]) == (s, len);
    assert i >= n;
  }

  /** Vec::insert shifts what is behind the position; here nothing is. */
  function InsertAt(v: seq<Point>, at: nat, x: Point): seq<Point>
    requires at <= |v|
  {
    v[..at] + [x] + v[at..]
  }

  method BuildMap(rows: seq<CodeRow>, parts: nat, ghost centroids: nat, ghost d: nat) returns (m: map<nat, seq<Point>>)
    requires Complete(rows, parts, centroids, d) && SortedByCentroid(rows) && centroids >= 1
    ensures MapHolds(m, rows, |rows|)
    ensures forall s: nat :: s in m <==> s < parts
    ensures forall s :: s in m ==> |m[s]| == centroids
  {
    hide Complete;
    m := map[];
    for i := 0 to |rows|
      invariant MapHolds(m, rows, i)
    {
      InsertsAtEnd(m, rows, i, parts, centroids, d);
      var before := if rows[i].part in m then m[rows[i].part] else [];
      MapGrows(m, rows, i, before);
      m := m[rows[i].part := InsertAt(before, rows[i].centroid, rows[i].vector)];
    }
    MapIsComplete(m, rows, parts, centroids, d);
  }

  lemma {:induction false} MapGrows(m: map<nat, seq<Point>>, rows: seq<CodeRow>, n: nat, before: seq<Point>)
    requires n < |rows| && MapHolds(m, rows, n)
    requires before == if rows[n].part in m then m[rows[n].part] else []
    requires rows[n].centroid == |before|
    ensures MapHolds(m[rows[n].part := InsertAt(before, rows[n].centroid, rows[n].vector)], rows, n + 1)
  {
    var s := rows[n].part;
    var list := InsertAt(before, |before|, rows[n].vector);
    assert list == before + [rows[n].vector];
    var m' := m[s := list];
    var size := n + 1;
    forall p, c | p in m' && 0 <= c < |m'[p]| ensures HasRow(rows, size, p, c) {
      if p == s && c == |before| {
        assert Key(rows[n]) == (p, c);
      } else {
        assert p in m && c < |m[p]| && HasRow(rows, n, p, c);
        var i :| 0 <= i < n && Key(rows[i]) == (p, c);
      }
    }
  }

  lemma {:induction false} MapIsComplete(m: map<nat, seq<Point>>, rows: seq<CodeRow>, parts: nat, centroids: nat, d: nat)
    requires Complete(rows, parts, centroids, d) && MapHolds(m, rows, |rows|) && centroids >= 1
    ensures forall s: nat :: s in m <==> s < parts
    ensures forall s :: s in m ==> |m[s]| == centroids
  {
    forall s: nat | s < parts ensures s in m && |m[s]| >= centroids {
      var i :| 0 <= i < |rows| && Key(rows[i]) == (s, centroids - 1);
    }
    forall s | s in m ensures s < parts && |m[s]| <= centroids {
      assert HasRow(rows, |rows|, s, 0);
      var i :| 0 <= i < |rows| && Key(rows[i]) == (s, 0);
      assert forall k :: 0 <= k < |rows| ==> Key(rows[k]) != (s, centroids);
      assert !HasRow(rows, |rows|, s, centroids);
    }
  }
}
