/**
 The index scan: batches of labels fetched from the graph search, emitted one per call, with
 the label 0 of deleted nodes skipped.
 */
module Scan {
  import opened Basics
  import opened NodeLayout

  const STREAM_LIMIT: nat := 1000

  /** The labels a scan may emit. */
  function Live(labels: seq<nat>): seq<nat> {
    if labels == [] then []
    else (if labels[0] == INVALID_LABEL then [] else [labels[0]]) + Live(labels[1..])
  }

  lemma {:induction false} LiveConcat(a: seq<nat>, b: seq<nat>)
    ensures Live(a + b) == Live(a) + Live(b)
  {
    if a == [] {
      assert a + b == b;
    } else {
      LiveConcat(a[1..], b);
      assert (a + b)[1..] == a[1..] + b && (a + b)[0] == a[0];
      var x := if a[0] == INVALID_LABEL then [] else [a[0]];
      assert Live(a + b) == x + (Live(a[1..]) + Live(b));
    }
  }

  /** Emitted labels are labels of the search, and never the deleted mark. */
  lemma {:induction false} LiveMeans(labels: seq<nat>, x: nat)
    ensures x in Live(labels) <==> x != INVALID_LABEL && x in labels
  {
    if labels != [] {
      LiveMeans(labels[1..], x);
      assert labels == [labels[0]] + labels[1..];
    }
  }

  /** The label lists put one after another. */
  ghost function Joined(batches: seq<seq<nat>>): seq<nat> {
    if batches == [] then [] else batches[0] + Joined(batches[1..])
  }

  // ----- the search

  /** The batch a search answers call n with: at most the k labels asked for, and nothing once it has no
      more. Any finite list of answers is a search, so nothing is said of their order or number. */
  function Batch(answers: seq<seq<nat>>, n: nat, k: nat): (b: seq<nat>)
    ensures |b| <= k
  {
    if n < |answers| then answers[n][..Min(k, |answers[n]|)] else []
  }

  class Search {
    const answers: seq<seq<nat>>
    const size: nat
    var calls: nat

    constructor (answers: seq<seq<nat>>, size: nat)
      ensures this.answers == answers && this.size == size && calls == 0
    {
      this.answers, this.size, calls := answers, size, 0;
    }

    method Next(k: nat) returns (labels: seq<nat>)
      modifies this`calls
      ensures labels == Batch(answers, old(calls), k) && calls == old(calls) + 1
    {
      labels := Batch(answers, calls, k);
      calls := calls + 1;
    }
  }

  // ----- what a scan emits

  /** The batches after which a scan asks for no more. `size` is the number of nodes in the index. */
  ghost predicate Stops(batch: seq<nat>, size: nat) {
    batch == [] || batch[|batch| - 1] == INVALID_LABEL || |batch| >= STREAM_LIMIT || |batch| == size
  }

  /** The number of labels call j asks for. */
  ghost function Asked(batches: seq<seq<nat>>, j: nat, k: nat): nat
    requires j <= |batches|
  {
    if j == 0 then k else 2 * |batches[j - 1]|
  }

  /** The batches of a scan: each at most twice as long as the one before, the last the first that stops it. */
  ghost predicate IsScan(answers: seq<seq<nat>>, size: nat, initK: nat, batches: seq<seq<nat>>) {
    && batches != []
    && (forall j :: 0 <= j < |batches| ==> batches[j] == Batch(answers, j, Asked(batches, j, initK)))
    && (forall j :: 0 <= j < |batches| ==> (Stops(batches[j], size) <==> j == |batches| - 1))
  }

  /** The batches from call n on, which asks for k labels. */
  ghost function Fetched(answers: seq<seq<nat>>, size: nat, n: nat, k: nat): (batches: seq<seq<nat>>)
    ensures batches != []
    decreases if n < |answers| then |answers| - n else 0
  {
    var batch := Batch(answers, n, k);
    if Stops(batch, size) then [batch] else [batch] + Fetched(answers, size, n + 1, 2 * |batch|)
  }

  ghost function Emitted(answers: seq<seq<nat>>, size: nat, n: nat, k: nat): seq<nat> {
    Live(Joined(Fetched(answers, size, n, k)))
  }

  /** What follows a batch when the next call is call n. */
  ghost function Later(answers: seq<seq<nat>>, size: nat, n: nat, batch: seq<nat>): seq<nat> {
    if Stops(batch, size) then [] else Emitted(answers, size, n, 2 * |batch|)
  }

  lemma {:induction false} EmittedNow(answers: seq<seq<nat>>, size: nat, n: nat, k: nat)
    ensures var batch := Batch(answers, n, k);
      Emitted(answers, size, n, k) == Live(batch) + Later(answers, size, n + 1, batch)
  {
    hide Live, Stops, Batch;
    var batch := Batch(answers, n, k);
    var batches := Fetched(answers, size, n, k);
    if Stops(batch, size) {
      assert batches[1..] == [];
      assert Joined(batches) == batch + [] == batch;
    } else {
      var more := Fetched(answers, size, n + 1, 2 * |batch|);
      assert batches[1..] == more;
      LiveConcat(batch, Joined(more));
    }
  }

  /** The recursion gives the batches of the scan. */
  lemma {:induction false} FetchedFrom(answers: seq<seq<nat>>, size: nat, n: nat, k: nat, j: nat)
    requires j < |Fetched(answers, size, n, k)|
    ensures var bs := Fetched(answers, size, n, k);
      && bs[j] == Batch(answers, n + j, Asked(bs, j, k))
      && (Stops(bs[j], size) <==> j == |bs| - 1)
    decreases j
  {
    hide Stops, Batch;
    var bs, batch := Fetched(answers, size, n, k), Batch(answers, n, k);
    if j > 0 {
      var more := Fetched(answers, size, n + 1, 2 * |batch|);
      FetchedFrom(answers, size, n + 1, 2 * |batch|, j - 1);
      assert bs == [batch] + more;
      assert Asked(bs, j, k) == Asked(more, j - 1, 2 * |batch|);
    }
  }

  lemma {:induction false} FetchedIsScan(answers: seq<seq<nat>>, size: nat, initK: nat)
    ensures IsScan(answers, size, initK, Fetched(answers, size, 0, initK))
  {
    hide Stops, Fetched, Batch, Asked;
    var bs := Fetched(answers, size, 0, initK);
    forall j | 0 <= j < |bs|
      ensures bs[j] == Batch(answers, j, Asked(bs, j, initK)) && (Stops(bs[j], size) <==> j == |bs| - 1)
    {
      FetchedFrom(answers, size, 0, initK, j);
    }
  }

  /** A scan ends with its first batch that is empty, ends with a tombstone, has 1000 labels or as many as the
      index has nodes. */
  lemma {:induction false} ScanEndsExactly(answers: seq<seq<nat>>, size: nat, initK: nat, batches: seq<seq<nat>>, j: nat)
    requires IsScan(answers, size, initK, batches) && j < |batches|
    ensures j == |batches| - 1 <==>
      |batches[j]| == 0 || batches[j][|batches[j]| - 1] == 0 || |batches[j]| >= 1000 || |batches[j]| == size
  {
    assert Stops(batches[j], size) <==> j == |batches| - 1;
  }

  class ScanState {
    const search: Search
    const initK: nat
    var first: bool
    var current: nat
    var labels: seq<nat>
    ghost var ended: bool

    constructor (search: Search, initK: nat)
      requires search.calls == 0
      ensures Valid() && !ended && this.search == search && this.initK == initK
      ensures Rest() == Emitted(search.answers, search.size, 0, initK)
    {
      this.search, this.initK, first, current, labels := search, initK, true, 0, [];
      ended := false;
    }

    ghost predicate Valid()
      reads this, search
    {
      && current <= |labels|
      && (first ==> search.calls == 0)
      && (!ended && 0 < current == |labels| ==> labels[current - 1] != INVALID_LABEL)
    }

    /** The labels the calls from here on will emit. */
    ghost function Rest(): seq<nat>
      requires Valid()
      reads this, search
    {
      if first then Emitted(search.answers, search.size, 0, initK)
      else Live(labels[current..]) + Later(search.answers, search.size, search.calls, labels)
    }

    /** ldb_amgettuple. Once it has answered None the executor does not call it again. */
    method GetTuple() returns (result: Option<nat>)
      requires Valid() && !ended
      modifies this`first, this`current, this`labels, this`ended, search`calls
      ensures Valid() && (ended <==> result == None)
      ensures old(Rest()) == [] ==> result == None
      ensures old(Rest()) != [] ==> result == Some(old(Rest())[0]) && Rest() == old(Rest())[1..]
    {
      hide Live, Emitted, Later, Stops, Valid, Rest;
      if first {
        FetchFirst();
      }
      if current == |labels| {
        var more := FetchMore();
        if !more {
          return None;
        }
      }
      result := EmitNext();
    }

    /** The first search of a scan. */
    method FetchFirst()
      requires Valid() && first && !ended
      modifies this`first, this`current, this`labels, search`calls
      ensures Valid() && !first && Rest() == old(Rest())
    {
      hide Live, Emitted, Later, Stops, Batch;
      EmittedNow(search.answers, search.size, 0, initK);
      labels := search.Next(initK);
      current, first := 0, false;
      assert labels[0..] == labels;
    }

    /** The next streaming search, unless the scan stops here. */
    method FetchMore() returns (more: bool)
      requires Valid() && !first && !ended && current == |labels|
      modifies this`current, this`labels, this`ended, search`calls
      ensures Valid() && !first && ended == !more
      ensures more ==> Rest() == old(Rest()) && (current == |labels| ==> labels == [])
      ensures !more ==> old(Rest()) == []
    {
      hide Live, Emitted, Later, Stops, Batch;
      assert labels[current..] == [];
      NothingLeft(search.answers, search.size, search.calls, labels);
      if |labels| >= STREAM_LIMIT || search.size == current {
        ended := true;
        return false;
      }
      var k := 2 * |labels|;
      LaterIs(search.answers, search.size, search.calls, labels);
      EmittedNow(search.answers, search.size, search.calls, k);
      labels := search.Next(k);
      current := 0;
      NothingLeft(search.answers, search.size, search.calls, labels);
      assert labels[0..] == labels;
      return true;
    }

    /** The loop over the batch: skip deleted labels, return the first live one. */
    method EmitNext() returns (result: Option<nat>)
      requires Valid() && !first && !ended && (current == |labels| ==> labels == [])
      modifies this`current, this`ended
      ensures Valid() && (ended <==> result == None)
      ensures old(Rest()) == [] ==> result == None
      ensures old(Rest()) != [] ==> result == Some(old(Rest())[0]) && Rest() == old(Rest())[1..]
    {
      hide Live, Emitted, Later, Stops;
      ghost var start := current;
      NothingLeft(search.answers, search.size, search.calls, labels);
      ghost var later := Later(search.answers, search.size, search.calls, labels);
      while current < |labels|
        invariant !ended && start <= current <= |labels| && Live(labels[current..]) == Live(labels[start..])
        invariant current == |labels| && labels != [] ==> labels[|labels| - 1] == INVALID_LABEL
      {
        var next := labels[current];
        LiveStep(labels, current);
        current := current + 1;
        if next != INVALID_LABEL {
          ghost var tail := Live(labels[current..]) + later;
          assert old(Rest()) == [next] + tail;
          assert Rest() == tail;
          return Some(next);
        }
      }
      assert labels[current..] == [];
      ended := true;
      return None;
    }
  }

  lemma {:induction false} NothingLeft(answers: seq<seq<nat>>, size: nat, n: nat, labels: seq<nat>)
    ensures labels == [] || labels[|labels| - 1] == INVALID_LABEL || |labels| >= STREAM_LIMIT || |labels| == size
            ==> Later(answers, size, n, labels) == []
    ensures Live(labels[|labels|..]) == []
  {
  }

  lemma {:induction false} LiveStep(labels: seq<nat>, i: nat)
    requires i < |labels|
    ensures Live(labels[i..]) == (if labels[i] == INVALID_LABEL then [] else [labels[i]]) + Live(labels[i + 1..])
  {
    assert labels[i..][1..] == labels[i + 1..];
  }

  /** After an empty batch the code asks for 0 labels, which is as good as stopping. */
  lemma {:induction false} LaterIs(answers: seq<seq<nat>>, size: nat, n: nat, labels: seq<nat>)
    requires |labels| < STREAM_LIMIT && |labels| != size
    requires labels != [] ==> labels[|labels| - 1] != INVALID_LABEL
    ensures Later(answers, size, n, labels) == Emitted(answers, size, n, 2 * |labels|)
  {
    if labels == [] {
      EmittedNow(answers, size, n, 0);
      assert Batch(answers, n, 0) == [];
    }
  }

  /** The executor's loop: call until None. A scan emits the live labels of its batches, in order. */
  method Drain(search: Search, initK: nat) returns (out: seq<nat>, ghost batches: seq<seq<nat>>)
    requires search.calls == 0
    modifies search`calls
    ensures IsScan(search.answers, search.size, initK, batches) && out == Live(Joined(batches))
  {
    hide *;
    var scan := new ScanState(search, initK);
    ghost var all := scan.Rest();
    batches := Fetched(search.answers, search.size, 0, initK);
    FetchedIsScan(search.answers, search.size, initK);
    EmittedIs(search.answers, search.size, 0, initK);
    out := [];
    while true
      invariant scan.Valid() && !scan.ended && fresh(scan) && scan.search == search
      invariant out + scan.Rest() == all
      decreases |scan.Rest()|
    {
      var result := scan.GetTuple();
      if result == None {
        return;
      }
      out := out + [result.value];
    }
  }

  lemma {:induction false} EmittedIs(answers: seq<seq<nat>>, size: nat, n: nat, k: nat)
    ensures Emitted(answers, size, n, k) == Live(Joined(Fetched(answers, size, n, k)))
  {
  }

  // ----- a search that ranks the whole index

  function Pow2(j: nat): (p: nat)
    ensures p >= 1
  {
    if j == 0 then 1 else 2 * Pow2(j - 1)
  }

  /** Where batch j of full batches begins. */
  function Cut(initK: nat, j: nat): nat {
    initK * (Pow2(j) - 1)
  }

  lemma {:induction false} CutNext(initK: nat, j: nat)
    ensures Cut(initK, 0) == 0 && Cut(initK, j + 1) == Cut(initK, j) + initK * Pow2(j)
    ensures initK * Pow2(j + 1) == 2 * (initK * Pow2(j))
  {
    assert Pow2(j + 1) == 2 * Pow2(j);
    assert initK * (2 * Pow2(j) - 1) == initK * (Pow2(j) - 1) + initK * Pow2(j);
  }

  lemma {:induction false} CutGrows(initK: nat, i: nat, j: nat)
    requires i <= j
    ensures Cut(initK, i) <= Cut(initK, j) && initK * Pow2(i) <= initK * Pow2(j)
    decreases j
  {
    hide Cut;
    if i < j {
      CutGrows(initK, i, j - 1);
      CutNext(initK, j - 1);
    }
  }

  /** Every answer goes on in the ranking where the last ended and is as long as asked, while labels are left. */
  ghost predicate Ranks(r: seq<nat>, initK: nat, batches: seq<seq<nat>>) {
    forall j :: 0 <= j < |batches| ==> RanksAt(r, initK, batches, j)
  }

  ghost predicate RanksAt(r: seq<nat>, initK: nat, batches: seq<seq<nat>>, j: nat)
    requires j < |batches|
  {
    var from := |Joined(batches[..j])|;
    from <= |r| && batches[j] == r[from..from + Min(Asked(batches, j, initK), |r| - from)]
  }

  lemma {:induction false} JoinedNext(batches: seq<seq<nat>>, j: nat)
    requires j < |batches|
    ensures Joined(batches[..j + 1]) == Joined(batches[..j]) + batches[j]
    decreases j
  {
    if j == 0 {
      assert batches[..1][1..] == [] && batches[..0] == [];
      assert Joined(batches[..1]) == batches[0] + [];
    } else {
      var rest := batches[1..];
      JoinedNext(rest, j - 1);
      assert batches[..j + 1][1..] == rest[..j] && batches[..j][1..] == rest[..j - 1];
    }
  }

  /** Labels initK * (2^j - 1) to initK * (2^(j+1) - 1) of the ranking, cut at its end. */
  function Piece(r: seq<nat>, initK: nat, j: nat): seq<nat> {
    CutNext(initK, j);
    r[Min(Cut(initK, j), |r|)..Min(Cut(initK, j + 1), |r|)]
  }

  /** Batch j of a ranking runs from initK * (2^j - 1) to initK * (2^(j+1) - 1), cut at its end. */
  lemma {:induction false} BatchesOfRanking(r: seq<nat>, initK: nat, batches: seq<seq<nat>>, j: nat)
    requires Ranks(r, initK, batches) && j <= |batches|
    ensures Joined(batches[..j]) == r[..Min(Cut(initK, j), |r|)]
    ensures j < |batches| ==> batches[j] == Piece(r, initK, j)
    decreases j
  {
    hide Cut, Pow2, Joined, Piece;
    assert j < |batches| ==> RanksAt(r, initK, batches, j);
    if j == 0 {
      NoBatches(batches);
      FirstCut(initK);
      FirstPiece(r, initK);
    } else {
      BatchesOfRanking(r, initK, batches, j - 1);
      JoinedNext(batches, j - 1);
      NextPiece(r, initK, j);
    }
  }

  lemma {:induction false} FirstPiece(r: seq<nat>, initK: nat)
    ensures Piece(r, initK, 0) == r[0..Min(initK, |r|)]
  {
    hide Cut;
    FirstCut(initK);
  }

  /** A piece ends where the next begins, and the next is twice as long while labels are left. */
  lemma {:induction false} NextPiece(r: seq<nat>, initK: nat, j: nat)
    requires j > 0
    ensures var from := Min(Cut(initK, j), |r|);
      && r[..Min(Cut(initK, j - 1), |r|)] + Piece(r, initK, j - 1) == r[..from]
      && Piece(r, initK, j) == r[from..from + Min(2 * |Piece(r, initK, j - 1)|, |r| - from)]
  {
    hide Cut, Pow2;
    CutNext(initK, j - 1);
    CutNext(initK, j);
    var a, b := Min(Cut(initK, j - 1), |r|), Min(Cut(initK, j), |r|);
    assert Piece(r, initK, j - 1) == r[a..b];
    assert r[..a] + r[a..b] == r[..b];
  }

  lemma {:induction false} NoBatches(batches: seq<seq<nat>>)
    ensures Joined(batches[..0]) == []
  {
  }

  lemma {:induction false} FirstCut(initK: nat)
    ensures Cut(initK, 0) == 0 && Cut(initK, 1) == initK
  {
    assert Pow2(1) == 2 * Pow2(0);
  }

  /** A scan of a ranking emits the live labels up to the end of its last batch. It emits every live label
      if and only if only tombstones follow that batch, the first that ends with a tombstone, is empty,
      reaches the streaming limit or is the whole index. */
  lemma {:induction false} ScanReach(r: seq<nat>, answers: seq<seq<nat>>, initK: nat, batches: seq<seq<nat>>)
    requires IsScan(answers, |r|, initK, batches) && Ranks(r, initK, batches)
    ensures var stop := Min(Cut(initK, |batches|), |r|);
      && Live(Joined(batches)) == Live(r[..stop])
      && (Live(Joined(batches)) == Live(r) <==> forall i :: stop <= i < |r| ==> r[i] == INVALID_LABEL)
    ensures forall j :: 0 <= j < |batches| ==> (Stops(Piece(r, initK, j), |r|) <==> j == |batches| - 1)
  {
    hide Cut, Joined, Live, Stops, Piece;
    var stop := Min(Cut(initK, |batches|), |r|);
    BatchesOfRanking(r, initK, batches, |batches|);
    assert batches[..|batches|] == batches;
    forall j | 0 <= j < |batches|
      ensures Stops(Piece(r, initK, j), |r|) <==> j == |batches| - 1
    {
      BatchesOfRanking(r, initK, batches, j);
    }
    OnlyTombstonesFollow(r, stop);
  }

  lemma {:induction false} OnlyTombstonesFollow(r: seq<nat>, stop: nat)
    requires stop <= |r|
    ensures Live(r[..stop]) == Live(r) <==> forall i :: stop <= i < |r| ==> r[i] == INVALID_LABEL
  {
    hide Live;
    LiveConcat(r[..stop], r[stop..]);
    assert r[..stop] + r[stop..] == r;
    if Live(r[stop..]) == [] {
      forall i | stop <= i < |r| ensures r[i] == INVALID_LABEL {
        LiveMeans(r[stop..], r[i]);
        assert r[stop..][i - stop] == r[i];
      }
    } else {
      var x := Live(r[stop..])[0];
      LiveMeans(r[stop..], x);
      var i :| 0 <= i < |r[stop..]| && r[stop..][i] == x;
      assert r[stop + i] == x;
      assert |Live(r[..stop])| < |Live(r)|;
    }
  }

  /** One deleted node at the end of a batch hides every node behind it. */
  lemma {:induction false} DeletedBatchEndHidesRest()
    ensures var r, batches := [5, 0, 7], [[5, 0]];
      IsScan([[5, 0], [7]], 3, 2, batches) && Ranks(r, 2, batches) && Live(Joined(batches)) == [5] && Live(r) == [5, 7]
  {
    var r, batches := [5, 0, 7], [[5, 0]];
    assert batches[..0] == [] && batches[1..] == [] && r[0..2] == [5, 0];
    forall j | 0 <= j < |batches| ensures RanksAt(r, 2, batches, j) {
      assert j == 0 && batches[..j] == [];
    }
    assert [5, 0][..2] == [5, 0] && Batch([[5, 0], [7]], 0, 2) == [5, 0];
    assert Joined(batches) == [5, 0] + [] == [5, 0];
    assert [5, 0][1..] == [0] && [0][1..] == [];
    assert Live([0]) == [] && Live([5, 0]) == [5];
    assert r[1..] == [0, 7] && [0, 7][1..] == [7] && [7][1..] == [];
    assert Live([7]) == [7] && Live([0, 7]) == [7];
  }

  /** Without tombstones a scan reaches the whole ranking if and only if the ranking is no longer than the
      batches through batch m, the first of at least 1000 labels. */
  lemma {:induction false} UndeletedScanIsComplete(r: seq<nat>, answers: seq<seq<nat>>, initK: nat,
                                                   batches: seq<seq<nat>>, m: nat)
    requires IsScan(answers, |r|, initK, batches) && Ranks(r, initK, batches)
    requires forall i :: 0 <= i < |r| ==> r[i] != INVALID_LABEL
    requires initK * Pow2(m) >= STREAM_LIMIT && (m > 0 ==> initK * Pow2(m - 1) < STREAM_LIMIT)
    ensures Joined(batches) == r <==> |r| <= initK * (Pow2(m + 1) - 1)
  {
    hide Cut, Joined, Live, Pow2, Stops, Piece;
    var last := |batches| - 1;
    ScanReach(r, answers, initK, batches);
    BatchesOfRanking(r, initK, batches, |batches|);
    assert batches[..|batches|] == batches;
    CutIs(initK, m + 1);
    var stop := Min(Cut(initK, last + 1), |r|);
    assert Joined(batches) == r[..stop];
    if |r| > Cut(initK, m + 1) {
      LongPieceStops(r, initK, m);
      CutGrows(initK, last + 1, m + 1);
    } else if last >= m {
      CutGrows(initK, m + 1, last + 1);
    } else {
      CutGrows(initK, last, m - 1);
      ShortPieceStops(r, initK, last);
    }
  }

  lemma {:induction false} LongPieceStops(r: seq<nat>, initK: nat, m: nat)
    requires |r| > Cut(initK, m + 1) && initK * Pow2(m) >= STREAM_LIMIT
    ensures Stops(Piece(r, initK, m), |r|)
  {
    hide Cut, Pow2;
    CutNext(initK, m);
  }

  lemma {:induction false} ShortPieceStops(r: seq<nat>, initK: nat, j: nat)
    requires initK > 0 && initK * Pow2(j) < STREAM_LIMIT && Stops(Piece(r, initK, j), |r|)
    requires forall i :: 0 <= i < |r| ==> r[i] != INVALID_LABEL
    ensures Cut(initK, j + 1) >= |r|
  {
    hide Cut, Pow2;
    CutNext(initK, j);
    Positive(initK, j);
  }

  lemma {:induction false} CutIs(initK: nat, j: nat)
    ensures Cut(initK, j) == initK * (Pow2(j) - 1)
  {
  }

  lemma {:induction false} Positive(initK: nat, j: nat)
    requires initK > 0
    ensures initK * Pow2(j) > 0
  {
  }
}
