/**
 Batching of embedding requests: inputs are truncated to the model's sequence length, packed greedily
 into requests of at most that many tokens, and the replies paired with the row ids again.
 */
module TokenGroups {
  import opened Basics

  type Tokens = seq<nat>
  type Group = seq<Tokens>

  function Total(g: Group): nat {
    if g == [] then 0 else Total(g[..|g| - 1]) + |g[|g| - 1]|
  }

  function Concat(groups: seq<Group>): Group {
    if groups == [] then [] else Concat(groups[..|groups| - 1]) + groups[|groups| - 1]
  }

  lemma {:induction false} TotalSnoc(g: Group, v: Tokens)
    ensures Total(g + [v]) == Total(g) + |v|
  {
    assert (g + [v])[..|g|] == g;
  }

  lemma {:induction false} ConcatSnoc(groups: seq<Group>, g: Group)
    ensures Concat(groups + [g]) == Concat(groups) + g
  {
    assert (groups + [g])[..|groups|] == groups;
  }

  // ----- how often the greedy loop opens a group

  /** Tokens in the current group after `input`, starting from `t`. */
  function After(input: Group, t: nat, max: nat): nat {
    if input == [] then t
    else
      var n := |input| - 1;
      var before := After(input[..n], t, max);
      if before + |input[n]| <= max then before + |input[n]| else |input[n]|
  }

  function Opened(input: Group, t: nat, max: nat): nat {
    if input == [] then 0
    else
      var n := |input| - 1;
      Opened(input[..n], t, max) + if After(input[..n], t, max) + |input[n]| <= max then 0 else 1
  }

  lemma {:induction false} OpenedConcat(a: Group, b: Group, t: nat, max: nat)
    ensures After(a + b, t, max) == After(b, After(a, t, max), max)
    ensures Opened(a + b, t, max) == Opened(a, t, max) + Opened(b, After(a, t, max), max)
    decreases |b|
  {
    if b == [] {
      assert a + b == a;
    } else {
      var n := |b| - 1;
      OpenedConcat(a, b[..n], t, max);
      assert (a + b)[..|a + b| - 1] == a + b[..n];
    }
  }

  /** Over inputs that together fit one group the loop opens at most one; from an empty group, none. */
  lemma {:induction false} OneGroupOpensOnce(g: Group, t: nat, max: nat)
    requires Total(g) <= max
    ensures Opened(g, t, max) <= 1
    ensures Opened(g, t, max) == 0 ==> After(g, t, max) == t + Total(g)
    ensures Opened(g, t, max) == 1 ==> After(g, t, max) <= Total(g)
    ensures t == 0 ==> Opened(g, t, max) == 0
    decreases |g|
  {
    if g != [] {
      OneGroupOpensOnce(g[..|g| - 1], t, max);
    }
  }

  lemma {:induction false} OpensAtMostPerGroup(groups: seq<Group>, t: nat, max: nat)
    requires forall i :: 0 <= i < |groups| ==> Total(groups[i]) <= max
    ensures Opened(Concat(groups), t, max) <= |groups|
    ensures t == 0 && groups != [] ==> Opened(Concat(groups), t, max) < |groups|
    decreases |groups|
  {
    hide Opened, After, Total;
    if groups == [] {
      NothingOpened(t, max);
    } else {
      var n := |groups| - 1;
      var rest, g := groups[..n], groups[n];
      OpensAtMostPerGroup(rest, t, max);
      OpenedConcat(Concat(rest), g, t, max);
      OneGroupOpensOnce(g, After(Concat(rest), t, max), max);
      if rest == [] {
        NothingOpened(t, max);
      }
    }
  }

  lemma {:induction false} NothingOpened(t: nat, max: nat)
    ensures Opened([], t, max) == 0 && After([], t, max) == t
  {
  }

  // ----- the code

  ghost predicate IsGrouping(groups: seq<Group>, input: Group) {
    Concat(groups) == input
  }

  ghost predicate AllNonempty(groups: seq<Group>) {
    forall i :: 0 <= i < |groups| ==> groups[i] != []
  }

  lemma {:induction false} NonemptySnoc(groups: seq<Group>, g: Group)
    ensures AllNonempty(groups + [g]) <==> AllNonempty(groups) && g != []
  {
    var all := groups + [g];
    assert all[|groups|] == g && forall i :: 0 <= i < |groups| ==> all[i] == groups[i];
  }

  /** The first input of every group but the first did not fit into the group before. */
  ghost predicate Greedy(groups: seq<Group>, max: nat) {
    forall i, j :: 0 <= i && j == i + 1 && j < |groups| ==> Overflows(groups[i], groups[j], max)
  }

  ghost predicate Overflows(g: Group, h: Group, max: nat) {
    h != [] && Total(g) + |h[0]| > max
  }

  lemma {:induction false} GreedyGrows(groups: seq<Group>, group: Group, v: Tokens, max: nat)
    requires Greedy(groups + [group], max) && (group != [] || groups == [])
    ensures Greedy(groups + [group + [v]], max)
    ensures Total(group) + |v| > max ==> Greedy(groups + [group] + [[v]], max)
  {
    hide Total;
    var a, b, c := groups + [group], groups + [group + [v]], groups + [group] + [[v]];
    forall i, j | 0 <= i && j == i + 1 && j < |b| ensures Overflows(b[i], b[j], max) {
      assert Overflows(a[i], a[j], max);
    }
    if Total(group) + |v| > max {
      forall i, j | 0 <= i && j == i + 1 && j < |c| ensures Overflows(c[i], c[j], max) {
        if j < |a| {
          assert Overflows(a[i], a[j], max);
        }
      }
    }
  }

  lemma {:induction false} OneIsGreedy(max: nat)
    ensures Greedy([] + [[]], max)
  {
  }

  lemma {:induction false} GreedyPrefix(groups: seq<Group>, group: Group, max: nat)
    requires Greedy(groups + [group], max)
    ensures Greedy(groups, max)
  {
    hide Total, Overflows;
    var a := groups + [group];
    forall i, j | 0 <= i && j == i + 1 && j < |groups| ensures Overflows(groups[i], groups[j], max) {
      assert Overflows(a[i], a[j], max);
    }
  }

  /** group_vectors_by_token_count. The groups concatenate to the input in order; a group is closed exactly when
      the next input does not fit; a first input longer than
      the limit, and nothing else, makes an empty group; and the number of groups is one more than the loop
      opens. */
  method GroupByTokenCount(input: Group, max: nat) returns (groups: seq<Group>)
    ensures IsGrouping(groups, input)
    ensures |groups| == if input == [] then 0 else 1 + Opened(input, 0, max)
    ensures Greedy(groups, max)
    ensures AllNonempty(groups) <==> (input == [] || |input[0]| <= max)
    ensures (forall i :: 0 <= i < |input| ==> |input[i]| <= max) ==>
              forall i :: 0 <= i < |groups| ==> Total(groups[i]) <= max
  {
    hide Total, Concat, Opened, After, Greedy;
    groups := [];
    var group: Group, count := [], 0;
    Start(max);
    OneIsGreedy(max);
    for i := 0 to |input|
      invariant Greedy(groups + [group], max)
      invariant count == Total(group) == After(input[..i], 0, max)
      invariant |groups| == Opened(input[..i], 0, max)
      invariant Concat(groups) + group == input[..i]
      invariant i > 0 ==> group != []
      invariant i > 0 ==> (AllNonempty(groups) <==> |input[0]| <= max)
      invariant i == 0 ==> groups == [] && group == []
      invariant (forall k :: 0 <= k < i ==> |input[k]| <= max) ==>
                  (forall k :: 0 <= k < |groups| ==> Total(groups[k]) <= max) && count <= max
    {
      Step(input, i, max);
      GreedyGrows(groups, group, input[i], max);
      if count + |input[i]| <= max {
        TotalSnoc(group, input[i]);
        group := group + [input[i]];
        count := count + |input[i]|;
      } else {
        ConcatSnoc(groups, group);
        NonemptySnoc(groups, group);
        TotalSnoc([], input[i]);
        assert [] + [input[i]] == [input[i]];
        groups := groups + [group];
        group := [input[i]];
        count := |input[i]|;
      }
      assert input[..i + 1] == input[..i] + [input[i]];
    }
    assert input[..|input|] == input;
    GreedyPrefix(groups, group, max);
    if group != [] {
      ConcatSnoc(groups, group);
      NonemptySnoc(groups, group);
      groups := groups + [group];
    }
  }

  lemma {:induction false} Start(max: nat)
    ensures After([], 0, max) == 0 && Opened([], 0, max) == 0 && Total([]) == 0 && Concat([]) == []
  {
  }

  lemma {:induction false} Step(input: Group, i: nat, max: nat)
    requires i < |input|
    ensures var t := After(input[..i], 0, max);
      if t + |input[i]| <= max then
        After(input[..i + 1], 0, max) == t + |input[i]| && Opened(input[..i + 1], 0, max) == Opened(input[..i], 0, max)
      else
        After(input[..i + 1], 0, max) == |input[i]| && Opened(input[..i + 1], 0, max) == Opened(input[..i], 0, max) + 1
  {
    assert input[..i + 1][..i] == input[..i];
  }

  /** No grouping that keeps the order and the limit has fewer groups than the greedy one. */
  lemma {:induction false} GreedyIsOptimal(input: Group, max: nat, other: seq<Group>)
    requires IsGrouping(other, input) && input != []
    requires forall i :: 0 <= i < |other| ==> Total(other[i]) <= max
    ensures 1 + Opened(input, 0, max) <= |other|
  {
    assert other != [];
    OpensAtMostPerGroup(other, 0, max);
  }

  // ----- requests and replies

  /** The tokens of an input that are sent: all of them, or the first `max`. */
  function Truncated(v: Tokens, max: nat): (r: Tokens)
    ensures r <= v && |r| == Min(|v|, max)
  {
    if |v| > max then v[..max] else v
  }

  function Mapped<E>(f: Tokens -> E, g: Group): (r: seq<E>)
    ensures |r| == |g| && forall i :: 0 <= i < |g| ==> r[i] == f(g[i])
  {
    seq(|g|, i requires 0 <= i < |g| => f(g[i]))
  }

  /** post_request with a service that answers each request with one embedding per input, in order: the
      collected embeddings are those of the truncated inputs, one each, in order, and every request is
      non-empty and within the limit. */
  method EmbedAll<E>(inputs: Group, max: nat, service: Tokens -> E) returns (embeddings: seq<E>)
    ensures |embeddings| == |inputs|
    ensures forall i :: 0 <= i < |inputs| ==> embeddings[i] == service(inputs[i][..Min(|inputs[i]|, max)])
  {
    hide Concat, Total, Opened;
    var tokens := seq(|inputs|, i requires 0 <= i < |inputs| => Truncated(inputs[i], max));
    var groups := GroupByTokenCount(tokens, max);
    embeddings := [];
    Start(max);
    for i := 0 to |groups|
      invariant embeddings == Mapped(service, Concat(groups[..i]))
    {
      assert groups[..i + 1] == groups[..i] + [groups[i]];
      ConcatSnoc(groups[..i], groups[i]);
      assert groups[i] != [] && Total(groups[i]) <= max;
      embeddings := embeddings + Mapped(service, groups[i]);
    }
    assert groups[..|groups|] == groups;
    forall i | 0 <= i < |inputs| ensures embeddings[i] == service(inputs[i][..Min(|inputs[i]|, max)]) {
      assert Truncated(inputs[i], max) == inputs[i][..Min(|inputs[i]|, max)];
    }
  }

  datatype Record<E> = Record(id: string, embedding: E)

  /** Both lists read from the end, as long as there are embeddings. */
  function Paired<E>(ids: seq<string>, embeddings: seq<E>): seq<Record<E>>
    requires |embeddings| <= |ids|
  {
    seq(|embeddings|, j requires 0 <= j < |embeddings| =>
      Record(ids[|ids| - 1 - j], embeddings[|embeddings| - 1 - j]))
  }

  datatype Pairs<E> = Panicked | Pairs(records: seq<Record<E>>)

  /** The pairing loop of embedding_worker: both lists are popped from the end, once per embedding, and
      popping an id when none is left panics. */
  method PairUp<E>(ids: seq<string>, embeddings: seq<E>) returns (r: Pairs<E>)
    ensures r.Panicked? <==> |embeddings| > |ids|
    ensures r.Pairs? ==> r.records == Paired(ids, embeddings)
  {
    var records: seq<Record<E>> := [];
    var idsLeft, embeddingsLeft := ids, embeddings;
    for k := 0 to |embeddings|
      invariant k <= |ids| && |records| == k
      invariant idsLeft == ids[..|ids| - k] && embeddingsLeft == embeddings[..|embeddings| - k]
      invariant forall j :: 0 <= j < k ==> records[j] == Record(ids[|ids| - 1 - j], embeddings[|embeddings| - 1 - j])
    {
      if idsLeft == [] {
        return Panicked;
      }
      records := records + [Record(idsLeft[|idsLeft| - 1], embeddingsLeft[|embeddingsLeft| - 1])];
      idsLeft, embeddingsLeft := idsLeft[..|idsLeft| - 1], embeddingsLeft[..|embeddingsLeft| - 1];
    }
    r := Pairs(records);
  }

  // ----- missing replies: `positions` stands for the embeddings, each the place of the input it answers

  ghost predicate IsRight(ids: seq<string>, r: Record<nat>) {
    r.embedding < |ids| && r.id == ids[r.embedding]
  }

  ghost predicate Answers(ids: seq<string>, positions: seq<nat>) {
    && |positions| <= |ids| && (forall i :: 0 <= i < |positions| ==> positions[i] < |ids|)
    && forall i, j :: 0 <= i < j < |ids| ==> ids[i] != ids[j]
  }

  /** A record is right exactly if its embedding answers the input as far from the end as it is itself. */
  lemma {:induction false} RecordIsRight(ids: seq<string>, positions: seq<nat>, j: nat)
    requires Answers(ids, positions) && j < |positions|
    ensures IsRight(ids, Paired(ids, positions)[j]) <==> positions[|positions| - 1 - j] == |ids| - 1 - j
  {
    var p := positions[|positions| - 1 - j];
    assert Paired(ids, positions)[j] == Record(ids[|ids| - 1 - j], p);
  }

  /** Whatever replies are missing, doubled or out of order, all records are right exactly if the replies
      are those of the last inputs, in order. */
  lemma {:induction false} RecordsAreRightExactly(ids: seq<string>, positions: seq<nat>)
    requires Answers(ids, positions)
    ensures (forall r :: r in Paired(ids, positions) ==> IsRight(ids, r))
            <==> forall i :: 0 <= i < |positions| ==> positions[i] == |ids| - |positions| + i
  {
    hide IsRight;
    var records, n, m := Paired(ids, positions), |ids|, |positions|;
    forall j | 0 <= j < m
      ensures IsRight(ids, records[j]) <==> positions[m - 1 - j] == n - 1 - j
    {
      RecordIsRight(ids, positions, j);
    }
    if forall r :: r in records ==> IsRight(ids, r) {
      forall i | 0 <= i < m ensures positions[i] == n - m + i {
        assert records[m - 1 - i] in records;
      }
    }
  }

  ghost predicate InOrder(positions: seq<nat>) {
    forall i, j :: 0 <= i < j < |positions| ==> positions[i] < positions[j]
  }

  lemma {:induction false} Spread(positions: seq<nat>, i: nat, j: nat)
    requires InOrder(positions) && i <= j < |positions|
    ensures positions[j] - positions[i] >= j - i
    decreases j
  {
    if i < j {
      Spread(positions, i, j - 1);
    }
  }

  /** Replies in input order with some missing: a record is right exactly if no reply is missing for its own
      input or any after it, so the right records are those after the last missing reply. */
  lemma {:induction false} RightAfterLastMissing(ids: seq<string>, positions: seq<nat>, j: nat)
    requires Answers(ids, positions) && InOrder(positions) && j < |positions|
    ensures IsRight(ids, Paired(ids, positions)[j]) <==> forall q :: |ids| - 1 - j <= q < |ids| ==> q in positions
  {
    hide IsRight;
    var n, m := |ids|, |positions|;
    RecordIsRight(ids, positions, j);
    if positions[m - 1 - j] == n - 1 - j {
      forall q | n - 1 - j <= q < n ensures q in positions {
        var i := m - 1 - (n - 1 - q);
        Spread(positions, m - 1 - j, i);
        Spread(positions, i, m - 1);
        assert positions[i] == q;
      }
    }
    if forall q :: n - 1 - j <= q < n ==> q in positions {
      SuffixIsWhole(positions, n, j);
    }
  }

  lemma {:induction false} SuffixIsWhole(positions: seq<nat>, n: nat, j: nat)
    requires InOrder(positions) && j < |positions| <= n && forall i :: 0 <= i < |positions| ==> positions[i] < n
    requires forall q :: n - 1 - j <= q < n ==> q in positions
    ensures positions[|positions| - 1 - j] == n - 1 - j
    decreases j
  {
    var m, q := |positions|, n - 1 - j;
    assert q in positions;
    var i :| 0 <= i < m && positions[i] == q;
    Spread(positions, i, m - 1);
    if i > m - 1 - j {
      SuffixIsWhole(positions, n, m - 1 - i);
    }
  }

  /** From the rows of a batch to their records: row i's id ends up with row i's embedding. */
  method EmbedRows<E>(ids: seq<string>, inputs: Group, max: nat, service: Tokens -> E) returns (records: seq<Record<E>>)
    requires |ids| == |inputs|
    ensures |records| == |ids|
    ensures forall i :: 0 <= i < |ids| ==>
              records[|ids| - 1 - i] == Record(ids[i], service(inputs[i][..Min(|inputs[i]|, max)]))
  {
    var embeddings := EmbedAll(inputs, max, service);
    var paired := PairUp(ids, embeddings);
    records := paired.records;
  }
}
