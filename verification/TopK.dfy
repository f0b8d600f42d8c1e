/**
 BM25 ranking: scores are summed per document, a bounded heap keeps the best partial scores, bloom
 filters of very common terms adjust them, and the best `limit` documents are returned in order.
 */
module TopK {
  import opened Basics

  datatype Doc = Doc(id: int, score: real)

  /** A common term kept as a bloom filter: its weight and the ids the filter reports. */
  datatype Bloom = Bloom(weight: real, reported: set<int>)

  datatype Outcome = Ranked(docs: seq<Doc>) | Panic

  // ----- accumulating scores

  /** One term: the documents it occurs in with their scores, and its bloom filter if it has one. */
  datatype Term = Term(entries: seq<Doc>, bloom: Option<Bloom>)

  const BASELINE: nat := 100

  class Ranking {
    var data: map<int, real>
    var blooms: seq<Bloom>

    constructor ()
      ensures data == map[] && blooms == []
    {
      data, blooms := map[], [];
    }

    /** state_base: once more than 100 documents are known, a term with a bloom filter is only recorded;
        any other term adds its score to each of its documents. */
    method Accumulate(term: Term)
      modifies this
      ensures Accumulated(data, blooms) == AfterTerm(old(Accumulated(data, blooms)), term)
    {
      if |data| > BASELINE && term.bloom.Some? {
        blooms := blooms + [term.bloom.value];
        return;
      }
      for i := 0 to |term.entries|
        invariant data == Added(old(data), term.entries[..i]) && blooms == old(blooms)
      {
        var e := term.entries[i];
        assert term.entries[..i + 1][..i] == term.entries[..i];
        data := data[e.id := if e.id in data then data[e.id] + e.score else e.score];
      }
      assert term.entries[..|term.entries|] == term.entries;
    }
  }

  datatype Accumulated = Accumulated(data: map<int, real>, blooms: seq<Bloom>)

  function AfterTerm(a: Accumulated, term: Term): Accumulated {
    if |a.data| > BASELINE && term.bloom.Some? then a.(blooms := a.blooms + [term.bloom.value])
    else a.(data := Added(a.data, term.entries))
  }

  /** The state of the aggregate after a sequence of terms. */
  function AfterTerms(terms: seq<Term>): Accumulated {
    if terms == [] then Accumulated(map[], [])
    else AfterTerm(AfterTerms(terms[..|terms| - 1]), terms[|terms| - 1])
  }

  lemma {:induction false} AddedGrows(data: map<int, real>, entries: seq<Doc>)
    ensures |Added(data, entries)| >= |data|
    decreases |entries|
  {
    if entries != [] {
      AddedGrows(data, entries[..|entries| - 1]);
    }
  }

  /** A filter is only ever recorded over more than 100 documents, and documents never leave. */
  lemma {:induction false} FiltersNeedBaseline(terms: seq<Term>)
    ensures AfterTerms(terms).blooms != [] ==> |AfterTerms(terms).data| > BASELINE
    decreases |terms|
  {
    if terms != [] {
      var n := |terms| - 1;
      FiltersNeedBaseline(terms[..n]);
      AddedGrows(AfterTerms(terms[..n]).data, terms[n].entries);
    }
  }

  /** Term i is kept as a filter: it has one, and more than 100 documents were there before it. */
  ghost predicate Filtered(terms: seq<Term>, i: nat)
    requires i < |terms|
  {
    |AfterTerms(terms[..i]).data| > BASELINE && terms[i].bloom.Some?
  }

  ghost function FilterCount(terms: seq<Term>, n: nat): nat
    requires n <= |terms|
  {
    if n == 0 then 0 else FilterCount(terms, n - 1) + One(Filtered(terms, n - 1))
  }

  /** The scores of a document over the first n terms that are not kept as filters. */
  ghost function PlainScore(terms: seq<Term>, id: int, n: nat): real
    requires n <= |terms|
  {
    if n == 0 then 0.0
    else PlainScore(terms, id, n - 1) + if Filtered(terms, n - 1) then 0.0 else ScoreIn(terms[n - 1].entries, id)
  }

  lemma {:induction false} OneMore(terms: seq<Term>, n: nat)
    requires n < |terms|
    ensures AfterTerms(terms[..n + 1]) == AfterTerm(AfterTerms(terms[..n]), terms[n])
  {
    assert terms[..n + 1][..n] == terms[..n];
  }

  /** After any sequence of terms a document's value is the sum of its scores over the terms not kept as filters. */
  lemma {:induction false} ValueAfterTerms(terms: seq<Term>, id: int, n: nat)
    requires n <= |terms|
    ensures ValueOf(AfterTerms(terms[..n]).data, id) == PlainScore(terms, id, n)
    decreases n
  {
    hide Added, ScoreIn, AfterTerms;
    if n == 0 {
      NoTerms(terms);
    } else {
      ValueAfterTerms(terms, id, n - 1);
      OneMore(terms, n - 1);
      AddedMeans(AfterTerms(terms[..n - 1]).data, terms[n - 1].entries, id);
    }
  }

  lemma {:induction false} NoTerms(terms: seq<Term>)
    ensures AfterTerms(terms[..0]) == Accumulated(map[], [])
  {
  }

  /** After any sequence of terms the filters are those of exactly the terms kept as filters, in order. */
  lemma {:induction false} FiltersAfterTerms(terms: seq<Term>, n: nat)
    requires n <= |terms|
    ensures var blooms := AfterTerms(terms[..n]).blooms;
      && |blooms| == FilterCount(terms, n)
      && forall i :: 0 <= i < n && Filtered(terms, i) ==> HasFilter(blooms, FilterCount(terms, i), terms[i])
    decreases n
  {
    hide Added, AfterTerms;
    if n == 0 {
      NoTerms(terms);
    } else {
      FiltersAfterTerms(terms, n - 1);
      OneMore(terms, n - 1);
      forall i | 0 <= i < n && Filtered(terms, i)
        ensures HasFilter(AfterTerms(terms[..n]).blooms, FilterCount(terms, i), terms[i])
      {
        if i < n - 1 {
          assert HasFilter(AfterTerms(terms[..n - 1]).blooms, FilterCount(terms, i), terms[i]);
        }
      }
    }
  }

  ghost predicate HasFilter(blooms: seq<Bloom>, k: nat, term: Term) {
    k < |blooms| && term.bloom == Some(blooms[k])
  }

  /** The documents of the map, in some order. */
  ghost predicate Enumerates(docs: seq<Doc>, data: map<int, real>) {
    && |docs| == |data|
    && (forall i, j :: 0 <= i < j < |docs| ==> docs[i].id != docs[j].id)
    && forall i :: 0 <= i < |docs| ==> docs[i].id in data && data[docs[i].id] == docs[i].score
  }

  /** One term over documents of distinct ids leaves exactly those documents. */
  lemma {:induction false} DistinctAdded(docs: seq<Doc>)
    requires forall i, j :: 0 <= i < j < |docs| ==> docs[i].id != docs[j].id
    ensures Enumerates(docs, Added(map[], docs))
    ensures forall id :: id in Added(map[], docs) ==> exists i :: 0 <= i < |docs| && docs[i].id == id
    decreases |docs|
  {
    if docs != [] {
      var n := |docs| - 1;
      DistinctAdded(docs[..n]);
      forall id | id in Added(map[], docs) ensures exists i :: 0 <= i < |docs| && docs[i].id == id {
        if id != docs[n].id {
          var i :| 0 <= i < n && docs[..n][i].id == id;
          assert docs[i].id == id;
        }
      }
      assert docs[n].id !in Added(map[], docs[..n]);
    }
  }

  function Added(data: map<int, real>, entries: seq<Doc>): map<int, real> {
    if entries == [] then data
    else
      var before, e := Added(data, entries[..|entries| - 1]), entries[|entries| - 1];
      before[e.id := if e.id in before then before[e.id] + e.score else e.score]
  }

  function ScoreIn(entries: seq<Doc>, id: int): real {
    if entries == [] then 0.0
    else ScoreIn(entries[..|entries| - 1], id)
         + if entries[|entries| - 1].id == id then entries[|entries| - 1].score else 0.0
  }

  function ValueOf(data: map<int, real>, id: int): real {
    if id in data then data[id] else 0.0
  }

  /** Each document's entry grows by the sum of its scores for the term, and nothing else changes. */
  lemma {:induction false} AddedMeans(data: map<int, real>, entries: seq<Doc>, id: int)
    ensures ValueOf(Added(data, entries), id) == ValueOf(data, id) + ScoreIn(entries, id)
    ensures id in Added(data, entries) <==> id in data || exists i :: 0 <= i < |entries| && entries[i].id == id
    decreases |entries|
  {
    if entries != [] {
      var n := |entries| - 1;
      AddedMeans(data, entries[..n], id);
      if i :| 0 <= i < n && entries[i].id == id {
        assert entries[..n][i].id == id;
      }
    }
  }

  // ----- the bounded heap

  ghost predicate Below(xs: multiset<Doc>, ys: multiset<Doc>) {
    forall x, y :: x in xs && y in ys ==> x.score <= y.score
  }

  /** `kept` are `cap` best of `docs`, or all of them. */
  ghost predicate BestOf(kept: multiset<Doc>, docs: multiset<Doc>, cap: nat) {
    && kept <= docs
    && |kept| == (if |docs| < cap then |docs| else cap)
    && Below(docs - kept, kept)
  }

  class Heap {
    var items: seq<Doc>

    constructor ()
      ensures items == []
    {
      items := [];
    }

    /** Index of the top of the heap: a least score, as the comparator is reversed. */
    method Top() returns (k: nat)
      requires items != []
      ensures k < |items| && forall i :: 0 <= i < |items| ==> items[k].score <= items[i].score
    {
      k := 0;
      for i := 1 to |items|
        invariant k < |items| && forall j :: 0 <= j < i ==> items[k].score <= items[j].score
      {
        if items[i].score < items[k].score {
          k := i;
        }
      }
    }

    method Push(d: Doc)
      modifies this
      ensures multiset(items) == multiset(old(items)) + multiset{d} && |items| == |old(items)| + 1
    {
      items := items + [d];
    }

    method Pop(k: nat)
      requires k < |items|
      modifies this
      ensures multiset(items) == multiset(old(items)) - multiset{old(items)[k]} && |items| == |old(items)| - 1
    {
      assert items == items[..k] + [items[k]] + items[k + 1..];
      items := items[..k] + items[k + 1..];
    }
  }

  /** The loop over the accumulated documents, in whatever order the hash map yields them. */
  method KeepBest(docs: seq<Doc>, cap: nat) returns (kept: seq<Doc>)
    requires cap >= 1
    ensures BestOf(multiset(kept), multiset(docs), cap)
  {
    hide Below;
    var heap := new Heap();
    ghost var dropped: multiset<Doc> := multiset{};
    EmptyBelow(multiset(heap.items));
    for i := 0 to |docs|
      invariant multiset(heap.items) + dropped == multiset(docs[..i])
      invariant |heap.items| == (if i < cap then i else cap)
      invariant i <= cap ==> dropped == multiset{}
      invariant Below(dropped, multiset(heap.items))
    {
      assert docs[..i + 1] == docs[..i] + [docs[i]];
      dropped := Offer(heap, docs[i], cap, dropped);
    }
    assert docs[..|docs|] == docs;
    kept := heap.items;
    Difference(multiset(docs), multiset(kept), dropped);
  }

  lemma {:induction false} Difference(all: multiset<Doc>, kept: multiset<Doc>, dropped: multiset<Doc>)
    requires kept + dropped == all
    ensures kept <= all && all - kept == dropped
  {
  }

  /** One document: pushed while there is room, otherwise it replaces a worst one it beats. */
  method Offer(heap: Heap, e: Doc, cap: nat, ghost dropped: multiset<Doc>) returns (ghost dropped': multiset<Doc>)
    requires cap >= 1 && |heap.items| <= cap && Below(dropped, multiset(heap.items))
    requires |heap.items| < cap ==> dropped == multiset{}
    modifies heap
    ensures multiset(heap.items) + dropped' == old(multiset(heap.items)) + dropped + multiset{e}
    ensures |heap.items| == if old(|heap.items|) < cap then old(|heap.items|) + 1 else cap
    ensures old(|heap.items|) < cap ==> dropped' == multiset{}
    ensures Below(dropped', multiset(heap.items))
  {
    hide Below;
    if |heap.items| < cap {
      heap.Push(e);
      dropped' := multiset{};
      EmptyBelow(multiset(heap.items));
    } else {
      var k := heap.Top();
      var top := heap.items[k];
      if top.score < e.score {
        ReplaceTop(dropped, heap.items, k, e);
        heap.Pop(k);
        heap.Push(e);
        dropped' := dropped + multiset{top};
      } else {
        DropOne(dropped, heap.items, k, e);
        dropped' := dropped + multiset{e};
      }
    }
  }

  lemma {:induction false} EmptyBelow(ys: multiset<Doc>)
    ensures Below(multiset{}, ys)
  {
  }

  lemma {:induction false} ReplaceTop(dropped: multiset<Doc>, items: seq<Doc>, k: nat, e: Doc)
    requires k < |items| && Below(dropped, multiset(items)) && items[k].score < e.score
    requires forall i :: 0 <= i < |items| ==> items[k].score <= items[i].score
    ensures Below(dropped + multiset{items[k]}, multiset(items) - multiset{items[k]} + multiset{e})
    ensures multiset(items) - multiset{items[k]} + multiset{e} + (dropped + multiset{items[k]})
         == multiset(items) + dropped + multiset{e}
  {
    var top := items[k];
    assert top in multiset(items);
    forall x, y | x in dropped + multiset{top} && y in multiset(items) - multiset{top} + multiset{e}
      ensures x.score <= y.score
    {
      if x in dropped {
        assert x.score <= top.score;
      }
      if y in multiset(items) {
        assert y in items;
      }
    }
  }

  lemma {:induction false} DropOne(dropped: multiset<Doc>, items: seq<Doc>, k: nat, e: Doc)
    requires k < |items| && Below(dropped, multiset(items)) && items[k].score >= e.score
    requires forall i :: 0 <= i < |items| ==> items[k].score <= items[i].score
    ensures Below(dropped + multiset{e}, multiset(items))
  {
    forall x, y | x in dropped + multiset{e} && y in multiset(items) ensures x.score <= y.score {
      assert y in items;
    }
  }

  // ----- bloom adjustment

  function BloomSum(blooms: seq<Bloom>, id: int): real {
    if blooms == [] then 0.0
    else BloomSum(blooms[..|blooms| - 1], id)
         + if id in blooms[|blooms| - 1].reported then blooms[|blooms| - 1].weight else 0.0
  }

  function Adjusted(d: Doc, blooms: seq<Bloom>): Doc {
    Doc(d.id, d.score + BloomSum(blooms, d.id))
  }

  function AdjustAll(docs: seq<Doc>, blooms: seq<Bloom>): (r: seq<Doc>)
    ensures |r| == |docs| && forall i :: 0 <= i < |docs| ==> r[i] == Adjusted(docs[i], blooms)
  {
    seq(|docs|, i requires 0 <= i < |docs| => Adjusted(docs[i], blooms))
  }

  /** Sum over the terms a document really has, for filters whose terms occur in the documents `members`. */
  function TrueSum(blooms: seq<Bloom>, members: seq<set<int>>, id: int): real
    requires |members| == |blooms|
  {
    if blooms == [] then 0.0
    else
      var n := |blooms| - 1;
      TrueSum(blooms[..n], members[..n], id) + if id in members[n] then blooms[n].weight else 0.0
  }

  /** A filter reports every member, and possibly more: a document is never scored below its partial score
      plus its true bloom terms, and exactly there if no filter is wrong about it. */
  lemma {:induction false} NeverBelowTrueScore(blooms: seq<Bloom>, members: seq<set<int>>, d: Doc)
    requires |members| == |blooms|
    requires forall i :: 0 <= i < |blooms| ==> members[i] <= blooms[i].reported && blooms[i].weight >= 0.0
    ensures Adjusted(d, blooms).score >= d.score + TrueSum(blooms, members, d.id)
    ensures (forall i :: 0 <= i < |blooms| && d.id in blooms[i].reported ==> d.id in members[i]) ==>
              Adjusted(d, blooms).score == d.score + TrueSum(blooms, members, d.id)
    decreases |blooms|
  {
    if blooms != [] {
      var n := |blooms| - 1;
      NeverBelowTrueScore(blooms[..n], members[..n], d);
    }
  }

  lemma {:induction false} NoBlooms(docs: seq<Doc>)
    ensures AdjustAll(docs, []) == docs
  {
    forall i | 0 <= i < |docs| ensures AdjustAll(docs, [])[i] == docs[i] {
    }
  }

  /** Adjusting a permutation of the documents gives a permutation of the adjusted documents. */
  lemma {:induction false} AdjustPermutes(a: seq<Doc>, b: seq<Doc>, blooms: seq<Bloom>)
    requires multiset(a) == multiset(b)
    ensures multiset(AdjustAll(a, blooms)) == multiset(AdjustAll(b, blooms))
    decreases |a|
  {
    hide Adjusted;
    if a == [] {
      assert |multiset(b)| == |b|;
    } else {
      assert a[0] in multiset(b);
      var k :| 0 <= k < |b| && b[k] == a[0];
      RemoveOne(a, 0);
      RemoveOne(b, k);
      AdjustPermutes(Without(a, 0), Without(b, k), blooms);
      AdjustWithout(a, 0, blooms);
      AdjustWithout(b, k, blooms);
    }
  }

  function Without(s: seq<Doc>, k: nat): (r: seq<Doc>)
    requires k < |s|
    ensures |r| == |s| - 1
  {
    s[..k] + s[k + 1..]
  }

  lemma {:induction false} RemoveOne(s: seq<Doc>, k: nat)
    requires k < |s|
    ensures multiset(s) == multiset(Without(s, k)) + multiset{s[k]}
    ensures multiset(Without(s, k)) == multiset(s) - multiset{s[k]}
  {
    assert s == s[..k] + [s[k]] + s[k + 1..];
  }

  lemma {:induction false} AdjustWithout(s: seq<Doc>, k: nat, blooms: seq<Bloom>)
    requires k < |s|
    ensures multiset(AdjustAll(s, blooms)) == multiset(AdjustAll(Without(s, k), blooms)) + multiset{Adjusted(s[k], blooms)}
  {
    hide Adjusted;
    var f := AdjustAll(s, blooms);
    RemoveOne(f, k);
    assert AdjustAll(Without(s, k), blooms) == Without(f, k);
  }

  // ----- sorting and truncating

  ghost predicate SortedDesc(docs: seq<Doc>) {
    forall i, j :: 0 <= i < j < |docs| ==> docs[i].score >= docs[j].score
  }

  function InsertDesc(docs: seq<Doc>, d: Doc): (r: seq<Doc>)
    ensures |r| == |docs| + 1
  {
    if docs == [] || d.score >= docs[0].score then [d] + docs
    else [docs[0]] + InsertDesc(docs[1..], d)
  }

  function SortDesc(docs: seq<Doc>): (r: seq<Doc>)
    ensures |r| == |docs|
  {
    if docs == [] then [] else InsertDesc(SortDesc(docs[..|docs| - 1]), docs[|docs| - 1])
  }

  lemma {:induction false} InsertAdds(docs: seq<Doc>, d: Doc)
    ensures multiset(InsertDesc(docs, d)) == multiset(docs) + multiset{d}
    decreases |docs|
  {
    if !(docs == [] || d.score >= docs[0].score) {
      InsertAdds(docs[1..], d);
      assert docs == [docs[0]] + docs[1..];
    }
  }

  lemma {:induction false} InsertBounded(docs: seq<Doc>, d: Doc, bound: real)
    requires d.score <= bound && forall i :: 0 <= i < |docs| ==> docs[i].score <= bound
    ensures forall i :: 0 <= i < |InsertDesc(docs, d)| ==> InsertDesc(docs, d)[i].score <= bound
    decreases |docs|
  {
    if !(docs == [] || d.score >= docs[0].score) {
      InsertBounded(docs[1..], d, bound);
    }
  }

  lemma {:induction false} InsertSorts(docs: seq<Doc>, d: Doc)
    requires SortedDesc(docs)
    ensures SortedDesc(InsertDesc(docs, d))
    decreases |docs|
  {
    if !(docs == [] || d.score >= docs[0].score) {
      InsertSorts(docs[1..], d);
      InsertBounded(docs[1..], d, docs[0].score);
    }
  }

  lemma {:induction false} SortDescSorts(docs: seq<Doc>)
    ensures SortedDesc(SortDesc(docs)) && multiset(SortDesc(docs)) == multiset(docs)
    decreases |docs|
  {
    if docs != [] {
      var n := |docs| - 1;
      SortDescSorts(docs[..n]);
      InsertSorts(SortDesc(docs[..n]), docs[n]);
      InsertAdds(SortDesc(docs[..n]), docs[n]);
      assert docs == docs[..n] + [docs[n]];
    }
  }

  /** `out` are `k` best of `docs`, best first. */
  ghost predicate TopOf(out: seq<Doc>, docs: multiset<Doc>, k: nat) {
    SortedDesc(out) && BestOf(multiset(out), docs, k)
  }

  lemma {:induction false} TruncateIsTop(sorted: seq<Doc>, k: nat)
    requires SortedDesc(sorted)
    ensures TopOf(if |sorted| > k then sorted[..k] else sorted, multiset(sorted), k)
  {
    hide Below, SortedDesc;
    var cut := if |sorted| > k then k else |sorted|;
    var out, rest := sorted[..cut], sorted[cut..];
    assert sorted == out + rest;
    Difference(multiset(sorted), multiset(out), multiset(rest));
    RestBelow(sorted, cut);
    PrefixSorted(sorted, cut);
    assert out == if |sorted| > k then sorted[..k] else sorted;
    assert |multiset(out)| == cut && |multiset(sorted)| == |sorted|;
  }

  lemma {:induction false} PrefixSorted(sorted: seq<Doc>, cut: nat)
    requires SortedDesc(sorted) && cut <= |sorted|
    ensures SortedDesc(sorted[..cut])
  {
  }

  lemma {:induction false} RestBelow(sorted: seq<Doc>, cut: nat)
    requires SortedDesc(sorted) && cut <= |sorted|
    ensures Below(multiset(sorted[cut..]), multiset(sorted[..cut]))
  {
    forall x: Doc, y: Doc | x in multiset(sorted[cut..]) && y in multiset(sorted[..cut]) ensures x.score <= y.score {
      assert x in sorted[cut..] && y in sorted[..cut];
      var i :| cut <= i < |sorted| && sorted[i] == x;
      var j :| 0 <= j < cut && sorted[j] == y;
    }
  }

  /** The best of the best kept are the best of all. */
  lemma {:induction false} BestOfBest(out: multiset<Doc>, kept: multiset<Doc>, docs: multiset<Doc>, k: nat, cap: nat)
    requires BestOf(kept, docs, cap) && BestOf(out, kept, k) && k <= cap
    ensures BestOf(out, docs, k)
  {
    assert docs == kept + (docs - kept);
    assert |docs| == |kept| + |docs - kept|;
    forall x, y | x in docs - out && y in out ensures x.score <= y.score {
      assert y in kept;
      if x in docs - kept {
        assert x.score <= y.score;
      } else {
        assert (docs - kept)[x] == 0 && docs[x] == kept[x];
        assert x in kept - out;
      }
    }
  }

  // ----- finalize_base

  /** What any run of finalize_base can return, whatever the map's order and the heap's choice among ties. */
  ghost predicate CanReturn(docs: seq<Doc>, blooms: seq<Bloom>, limit: nat, out: seq<Doc>) {
    exists kept: seq<Doc> :: BestOf(multiset(kept), multiset(docs), 10 * limit) && TopOf(out, multiset(AdjustAll(kept, blooms)), limit)
  }

  /** finalize_base with a limit. A limit of 0 makes the heap empty for good and peek fails on the first
      document. */
  method Finalize(docs: seq<Doc>, blooms: seq<Bloom>, limit: nat) returns (r: Outcome)
    ensures r == Panic <==> limit == 0 && docs != []
    ensures r.Ranked? && limit >= 1 ==> CanReturn(docs, blooms, limit, r.docs)
    ensures r.Ranked? ==> SortedDesc(r.docs) && |r.docs| <= limit
    ensures r.Ranked? && limit >= 1 && blooms == [] ==> TopOf(r.docs, multiset(docs), limit)
    ensures r.Ranked? && |docs| <= 10 * limit ==> TopOf(r.docs, multiset(AdjustAll(docs, blooms)), limit)
  {
    hide BestOf, Adjusted;
    if limit == 0 {
      NothingRanked(docs, blooms);
      return if docs == [] then Ranked([]) else Panic;
    }
    var kept := KeepBest(docs, 10 * limit);
    var adjusted := AdjustAll(kept, blooms);
    var sorted := SortDesc(adjusted);
    SortDescSorts(adjusted);
    TruncateIsTop(sorted, limit);
    var out := if |sorted| > limit then sorted[..limit] else sorted;
    assert TopOf(out, multiset(AdjustAll(kept, blooms)), limit);
    if blooms == [] {
      NoBlooms(kept);
      BestOfBest(multiset(out), multiset(kept), multiset(docs), limit, 10 * limit);
    }
    if |docs| <= 10 * limit {
      AllKept(kept, docs, 10 * limit);
      AdjustPermutes(kept, docs, blooms);
    }
    r := Ranked(out);
  }

  /** finalize_base without a limit: every document, by its accumulated score, the filters left aside. */
  method FinalizeUnlimited(docs: seq<Doc>, blooms: seq<Bloom>) returns (out: seq<Doc>)
    requires forall i, j :: 0 <= i < j < |docs| ==> docs[i].id != docs[j].id
    ensures SortedDesc(out) && multiset(out) == multiset(docs)
    ensures multiset(out) == multiset(AdjustAll(docs, blooms))
            <==> forall i :: 0 <= i < |docs| ==> BloomSum(blooms, docs[i].id) == 0.0
  {
    hide SortDesc, SortedDesc;
    out := SortDesc(docs);
    SortDescSorts(docs);
    UnlimitedIsExactly(docs, blooms);
  }

  /** Ranking without the filters is the adjusted ranking exactly if no filter adds to any document. */
  lemma {:induction false} UnlimitedIsExactly(docs: seq<Doc>, blooms: seq<Bloom>)
    requires forall i, j :: 0 <= i < j < |docs| ==> docs[i].id != docs[j].id
    ensures multiset(docs) == multiset(AdjustAll(docs, blooms))
            <==> forall i :: 0 <= i < |docs| ==> BloomSum(blooms, docs[i].id) == 0.0
  {
    hide BloomSum;
    var adjusted := AdjustAll(docs, blooms);
    if multiset(docs) == multiset(adjusted) {
      forall i | 0 <= i < |docs| ensures BloomSum(blooms, docs[i].id) == 0.0 {
        assert adjusted[i] in multiset(docs);
        var j :| 0 <= j < |docs| && docs[j] == adjusted[i];
        assert j == i;
      }
    }
    if forall i :: 0 <= i < |docs| ==> BloomSum(blooms, docs[i].id) == 0.0 {
      assert adjusted == docs;
    }
  }

  lemma {:induction false} NothingRanked(docs: seq<Doc>, blooms: seq<Bloom>)
    ensures docs == [] ==> TopOf([], multiset(AdjustAll(docs, blooms)), 0)
  {
  }

  lemma {:induction false} AllKept(kept: seq<Doc>, docs: seq<Doc>, cap: nat)
    requires BestOf(multiset(kept), multiset(docs), cap) && |docs| <= cap
    ensures multiset(kept) == multiset(docs)
  {
    var a, b := multiset(kept), multiset(docs);
    assert b == a + (b - a);
    assert |b| == |docs| && |b| == |a| + |b - a|;
  }

  /** What the aggregate can return after the given terms. */
  ghost predicate Returns(terms: seq<Term>, docs: seq<Doc>, limit: nat, out: seq<Doc>) {
    Enumerates(docs, AfterTerms(terms).data) && CanReturn(docs, AfterTerms(terms).blooms, limit, out)
  }

  ghost predicate IsExact(terms: seq<Term>, docs: seq<Doc>, limit: nat, out: seq<Doc>) {
    TopOf(out, multiset(AdjustAll(docs, AfterTerms(terms).blooms)), limit)
  }

  /** The result is the exact top `limit` by adjusted score, for every sequence of terms that leaves n
      documents, if and only if n is at most ten times the limit or too small for any filter. */
  lemma {:induction false} ExactUpToTenfold(n: nat, limit: nat)
    requires limit >= 1
    ensures n <= 10 * limit || n <= BASELINE <==>
      forall terms: seq<Term>, docs: seq<Doc>, out: seq<Doc> ::
        |docs| == n && Returns(terms, docs, limit, out) ==> IsExact(terms, docs, limit, out)
  {
    hide Returns, IsExact;
    if n <= 10 * limit || n <= BASELINE {
      forall terms: seq<Term>, docs: seq<Doc>, out: seq<Doc> | |docs| == n && Returns(terms, docs, limit, out)
        ensures IsExact(terms, docs, limit, out)
      {
        SmallIsExact(terms, docs, limit, out);
      }
    } else {
      var terms, docs, out := MissesBest(n, limit);
      assert |docs| == n && Returns(terms, docs, limit, out) && !IsExact(terms, docs, limit, out);
    }
  }

  lemma {:induction false} SmallIsExact(terms: seq<Term>, docs: seq<Doc>, limit: nat, out: seq<Doc>)
    requires limit >= 1 && (|docs| <= 10 * limit || |docs| <= BASELINE) && Returns(terms, docs, limit, out)
    ensures IsExact(terms, docs, limit, out)
  {
    hide BestOf, Adjusted, AfterTerms;
    var blooms := AfterTerms(terms).blooms;
    var kept: seq<Doc> :| BestOf(multiset(kept), multiset(docs), 10 * limit)
                          && TopOf(out, multiset(AdjustAll(kept, blooms)), limit);
    if |docs| <= 10 * limit {
      AllKept(kept, docs, 10 * limit);
      AdjustPermutes(kept, docs, blooms);
    } else {
      FiltersNeedBaseline(terms);
      NoBlooms(kept);
      NoBlooms(docs);
      BestOfBest(multiset(out), multiset(kept), multiset(docs), limit, 10 * limit);
    }
  }

  /** A run of two terms that misses the best document: the first leaves n documents, the second, which only
      the document of score 0 has, is recorded as a filter and would lift it above all others. */
  lemma {:induction false} MissesBest(n: nat, limit: nat) returns (terms: seq<Term>, docs: seq<Doc>, out: seq<Doc>)
    requires limit >= 1 && n > 10 * limit && n > BASELINE
    ensures |docs| == n && Returns(terms, docs, limit, out)
    ensures !IsExact(terms, docs, limit, out)
  {
    hide BestOf, Adjusted, InsertDesc, SortDesc, Enumerates, Added;
    docs := seq(n, i => if i == 0 then Doc(0, 0.0) else Doc(i, 1.0));
    terms := [Term(docs, None), Term([Doc(0, 2.0)], Some(Bloom(2.0, {0})))];
    TwoTerms(terms, docs);
    var blooms := [Bloom(2.0, {0})];
    var cap := 10 * limit;
    var kept := docs[1..cap + 1];
    KeptWithoutFirst(docs, cap);
    var adjusted := AdjustAll(kept, blooms);
    var sorted := SortDesc(adjusted);
    SortDescSorts(adjusted);
    TruncateIsTop(sorted, limit);
    out := sorted[..limit];
    assert TopOf(out, multiset(AdjustAll(kept, blooms)), limit);
    LiftsOnlyFirst(docs, blooms, kept);
    forall i | 0 <= i < |out| ensures out[i].score == 1.0 {
      assert out[i] == sorted[i] && sorted[i] in multiset(sorted);
      assert sorted[i] in adjusted;
    }
    BestIsMissing(AdjustAll(docs, blooms), out, limit);
  }

  lemma {:induction false} TwoTerms(terms: seq<Term>, docs: seq<Doc>)
    requires terms == [Term(docs, None), Term([Doc(0, 2.0)], Some(Bloom(2.0, {0})))] && |docs| > BASELINE
    requires forall i, j :: 0 <= i < j < |docs| ==> docs[i].id != docs[j].id
    ensures Enumerates(docs, AfterTerms(terms).data) && AfterTerms(terms).blooms == [Bloom(2.0, {0})]
  {
    hide Added;
    DistinctAdded(docs);
    assert terms[..1] == [Term(docs, None)] && terms[..1][..0] == [];
    assert AfterTerms(terms[..1]) == Accumulated(Added(map[], docs), []);
  }

  lemma {:induction false} LiftsOnlyFirst(docs: seq<Doc>, blooms: seq<Bloom>, kept: seq<Doc>)
    requires blooms == [Bloom(2.0, {0})] && docs != [] && docs[0] == Doc(0, 0.0)
    requires forall i :: 0 <= i < |kept| ==> kept[i].id != 0 && kept[i].score == 1.0
    ensures AdjustAll(docs, blooms)[0] == Doc(0, 2.0)
    ensures forall x :: x in AdjustAll(kept, blooms) ==> x.score == 1.0
  {
    assert blooms[..0] == [];
    assert BloomSum(blooms[..0], 0) == 0.0;
    forall i | 0 <= i < |kept| ensures AdjustAll(kept, blooms)[i].score == 1.0 {
      assert BloomSum(blooms[..0], kept[i].id) == 0.0;
    }
  }

  lemma {:induction false} BestIsMissing(all: seq<Doc>, out: seq<Doc>, k: nat)
    requires all != [] && all[0] == Doc(0, 2.0) && out != [] && forall i :: 0 <= i < |out| ==> out[i].score == 1.0
    ensures !TopOf(out, multiset(all), k)
  {
    assert all[0] in multiset(all);
    assert all[0] !in out;
    assert multiset(out)[all[0]] == 0;
    assert all[0] in multiset(all) - multiset(out);
    assert out[0] in multiset(out);
  }

  lemma {:induction false} KeptWithoutFirst(docs: seq<Doc>, cap: nat)
    requires 1 <= cap < |docs| && forall i :: 0 <= i < |docs| ==> docs[i].score == (if i == 0 then 0.0 else 1.0)
    ensures BestOf(multiset(docs[1..cap + 1]), multiset(docs), cap)
  {
    var kept, rest := docs[1..cap + 1], [docs[0]] + docs[cap + 1..];
    assert docs == [docs[0]] + kept + docs[cap + 1..];
    assert multiset(docs) == multiset(kept) + multiset(rest);
    Difference(multiset(docs), multiset(kept), multiset(rest));
    forall x: Doc, y: Doc | x in multiset(rest) && y in multiset(kept) ensures x.score <= y.score {
      assert x in rest && y in kept;
    }
  }
}
