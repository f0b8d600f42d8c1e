/**
 Runs of an index: inserts, failed inserts, vacuums and relinking of neighbours. Which label each stored node
 carries afterwards, and what a scan over those labels emits.
 */
module IndexRuns {
  import opened Bytes
  import opened Pages
  import opened NodeLayout
  import opened Chain
  import opened Shapes
  import opened Insert
  import opened Vacuum
  import opened Build
  import Scan

  // ----- labels over runs of inserts and vacuums

  datatype LabelEvent = Add(tid: ItemPointer) | Clean(dead: Callback)

  /** The label each node holds now, by sequence id. */
  ghost function StoredLabels(events: seq<LabelEvent>): (r: seq<nat>)
    requires forall i :: 0 <= i < |events| && events[i].Add? ==> PointerInRange(events[i].tid)
  {
    if events == [] then []
    else
      var n := |events| - 1;
      var before := StoredLabels(events[..n]);
      match events[n]
      case Add(tid) => before + [PointerToLabel(tid)]
      case Clean(dead) => seq(|before|, i requires 0 <= i < |before| => VacuumLabel(before[i], dead))
  }

  /** The heap tuple each node was inserted for. */
  ghost function Tids(events: seq<LabelEvent>): seq<ItemPointer> {
    if events == [] then []
    else
      var n := |events| - 1;
      Tids(events[..n]) + if events[n].Add? then [events[n].tid] else []
  }

  /** Node `i` was there at some vacuum that found its heap tuple dead. */
  ghost predicate Dead(events: seq<LabelEvent>, i: nat) {
    exists k :: 0 <= k < |events| && events[k].Clean? && DeadAt(events, k, i)
  }

  ghost predicate DeadAt(events: seq<LabelEvent>, k: nat, i: nat)
    requires k < |events| && events[k].Clean?
  {
    i < |Tids(events[..k])| && events[k].dead(Tids(events[..k])[i])
  }

  /** In every run of inserts and vacuums a node's label is that of its heap tuple until a vacuum
      finds the tuple dead, and the deleted mark from then on. */
  lemma {:induction false} LabelsOverRuns(events: seq<LabelEvent>, i: nat)
    requires forall j :: 0 <= j < |events| && events[j].Add? ==> PointerInRange(events[j].tid)
    ensures |StoredLabels(events)| == |Tids(events)|
    ensures i < |Tids(events)| ==> PointerInRange(Tids(events)[i])
    ensures i < |Tids(events)| ==>
              StoredLabels(events)[i] == if Dead(events, i) then INVALID_LABEL else PointerToLabel(Tids(events)[i])
    decreases |events|
  {
    hide PointerToLabel, LabelToPointer, PointerInRange;
    if events != [] {
      var n := |events| - 1;
      LabelsOverRuns(events[..n], i);
      DeadNext(events, i);
      if events[n].Clean? && i < |Tids(events)| && !Dead(events[..n], i) {
        LabelRoundTrip(Tids(events)[i]);
      }
      if events[n].Add? && i == |Tids(events)| - 1 {
        NotYetDead(events, i);
      }
    }
  }

  lemma {:induction false} TidsGrow(events: seq<LabelEvent>, k: nat)
    requires k <= |events|
    ensures |Tids(events[..k])| <= |Tids(events)| && Tids(events)[..|Tids(events[..k])|] == Tids(events[..k])
    decreases |events|
  {
    if k == |events| {
      assert events[..k] == events;
    } else {
      var n := |events| - 1;
      TidsGrow(events[..n], k);
      assert events[..n][..k] == events[..k];
    }
  }

  lemma {:induction false} DeadNext(events: seq<LabelEvent>, i: nat)
    requires events != []
    ensures var n := |events| - 1;
      Dead(events, i) <==> Dead(events[..n], i) || (events[n].Clean? && DeadAt(events, n, i))
  {
    var n := |events| - 1;
    forall k: nat | k < n ensures events[..n][k] == events[k] && events[..n][..k] == events[..k] {
    }
    if Dead(events, i) {
      var k :| 0 <= k < |events| && events[k].Clean? && DeadAt(events, k, i);
      if k < n {
        assert events[..n][k].Clean? && DeadAt(events[..n], k, i);
      }
    }
    if Dead(events[..n], i) {
      var k :| 0 <= k < n && events[..n][k].Clean? && DeadAt(events[..n], k, i);
      assert events[k].Clean? && DeadAt(events, k, i);
    }
  }

  lemma {:induction false} NotYetDead(events: seq<LabelEvent>, i: nat)
    requires events != [] && events[|events| - 1].Add? && i == |Tids(events)| - 1
    ensures !Dead(events, i)
  {
    var n := |events| - 1;
    forall k: nat | k <= n && events[k].Clean? ensures !DeadAt(events, k, i) {
      assert k < n;
      TidsGrow(events[..n], k);
      assert events[..n][..k] == events[..k];
    }
  }

  // ----- runs on the pages

  datatype IndexEvent =
    | Added(tid: ItemPointer, node: seq<byte>)
    | Vacuumed(dead: Callback, pages: seq<Page>)
    | Relinked(pages: seq<Page>)
    | Leaked

  /** Node bytes change in place, but not the label at their head. */
  ghost predicate SameLabels(ps: seq<Page>, qs: seq<Page>) {
    && SameShapes(ps, qs)
    && forall p :: Resolves(ps, p) && Resolves(qs, p) ==> SameHead(Retrieve(ps, p).node, Retrieve(qs, p).node)
  }

  ghost predicate SameHead(a: seq<byte>, b: seq<byte>) {
    |a| >= NODE_HEAD && |b| >= NODE_HEAD && forall i :: 0 <= i < LABEL_BYTES ==> b[i] == a[i]
  }

  ghost predicate AllVacuumed(ps: seq<Page>, qs: seq<Page>, dead: Callback) {
    |qs| == |ps| && forall b :: 0 <= b < |ps| ==> Labelled(ps[b]) && PageVacuumed(ps[b], qs[b], dead)
  }

  ghost predicate CanHappen(ix: Index, e: IndexEvent) {
    && (ix.last.Block? ==> ix.last.no < |ix.pages|)
    && match e
       case Added(tid, node) =>
         NODE_HEAD <= |node| <= MAX_NODE_BYTES && PointerInRange(tid) && LabelOf(node) == PointerToLabel(tid)
       case Vacuumed(dead, pages) => ix.last.Block? && AllVacuumed(ix.pages, pages, dead)
       case Relinked(pages) => SameLabels(ix.pages, pages)
       case Leaked => true
  }

  /** The page event behind it. */
  function PageEvent(e: IndexEvent): Event {
    match e
    case Added(_, node) => Inserted(node)
    case Vacuumed(_, pages) => Touched(pages)
    case Relinked(pages) => Touched(pages)
    case Leaked => Failed
  }

  function LogOf(e: IndexEvent): seq<LabelEvent> {
    match e
    case Added(tid, _) => [Add(tid)]
    case Vacuumed(dead, _) => [Clean(dead)]
    case Relinked(_) => []
    case Leaked => []
  }

  function Log(events: seq<IndexEvent>): seq<LabelEvent> {
    if events == [] then [] else Log(events[..|events| - 1]) + LogOf(events[|events| - 1])
  }

  ghost predicate InRange(history: seq<LabelEvent>) {
    forall j :: 0 <= j < |history| && history[j].Add? ==> PointerInRange(history[j].tid)
  }

  /** Every stored node carries the label its history says. */
  ghost predicate Carries(ix: Index, history: seq<LabelEvent>) {
    && InRange(history) && |StoredLabels(history)| == ix.count
    && forall p :: Resolves(ix.pages, p) ==> CarriesAt(Retrieve(ix.pages, p), StoredLabels(history))
  }

  ghost predicate CarriesAt(t: Tuple, labels: seq<nat>) {
    |t.node| >= NODE_HEAD && 0 <= t.seqid < |labels| && LabelOf(t.node) == labels[t.seqid]
  }

  lemma {:induction false} EmptyCarries()
    ensures Carries(Index([PageInit(0)], NoBlock, 0), [])
  {
  }

  /** A pointer into the index after an insert is an old one, or leads to the new tuple. */
  lemma {:induction false} AfterInsert(ix: Index, node: seq<byte>, p: ItemPointer)
    requires ix.last.Block? ==> ix.last.no < |ix.pages|
    requires Resolves(InsertTuple(ix, node).pages, p)
    ensures var t := Retrieve(InsertTuple(ix, node).pages, p);
      t == Tuple(ix.count, |node|, node) || (Resolves(ix.pages, p) && t == Retrieve(ix.pages, p))
  {
    hide HasRoom;
  }

  lemma {:induction false} SameHeadSameLabel(a: seq<byte>, b: seq<byte>)
    requires SameHead(a, b)
    ensures LabelOf(b) == LabelOf(a)
  {
  }

  lemma {:induction false} AddedCarries(ix: Index, e: IndexEvent, history: seq<LabelEvent>)
    requires e.Added? && CanHappen(ix, e) && Carries(ix, history)
    ensures Carries(InsertTuple(ix, e.node), history + [Add(e.tid)])
  {
    hide InsertTuple, LabelOf, PointerToLabel, PointerInRange;
    var history', ix' := history + [Add(e.tid)], InsertTuple(ix, e.node);
    assert history'[..|history|] == history;
    assert StoredLabels(history') == StoredLabels(history) + [PointerToLabel(e.tid)];
    CountAfter(ix, e.node);
    forall p | Resolves(ix'.pages, p) ensures CarriesAt(Retrieve(ix'.pages, p), StoredLabels(history')) {
      AfterInsert(ix, e.node, p);
    }
  }

  lemma {:induction false} CountAfter(ix: Index, node: seq<byte>)
    requires ix.last.Block? ==> ix.last.no < |ix.pages|
    ensures InsertTuple(ix, node).count == ix.count + 1
  {
  }

  lemma {:induction false} VacuumedCarries(ix: Index, e: IndexEvent, history: seq<LabelEvent>)
    requires e.Vacuumed? && CanHappen(ix, e) && Carries(ix, history)
    ensures SameShapes(ix.pages, e.pages) && Carries(ix.(pages := e.pages), history + [Clean(e.dead)])
  {
    hide LabelOf, VacuumLabel, PageVacuumed;
    var history' := history + [Clean(e.dead)];
    assert history'[..|history|] == history;
    VacuumKeepsShape(ix.pages, e.pages, e.dead, ItemPointer(0, 0));
    forall p | Resolves(e.pages, p) ensures CarriesAt(Retrieve(e.pages, p), StoredLabels(history')) {
      assert SameShape(ix.pages[p.block], e.pages[p.block]);
      VacuumKeepsShape(ix.pages, e.pages, e.dead, p);
      assert CarriesAt(Retrieve(ix.pages, p), StoredLabels(history));
    }
  }

  lemma {:induction false} RelinkedCarries(ix: Index, e: IndexEvent, history: seq<LabelEvent>)
    requires e.Relinked? && CanHappen(ix, e) && Carries(ix, history)
    ensures Carries(ix.(pages := e.pages), history)
  {
    hide LabelOf;
    forall p | Resolves(e.pages, p) ensures CarriesAt(Retrieve(e.pages, p), StoredLabels(history)) {
      assert SameShape(ix.pages[p.block], e.pages[p.block]);
      assert Resolves(ix.pages, p);
      SameHeadSameLabel(Retrieve(ix.pages, p).node, Retrieve(e.pages, p).node);
    }
  }

  /** One step: the chain is kept, and every node carries the label of the longer history. */
  lemma {:induction false} StepCarries(ix: Index, e: IndexEvent, history: seq<LabelEvent>)
    requires CanHappen(ix, e) && Carries(ix, history)
    ensures Possible(ix, PageEvent(e))
    ensures Carries(After(ix, PageEvent(e)), history + LogOf(e))
  {
    hide InsertTuple, LabelOf, PointerToLabel, PageVacuumed, StoredLabels;
    match e
    case Added(_, _) => AddedCarries(ix, e, history);
    case Vacuumed(_, _) => VacuumedCarries(ix, e, history);
    case Relinked(_) =>
      RelinkedCarries(ix, e, history);
      assert history + [] == history;
    case Leaked =>
      assert history + [] == history;
      var pages := ix.pages + [ZERO_PAGE];
      forall p | Resolves(pages, p) ensures CarriesAt(Retrieve(pages, p), StoredLabels(history)) {
        assert Resolves(ix.pages, p);
      }
  }

  ghost predicate IsIndexRun(states: seq<Index>, events: seq<IndexEvent>) {
    |states| == |events| + 1 && forall i :: 0 <= i < |events| ==> IsStep(states, events, i)
  }

  ghost predicate IsStep(states: seq<Index>, events: seq<IndexEvent>, i: nat)
    requires |states| == |events| + 1 && i < |events|
  {
    var e := PageEvent(events[i]);
    CanHappen(states[i], events[i]) && Possible(states[i], e) && states[i + 1] == After(states[i], e)
  }

  /** Over every run the labels on the pages are those of the history: the label of its row for every node,
      until a vacuum finds the row dead, and the deleted mark from then on. */
  lemma {:induction false} RunCarries(states: seq<Index>, events: seq<IndexEvent>, history: seq<LabelEvent>, n: nat)
    requires IsIndexRun(states, events) && Carries(states[0], history) && n < |states|
    ensures Carries(states[n], history + Log(events[..n]))
    decreases n
  {
    hide Carries, CanHappen, After, Possible, PageEvent, LogOf;
    if n == 0 {
      assert history + Log(events[..0]) == history;
    } else {
      RunCarries(states, events, history, n - 1);
      assert IsStep(states, events, n - 1);
      StepCarries(states[n - 1], events[n - 1], history + Log(events[..n - 1]));
      assert events[..n][..n - 1] == events[..n - 1];
      assert history + Log(events[..n - 1]) + LogOf(events[n - 1]) == history + Log(events[..n]);
    }
  }

  /** A node on the pages after any run: its label is the deleted mark exactly if its row was found dead. */
  lemma {:induction false} NodeAfterRun(states: seq<Index>, events: seq<IndexEvent>, history: seq<LabelEvent>, n: nat,
                                        p: ItemPointer)
    requires IsIndexRun(states, events) && Carries(states[0], history) && n < |states|
    requires Resolves(states[n].pages, p)
    ensures var h, t := history + Log(events[..n]), Retrieve(states[n].pages, p);
      && |t.node| >= NODE_HEAD && 0 <= t.seqid < |Tids(h)| && PointerInRange(Tids(h)[t.seqid])
      && LabelOf(t.node) == if Dead(h, t.seqid) then INVALID_LABEL else PointerToLabel(Tids(h)[t.seqid])
  {
    hide LabelOf, PointerToLabel, PointerInRange, StoredLabels, Tids, Dead, Log, IsStep;
    RunCarries(states, events, history, n);
    var h, t := history + Log(events[..n]), Retrieve(states[n].pages, p);
    assert CarriesAt(t, StoredLabels(h));
    LabelsOverRuns(h, t.seqid);
  }

  /** After any run, over any search that answers with labels of nodes on the pages, a scan emits exactly
      those labels of its batches that belong to a row no vacuum has found dead. */
  lemma {:induction false} ScanAfterRun(states: seq<Index>, events: seq<IndexEvent>, history: seq<LabelEvent>, n: nat,
                                        batches: seq<seq<nat>>, x: nat)
    requires IsIndexRun(states, events) && Carries(states[0], history) && n < |states|
    requires forall l :: l in Scan.Joined(batches) ==> OnPages(states[n].pages, l)
    ensures x in Scan.Live(Scan.Joined(batches)) <==>
            x in Scan.Joined(batches) && LiveRow(history + Log(events[..n]), x)
  {
    hide LabelOf, Tids, Dead, Log, IsStep, Scan.Joined, Scan.Live, Carries;
    var h := history + Log(events[..n]);
    Scan.LiveMeans(Scan.Joined(batches), x);
    if x in Scan.Joined(batches) {
      assert OnPages(states[n].pages, x);
      var p :| Resolves(states[n].pages, p) && CarriesLabel(Retrieve(states[n].pages, p), x);
      NodeAfterRun(states, events, history, n, p);
      LabelRoundTrip(Tids(h)[Retrieve(states[n].pages, p).seqid]);
    }
    if LiveRow(h, x) {
      var i :| 0 <= i < |Tids(h)| && !Dead(h, i) && PointerInRange(Tids(h)[i]) && x == PointerToLabel(Tids(h)[i]);
      LabelRoundTrip(Tids(h)[i]);
    }
  }

  ghost predicate CarriesLabel(t: Tuple, l: nat) {
    |t.node| >= NODE_HEAD && LabelOf(t.node) == l
  }

  ghost predicate OnPages(pages: seq<Page>, l: nat) {
    exists p :: Resolves(pages, p) && CarriesLabel(Retrieve(pages, p), l)
  }

  /** The label of a row that was inserted and not found dead. */
  ghost predicate LiveRow(h: seq<LabelEvent>, x: nat) {
    exists i :: 0 <= i < |Tids(h)| && !Dead(h, i) && PointerInRange(Tids(h)[i]) && x == PointerToLabel(Tids(h)[i])
  }

  // ----- where runs start, and where each node is

  /** In a chained index node i is somewhere: a pointer leads to it. */
  lemma {:induction false} NodeHasPointer(pages: seq<Page>, chain: seq<nat>, last: BlockRef, count: nat, i: nat)
    returns (p: ItemPointer)
    requires IsChain(pages, chain, last, count) && i < count
    ensures Resolves(pages, p) && Retrieve(pages, p).seqid == i
  {
    hide Geometry;
    var k := 0;
    while pages[chain[k]].special.lastId < i
      invariant k < |chain| && pages[chain[k]].special.firstId <= i && PageOk(pages[chain[k]])
      decreases |chain| - k
    {
      assert k + 1 < |chain|;
      k := k + 1;
    }
    p := ItemPointer(chain[k], i - pages[chain[k]].special.firstId + 1);
  }

  ghost function Adds(tids: seq<ItemPointer>): seq<LabelEvent> {
    seq(|tids|, i requires 0 <= i < |tids| => Add(tids[i]))
  }

  lemma {:induction false} AddsLabels(tids: seq<ItemPointer>)
    requires forall i :: 0 <= i < |tids| ==> PointerInRange(tids[i])
    ensures Tids(Adds(tids)) == tids && |StoredLabels(Adds(tids))| == |tids|
    ensures forall i :: 0 <= i < |tids| ==> StoredLabels(Adds(tids))[i] == PointerToLabel(tids[i])
    decreases |tids|
  {
    hide PointerToLabel, PointerInRange;
    if tids != [] {
      var n := |tids| - 1;
      AddsLabels(tids[..n]);
      assert Adds(tids)[..n] == Adds(tids[..n]);
    }
  }

  /** A build starts a run: its nodes carry the labels of the rows they were made for. */
  lemma {:induction false} BuildCarries(meta: Meta, nodes: seq<seq<byte>>, tids: seq<ItemPointer>, ptrs: seq<ItemPointer>,
                                        ix: Index, chain: seq<nat>)
    requires Chained(ix, chain) && Isomorphic(meta, nodes, ix.pages, ptrs) && ix.count == |nodes| == |tids|
    requires forall i :: 0 <= i < |tids| ==> PointerInRange(tids[i])
    requires forall i :: 0 <= i < |nodes| && |nodes[i]| >= NODE_HEAD ==> LabelOf(nodes[i]) == PointerToLabel(tids[i])
    ensures Carries(ix, Adds(tids))
  {
    hide LabelOf, PointerToLabel, StoredLabels, PointerInRange, IsChain, SlotLeadsTo, Tids;
    AddsLabels(tids);
    forall p | Resolves(ix.pages, p) ensures CarriesAt(Retrieve(ix.pages, p), StoredLabels(Adds(tids))) {
      var k := IdOnChain(ix.pages, chain, ix.last, ix.count, p.block, p.pos - 1);
      assert SameNode(meta, k, nodes[k], Retrieve(ix.pages, ptrs[k]));
      PointersInjective(ix.pages, chain, ix.last, ix.count, p, ptrs[k]);
    }
  }
}
