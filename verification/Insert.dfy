/**
 Inserts after the build, and what every run of inserts, graph updates and failed inserts keeps.
 */
module Insert {
  import opened Bytes
  import opened Pages
  import opened Chain
  import opened Shapes
  import opened Packing
  import opened BulkStore

  datatype Index = Index(pages: seq<Page>, last: BlockRef, count: nat)

  /** The extension PostgreSQL leaves behind when the insert that made it fails. */
  const ZERO_PAGE: Page := Page(0, 0, [], Special(0, 0, Block(0)))

  /** The page-level effect of one insert. */
  function InsertTuple(ix: Index, node: seq<byte>): Index
    requires ix.last.Block? ==> ix.last.no < |ix.pages|
  {
    var t := Tuple(ix.count, |node|, node);
    if ix.last.Block? && FreeSpace(ix.pages[ix.last.no]) > LINE_POINTER + TUPLE_HEADER + |node| then
      Index(AppendTuple(ix.pages, ix.last.no, t), ix.last, ix.count + 1)
    else
      Index(ExtendWith(ix.pages, ix.last, t), Block(|ix.pages|), ix.count + 1)
  }

  /** The data pages are one chain, and none was opened while the one before could have taken the tuple. */
  ghost predicate Chained(ix: Index, chain: seq<nat>) {
    |ix.pages| >= 1 && IsChain(ix.pages, chain, ix.last, ix.count) && Packed(ix.pages, chain, false)
  }

  /** An index built empty starts with the empty chain. */
  lemma {:induction false} EmptyIndexChained()
    ensures Chained(Index([PageInit(0)], NoBlock, 0), [])
  {
  }

  /** What a build leaves is where runs start. */
  lemma {:induction false} BuiltIsChained(ix: Index, chain: seq<nat>)
    requires |ix.pages| >= 1 && IsChain(ix.pages, chain, ix.last, ix.count) && Packed(ix.pages, chain, true)
    ensures Chained(ix, chain)
  {
    hide IsChain, Packed;
    TightIsPacked(ix.pages, chain, ix.last, ix.count);
  }

  lemma {:induction false} ChainedLast(ix: Index, chain: seq<nat>)
    requires Chained(ix, chain)
    ensures ix.last.Block? ==> 1 <= ix.last.no < |ix.pages| && PageOk(ix.pages[ix.last.no])
    ensures ix.last.Block? ==> ix.pages[ix.last.no].special.lastId == ix.count - 1
    ensures ix.last.Block? ==> ix.pages[ix.last.no].special.next == NoBlock
    ensures ix.last.NoBlock? ==> ix.count == 0
  {
    if ix.last.Block? {
      assert PageOk(ix.pages[chain[|chain| - 1]]);
    }
  }

  lemma {:induction false} InsertKeepsChain(ix: Index, chain: seq<nat>, node: seq<byte>) returns (chain': seq<nat>)
    requires Chained(ix, chain) && |node| <= MAX_NODE_BYTES
    requires ix.last.Block? ==> ix.last.no < |ix.pages|
    ensures Chained(InsertTuple(ix, node), chain')
  {
    hide IsChain, Packed;
    ChainedLast(ix, chain);
    var t := Tuple(ix.count, |node|, node);
    if ix.last.Block? && FreeSpace(ix.pages[ix.last.no]) > LINE_POINTER + TUPLE_HEADER + |node| {
      InsertGuardSuffices(ix.pages[ix.last.no], |node|);
      AppendKeepsChain(ix.pages, chain, ix.last.no, ix.count, t);
      AppendKeepsPacked(ix.pages, chain, ix.last.no, ix.count, t, false);
      chain' := chain;
    } else {
      ExtendKeepsChain(ix.pages, chain, ix.last, ix.count, t);
      ExtendKeepsPacked(ix.pages, chain, ix.last, ix.count, t, false);
      chain' := chain + [|ix.pages|];
    }
  }

  lemma {:induction false} InsertKeepsPointer(ix: Index, chain: seq<nat>, node: seq<byte>, p: ItemPointer)
    requires Chained(ix, chain) && Resolves(ix.pages, p)
    requires ix.last.Block? ==> ix.last.no < |ix.pages|
    ensures Resolves(InsertTuple(ix, node).pages, p)
    ensures Retrieve(InsertTuple(ix, node).pages, p) == Retrieve(ix.pages, p)
  {
    var t := Tuple(ix.count, |node|, node);
    if ix.last.Block? && FreeSpace(ix.pages[ix.last.no]) > LINE_POINTER + TUPLE_HEADER + |node| {
      AppendKeepsPointer(ix.pages, ix.last.no, t, p);
    } else {
      ExtendKeepsPointer(ix.pages, ix.last, t, p);
    }
  }

  // ----- the insert path itself

  /** HnswIndexPageAddVector: adds the tuple and keeps the special block; its assertions hold. */
  method AddVector(page: Page, t: Tuple) returns (r: Page, offset: nat)
    requires HasRoom(page, |t.node|)
    requires page.items != [] ==> page.special.lastId == t.seqid - 1 && page.special.next == NoBlock
    ensures offset == |page.items| + 1
    ensures r == AddItem(page, t).0.(special :=
              if page.items == [] then Special(t.seqid, t.seqid, NoBlock) else page.special.(lastId := t.seqid))
  {
    var (p, at) := AddItem(page, t);
    r, offset := p, at;
    assert offset != INVALID_OFFSET;
    if |r.items| == 1 {
      r := r.(special := Special(t.seqid, t.seqid, NoBlock));
    } else {
      assert r.special.lastId == t.seqid - 1;
      r := r.(special := r.special.(lastId := r.special.lastId + 1));
      assert r.special.next == NoBlock;
    }
  }

  /** PrepareIndexTuple on the pages. The insert succeeds exactly when the node fits an empty page;
      otherwise PageAddItem refuses it on the new page too, the insert fails, and all that stays is
      that page, unlinked. The returned pointer leads to the new tuple. */
  method PrepareIndexTuple(rel: IndexRelation, node: seq<byte>, ghost chain: seq<nat>)
    returns (ok: bool, slot: ItemPointer, ghost chain': seq<nat>)
    requires Chained(Index(rel.pages, rel.lastDataBlock, rel.numVectors), chain)
    modifies rel
    ensures ok <==> |node| <= MAX_NODE_BYTES
    ensures Chained(Index(rel.pages, rel.lastDataBlock, rel.numVectors), chain')
    ensures old(rel.lastDataBlock).Block? ==> old(rel.lastDataBlock).no < |old(rel.pages)|
    ensures ok ==> Index(rel.pages, rel.lastDataBlock, rel.numVectors)
                   == InsertTuple(old(Index(rel.pages, rel.lastDataBlock, rel.numVectors)), node)
    ensures ok ==> slot == old(
              if rel.lastDataBlock.Block? && FreeSpace(rel.pages[rel.lastDataBlock.no]) > LINE_POINTER + TUPLE_HEADER + |node|
              then ItemPointer(rel.lastDataBlock.no, |rel.pages[rel.lastDataBlock.no].items| + 1)
              else ItemPointer(|rel.pages|, 1))
    ensures ok ==> Resolves(rel.pages, slot)
                   && Retrieve(rel.pages, slot) == Tuple(old(rel.numVectors), |node|, node)
    ensures !ok ==> rel.pages == old(rel.pages) + [ZERO_PAGE]
                    && rel.lastDataBlock == old(rel.lastDataBlock) && rel.numVectors == old(rel.numVectors)
  {
    hide IsChain, PageOk;
    ghost var ix := Index(rel.pages, rel.lastDataBlock, rel.numVectors);
    ChainedLast(ix, chain);
    FitsEmptyPage(|node|);
    var t := Tuple(rel.numVectors, |node|, node);
    slot := ItemPointer(0, 0);
    if rel.lastDataBlock.Block? && FreeSpace(rel.pages[rel.lastDataBlock.no]) > LINE_POINTER + TUPLE_HEADER + |node| {
      LastTakes(ix, chain, node);
      var page, at := AddVector(rel.pages[rel.lastDataBlock.no], t);
      rel.pages := rel.pages[rel.lastDataBlock.no := page];
      slot := ItemPointer(rel.lastDataBlock.no, at);
    } else {
      var blockno := |rel.pages|;
      rel.pages := rel.pages + [ZERO_PAGE];
      if |node| > MAX_NODE_BYTES {
        LeakKeepsChain(ix.pages, chain, ix.last, ix.count, ZERO_PAGE);
        return false, slot, chain;
      }
      if rel.lastDataBlock.Block? {
        var last := rel.pages[rel.lastDataBlock.no];
        rel.pages := rel.pages[rel.lastDataBlock.no := last.(special := last.special.(next := Block(blockno)))];
      }
      var page, at := AddVector(PageInit(SPECIAL_BYTES), t);
      rel.pages := rel.pages[blockno := page];
      rel.lastDataBlock := Block(blockno);
      slot := ItemPointer(blockno, at);
    }
    rel.numVectors := rel.numVectors + 1;
    assert rel.pages == InsertTuple(ix, node).pages;
    ok := true;
    chain' := InsertKeepsChain(ix, chain, node);
  }

  lemma {:induction false} LastTakes(ix: Index, chain: seq<nat>, node: seq<byte>)
    requires Chained(ix, chain) && ix.last.Block? && ix.last.no < |ix.pages|
    requires FreeSpace(ix.pages[ix.last.no]) > LINE_POINTER + TUPLE_HEADER + |node|
    ensures HasRoom(ix.pages[ix.last.no], |node|) && |node| <= MAX_NODE_BYTES
    ensures ix.pages[ix.last.no].items != []
  {
    ChainedLast(ix, chain);
    InsertGuardSuffices(ix.pages[ix.last.no], |node|);
    FitsEmptyPage(|node|);
  }

  // ----- runs

  /** What can happen to the pages: a completed insert, a failed one, an in-place change of node
      bytes (neighbour relinking by an insert, label reset by a vacuum). */
  datatype Event = Inserted(node: seq<byte>) | Failed | Touched(pages: seq<Page>)

  ghost predicate Possible(ix: Index, e: Event) {
    && (ix.last.Block? ==> ix.last.no < |ix.pages|)
    && match e
       case Inserted(node) => |node| <= MAX_NODE_BYTES
       case Failed => true
       case Touched(pages) => SameShapes(ix.pages, pages)
  }

  ghost function After(ix: Index, e: Event): Index
    requires Possible(ix, e)
  {
    match e
    case Inserted(node) => InsertTuple(ix, node)
    case Failed => ix.(pages := ix.pages + [ZERO_PAGE])
    case Touched(pages) => ix.(pages := pages)
  }

  ghost predicate IsRun(states: seq<Index>, events: seq<Event>) {
    && |states| == |events| + 1
    && forall i, j :: 0 <= i < |events| && j == i + 1 ==>
         Possible(states[i], events[i]) && states[j] == After(states[i], events[i])
  }

  ghost function Inserts(events: seq<Event>): nat {
    if events == [] then 0
    else Inserts(events[..|events| - 1]) + if events[|events| - 1].Inserted? then 1 else 0
  }

  lemma {:induction false} StepKeeps(ix: Index, e: Event, chain: seq<nat>, p: ItemPointer) returns (chain': seq<nat>)
    requires Chained(ix, chain) && Possible(ix, e)
    ensures Chained(After(ix, e), chain')
    ensures After(ix, e).count == ix.count + if e.Inserted? then 1 else 0
    ensures Resolves(ix.pages, p) ==>
              Resolves(After(ix, e).pages, p) && Retrieve(After(ix, e).pages, p).seqid == Retrieve(ix.pages, p).seqid
  {
    hide IsChain;
    match e
    case Inserted(node) =>
      chain' := InsertKeepsChain(ix, chain, node);
      if Resolves(ix.pages, p) {
        InsertKeepsPointer(ix, chain, node, p);
      }
    case Failed =>
      LeakKeepsChain(ix.pages, chain, ix.last, ix.count, ZERO_PAGE);
      LeakKeepsPacked(ix.pages, chain, ZERO_PAGE, false);
      chain' := chain;
    case Touched(pages) =>
      ShapeKeepsChain(ix.pages, pages, chain, ix.last, ix.count);
      ShapeKeepsPacked(ix.pages, pages, chain, false);
      if Resolves(ix.pages, p) {
        ShapeKeepsPointer(ix.pages, pages, p);
      }
      chain' := chain;
  }

  /** Over every run: the data pages stay one chain with ids 0 .. count-1, the count grows by the
      completed inserts, and a pointer handed out once keeps leading to the same node. */
  lemma {:induction false} RunKeeps(states: seq<Index>, events: seq<Event>, chain: seq<nat>, p: ItemPointer, n: nat)
    returns (chain': seq<nat>)
    requires IsRun(states, events) && Chained(states[0], chain) && n < |states|
    ensures Chained(states[n], chain')
    ensures states[n].count == states[0].count + Inserts(events[..n])
    ensures Resolves(states[0].pages, p) ==>
              && Resolves(states[n].pages, p)
              && Retrieve(states[n].pages, p).seqid == Retrieve(states[0].pages, p).seqid
    decreases n
  {
    hide Chained, After, Possible;
    if n == 0 {
      chain' := chain;
    } else {
      var before := RunKeeps(states, events, chain, p, n - 1);
      assert Possible(states[n - 1], events[n - 1]) && states[n] == After(states[n - 1], events[n - 1]);
      chain' := StepKeeps(states[n - 1], events[n - 1], before, p);
      assert events[..n][..n - 1] == events[..n - 1];
    }
  }
}
