/**
 StoreExternalIndex from the first page to the rewritten graph, and the statement that the
 stored graph is the built one under relocation.
 */
module Build {
  import opened Bytes
  import opened Pages
  import opened NodeLayout
  import opened Sockets
  import opened Chain
  import opened Shapes
  import opened Packing
  import opened BulkStore
  import opened BulkChain
  import opened Rewrite

  ghost predicate PageRewritten(meta: Meta, ptrs: seq<ItemPointer>, p: Page, q: Page) {
    && SameShape(p, q)
    && forall j :: 0 <= j < |p.items| ==> Rewritten(meta, ptrs, p.items[j].node, q.items[j].node)
  }

  ghost predicate GraphPage(meta: Meta, n: nat, p: Page) {
    forall j :: 0 <= j < |p.items| ==> GraphNode(meta, p.items[j].node, n)
  }

  method RewritePage(meta: Meta, ptrs: array<ItemPointer>, p: Page) returns (q: Page)
    requires PointersInRange(ptrs[..]) && GraphPage(meta, ptrs.Length, p)
    ensures PageRewritten(meta, ptrs[..], p, q)
  {
    hide GraphNode, Rewritten, PointersInRange, RewrittenTo;
    q := p;
    for offset := 1 to |p.items| + 1
      invariant |q.items| == |p.items| && q == p.(items := q.items)
      invariant forall j :: offset - 1 <= j < |p.items| ==> q.items[j] == p.items[j]
      invariant forall j :: 0 <= j < offset - 1 ==>
                  && q.items[j] == p.items[j].(node := q.items[j].node)
                  && |q.items[j].node| == |p.items[j].node|
                  && Rewritten(meta, ptrs[..], p.items[j].node, q.items[j].node)
    {
      var t := q.items[offset - 1];
      var node := RewriteNode(meta, ptrs, t.node);
      RewrittenLength(meta, ptrs[..], t.node, node);
      q := q.(items := q.items[offset - 1 := t.(node := node)]);
    }
  }

  lemma {:induction false} RewrittenLength(meta: Meta, ptrs: seq<ItemPointer>, node: seq<byte>, r: seq<byte>)
    requires Rewritten(meta, ptrs, node, r)
    ensures |r| == |node|
  {
  }

  /** The loop over blocks 1 .. last_data_block; codebook pages have no items to visit. */
  method RewriteNeighbors(rel: IndexRelation, meta: Meta, ptrs: array<ItemPointer>)
    requires rel.lastDataBlock.Block? ==> rel.lastDataBlock.no < |rel.pages|
    requires PointersInRange(ptrs[..])
    requires forall b :: 0 <= b < |rel.pages| ==> GraphPage(meta, ptrs.Length, rel.pages[b])
    modifies rel`pages
    ensures |rel.pages| == old(|rel.pages|)
    ensures forall b :: 0 <= b < |rel.pages| ==>
              if rel.lastDataBlock.Block? && 1 <= b <= rel.lastDataBlock.no
              then PageRewritten(meta, ptrs[..], old(rel.pages)[b], rel.pages[b])
              else rel.pages[b] == old(rel.pages)[b]
  {
    hide GraphPage, PageRewritten, PointersInRange;
    if rel.lastDataBlock.NoBlock? {
      return;
    }
    for blockno := 1 to rel.lastDataBlock.no + 1
      invariant |rel.pages| == old(|rel.pages|)
      invariant forall b :: 0 <= b < |rel.pages| && !(1 <= b < blockno) ==> rel.pages[b] == old(rel.pages)[b]
      invariant forall b :: 1 <= b < blockno ==> PageRewritten(meta, ptrs[..], old(rel.pages)[b], rel.pages[b])
    {
      var page := RewritePage(meta, ptrs, rel.pages[blockno]);
      rel.pages := rel.pages[blockno := page];
    }
  }

  // ----- what survives the relocation

  /** Label, level and neighbour counts are outside the slots and stay as they were. */
  lemma {:induction false} RewriteKeepsHead(meta: Meta, ptrs: seq<ItemPointer>, node: seq<byte>, r: seq<byte>, i: nat)
    requires Rewritten(meta, ptrs, node, r) && i < NODE_HEAD
    ensures r[i] == node[i]
  {
    forall l, j | IsSlot(meta, node, l, j) ensures SlotAt(meta, l, j) > i {
      if l > 0 {
        ListStartMonotone(meta, 0, l);
      }
    }
    assert !InSlot(meta, node, i);
  }

  lemma {:induction false} RewriteKeepsLists(meta: Meta, ptrs: seq<ItemPointer>, node: seq<byte>, r: seq<byte>)
    requires Rewritten(meta, ptrs, node, r)
    ensures |r| >= NODE_HEAD && LevelOf(r) == LevelOf(node) && LabelOf(r) == LabelOf(node)
    ensures forall l :: 0 <= l <= LevelOf(node) ==> HasList(meta, r, l) && CountAt(meta, r, l) == CountAt(meta, node, l)
  {
    forall i: nat | i < NODE_HEAD ensures r[i] == node[i] {
      RewriteKeepsHead(meta, ptrs, node, r, i);
    }
    forall l: nat | l <= LevelOf(node) ensures HasList(meta, r, l) && CountAt(meta, r, l) == CountAt(meta, node, l) {
      RewriteKeepsCount(meta, ptrs, node, r, l);
    }
  }

  lemma {:induction false} RewriteKeepsCount(meta: Meta, ptrs: seq<ItemPointer>, node: seq<byte>, r: seq<byte>, l: nat)
    requires Rewritten(meta, ptrs, node, r) && l <= LevelOf(node)
    ensures ListStart(meta, l) + ListBytes(meta, l) <= |r|
    ensures Le32(r, ListStart(meta, l)) == CountAt(meta, node, l)
  {
    hide ListStart;
    assert HasList(meta, node, l);
    forall i: nat | ListStart(meta, l) <= i < ListStart(meta, l) + COUNT_BYTES ensures r[i] == node[i] {
      CountHoldsNoSlot(meta, node, l, i);
    }
  }

  /** Each neighbour slot now holds the pointer of the node it used to name. */
  lemma {:induction false} SlotRelocated(meta: Meta, ptrs: seq<ItemPointer>, node: seq<byte>, r: seq<byte>, l: nat, j: nat)
    requires Rewritten(meta, ptrs, node, r) && IsSlot(meta, node, l, j)
    ensures var at := SlotAt(meta, l, j);
      && at + SLOT_BYTES <= |r| && SeqidAt(node, at) < |ptrs|
      && DecodePointer(r[at..at + SLOT_BYTES]) == ptrs[SeqidAt(node, at)]
  {
    hide EncodePointer, DecodePointer, ListStart, ListBytes, LevelOf, HasList, Sized, CountAt;
    var at := SlotAt(meta, l, j);
    assert r[at..at + SLOT_BYTES] == EncodePointer(ptrs[SeqidAt(node, at)]);
    PointerRoundTrip(ptrs[SeqidAt(node, at)]);
  }

  /** The vector behind the last list holds no slot, so a rewrite leaves it alone. */
  lemma {:induction false} RewriteKeepsVector(meta: Meta, ptrs: seq<ItemPointer>, node: seq<byte>, r: seq<byte>)
    requires Rewritten(meta, ptrs, node, r)
    ensures |r| == |node| && meta.vectorBytes <= |node|
    ensures r[|node| - meta.vectorBytes..] == node[|node| - meta.vectorBytes..]
  {
    var level := LevelOf(node);
    ListsAreConsecutive(meta, level);
    forall i | |node| - meta.vectorBytes <= i < |node| ensures r[i] == node[i] {
      VectorHoldsNoSlot(meta, node, i);
    }
  }

  lemma {:induction false} VectorHoldsNoSlot(meta: Meta, node: seq<byte>, i: nat)
    requires |node| >= NODE_HEAD && ListStart(meta, LevelOf(node) + 1) <= i
    ensures !InSlot(meta, node, i)
  {
    hide LevelOf, ListStart, CountAt;
    forall l, j | IsSlot(meta, node, l, j) ensures SlotAt(meta, l, j) + SLOT_BYTES <= i {
      SlotEnds(meta, l, j);
      ListStartMonotone(meta, l, LevelOf(node) + 1);
    }
  }

  lemma {:induction false} SlotEnds(meta: Meta, l: nat, j: nat)
    requires j < Capacity(meta, l)
    ensures SlotAt(meta, l, j) + SLOT_BYTES <= ListStart(meta, l) + ListBytes(meta, l)
  {
  }

  /** Graph isomorphism: pointer `k` leads to node `k`, which keeps its label, level, vector and neighbour
      counts, and each of its slots leads to the node with the id the slot held before. */
  ghost predicate Isomorphic(meta: Meta, nodes: seq<seq<byte>>, pages: seq<Page>, ptrs: seq<ItemPointer>) {
    && |ptrs| == |nodes|
    && (forall k :: 0 <= k < |nodes| ==> Resolves(pages, ptrs[k]))
    && (forall k :: 0 <= k < |nodes| ==> SameNode(meta, k, nodes[k], Retrieve(pages, ptrs[k])))
    && (forall k, l, j :: 0 <= k < |nodes| && IsSlot(meta, nodes[k], l, j) ==>
          SlotLeadsTo(meta, pages, nodes[k], Retrieve(pages, ptrs[k]).node, l, j))
  }

  ghost predicate SameNode(meta: Meta, k: nat, node: seq<byte>, t: Tuple) {
    && t.seqid == k && |t.node| == |node| && |node| >= NODE_HEAD
    && LabelOf(t.node) == LabelOf(node) && LevelOf(t.node) == LevelOf(node)
    && meta.vectorBytes <= |node| && t.node[|node| - meta.vectorBytes..] == node[|node| - meta.vectorBytes..]
    && forall l :: 0 <= l <= LevelOf(node) ==>
         HasList(meta, node, l) && HasList(meta, t.node, l) && CountAt(meta, t.node, l) == CountAt(meta, node, l)
  }

  ghost predicate SlotLeadsTo(meta: Meta, pages: seq<Page>, node: seq<byte>, stored: seq<byte>, l: nat, j: nat) {
    var at := SlotAt(meta, l, j);
    && at + SLOT_BYTES <= |stored| && at + SLOT_BYTES <= |node|
    && var p := DecodePointer(stored[at..at + SLOT_BYTES]);
       Resolves(pages, p) && Retrieve(pages, p).seqid == SeqidAt(node, at)
  }

  ghost predicate AllRewritten(meta: Meta, ptrs: seq<ItemPointer>, ps: seq<Page>, qs: seq<Page>) {
    |qs| == |ps| && forall b :: 0 <= b < |ps| ==> PageRewritten(meta, ptrs, ps[b], qs[b])
  }

  /** A pointer reaches the rewritten form of the tuple it reached before. */
  lemma {:induction false} RetrieveRewritten(meta: Meta, ps: seq<Page>, qs: seq<Page>, ptrs: seq<ItemPointer>, p: ItemPointer)
    requires AllRewritten(meta, ptrs, ps, qs) && Resolves(ps, p)
    ensures Resolves(qs, p)
    ensures Retrieve(qs, p).seqid == Retrieve(ps, p).seqid
    ensures Rewritten(meta, ptrs, Retrieve(ps, p).node, Retrieve(qs, p).node)
  {
    hide Rewritten;
    assert PageRewritten(meta, ptrs, ps[p.block], qs[p.block]);
  }

  lemma {:induction false} RewriteIsIsomorphism(meta: Meta, s: Store, nodes: seq<seq<byte>>, qs: seq<Page>)
    requires Located(s, nodes) && AllRewritten(meta, s.pointers, s.pages, qs)
    ensures Isomorphic(meta, nodes, qs, s.pointers)
  {
    hide PageRewritten, Rewritten, AllRewritten, RewrittenTo, IsSlot, HasList, LevelOf, LabelOf;
    forall k | 0 <= k < |nodes|
      ensures Resolves(qs, s.pointers[k]) && SameNode(meta, k, nodes[k], Retrieve(qs, s.pointers[k]))
    {
      NodeSurvives(meta, s, nodes, qs, k);
    }
    forall k, l, j | 0 <= k < |nodes| && IsSlot(meta, nodes[k], l, j)
      ensures SlotLeadsTo(meta, qs, nodes[k], Retrieve(qs, s.pointers[k]).node, l, j)
    {
      SlotSurvives(meta, s, nodes, qs, k, l, j);
    }
  }

  lemma {:induction false} NodeSurvives(meta: Meta, s: Store, nodes: seq<seq<byte>>, qs: seq<Page>, k: nat)
    requires Located(s, nodes) && AllRewritten(meta, s.pointers, s.pages, qs) && k < |nodes|
    ensures Resolves(qs, s.pointers[k]) && SameNode(meta, k, nodes[k], Retrieve(qs, s.pointers[k]))
  {
    hide PageRewritten, AllRewritten, CountAt, LabelOf, LevelOf;
    RetrieveRewritten(meta, s.pages, qs, s.pointers, s.pointers[k]);
    RewriteKeepsLists(meta, s.pointers, nodes[k], Retrieve(qs, s.pointers[k]).node);
    RewriteKeepsVector(meta, s.pointers, nodes[k], Retrieve(qs, s.pointers[k]).node);
  }

  lemma {:induction false} SlotSurvives(meta: Meta, s: Store, nodes: seq<seq<byte>>, qs: seq<Page>, k: nat, l: nat, j: nat)
    requires Located(s, nodes) && AllRewritten(meta, s.pointers, s.pages, qs)
    requires k < |nodes| && IsSlot(meta, nodes[k], l, j)
    ensures Resolves(qs, s.pointers[k])
    ensures SlotLeadsTo(meta, qs, nodes[k], Retrieve(qs, s.pointers[k]).node, l, j)
  {
    hide PageRewritten, AllRewritten, IsSlot, HasList, DecodePointer, Rewritten;
    RetrieveRewritten(meta, s.pages, qs, s.pointers, s.pointers[k]);
    SlotRelocated(meta, s.pointers, nodes[k], Retrieve(qs, s.pointers[k]).node, l, j);
    RewrittenLength(meta, s.pointers, nodes[k], Retrieve(qs, s.pointers[k]).node);
    var id := SeqidAt(nodes[k], SlotAt(meta, l, j));
    RetrieveRewritten(meta, s.pages, qs, s.pointers, s.pointers[id]);
  }

  // ----- the whole build

  /** The block loop visits every page that has items. */
  lemma {:induction false} EveryItemVisited(meta: Meta, ptrs: seq<ItemPointer>, ps: seq<Page>, qs: seq<Page>,
                                            chain: seq<nat>, last: nat, count: nat)
    requires IsChain(ps, chain, Block(last), count) && |qs| == |ps|
    requires forall b :: 0 <= b < |ps| ==>
               if 1 <= b <= last then PageRewritten(meta, ptrs, ps[b], qs[b]) else qs[b] == ps[b]
    ensures AllRewritten(meta, ptrs, ps, qs) && SameShapes(ps, qs)
  {
    hide PageOk, Links, Rewritten;
    forall i | 0 <= i < |chain| ensures 1 <= chain[i] <= last {
      assert i == |chain| - 1 || chain[i] < chain[|chain| - 1];
    }
    forall b | 0 <= b < |ps| ensures PageRewritten(meta, ptrs, ps[b], qs[b]) {
      if !(1 <= b <= last) {
        assert b !in chain;
      }
    }
  }

  lemma {:induction false} StoredPointersInRange(s: Store, chain: seq<nat>, nodes: seq<seq<byte>>)
    requires Located(s, nodes) && IsChain(s.pages, chain, s.last, |nodes|) && |s.pages| <= 0x1_0000_0000
    ensures PointersInRange(s.pointers)
  {
    hide Links, Ends;
    forall i | 0 <= i < |s.pointers| ensures PointerInRange(s.pointers[i]) {
      var b := s.pointers[i].block;
      assert Resolves(s.pages, s.pointers[i]);
      var x :| 0 <= x < |chain| && chain[x] == b;
      assert PageOk(s.pages[chain[x]]);
      PageAlignment(s.pages[b]);
    }
  }

  /** Every tuple on the pages is one of the stored nodes. */
  lemma {:induction false} StoredPagesAreGraph(meta: Meta, s: Store, chain: seq<nat>, nodes: seq<seq<byte>>)
    requires Located(s, nodes) && IsChain(s.pages, chain, s.last, |nodes|)
    requires forall i :: 0 <= i < |nodes| ==> GraphNode(meta, nodes[i], |nodes|)
    ensures forall b :: 0 <= b < |s.pages| ==> GraphPage(meta, |nodes|, s.pages[b])
  {
    hide GraphNode, IsChain;
    forall b, j | 0 <= b < |s.pages| && 0 <= j < |s.pages[b].items|
      ensures GraphNode(meta, s.pages[b].items[j].node, |nodes|)
    {
      var id := IdOnChain(s.pages, chain, s.last, |nodes|, b, j);
      IdsUnique(s.pages, chain, s.last, |nodes|, b, j, s.pointers[id].block, s.pointers[id].pos - 1);
    }
  }

  lemma {:induction false} IdOnChain(pages: seq<Page>, chain: seq<nat>, last: BlockRef, count: nat, b: nat, j: nat)
    returns (id: nat)
    requires IsChain(pages, chain, last, count) && b < |pages| && j < |pages[b].items|
    ensures id < count && pages[b].items[j].seqid == id
  {
    var x :| 0 <= x < |chain| && chain[x] == b;
    assert PageOk(pages[chain[x]]);
    var n := |chain| - 1;
    assert PageOk(pages[chain[n]]);
    if x < n {
      IdsGrow(pages, chain, last, count, x, n);
    }
    id := pages[b].items[j].seqid;
  }

  lemma {:induction false} BuiltChain(meta: Meta, s0: Store, nodes: seq<seq<byte>>) returns (chain: seq<nat>)
    requires s0.last == NoBlock && s0.pointers == [] && 1 <= |s0.pages| && |s0.pages| + |nodes| <= 0x1_0000_0000
    requires forall b :: 0 <= b < |s0.pages| ==> s0.pages[b].items == []
    requires Storable(meta, nodes) && nodes != []
    requires forall i :: 0 <= i < |nodes| ==> GraphNode(meta, nodes[i], |nodes|)
    ensures var s := StoreAll(s0, nodes);
      && IsChain(s.pages, chain, s.last, |nodes|) && Located(s, nodes)
      && Packed(s.pages, chain, true) && Consecutive(chain, |s0.pages|) && |s.pages| == |s0.pages| + |chain|
      && s.last.Block? && s.last.no < |s.pages|
      && PointersInRange(s.pointers)
      && forall b :: 0 <= b < |s.pages| ==> GraphPage(meta, |nodes|, s.pages[b])
  {
    hide IsChain, Located, StoreAll, GraphNode, GraphPage, Packed, Consecutive;
    chain := StoreAllLocates(s0, nodes);
    var s := StoreAll(s0, nodes);
    StoredPointersInRange(s, chain, nodes);
    StoredPagesAreGraph(meta, s, chain, nodes);
    LastOnChain(s.pages, chain, s.last.no, |nodes|);
  }

  lemma {:induction false} EntryLeads(meta: Meta, nodes: seq<seq<byte>>, pages: seq<Page>, ptrs: seq<ItemPointer>, k: nat)
    requires Isomorphic(meta, nodes, pages, ptrs) && PointersInRange(ptrs) && k < |nodes|
    ensures k < |ptrs| && PointerInRange(ptrs[k])
    ensures LabelToPointer(PointerToLabel(ptrs[k])) == ptrs[k]
    ensures Resolves(pages, ptrs[k]) && Retrieve(pages, ptrs[k]).seqid == k
  {
    hide IsSlot, LabelToPointer, PointerToLabel, SlotLeadsTo;
    LabelRoundTrip(ptrs[k]);
    assert SameNode(meta, k, nodes[k], Retrieve(pages, ptrs[k]));
  }

  lemma {:induction false} PointersDistinct(meta: Meta, nodes: seq<seq<byte>>, pages: seq<Page>, ptrs: seq<ItemPointer>)
    requires Isomorphic(meta, nodes, pages, ptrs)
    ensures |ptrs| == |nodes| && forall j, k :: 0 <= j < k < |nodes| ==> ptrs[j] != ptrs[k]
  {
    hide IsSlot, SlotLeadsTo;
    forall j, k | 0 <= j < k < |nodes| ensures ptrs[j] != ptrs[k] {
      assert SameNode(meta, j, nodes[j], Retrieve(pages, ptrs[j]));
      assert SameNode(meta, k, nodes[k], Retrieve(pages, ptrs[k]));
    }
  }

  const CODEBOOK_BYTES: nat := 1024  // 256 centroids of four-byte floats, per dimension

  /** The pages set aside for a codebook: just enough for 256 vectors. */
  function CodebookPages(dimensions: nat): nat {
    (dimensions + 7) / 8
  }

  lemma {:induction false} CodebookFits(dimensions: nat)
    ensures var n := CodebookPages(dimensions);
      n * BLCKSZ >= CODEBOOK_BYTES * dimensions && (n > 0 ==> (n - 1) * BLCKSZ < CODEBOOK_BYTES * dimensions)
  {
  }

  /** StoreExternalIndex: header page, codebook pages, nodes from the socket or from the mapped
      file, neighbour rewrite, entry slot. */
  method StoreExternalIndex(meta: Meta, pq: bool, dimensions: nat, data: array<byte>, socket: Socket?,
                            indexFileSize: nat, numAdded: nat, entrySlot: nat,
                            ghost nodes: seq<seq<byte>>)
    returns (ok: bool, rel: IndexRelation, ptrs: array<ItemPointer>, entry: nat, ghost chain: seq<nat>)
    requires nodes != [] && numAdded == |nodes| && Storable(meta, nodes)
    requires forall i :: 0 <= i < |nodes| ==> GraphNode(meta, nodes[i], |nodes|)
    requires indexFileSize == HEADER_BYTES + |Flatten(nodes)| && entrySlot < |nodes|
    requires if socket != null then socket.incoming == Flatten(nodes)
             else data.Length == indexFileSize && data[HEADER_BYTES..] == Flatten(nodes)
    requires 1 + dimensions + |nodes| <= 0x1_0000_0000
    modifies if socket != null then {socket} else {}
    ensures ok <==> socket == null || !RefillFails(socket.readOffer, old(socket.readCalls), nodes, 0)
    ensures fresh(rel) && ptrs.Length == |nodes| && rel.numVectors == |nodes|
    ensures ok ==> IsChain(rel.pages, chain, rel.lastDataBlock, |nodes|) && Packed(rel.pages, chain, true)
    ensures ok ==> var first := 1 + if pq then CodebookPages(dimensions) else 0;
                   Consecutive(chain, first) && |rel.pages| == first + |chain|
    ensures ok ==> Isomorphic(meta, nodes, rel.pages, ptrs[..])
    ensures ok ==> Resolves(rel.pages, LabelToPointer(entry))
                   && Retrieve(rel.pages, LabelToPointer(entry)).seqid == entrySlot
    ensures ok ==> forall j, k :: 0 <= j < k < |nodes| ==> ptrs[j] != ptrs[k]
  {
    hide IsChain, Isomorphic, AllRewritten, Located, StoreAll, Storable, GraphNode, GraphPage, PageRewritten,
         PointersInRange, LabelToPointer, PointerToLabel, RefillFails, Packed, Consecutive;
    rel := new IndexRelation();
    rel.numVectors := numAdded;
    if pq {
      for i := 0 to CodebookPages(dimensions)
        modifies rel
        invariant |rel.pages| == 1 + i && rel.lastDataBlock == NoBlock && rel.numVectors == numAdded
        invariant forall b :: 0 <= b < |rel.pages| ==> rel.pages[b] == PageInit(0)
      {
        rel.pages := rel.pages + [PageInit(0)];
      }
    }
    ptrs := new ItemPointer[numAdded](i => ItemPointer(0, 0));
    ghost var s0 := Store(rel.pages, rel.lastDataBlock, []);
    if socket != null {
      ok := rel.StoreFromSocket(meta, socket, indexFileSize, ptrs, nodes);
      if !ok {
        entry, chain := 0, [];
        return;
      }
    } else {
      rel.StoreFromBuffer(meta, data, ptrs, nodes);
      ok := true;
    }
    ghost var s := Store(rel.pages, rel.lastDataBlock, ptrs[..]);
    chain := BuiltChain(meta, s0, nodes);
    RewriteNeighbors(rel, meta, ptrs);
    EveryItemVisited(meta, ptrs[..], s.pages, rel.pages, chain, s.last.no, |nodes|);
    ShapeKeepsChain(s.pages, rel.pages, chain, s.last, |nodes|);
    ShapeKeepsPacked(s.pages, rel.pages, chain, true);
    RewriteIsIsomorphism(meta, s, nodes, rel.pages);
    EntryLeads(meta, nodes, rel.pages, ptrs[..], entrySlot);
    PointersDistinct(meta, nodes, rel.pages, ptrs[..]);
    entry := PointerToLabel(ptrs[entrySlot]);
  }
}
