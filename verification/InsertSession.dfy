/**
 One insert as the buffer manager sees it: lock the header, prepare the tuple's page, let the
 graph code retrieve nodes for reading and for writing, finish the log records, let go.
 */
module InsertSession {
  import opened Bytes
  import opened ExtraDirtied
  import opened Pages
  import Insert

  const HEADER_BLOCK: nat := 0

  /** A node retrieval by the graph code: the block its pointer names, and whether to change it. */
  datatype Retrieval = Retrieval(block: nat, mutable: bool)

  function BlockSet(s: seq<nat>): set<nat> {
    set b | b in s
  }

  ghost predicate Accounted(pins: multiset<nat>, exclusive: set<nat>, base: multiset<nat>, held: seq<nat>, taken: seq<nat>) {
    && exclusive == {HEADER_BLOCK} + BlockSet(held)
    && pins == base + multiset{HEADER_BLOCK} + multiset(held) + multiset(taken)
  }

  /** Another block is pinned and locked, or only pinned. */
  lemma {:induction false} AccountedNext(pins: multiset<nat>, exclusive: set<nat>, base: multiset<nat>,
                                         held: seq<nat>, taken: seq<nat>, b: nat)
    requires Accounted(pins, exclusive, base, held, taken)
    ensures b in exclusive <==> b == HEADER_BLOCK || b in held
    ensures Accounted(pins + multiset{b}, exclusive + {b}, base, held + [b], taken)
    ensures Accounted(pins + multiset{b}, exclusive, base, held, taken + [b])
  {
    InBlockSet(held, b);
    BlockSetSnoc(held, b);
  }

  /** A noted pin can be given back. */
  lemma {:induction false} AccountedBack(pins: multiset<nat>, exclusive: set<nat>, base: multiset<nat>,
                                         held: seq<nat>, taken: seq<nat>)
    requires Accounted(pins, exclusive, base, held, taken) && taken != []
    ensures taken[0] in pins && (taken[0] in exclusive ==> pins[taken[0]] > 1)
    ensures Accounted(pins - multiset{taken[0]}, exclusive, base, held, taken[1..])
  {
    TakenIsReleasable(base, held, taken);
  }

  class Session {
    const bufs: Buffers
    const dirtied: ExtraDirtiedBufs
    var state: seq<nat>              // pages registered with the insert's own record
    var taken: seq<nat>              // pinned, unlocked buffers to release at reset
    ghost var held: seq<nat>         // the overlay's blocks
    ghost var images: seq<Entry>     // the overlay's entries
    ghost var records: seq<seq<nat>> // the overlay's log records
    ghost const base: multiset<nat>  // pins the backend had before

    /** Exactly the header and the overlay are locked, and every pin is accounted for. */
    ghost predicate Valid()
      reads this, bufs, dirtied, dirtied.blockno, dirtied.page, dirtied.states
    {
      && dirtied.Valid() && dirtied.pagesInLastState > 0
      && held == dirtied.Blocks() && images == dirtied.entries && records == dirtied.states[..dirtied.stateSize]
      && state == [HEADER_BLOCK] + dirtied.main
      && Accounted(bufs.pins, bufs.exclusive, base, held, taken)
      && forall e :: e in images ==> e.page.Image?
    }

    /** GenericXLogStart, read and lock the header, set up the retriever area. */
    constructor (bufs: Buffers)
      requires bufs.exclusive == {}
      modifies bufs`pins, bufs`exclusive
      ensures Valid() && this.bufs == bufs && fresh(dirtied) && fresh(dirtied.blockno) && fresh(dirtied.page) && fresh(dirtied.states)
      ensures taken == [] && held == [] && images == [] && state == [HEADER_BLOCK]
      ensures base == old(bufs.pins)
    {
      this.bufs := bufs;
      base := bufs.pins;
      state, taken, held, images, records := [HEADER_BLOCK], [], [], [], [];
      dirtied := new ExtraDirtiedBufs();
      new;
      bufs.ReadBuffer(HEADER_BLOCK);
      bufs.LockExclusive(HEADER_BLOCK);
      assert dirtied.Blocks() == [] && dirtied.states[..0] == [];
    }

    method Holds(block: nat) returns (found: bool)
      requires Valid()
      ensures found <==> block in held
    {
      var page;
      found, page := dirtied.Get(block);
    }

    /** ldb_wal_index_node_retriever: a page of the overlay is used as it is, any other is read
        under a share lock and stays pinned. */
    method Retrieve(block: nat) returns (page: PageRef)
      requires Valid() && block != HEADER_BLOCK
      modifies this`taken, bufs`pins, bufs`shared
      ensures Valid() && taken == if block in held then old(taken) else old(taken) + [block]
      ensures bufs.shared == if block in held then old(bufs.shared) else old(bufs.shared) + [block]
      ensures page.Shared? <==> block !in held
      ensures if block in held then Entry(block, page) in images else page == Shared(block)
    {
      hide Overlay, Accounted, Paired;
      AccountedNext(bufs.pins, bufs.exclusive, base, held, taken, block);
      var found;
      found, page := dirtied.Get(block);
      if !found {
        bufs.ReadBuffer(block);
        bufs.LockShareAndUnlock(block);
        taken := taken + [block];
        page := Shared(block);
      }
    }

    /** ldb_wal_index_node_retriever_mut. */
    method RetrieveMut(block: nat) returns (page: PageRef)
      requires Valid() && block != HEADER_BLOCK
      requires block in held || |held| + 1 < MAX_BUFS
      modifies this`held, this`images, this`records
      modifies dirtied`size, dirtied`stateSize, dirtied`pagesInLastState, dirtied`entries
      modifies dirtied.blockno, dirtied.page, dirtied.states, bufs`pins, bufs`exclusive, bufs`images
      ensures Valid()
      ensures held == if block in old(held) then old(held) else old(held) + [block]
      ensures Entry(block, page) in images && page.Image?
      ensures images == if block in old(held) then old(images) else old(images) + [Entry(block, page)]
    {
      hide Overlay, Accounted, Paired;
      AccountedNext(bufs.pins, bufs.exclusive, base, held, taken, block);
      var found;
      found, page := dirtied.Get(block);
      if !found {
        page := dirtied.AddWalReadBuffer(bufs, block);
        held, images, records := held + [block], images + [Entry(block, page)], dirtied.states[..dirtied.stateSize];
      }
    }

    /** Read and lock a data page under the insert's own record. */
    method Take(block: nat)
      requires Valid() && block != HEADER_BLOCK && block !in held && |held| + 1 < MAX_BUFS
      requires |state| < MAX_XLOG_PAGES
      modifies this`state, this`held, this`images, dirtied`size, dirtied`main, dirtied`entries
      modifies dirtied.blockno, dirtied.page, bufs`pins, bufs`exclusive, bufs`images
      ensures Valid() && held == old(held) + [block] && state == old(state) + [block]
    {
      hide Overlay, Accounted, Paired;
      AccountedNext(bufs.pins, bufs.exclusive, base, held, taken, block);
      var page := bufs.Acquire(block);
      state, held, images := state + [block], held + [block], images + [Entry(block, page)];
      dirtied.Add(block, page);
    }

    /** The records cover the header and the held pages, each page once. */
    lemma RecordsCover()
      requires Valid() && |state| <= MAX_XLOG_PAGES
      ensures multiset(Logged([state] + records)) == multiset{HEADER_BLOCK} + multiset(held)
      ensures |state| <= 1 + |held| && |records| == (|held| + 1 - |state| + MAX_XLOG_PAGES - 1) / MAX_XLOG_PAGES
      ensures forall i :: 0 <= i < |[state] + records| ==> |([state] + records)[i]| <= MAX_XLOG_PAGES
    {
      hide Paired, Accounted;
      RecordCount(held, records, dirtied.pagesInLastState, dirtied.main);
      LoggedCons(state, records);
      forall i: nat | i < |records| ensures |records[i]| <= MAX_XLOG_PAGES {
        RecordCovered(held, records, dirtied.pagesInLastState, dirtied.main, i);
      }
    }

    lemma BlocksDistinct()
      requires Valid()
      ensures Distinct(held) && HEADER_BLOCK !in held
      ensures forall b :: b in BlockSet(held) ==> b in held
    {
    }

    /** PrepareIndexTuple: the page that takes the new tuple and, if the tuple does not fit there,
        the page that used to be last. */
    method Prepare(last: BlockRef, fits: bool, newBlock: nat)
      requires Valid() && held == [] && state == [HEADER_BLOCK]
      requires newBlock != HEADER_BLOCK && (last.Block? ==> last.no != HEADER_BLOCK && last.no != newBlock)
      modifies this`state, this`held, this`images, dirtied`size, dirtied`main, dirtied`entries
      modifies dirtied.blockno, dirtied.page, bufs`pins, bufs`exclusive, bufs`images
      ensures Valid() && |state| <= 3
      ensures held == Prepared(last, fits, newBlock) && |state| == 1 + |held|
    {
      hide Valid;
      if last.NoBlock? {
        Take(newBlock);
      } else {
        var found := Holds(last.no);
        if !found {
          Take(last.no);
        }
        if !fits {
          Take(newBlock);
        }
      }
    }

    /** A block has one page in the overlay. */
    lemma OnePage(block: nat, p: PageRef, q: PageRef)
      requires Valid() && Entry(block, p) in images && Entry(block, q) in images
      ensures p == q && block in held
    {
      var i :| 0 <= i < |images| && images[i] == Entry(block, p);
      var j :| 0 <= j < |images| && images[j] == Entry(block, q);
      assert held[i] == block && held[j] == block;
    }

    /** usearch_add_external as this layer sees it: any sequence of retrievals. A retrieval that follows a
        mutable one of the same block gets the very page that one changes. */
    method Run(ops: seq<Retrieval>, ghost start: set<nat>) returns (pages: seq<PageRef>)
      requires Valid() && BlockSet(held) == start
      requires forall i :: 0 <= i < |ops| ==> ops[i].block != HEADER_BLOCK
      requires |start + MutableBlocks(ops)| < MAX_BUFS
      modifies this`taken, this`held, this`images, this`records, bufs`pins, bufs`exclusive, bufs`images, bufs`shared
      modifies dirtied`size, dirtied`stateSize, dirtied`pagesInLastState, dirtied`entries
      modifies dirtied.blockno, dirtied.page, dirtied.states
      ensures Valid() && BlockSet(held) == start + MutableBlocks(ops)
      ensures SeesOwnChanges(ops, pages) && bufs.shared == old(bufs.shared) + SharedBlocks(pages)
    {
      hide Valid, MutableBlocks, BlockSet, Distinct, SeesOwnChanges, ChangesHeld, SharedBlocks;
      NoMutable(ops);
      NoPages(ops, images);
      pages := [];
      for i := 0 to |ops|
        invariant Valid() && BlockSet(held) == start + MutableBlocks(ops[..i])
        invariant SeesOwnChanges(ops[..i], pages) && ChangesHeld(ops[..i], pages, images)
        invariant bufs.shared == old(bufs.shared) + SharedBlocks(pages)
      {
        MutableNext(ops, i);
        BlocksDistinct();
        RoomForOne(start, ops, i, held);
        InBlockSet(held, ops[i].block);
        ghost var before := images;
        var page := Serve(ops[i]);
        NextPage(ops, i, pages, before, page);
        SharedSnoc(old(bufs.shared), pages, page);
        pages := pages + [page];
      }
      assert ops[..|ops|] == ops;
    }

    lemma NextPage(ops: seq<Retrieval>, i: nat, pages: seq<PageRef>, before: seq<Entry>, page: PageRef)
      requires Valid() && i < |ops| && before <= images
      requires SeesOwnChanges(ops[..i], pages) && ChangesHeld(ops[..i], pages, before)
      requires ops[i].mutable || ops[i].block in held ==> Entry(ops[i].block, page) in images
      ensures SeesOwnChanges(ops[..i + 1], pages + [page]) && ChangesHeld(ops[..i + 1], pages + [page], images)
    {
      hide Valid;
      forall j | 0 <= j < i && ops[j].mutable
        ensures Entry(ops[j].block, pages[j]) in images && (ops[j].block == ops[i].block ==> pages[j] == page)
      {
        assert ops[..i][j] == ops[j] && Entry(ops[j].block, pages[j]) in before;
        OnePage(ops[j].block, pages[j], pages[j]);
        if ops[j].block == ops[i].block {
          OnePage(ops[i].block, pages[j], page);
        }
      }
    }

    method Serve(op: Retrieval) returns (page: PageRef)
      requires Valid() && op.block != HEADER_BLOCK
      requires op.mutable && op.block !in held ==> |held| + 1 < MAX_BUFS
      modifies this`taken, this`held, this`images, this`records, bufs`pins, bufs`exclusive, bufs`images, bufs`shared
      modifies dirtied`size, dirtied`stateSize, dirtied`pagesInLastState, dirtied`entries
      modifies dirtied.blockno, dirtied.page, dirtied.states
      ensures bufs.shared == old(bufs.shared) + SharedBlocks([page])
      ensures Valid() && BlockSet(held) == old(BlockSet(held)) + if op.mutable then {op.block} else {}
      ensures old(images) <= images
      ensures op.mutable || op.block in held ==> Entry(op.block, page) in images
    {
      hide Valid, BlockSet, SharedBlocks;
      if op.mutable {
        BlockSetSnoc(held, op.block);
        InBlockSet(held, op.block);
        page := RetrieveMut(op.block);
      } else {
        page := Retrieve(op.block);
      }
      OneShared(page);
    }

    /** The tuple's page, then the graph code. */
    method Perform(last: BlockRef, fits: bool, newBlock: nat, ops: seq<Retrieval>) returns (pages: seq<PageRef>)
      requires Valid() && held == [] && state == [HEADER_BLOCK]
      requires newBlock != HEADER_BLOCK && (last.Block? ==> last.no != HEADER_BLOCK && last.no != newBlock)
      requires forall i :: 0 <= i < |ops| ==> ops[i].block != HEADER_BLOCK
      requires |BlockSet(Prepared(last, fits, newBlock)) + MutableBlocks(ops)| < MAX_BUFS
      modifies this`state, this`taken, this`held, this`images, this`records, bufs`pins, bufs`exclusive, bufs`images
      modifies bufs`shared, dirtied, dirtied.blockno, dirtied.page, dirtied.states
      ensures Valid() && |state| <= MAX_XLOG_PAGES && |state| == 1 + |Prepared(last, fits, newBlock)|
      ensures BlockSet(held) == BlockSet(Prepared(last, fits, newBlock)) + MutableBlocks(ops)
      ensures SeesOwnChanges(ops, pages) && bufs.shared == old(bufs.shared) + SharedBlocks(pages)
    {
      hide Valid, MutableBlocks, BlockSet, Prepared, SeesOwnChanges;
      Prepare(last, fits, newBlock);
      pages := Run(ops, BlockSet(Prepared(last, fits, newBlock)));
    }

    /** Reset the retriever area, then finish: every pin and lock is back, and the log has grown by records
        that hold the header and each held page once. */
    method Close() returns (ghost touched: seq<nat>)
      requires Valid() && |state| <= MAX_XLOG_PAGES
      modifies this`taken, bufs, dirtied`size
      ensures bufs.pins == base && bufs.exclusive == {} && touched == old(held)
      ensures Distinct(touched) && HEADER_BLOCK !in touched
      ensures |old(bufs.log)| <= |bufs.log| && bufs.log[..|old(bufs.log)|] == old(bufs.log)
      ensures var logged := bufs.log[|old(bufs.log)|..];
        && multiset(Logged(logged)) == multiset{HEADER_BLOCK} + multiset(touched)
        && (forall i :: 0 <= i < |logged| ==> |logged[i]| <= MAX_XLOG_PAGES)
        && |state| <= 1 + |touched| && |logged| == 1 + (|touched| + 1 - |state| + MAX_XLOG_PAGES - 1) / MAX_XLOG_PAGES
      ensures bufs.shared == old(bufs.shared)
    {
      hide Valid, Logged, BlockSet, Distinct;
      Reset();
      BlocksDistinct();
      RecordsCover();
      touched := held;
      ghost var before := bufs.log;
      Finish();
      Suffix(before, [state], records);
    }

    /** Finish the insert's own record and the extra ones, then unlock and release every page and
        last the header. */
    method Finish()
      requires Valid() && taken == [] && |state| <= MAX_XLOG_PAGES
      modifies bufs, dirtied`size
      ensures bufs.pins == base && bufs.exclusive == {} && bufs.shared == old(bufs.shared)
      ensures bufs.log == old(bufs.log) + [state] + records
    {
      MainCovered(held, records, dirtied.pagesInLastState, dirtied.main);
      bufs.FinishXLog(state);
      ReleaseAll();
      bufs.UnlockReleaseBuffer(HEADER_BLOCK);
    }

    /** extra_dirtied_release_all. */
    method ReleaseAll()
      requires Valid() && taken == []
      modifies bufs, dirtied`size
      ensures bufs.pins == base + multiset{HEADER_BLOCK} && bufs.exclusive == {HEADER_BLOCK}
      ensures bufs.log == old(bufs.log) + records && bufs.shared == old(bufs.shared)
    {
      hide Overlay, Paired, BlockSet, Distinct;
      FinishRecords();
      BlocksDistinct();
      UnlockAll();
    }

    method UnlockAll()
      requires dirtied.size <= dirtied.blockno.Length
      requires held == dirtied.blockno[..dirtied.size] && Distinct(held) && HEADER_BLOCK !in held
      requires bufs.pins == base + multiset{HEADER_BLOCK} + multiset(held)
      requires bufs.exclusive == {HEADER_BLOCK} + BlockSet(held)
      modifies bufs`pins, bufs`exclusive, dirtied`size
      ensures bufs.pins == base + multiset{HEADER_BLOCK} && bufs.exclusive == {HEADER_BLOCK}
    {
      hide BlockSet, Distinct;
      assert held[0..] == held;
      for i := 0 to dirtied.size
        invariant bufs.pins == base + multiset{HEADER_BLOCK} + multiset(held[i..])
        invariant bufs.exclusive == {HEADER_BLOCK} + BlockSet(held[i..])
      {
        ReleaseNext(base, held, i);
        bufs.UnlockReleaseBuffer(dirtied.blockno[i]);
      }
      NothingHeld(held);
      dirtied.size := 0;
    }

    method FinishRecords()
      requires Valid()
      modifies bufs`log
      ensures Valid() && bufs.log == old(bufs.log) + records
    {
      for i := 0 to dirtied.stateSize
        invariant Valid() && bufs.log == old(bufs.log) + records[..i]
      {
        RecordCovered(held, records, dirtied.pagesInLastState, dirtied.main, i);
        bufs.FinishXLog(dirtied.states[i]);
        assert records[..i + 1] == records[..i] + [records[i]];
      }
    }

    /** ldb_wal_retriever_area_reset: every list entry gives back its pin. */
    method Reset()
      requires Valid()
      modifies this`taken, bufs`pins
      ensures Valid() && taken == []
    {
      hide Overlay, Accounted, Paired;
      while taken != []
        invariant Valid()
        decreases |taken|
      {
        var block := taken[0];
        AccountedBack(bufs.pins, bufs.exclusive, base, held, taken);
        bufs.ReleaseBuffer(block);
        taken := taken[1..];
      }
    }
  }

  lemma {:induction false} RecordCovered(blocks: seq<nat>, records: seq<seq<nat>>, inLast: nat, main: seq<nat>, i: nat)
    requires Overlay(blocks, records, inLast, main) && i < |records|
    ensures |records[i]| <= MAX_XLOG_PAGES
    ensures forall k :: 0 <= k < |records[i]| ==> records[i][k] in blocks
  {
    forall k | 0 <= k < |records[i]| ensures records[i][k] in blocks {
      InLogged(records, i, k);
      assert records[i][k] in multiset(Logged(records));
      assert records[i][k] in multiset(blocks);
    }
  }

  lemma {:induction false} MainCovered(blocks: seq<nat>, records: seq<seq<nat>>, inLast: nat, main: seq<nat>)
    requires Overlay(blocks, records, inLast, main)
    ensures forall k :: 0 <= k < |main| ==> main[k] in blocks
  {
    forall k | 0 <= k < |main| ensures main[k] in blocks {
      assert main[k] in multiset(main);
      assert main[k] in multiset(blocks);
    }
  }

  lemma {:induction false} InLogged(records: seq<seq<nat>>, i: nat, k: nat)
    requires i < |records| && k < |records[i]|
    ensures records[i][k] in Logged(records)
    decreases |records|
  {
    var n := |records| - 1;
    if i < n {
      InLogged(records[..n], i, k);
    } else {
      assert records[n][k] in records[n];
    }
  }

  lemma {:induction false} ReleaseNext(base: multiset<nat>, blocks: seq<nat>, i: nat)
    requires Distinct(blocks) && 0 !in blocks && i < |blocks|
    ensures var pins := base + multiset{HEADER_BLOCK} + multiset(blocks[i..]);
      && blocks[i] in pins
      && pins - multiset{blocks[i]} == base + multiset{HEADER_BLOCK} + multiset(blocks[i + 1..])
    ensures var locked := {HEADER_BLOCK} + BlockSet(blocks[i..]);
      blocks[i] in locked && locked - {blocks[i]} == {HEADER_BLOCK} + BlockSet(blocks[i + 1..])
  {
    assert blocks[i..] == [blocks[i]] + blocks[i + 1..];
    assert multiset(blocks[i..]) == multiset{blocks[i]} + multiset(blocks[i + 1..]);
    assert blocks[i] !in blocks[i + 1..];
    assert blocks[i] == blocks[i..][0];
  }

  /** The pages PrepareIndexTuple locks, in order. */
  ghost function Prepared(last: BlockRef, fits: bool, newBlock: nat): seq<nat> {
    if last.NoBlock? then [newBlock] else if fits then [last.no] else [last.no, newBlock]
  }

  /** The pages that placing the tuple changes: the page that was last, whose link or items change, and the new
      page if there is none or the tuple does not fit. */
  ghost function PlacedBlocks(last: BlockRef, fits: bool, newBlock: nat): set<nat> {
    (if last.Block? then {last.no} else {}) + (if last.NoBlock? || !fits then {newBlock} else {})
  }

  lemma {:induction false} PreparedBlocks(last: BlockRef, fits: bool, newBlock: nat)
    ensures BlockSet(Prepared(last, fits, newBlock)) == PlacedBlocks(last, fits, newBlock)
    ensures |Prepared(last, fits, newBlock)| == if last.Block? && !fits then 2 else 1
  {
    var p := Prepared(last, fits, newBlock);
    if last.NoBlock? {
      assert BlockSet(p) == {newBlock} && p[0] == newBlock;
    } else if fits {
      assert BlockSet(p) == {last.no} && p[0] == last.no;
    } else {
      assert BlockSet(p) == {last.no, newBlock} && p[1] == newBlock;
    }
  }

  lemma {:induction false} NoMutable(ops: seq<Retrieval>)
    ensures MutableBlocks(ops[..0]) == {}
  {
  }

  lemma {:induction false} LoggedCons(r: seq<nat>, records: seq<seq<nat>>)
    ensures Logged([r] + records) == r + Logged(records)
    decreases |records|
  {
    var n := |records| - 1;
    if records == [] {
      assert ([r] + records)[..0] == [];
    } else {
      LoggedCons(r, records[..n]);
      assert ([r] + records)[..|records|] == [r] + records[..n];
    }
  }

  lemma {:induction false} NothingHeld(s: seq<nat>)
    ensures s[|s|..] == [] && BlockSet(s[|s|..]) == {}
  {
  }

  lemma {:induction false} InBlockSet(s: seq<nat>, b: nat)
    ensures b in s <==> b in BlockSet(s)
  {
  }

  lemma {:induction false} BlockSetSnoc(s: seq<nat>, b: nat)
    ensures BlockSet(s + [b]) == BlockSet(s) + {b}
  {
  }

  lemma {:induction false} MutableNext(ops: seq<Retrieval>, i: nat)
    requires i < |ops|
    ensures MutableBlocks(ops[..i + 1]) == MutableBlocks(ops[..i]) + if ops[i].mutable then {ops[i].block} else {}
    ensures MutableBlocks(ops[..i]) <= MutableBlocks(ops)
  {
    var a, b := ops[..i], ops[..i + 1];
    forall x | x in MutableBlocks(b) ensures x in MutableBlocks(a) || (ops[i].mutable && x == ops[i].block) {
      var k :| 0 <= k < |b| && b[k].mutable && b[k].block == x;
      if k < i {
        assert a[k] == b[k];
      }
    }
    forall x | x in MutableBlocks(a) ensures x in MutableBlocks(b) && x in MutableBlocks(ops) {
      var k :| 0 <= k < |a| && a[k].mutable && a[k].block == x;
      assert b[k] == a[k] && ops[k] == a[k];
    }
    if ops[i].mutable {
      assert b[i].mutable && b[i].block == ops[i].block;
    }
  }

  lemma {:induction false} RoomForOne(start: set<nat>, ops: seq<Retrieval>, i: nat, blocks: seq<nat>)
    requires i < |ops| && Distinct(blocks) && BlockSet(blocks) == start + MutableBlocks(ops[..i])
    requires |start + MutableBlocks(ops)| < MAX_BUFS
    ensures ops[i].mutable && ops[i].block !in blocks ==> |blocks| + 1 < MAX_BUFS
  {
    MutableNext(ops, i);
    if ops[i].mutable && ops[i].block !in blocks {
      assert ops[i].block in MutableBlocks(ops);
      BlockSetSnoc(blocks, ops[i].block);
      DistinctBound(blocks + [ops[i].block], start + MutableBlocks(ops));
    }
  }

  /** Distinct blocks drawn from a set are no more than its elements. */
  lemma {:induction false} DistinctBound(s: seq<nat>, from: set<nat>)
    requires Distinct(s) && BlockSet(s) <= from
    ensures |s| <= |from|
    decreases |s|
  {
    if s != [] {
      var x := s[0];
      assert x in BlockSet(s);
      forall y | y in BlockSet(s[1..]) ensures y in from - {x} {
      }
      DistinctBound(s[1..], from - {x});
    }
  }

  // ----- a whole insert

  ghost function MutableBlocks(ops: seq<Retrieval>): set<nat> {
    set i | 0 <= i < |ops| && ops[i].mutable :: ops[i].block
  }

  /** The blocks behind the shared pages, in order. */
  ghost function SharedBlocks(pages: seq<PageRef>): seq<nat> {
    if pages == [] then []
    else
      var n := |pages| - 1;
      SharedBlocks(pages[..n]) + if pages[n].Shared? then [pages[n].block] else []
  }

  lemma {:induction false} SharedSnoc(before: seq<nat>, pages: seq<PageRef>, page: PageRef)
    ensures before + SharedBlocks(pages + [page]) == before + SharedBlocks(pages) + SharedBlocks([page])
  {
    assert (pages + [page])[..|pages|] == pages && [page][..0] == [];
  }

  lemma {:induction false} OneShared(page: PageRef)
    ensures SharedBlocks([page]) == if page.Shared? then [page.block] else []
  {
    assert [page][..0] == [];
  }

  /** The pages handed out for changes are in the overlay. */
  ghost predicate ChangesHeld(ops: seq<Retrieval>, pages: seq<PageRef>, images: seq<Entry>) {
    && |pages| == |ops|
    && forall j :: 0 <= j < |ops| && ops[j].mutable ==> Entry(ops[j].block, pages[j]) in images
  }

  lemma {:induction false} NoPages(ops: seq<Retrieval>, images: seq<Entry>)
    ensures SeesOwnChanges(ops[..0], []) && ChangesHeld(ops[..0], [], images) && SharedBlocks([]) == []
  {
  }

  /** Once a block was retrieved for changes, every later retrieval of it gets the same page. */
  ghost predicate SeesOwnChanges(ops: seq<Retrieval>, pages: seq<PageRef>) {
    && |pages| == |ops|
    && forall i, j :: 0 <= i < j < |ops| && ops[i].mutable && ops[i].block == ops[j].block ==> pages[i] == pages[j]
  }

  /** ldb_aminsert. `fits` is the outcome of the free-space guard on the last page, `newBlock` the
      block an extension would return, `ops` whatever the graph code asks for. Every pin and lock
      taken is given back exactly once, nothing locked is locked again, and every page touched is
      in exactly one finished log record of at most four pages. */
  method AmInsert(bufs: Buffers, last: BlockRef, fits: bool, newBlock: nat, ops: seq<Retrieval>)
    returns (pages: seq<PageRef>, ghost touched: seq<nat>)
    requires bufs.exclusive == {}
    requires newBlock != HEADER_BLOCK && (last.Block? ==> last.no != HEADER_BLOCK && last.no != newBlock)
    requires forall i :: 0 <= i < |ops| ==> ops[i].block != HEADER_BLOCK
    requires |PlacedBlocks(last, fits, newBlock) + MutableBlocks(ops)| < MAX_BUFS
    modifies bufs
    ensures bufs.pins == old(bufs.pins) && bufs.exclusive == {}
    ensures bufs.shared == old(bufs.shared) + SharedBlocks(pages)
    ensures |old(bufs.log)| <= |bufs.log| && bufs.log[..|old(bufs.log)|] == old(bufs.log)
    ensures var records := bufs.log[|old(bufs.log)|..];
      && multiset(Logged(records)) == multiset{HEADER_BLOCK} + multiset(touched)
      && (forall i :: 0 <= i < |records| ==> |records[i]| <= MAX_XLOG_PAGES)
      && var placed := if last.Block? && !fits then 2 else 1;
         placed <= |touched| && |records| == 1 + (|touched| - placed + MAX_XLOG_PAGES - 1) / MAX_XLOG_PAGES
    ensures Distinct(touched) && HEADER_BLOCK !in touched && SeesOwnChanges(ops, pages)
    ensures BlockSet(touched) == PlacedBlocks(last, fits, newBlock) + MutableBlocks(ops)
  {
    hide *;
    var s := new Session(bufs);
    PreparedBlocks(last, fits, newBlock);
    pages := s.Perform(last, fits, newBlock, ops);
    touched := s.Close();
  }

  /** What an insert changes on the pages it has locked and logged: the tuple's pages are all in `touched`. */
  lemma {:induction false} ChangedPagesAreTouched(ix: Insert.Index, node: seq<byte>, ops: seq<Retrieval>, touched: seq<nat>, b: nat)
    requires ix.last.Block? ==> ix.last.no < |ix.pages|
    requires var fits := ix.last.Block? && FreeSpace(ix.pages[ix.last.no]) > LINE_POINTER + TUPLE_HEADER + |node|;
      BlockSet(touched) == PlacedBlocks(ix.last, fits, |ix.pages|) + MutableBlocks(ops)
    requires var after := Insert.InsertTuple(ix, node).pages;
      b < |after| && (b >= |ix.pages| || after[b] != ix.pages[b])
    ensures b in touched
  {
    InBlockSet(touched, b);
  }

  lemma {:induction false} Suffix(log: seq<seq<nat>>, a: seq<seq<nat>>, b: seq<seq<nat>>)
    ensures var longer := log + a + b;
      |longer| >= |log| && longer[..|log|] == log && longer[|log|..] == a + b
  {
  }

  lemma {:induction false} TakenIsReleasable(base: multiset<nat>, blocks: seq<nat>, taken: seq<nat>)
    requires taken != []
    ensures var pins := base + multiset{HEADER_BLOCK} + multiset(blocks) + multiset(taken);
      && taken[0] in pins
      && (taken[0] in {HEADER_BLOCK} + BlockSet(blocks) ==> pins[taken[0]] > 1)
      && pins - multiset{taken[0]} == base + multiset{HEADER_BLOCK} + multiset(blocks) + multiset(taken[1..])
  {
    assert taken == [taken[0]] + taken[1..];
    assert multiset(taken) == multiset{taken[0]} + multiset(taken[1..]);
    if taken[0] in BlockSet(blocks) {
      assert taken[0] in multiset(blocks);
    }
  }
}
