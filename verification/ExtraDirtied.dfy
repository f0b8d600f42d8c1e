/**
 The pages an insert has dirtied: an overlay that is searched before any buffer is read, and a
 packer of write-ahead-log records. The buffer manager is a stub whose preconditions are the
 rules a backend must keep: never lock what it already holds, release only what it holds.
 */
module ExtraDirtied {

  const MAX_BUFS: nat := 100         // LDB_HNSW_INSERT_MAX_EXTRA_DIRTIED_BUFS
  const MAX_XLOG_PAGES: nat := 4     // MAX_GENERIC_XLOG_PAGES
  const MAX_RECORDS: nat := 25       // LDB_HNSW_EXTRA_DIRTIED_MAX_WAL_RECORDS

  /** A page in memory: the buffer's own, or the image a log record hands out for changes. */
  datatype PageRef = Shared(block: nat) | Image(id: nat)

  /** An overlay entry. Buffers are named by their blocks. */
  datatype Entry = Entry(block: nat, page: PageRef)

  /** The buffers one backend has pinned and locked, and the log records it has finished. */
  class Buffers {
    var pins: multiset<nat>
    var exclusive: set<nat>
    var log: seq<seq<nat>>
    var shared: seq<nat>             // blocks read under a share lock, in order
    var images: nat

    constructor ()
      ensures pins == multiset{} && exclusive == {} && log == [] && shared == []
    {
      pins, exclusive, log, shared, images := multiset{}, {}, [], [], 0;
    }

    /** GenericXLogRegisterBuffer: a new image of the locked page. */
    method RegisterBuffer(block: nat) returns (page: PageRef)
      requires block in exclusive
      modifies this`images
      ensures page == Image(old(images)) && images == old(images) + 1
    {
      page, images := Image(images), images + 1;
    }

    method ReadBuffer(block: nat)
      modifies this`pins
      ensures pins == old(pins) + multiset{block}
    {
      pins := pins + multiset{block};
    }

    method LockExclusive(block: nat)
      requires block in pins && block !in exclusive
      modifies this`exclusive
      ensures exclusive == old(exclusive) + {block}
    {
      exclusive := exclusive + {block};
    }

    /** Read, lock and register a page that is to change. */
    method Acquire(block: nat) returns (page: PageRef)
      requires block !in exclusive
      modifies this`pins, this`exclusive, this`images
      ensures pins == old(pins) + multiset{block} && exclusive == old(exclusive) + {block} && page.Image?
    {
      ReadBuffer(block);
      LockExclusive(block);
      page := RegisterBuffer(block);
    }

    /** Share lock around a read; the lock is dropped before the caller goes on. */
    method LockShareAndUnlock(block: nat)
      requires block in pins && block !in exclusive
      modifies this`shared
      ensures shared == old(shared) + [block]
    {
      shared := shared + [block];
    }

    /** Drops one pin; a lock must stay covered by another one. */
    method ReleaseBuffer(block: nat)
      requires block in pins && (block in exclusive ==> pins[block] > 1)
      modifies this`pins
      ensures pins == old(pins) - multiset{block}
    {
      pins := pins - multiset{block};
    }

    method UnlockReleaseBuffer(block: nat)
      requires block in pins && block in exclusive
      modifies this`pins, this`exclusive
      ensures pins == old(pins) - multiset{block} && exclusive == old(exclusive) - {block}
    {
      pins, exclusive := pins - multiset{block}, exclusive - {block};
    }

    /** GenericXLogFinish: one record for the registered pages. */
    method FinishXLog(record: seq<nat>)
      requires |record| <= MAX_XLOG_PAGES
      requires forall i :: 0 <= i < |record| ==> record[i] in exclusive
      modifies this`log
      ensures log == old(log) + [record]
    {
      log := log + [record];
    }
  }

  ghost predicate Distinct(s: seq<nat>) {
    forall i, j :: 0 <= i < j < |s| ==> s[i] != s[j]
  }

  /** Pages of the finished records, in order. */
  ghost function Logged(records: seq<seq<nat>>): seq<nat> {
    if records == [] then [] else Logged(records[..|records| - 1]) + records[|records| - 1]
  }

  /** The held blocks are distinct, the header is not among them, each is registered with exactly
      one record, every record but the last is full and `inLast` counts the last one's pages. */
  ghost predicate Overlay(blocks: seq<nat>, records: seq<seq<nat>>, inLast: nat, main: seq<nat>) {
    && Distinct(blocks) && 0 !in blocks
    && (forall i :: 0 <= i < |records| - 1 ==> |records[i]| == MAX_XLOG_PAGES)
    && inLast <= MAX_XLOG_PAGES
    && (if records == [] then inLast == MAX_XLOG_PAGES else |records[|records| - 1]| == inLast)
    && multiset(blocks) == multiset(main) + multiset(Logged(records))
  }

  ghost predicate Paired(entries: seq<Entry>, blocks: seq<nat>, pages: seq<PageRef>) {
    && |entries| == |blocks| == |pages|
    && forall i :: 0 <= i < |entries| ==> entries[i] == Entry(blocks[i], pages[i])
  }

  lemma {:induction false} PairedSnoc(entries: seq<Entry>, blocks: seq<nat>, pages: seq<PageRef>, block: nat, p: PageRef)
    requires Paired(entries, blocks, pages)
    ensures Paired(entries + [Entry(block, p)], blocks + [block], pages + [p])
  {
  }

  class ExtraDirtiedBufs {
    const blockno: array<nat>
    const page: array<PageRef>
    const states: array<seq<nat>>
    var size: nat
    var stateSize: nat
    var pagesInLastState: nat
    ghost var main: seq<nat>         // blocks registered with the insert's own record
    ghost var entries: seq<Entry>    // what was added, in order

    ghost predicate Valid()
      reads this, blockno, page, states
    {
      && blockno.Length == page.Length == MAX_BUFS && states.Length == MAX_RECORDS
      && size < MAX_BUFS && stateSize <= MAX_RECORDS && pagesInLastState <= MAX_XLOG_PAGES
      && Overlay(blockno[..size], states[..stateSize], pagesInLastState, main)
      && Paired(entries, blockno[..size], page[..size])
    }

    ghost function Blocks(): seq<nat>
      requires size <= blockno.Length
      reads this, blockno
    {
      blockno[..size]
    }

    constructor ()
      ensures Valid() && size == 0 && stateSize == 0 && pagesInLastState > 0 && main == [] && entries == []
      ensures fresh(blockno) && fresh(page) && fresh(states)
    {
      blockno := new nat[MAX_BUFS](i => 0);
      page := new PageRef[MAX_BUFS](i => Shared(0));
      entries := [];
      states := new seq<nat>[MAX_RECORDS](i => []);
      size, stateSize, pagesInLastState, main := 0, 0, MAX_XLOG_PAGES, [];
      new;
      assert blockno[..0] == [] && states[..0] == [];
    }

    /** extra_dirtied_get: linear search of the overlay for the page added with the block. */
    method Get(block: nat) returns (found: bool, p: PageRef)
      requires Valid()
      ensures found <==> block in Blocks()
      ensures found ==> Entry(block, p) in entries
    {
      p := Shared(block);
      for i := 0 to size
        invariant block !in blockno[..i]
      {
        if blockno[i] == block {
          assert blockno[..size][i] == block && page[..size][i] == page[i];
          assert entries[i] == Entry(block, page[i]);
          return true, page[i];
        }
      }
      return false, p;
    }

    /** extra_dirtied_add for a page of the insert's own record. */
    method Add(block: nat, p: PageRef)
      requires Valid() && size + 1 < MAX_BUFS && block != 0 && block !in Blocks()
      modifies this`size, this`main, this`entries, blockno, page
      ensures Valid() && Blocks() == old(Blocks()) + [block]
      ensures main == old(main) + [block] && entries == old(entries) + [Entry(block, p)]
    {
      hide Overlay, Paired;
      PairedSnoc(entries, blockno[..size], page[..size], block, p);
      OverlayAdd(blockno[..size], states[..stateSize], pagesInLastState, main, block);
      size := size + 1;
      blockno[size - 1], page[size - 1] := block, p;
      main, entries := main + [block], entries + [Entry(block, p)];
      assert blockno[..size] == old(blockno[..size]) + [block];
      assert page[..size] == old(page[..size]) + [p];
    }

    /** extra_dirtied_add_wal_read_buffer: open a record when the last one is full, then read, lock,
        register and add the block. The record array never runs out. */
    method AddWalReadBuffer(bufs: Buffers, block: nat) returns (p: PageRef)
      requires Valid() && size + 1 < MAX_BUFS && block != 0 && block !in Blocks()
      requires block !in bufs.exclusive
      modifies this`size, this`stateSize, this`pagesInLastState, this`entries, blockno, page, states
      modifies bufs`pins, bufs`exclusive, bufs`images
      ensures Valid() && Blocks() == old(Blocks()) + [block]
      ensures entries == old(entries) + [Entry(block, p)] && p.Image? && pagesInLastState > 0
      ensures bufs.pins == old(bufs.pins) + multiset{block}
      ensures bufs.exclusive == old(bufs.exclusive) + {block}
    {
      hide Overlay, Paired;
      if pagesInLastState == MAX_XLOG_PAGES {
        OpenRecord();
      }
      OverlayRegister(blockno[..size], states[..stateSize], pagesInLastState, main, block);
      p := bufs.Acquire(block);
      PairedSnoc(entries, blockno[..size], page[..size], block, p);
      Register(block, p);
    }

    /** GenericXLogStart for the next record. */
    method OpenRecord()
      requires Valid() && size + 1 < MAX_BUFS && pagesInLastState == MAX_XLOG_PAGES
      modifies this`stateSize, this`pagesInLastState, states
      ensures Valid() && pagesInLastState == 0
    {
      hide Overlay, Paired;
      OverlayOpen(blockno[..size], states[..stateSize], main);
      states[stateSize] := [];
      stateSize := stateSize + 1;
      pagesInLastState := 0;
      assert states[..stateSize] == old(states[..stateSize]) + [[]];
    }

    /** Register the block with the last record and append it to the overlay. */
    method Register(block: nat, p: PageRef)
      requires blockno.Length == page.Length == MAX_BUFS && states.Length == MAX_RECORDS
      requires size + 1 < MAX_BUFS && 0 < stateSize <= MAX_RECORDS
      modifies this`size, this`pagesInLastState, this`entries, blockno, page, states
      ensures size == old(size) + 1 && blockno[..size] == old(blockno[..size]) + [block]
      ensures page[..size] == old(page[..size]) + [p] && entries == old(entries) + [Entry(block, p)]
      ensures states[..stateSize] == Registered(old(states[..stateSize]), block)
      ensures pagesInLastState == old(pagesInLastState) + 1
    {
      states[stateSize - 1] := states[stateSize - 1] + [block];
      pagesInLastState := pagesInLastState + 1;
      size := size + 1;
      blockno[size - 1], page[size - 1] := block, p;
      entries := entries + [Entry(block, p)];
    }
  }

  ghost function Registered(records: seq<seq<nat>>, block: nat): seq<seq<nat>>
    requires records != []
  {
    records[|records| - 1 := records[|records| - 1] + [block]]
  }

  lemma {:induction false} OverlayAdd(blocks: seq<nat>, records: seq<seq<nat>>, inLast: nat, main: seq<nat>, block: nat)
    requires Overlay(blocks, records, inLast, main) && block != 0 && block !in blocks
    ensures Overlay(blocks + [block], records, inLast, main + [block])
  {
  }

  lemma {:induction false} OverlayOpen(blocks: seq<nat>, records: seq<seq<nat>>, main: seq<nat>)
    requires Overlay(blocks, records, MAX_XLOG_PAGES, main) && |blocks| + 1 < MAX_BUFS
    ensures |records| < MAX_RECORDS && Overlay(blocks, records + [[]], 0, main)
  {
    RecordsBound(records, main, blocks);
    LoggedSnoc(records, []);
  }

  lemma {:induction false} OverlayRegister(blocks: seq<nat>, records: seq<seq<nat>>, inLast: nat, main: seq<nat>, block: nat)
    requires Overlay(blocks, records, inLast, main) && inLast < MAX_XLOG_PAGES && block != 0 && block !in blocks
    ensures records != [] && Overlay(blocks + [block], Registered(records, block), inLast + 1, main)
  {
    LoggedRegister(records, block);
  }

  lemma {:induction false} LoggedSnoc(records: seq<seq<nat>>, r: seq<nat>)
    ensures Logged(records + [r]) == Logged(records) + r
  {
    assert (records + [r])[..|records|] == records;
  }

  lemma {:induction false} LoggedRegister(records: seq<seq<nat>>, block: nat)
    requires records != []
    ensures Logged(Registered(records, block)) == Logged(records) + [block]
  {
    var n := |records| - 1;
    assert records[n := records[n] + [block]][..n] == records[..n];
  }

  lemma {:induction false} LoggedLength(records: seq<seq<nat>>)
    requires forall i :: 0 <= i < |records| ==> |records[i]| == MAX_XLOG_PAGES
    ensures |Logged(records)| == MAX_XLOG_PAGES * |records|
    decreases |records|
  {
    if records != [] {
      LoggedLength(records[..|records| - 1]);
    }
  }

  /** The records are as few as their pages allow. */
  lemma {:induction false} RecordCount(blocks: seq<nat>, records: seq<seq<nat>>, inLast: nat, main: seq<nat>)
    requires Overlay(blocks, records, inLast, main) && inLast > 0
    ensures |main| <= |blocks| && |records| == (|blocks| - |main| + MAX_XLOG_PAGES - 1) / MAX_XLOG_PAGES
  {
    assert |multiset(blocks)| == |blocks| && |multiset(main)| == |main|;
    assert |multiset(Logged(records))| == |Logged(records)|;
    if records != [] {
      LoggedLength(records[..|records| - 1]);
    }
  }

  /** Fewer than 100 buffers held: there is always room for one more record. */
  lemma {:induction false} RecordsBound(records: seq<seq<nat>>, main: seq<nat>, blocks: seq<nat>)
    requires forall i :: 0 <= i < |records| ==> |records[i]| == MAX_XLOG_PAGES
    requires multiset(blocks) == multiset(main) + multiset(Logged(records)) && |blocks| + 1 < MAX_BUFS
    ensures |records| < MAX_RECORDS
  {
    LoggedLength(records);
    assert |multiset(blocks)| == |blocks|;
    assert |multiset(main)| == |main|;
    assert |multiset(Logged(records))| == |Logged(records)|;
  }
}
