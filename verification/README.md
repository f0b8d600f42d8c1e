# Lantern, verified

Lantern adds an HNSW vector index to PostgreSQL, and around it an external indexing server, product
quantization, an embedding daemon and a BM25 aggregate. This project models the parts of it that carry the most
state and proves what they keep. Integers are unbounded, so every width that matters is written out (32-bit
block numbers, 16-bit offsets, the byte cast of a centroid index). Floats are exact reals.

| files | part |
|---|---|
| Basics, Bytes, Pages, NodeLayout, Sockets | 8 KB page geometry, node byte layout, labels, byte streams with partial reads and writes |
| BulkStore, Chain, Shapes, Packing, BulkChain | packing nodes into pages, from one buffer or through the rotating socket buffer; the page chain |
| Rewrite, Build | the in-place rewrite of neighbour ids into item pointers, and the whole build |
| ExtraDirtied, InsertSession, Insert | one insert: dirtied-page overlay, pins, locks, WAL records, and runs of inserts |
| Scan, Vacuum, IndexRuns | scans, tombstoning, the labels on the pages over whole runs and what scans emit then |
| Wire, Workers | external indexing: frames over a byte stream, and the receiver with its worker threads |
| Distances, KMeans, Quantize, Codebook | product quantization |
| Daemon, DaemonProgress | the row-lock and batching protocol of several daemons, and that rows get through it |
| TokenGroups, TopK, CopyText | token grouping and record pairing, BM25 top-k, COPY text export |

PostgreSQL's page, buffer and WAL calls are small stubs with contracts (`AddItem`, `HasRoom`, `ExtraDirtied.Buffers`).
What comes from outside is a parameter: how many bytes each read or write moves (`readOffer`, `writeOffer`), the
batches a graph search returns, the initial k-means picks, the vacuum callback, which flush timers have run out.
Code that changes state step by step is a class or a method with loops, tied to a specification function. The
worker threads and the daemons are transition systems, quantified over every interleaving.

## What turned out not to hold

Where the code misses what its comments or asserts suggest, the model keeps the code, and a lemma gives the exact
condition.

- The bulk loop never leaves a node that does not fit an empty page: it adds a page per pass, forever. The asserts
  let node sizes 8137 to 8183 through (`BulkStore.LoopProgress`, `Pages.FitsEmptyPage`).
- Vacuum of an index without a data block fails: the loop bound is the invalid block number
  (`Vacuum.BulkDelete`; the rewrite loop of the build guards this case, the vacuum loop does not).
- A scan stops at a batch whose last label is a tombstone, although live nodes may follow
  (`Scan.ScanReach`, `Scan.DeletedBatchEndHidesRest`).
- A frame whose label begins like a control message ends or breaks the stream: exactly for heap blocks
  0x33373133 and 0x33371333 (`Wire.PrefixOfFrame`, `Wire.Transfer`).
- An index body with the bytes of an error message at the start of a refill aborts the build
  (`Sockets.Socket.ReadAll`, `BulkStore.IndexRelation.StoreFromSocket`).
- A server index of initial capacity 0 never grows, and a failed add loses its row silently and can leave the
  receiver blocked for good (`Workers.ZeroCapacityOverflows`, `Workers.FailedAddCanHang`, `Workers.StuckExactly`).
- The byte cast of a centroid index is right for all inputs exactly up to 256 centroids (`Quantize.ByteIsEnoughExactly`).
- Rows of a job whose lookup fails, or that is cancelled while they are collected, stay locked for good
  (`Daemon.SkippedRowIsNeverTakenAgain`), and the retry after a failed job breaks mutual exclusion
  (`Daemon.RetryBreaksExclusion`).
- Token grouping makes an empty first group exactly if the first input is over the limit
  (`TokenGroups.GroupByTokenCount`). A missing reply makes wrong exactly the records of its own input and of those
  before it (`TokenGroups.RightAfterLastMissing`), so all are right exactly if only first replies are missing
  (`TokenGroups.RecordsAreRightExactly`).
- The bloom-adjusted ranking is exact for all runs exactly up to ten times the limit or 100 documents, a limit of 0
  panics on the first document, and without a limit the filters are ignored (`TopK.ExactUpToTenfold`,
  `TopK.Finalize`, `TopK.FinalizeUnlimited`).
- The exporter opens the first COPY with `NULL AS 'NULL'` and every later one without it. So the first segment
  misreads the text NULL as null, and every later one misreads an empty value as the text NULL
  (`CopyText.ExportIsRightExactly`, `CopyText.LateEmptyValueBecomesText`).

## Model

| member | source | states |
|---|---|---|
| `Pages.PageAlignment` | lantern_hnsw/src/hnsw/external_index.c:134-149 | on every page built by adding items the lower bound is a multiple of 4, the upper of 8, and at most 1000 items fit |
| `Pages.InsertGuardSuffices` | lantern_hnsw/src/hnsw/external_index.c:530-548 | the insert guard on unpadded free space implies that the padded page add succeeds, by alignment of the page bounds |
| `Pages.BulkGuardIsNecessary` | lantern_hnsw/src/hnsw/external_index.c:99-109 | the bulk guard never turns away a node the page could take |
| `Pages.FitsEmptyPage` | lantern_hnsw/src/hnsw/external_index.c:146-158 | a node fits an empty data page if and only if it has at most 8136 bytes |
| `NodeLayout.ListsAreConsecutive` | lantern_hnsw/src/hnsw/usearch_storage.cpp:19-32 | neighbour lists of successive levels lie one after another, and a node has 10 bytes of head, 4 of count and 6 per slot of each list, and its vector at the end |
| `NodeLayout.PointerRoundTrip` | lantern_hnsw/src/hnsw.h:40-46 | a slot decodes to the item pointer that was encoded in it |
| `NodeLayout.LabelRoundTrip` | lantern_hnsw/src/hnsw/utils.c:69-77 | every valid item pointer survives the trip through a label, and its label is never 0, the tombstone |
| `NodeLayout.LabelsInjective` | lantern_hnsw/src/hnsw/utils.c:69-77 | two valid item pointers with one label are the same pointer |
| `Sockets.Socket.ReadAll` | lantern_hnsw/src/hnsw/external_index_socket.c:186-302 | for every fragmentation, raises an error exactly if the region starts like an error message and some read has at least 4 bytes; otherwise reads exactly the wanted bytes, or all there are, into the given place and changes no other byte |
| `Sockets.Socket.ReadExact` | lantern_cli/src/external_index/server.rs:295-300 | for every fragmentation, reads exactly the wanted bytes, or all there are, and takes the read calls the oracle says |
| `Sockets.Socket.WriteAll` | lantern_hnsw/src/hnsw/external_index_socket.c:265-278 | for every fragmentation, appends exactly the data to what was sent |
| `BulkStore.TryOnceRefines` | lantern_hnsw/src/hnsw/external_index.c:93-165 | a pass of the loop stores the node as the reference store does, or only sets the force flag, after which the next pass stores it |
| `BulkStore.LoopProgress` | lantern_hnsw/src/hnsw/external_index.c:93-165 | the loop leaves a node if and only if it fits an empty page, then within two passes; an oversized node costs a page per pass without end |
| `BulkStore.StoreAllConcat` | lantern_hnsw/src/hnsw/external_index.c:80-174 | storing two runs of nodes in two calls is storing their concatenation in one |
| `BulkStore.IndexRelation.constructor` | lantern_hnsw/src/hnsw/external_index.c:179-229 | an empty index is one header page, no data block and no vectors |
| `BulkStore.IndexRelation.TryAdd` | lantern_hnsw/src/hnsw/external_index.c:93-165 | one pass on the relation's pages does what the pass function says: guard, new linked page, add, close |
| `BulkStore.IndexRelation.StoreNodes` | lantern_hnsw/src/hnsw/external_index.c:46-177 | stores every node that starts before the end of the data, as the reference store, in at most two passes per node, and reports bytes and nodes stored |
| `BulkStore.IndexRelation.StoreFromBuffer` | lantern_hnsw/src/hnsw/external_index.c:357-372 | one call over the mapped file leaves the pages, last block and item pointers of the reference store of all nodes |
| `BulkStore.IndexRelation.StoreFromSocket` | lantern_hnsw/src/hnsw/external_index.c:307-356 | the rotating buffer, for every fragmentation of the reads, leaves the same pages, last block and item pointers as the single call over the whole body, unless a refill starts like an error message, exactly when it fails |
| `BulkStore.ChunkEnd` | lantern_hnsw/src/hnsw/external_index.c:323-342 | the part of a full buffer handed to the store ends inside a node that the buffer still holds whole, so no node is split and the carried tail is at most one block |
| `BulkStore.Refill` | lantern_hnsw/src/hnsw/external_index.c:318-328 | one refill hands the store whole nodes only and leaves exactly the unread tail, of at most one block, and a failing refill is the one the specification of the stream names |
| `BulkStore.Rotate` | lantern_hnsw/src/hnsw/external_index.c:344-349 | moving the tail to the front of the buffer loses none of its bytes |
| `BulkStore.ReadNode` | lantern_hnsw/src/hnsw/external_index.c:93-98 | the node read at a position, sized by its own level, is the node that was written there |
| `Chain.AppendKeepsChain` | lantern_hnsw/src/hnsw/external_index.c:436-462 | adding a tuple to the last page keeps the whole chain invariant with one more id |
| `Chain.ExtendKeepsChain` | lantern_hnsw/src/hnsw/external_index.c:111-130 | opening a page, linking it and adding the first tuple keeps the chain invariant with one more page and id |
| `Chain.LeakKeepsChain` | lantern_hnsw/src/hnsw/external_index.c:561-573 | a page added without items leaves the chain as it was |
| `Chain.ChainReadsInOrder` | lantern_hnsw/src/hnsw/external_index.c:111-171 | the ids read along the chain are exactly 0 to count - 1, in order |
| `Chain.ChainIsWalked` | lantern_hnsw/src/hnsw/external_index.c:111-130 | following the next-block links from the first data page visits the chain and ends at the last data block |
| `Chain.IdsUnique` | lantern_hnsw/src/hnsw/external_index.c:99-165 | no two items anywhere in the index carry the same id |
| `Packing.RefusalFailsGuard` | lantern_hnsw/src/hnsw/external_index.c:106-158 | a page that refuses a node also fails the insert guard for it, by alignment |
| `Packing.AppendKeepsPacked` | lantern_hnsw/src/hnsw/external_index.c:436-462 | appending to the last page keeps every page full for the first node of the next |
| `Packing.ExtendKeepsPacked` | lantern_hnsw/src/hnsw/external_index.c:111-130 | opening a page keeps it so if the last page was full for the node |
| `Packing.TightIsPacked` | lantern_hnsw/src/hnsw/external_index.c:544-548 | the packing of a bulk store is the packing inserts keep |
| `Shapes.ShapeKeepsChain` | lantern_hnsw/src/hnsw/external_index.c:380-409 | changing node bytes in place, sizes and ids kept, keeps the chain invariant |
| `Shapes.ShapeKeepsPointer` | lantern_hnsw/src/hnsw/external_index.c:613-635 | a pointer that reached a tuple reaches the tuple of the same id after such a change |
| `Shapes.PointersInjective` | lantern_hnsw/src/hnsw/external_index.c:161-164 | two pointers to tuples of one id are equal |
| `BulkChain.StoreNodeKeeps` | lantern_hnsw/src/hnsw/external_index.c:93-165 | storing a node keeps the chain and its packing, and every recorded pointer still reaches its own node, byte for byte |
| `BulkChain.StoreAllLocates` | lantern_hnsw/src/hnsw/external_index.c:46-177 | after a bulk store the added pages, in block order, form one chain with ids in order, pointer i reaches node i unchanged, and no page was opened while the one before had room for the node |
| `Rewrite.SlotsApart` | lantern_hnsw/src/hnsw/usearch_storage.cpp:101-118 | two different neighbour slots of a node never share a byte |
| `Rewrite.RewriteSlot` | lantern_hnsw/src/hnsw/external_index.c:399-403 | writing a slot reads the id that was there before the whole rewrite, although old and new values share bytes |
| `Rewrite.RewriteList` | lantern_hnsw/src/hnsw/external_index.c:396-404 | the slot loop rewrites each slot of one list once and leaves every other byte |
| `Rewrite.RewriteNode` | lantern_hnsw/src/hnsw/external_index.c:392-405 | every slot of every level holds the pointer of its old id, and every byte outside the slots is unchanged |
| `Build.RewritePage` | lantern_hnsw/src/hnsw/external_index.c:392-405 | every item of a page is rewritten and nothing else on the page changes |
| `Build.RewriteNeighbors` | lantern_hnsw/src/hnsw/external_index.c:380-409 | pages 1 to the last data block are rewritten, all others stay, and nothing happens without a data block |
| `Build.RewriteKeepsLists` | lantern_hnsw/src/hnsw/external_index.c:394-404 | level, label and all neighbour counts of a node survive its rewrite |
| `Build.RewriteKeepsVector` | lantern_hnsw/src/hnsw/external_index.c:394-404 | the vector of a node survives its rewrite |
| `Build.SlotRelocated` | lantern_hnsw/src/hnsw/external_index.c:399-403 | a rewritten slot decodes to the pointer recorded for the id it held |
| `Build.EveryItemVisited` | lantern_hnsw/src/hnsw/external_index.c:380-409 | looping over blocks 1 to last reaches every item of the chain, empty codebook pages included |
| `Build.CodebookFits` | lantern_hnsw/src/hnsw/external_index.c:282-296 | the pages set aside for a codebook are just enough for 256 vectors |
| `Build.RewriteIsIsomorphism` | lantern_hnsw/src/hnsw/external_index.c:373-409 | for every graph, pointer k reaches node k with its label, vector and counts, and following slot j of level l reaches the node whose id that slot held |
| `Build.StoreExternalIndex` | lantern_hnsw/src/hnsw/external_index.c:240-432 | a build, from a file or a socket, leaves the codebook pages, then one packed chain of consecutive pages, an isomorphic graph, distinct pointers, and an entry slot that reaches the original entry node; it fails exactly if a refill is taken for an error message |
| `ExtraDirtied.ExtraDirtiedBufs.constructor` | lantern_hnsw/src/hnsw/extra_dirtied.c:10-22 | a new overlay is valid and empty |
| `ExtraDirtied.ExtraDirtiedBufs.Get` | lantern_hnsw/src/hnsw/extra_dirtied.c:55-66 | finds a block if and only if it is in the overlay, and returns the page that was added with it |
| `ExtraDirtied.ExtraDirtiedBufs.Add` | lantern_hnsw/src/hnsw/extra_dirtied.c:24-36 | appends the block with its page to the overlay, leaves the earlier entries, and keeps blocks distinct, the header excluded |
| `ExtraDirtied.ExtraDirtiedBufs.AddWalReadBuffer` | lantern_hnsw/src/hnsw/extra_dirtied.c:38-53 | takes one pin and one exclusive lock, registers the block in a record that has room, and adds the image it gets to the overlay, whose earlier entries stay |
| `ExtraDirtied.ExtraDirtiedBufs.OpenRecord` | lantern_hnsw/src/hnsw/extra_dirtied.c:41-46 | opening a WAL record when the last is full never overruns the record array |
| `ExtraDirtied.RecordsBound` | lantern_hnsw/src/hnsw/extra_dirtied.h:14-19 | with all records full and fewer than 100 buffers held, a further record still fits, so the record-count invariant cannot fire |
| `ExtraDirtied.RecordCount` | lantern_hnsw/src/hnsw/extra_dirtied.c:38-53 | the extra records are as few as their pages allow |
| `InsertSession.Session.constructor` | lantern_hnsw/src/hnsw/insert.c:103-130 | an insert starts with the header pinned and locked and nothing else |
| `InsertSession.Session.Retrieve` | lantern_hnsw/src/hnsw/external_index.c:613-671 | a read of a held block takes no pin and returns the page held for it, a read of another takes one pin, notes it and returns the shared page; nothing is locked twice |
| `InsertSession.Session.RetrieveMut` | lantern_hnsw/src/hnsw/external_index.c:673-697 | a mutable retrieval locks a block exactly if this insert does not hold it already, and returns the one page held for it |
| `InsertSession.Session.OnePage` | lantern_hnsw/src/hnsw/extra_dirtied.c:55-66 | a block has one page in the overlay |
| `InsertSession.Session.Prepare` | lantern_hnsw/src/hnsw/external_index.c:502-594 | tuple placement holds exactly the pages it touches: the last page if there is one, and the new page if there is none or the tuple does not fit |
| `InsertSession.Session.Run` | lantern_hnsw/src/hnsw/insert.c:188-212 | over any sequence of retrievals the held blocks are the placed ones and those asked for mutably, a retrieval after a mutable one of the same block gets the very page that one changes, and every other page read was read under a share lock |
| `InsertSession.Session.Reset` | lantern_hnsw/src/hnsw/retriever.c:33-48 | releases every noted pin once and no other |
| `InsertSession.Session.ReleaseAll` | lantern_hnsw/src/hnsw/extra_dirtied.c:68-85 | finishes every record while its pages are locked, then releases exactly the held blocks, leaving the header |
| `InsertSession.Session.Finish` | lantern_hnsw/src/hnsw/insert.c:214-245 | ends with the pins of before the insert, no lock, and the main record followed by the extra ones |
| `InsertSession.Session.Close` | lantern_hnsw/src/hnsw/insert.c:205-245 | gives back every pin and lock, and the log grows by records that hold the header and each held page exactly once |
| `InsertSession.AmInsert` | lantern_hnsw/src/hnsw/insert.c:103-247 | for every sequence of retrievals, an insert touches exactly the last page, the new page if one is opened and the pages asked for mutably; it never locks a block it holds, reads its own changes, gives back every pin and lock exactly once, and logs the header and every touched page exactly once, in as few records as their size allows |
| `InsertSession.ChangedPagesAreTouched` | lantern_hnsw/src/hnsw/external_index.c:502-594 | every page that the insert of a tuple changes, the old last page with its new link included, is among those locked and logged |
| `Insert.AddVector` | lantern_hnsw/src/hnsw/external_index.c:436-462 | the page add succeeds, the asserts on ids hold, and the page's id bounds take in the new tuple |
| `Insert.PrepareIndexTuple` | lantern_hnsw/src/hnsw/external_index.c:469-611 | succeeds if and only if the node fits an empty page; then the tuple is appended to the last page exactly if the guard finds room there, on a new linked page otherwise, and the slot reaches it; a failure leaves the chain intact |
| `Insert.InsertKeepsChain` | lantern_hnsw/src/hnsw/external_index.c:502-607 | an insert keeps the chain with one more id, and its packing |
| `Insert.InsertKeepsPointer` | lantern_hnsw/src/hnsw/external_index.c:502-607 | an insert moves no tuple: old pointers reach the same tuples |
| `Insert.EmptyIndexChained` | lantern_hnsw/src/hnsw/external_index.c:211-213 | the empty index satisfies the chain invariant |
| `Insert.BuiltIsChained` | lantern_hnsw/src/hnsw/external_index.c:373-418 | what a build leaves satisfies the invariant of runs |
| `Insert.StepKeeps` | lantern_hnsw/src/hnsw/insert.c:188-199 | inserts, failed inserts and in-place changes each keep the chain and its packing, count exactly the completed inserts, and keep every pointer on its id |
| `Insert.RunKeeps` | lantern_hnsw/src/hnsw/insert.c:103-247 | over every run from any chained index the chain and its packing hold, the count grows by the completed inserts, and every pointer keeps reaching its id |
| `Scan.LiveMeans` | lantern_hnsw/src/hnsw/scan.c:294-300 | the live part of a ranking holds exactly the labels that are not the tombstone |
| `Scan.ScanState.FetchFirst` | lantern_hnsw/src/hnsw/scan.c:181-238 | the first search, whatever it returns, changes nothing about what is still to be emitted |
| `Scan.ScanState.FetchMore` | lantern_hnsw/src/hnsw/scan.c:240-292 | a further search, whatever it returns, keeps what is still to be emitted, and the scan ends only when nothing is |
| `Scan.ScanState.EmitNext` | lantern_hnsw/src/hnsw/scan.c:294-335 | skips tombstones and emits the next live label of the batch |
| `Scan.ScanState.GetTuple` | lantern_hnsw/src/hnsw/scan.c:167-338 | each call emits the next label of the specification, and returns false exactly when it is exhausted |
| `Scan.Drain` | lantern_hnsw/src/hnsw/scan.c:167-338 | for every search, a whole scan emits the live labels of its batches, in order, each once; the batches end with the first that is empty, ends with a tombstone, has 1000 labels or is as long as the index |
| `Scan.FetchedIsScan` | lantern_hnsw/src/hnsw/scan.c:240-292 | the specification is exactly that sequence of batches, each asked for at twice the length of the one before |
| `Scan.ScanEndsExactly` | lantern_hnsw/src/hnsw/scan.c:240-256 | a batch is the last of a scan if and only if it is empty, ends with a tombstone, has 1000 labels or as many as the index has nodes |
| `Scan.BatchesOfRanking` | lantern_hnsw/src/hnsw/scan.c:240-292 | for a search that ranks the index and fills its batches, batch j is labels initK * (2^j - 1) to initK * (2^(j+1) - 1) of the ranking |
| `Scan.ScanReach` | lantern_hnsw/src/hnsw/scan.c:240-337 | a scan of a ranking emits its live labels up to initK * (2^n - 1) after n batches, n being the first with a stopping batch, and so every live label if and only if only tombstones follow |
| `Scan.DeletedBatchEndHidesRest` | lantern_hnsw/src/hnsw/scan.c:294-337 | a ranking with a live node that no scan emits, behind a tombstone at the end of a batch |
| `Scan.UndeletedScanIsComplete` | lantern_hnsw/src/hnsw/scan.c:240-292 | without tombstones a scan reaches the whole ranking if and only if it is no longer than the batches through the first of at least 1000 labels |
| `Vacuum.VacuumNodeLabel` | lantern_hnsw/src/hnsw/usearch_storage.cpp:95-99 | resetting a dead node changes its label to the tombstone and no other byte |
| `Vacuum.VacuumPage` | lantern_hnsw/src/hnsw/delete.c:52-61 | exactly the dead nodes of a page are reset, and the count is their number |
| `Vacuum.MatchesAreDeadPlaces` | lantern_hnsw/src/hnsw/delete.c:40-61 | the count over the pages is the number of places whose row is dead |
| `Vacuum.BulkDelete` | lantern_hnsw/src/hnsw/delete.c:40-71 | resets exactly the dead nodes of the index and returns the number of their places, if and only if there is a data block; otherwise it fails and changes nothing |
| `Vacuum.VacuumKeepsShape` | lantern_hnsw/src/hnsw/delete.c:52-61 | vacuum keeps the shape of every page, and every pointer reaches the same id with its label reset or kept |
| `IndexRuns.LabelsOverRuns` | lantern_hnsw/src/hnsw/delete.c:40-70 | in a history of inserts and vacuums a node has the tombstone if a vacuum after its insert found its row dead, and the label of its row otherwise |
| `IndexRuns.StepCarries` | lantern_hnsw/src/hnsw/delete.c:52-61 | an insert, a vacuum, a relinking of neighbours and a failed insert on the pages each keep every stored label equal to the one of the longer history |
| `IndexRuns.RunCarries` | lantern_hnsw/src/hnsw/delete.c:40-70 | so does every run of such steps |
| `IndexRuns.NodeAfterRun` | lantern_hnsw/src/hnsw/delete.c:40-70 | after any run, the label read through any pointer is the tombstone if and only if the row of that node was found dead, and the label of that row otherwise |
| `IndexRuns.NodeHasPointer` | lantern_hnsw/src/hnsw/external_index.c:613-635 | in a chained index every id is reached by a pointer |
| `IndexRuns.EmptyCarries` | lantern_hnsw/src/hnsw/external_index.c:211-213 | the empty index starts a run with no history |
| `IndexRuns.BuildCarries` | lantern_hnsw/src/hnsw/external_index.c:373-418 | a built index starts a run whose history is the insertion of the built rows |
| `IndexRuns.ScanAfterRun` | lantern_hnsw/src/hnsw/scan.c:294-335 | after any run, and for any search that returns labels found on the pages, a label of the batches is emitted if and only if it is the label of a row that was inserted and not found dead |
| `Wire.FrameSizesAgree` | lantern_cli/src/external_index/server.rs:226-230 | the size the client sends and the size the server expects agree for float and for hamming vectors |
| `Wire.ParseFrame` | lantern_cli/src/external_index/server.rs:169-174 | a frame parses to the label and vector it was made of |
| `Wire.PrefixOfFrame` | lantern_cli/src/external_index/server.rs:286-306 | a frame looks like an end or init message if and only if its heap block is one of two numbers |
| `Wire.DecodeLength` | lantern_cli/src/external_index/server.rs:237-264 | all frames are decoded if and only if none begins like a control message |
| `Wire.ReadFrame` | lantern_cli/src/external_index/server.rs:275-309 | what a call returns and consumes is a function of the stream and the length of its first read only: error below 4 bytes, end, init, data |
| `Wire.ReceiveInit` | lantern_cli/src/external_index/server.rs:176-212 | the server goes on if and only if the first frame is a whole init message of which the first read has at least the header, and then takes exactly its payload |
| `Wire.ReceiveRows` | lantern_cli/src/external_index/server.rs:214-267 | for every fragmentation the loop returns the decoding of the frames if the first read of every frame it reaches has at least 4 bytes, however the rest is split, and an error otherwise |
| `Wire.SendTuples` | lantern_hnsw/src/hnsw/external_index_socket.c:517-536 | for every fragmentation of the writes the stream gets every tuple's frame in order and then the end message |
| `Wire.DecodedAsSent` | lantern_cli/src/external_index/server.rs:237-264 | the decoded rows are the sent tuples if and only if no tuple is on a control-like block |
| `Wire.Transfer` | lantern_cli/src/external_index/server.rs:214-309 | client and server together, for every fragmentation of both sides: the rows arrive as sent, in order, if and only if no tuple is on a control-like block and the first read of every frame, and of the end message, has at least 4 bytes |
| `Workers.StepKeepsInv` | lantern_cli/src/external_index/server.rs:325-356 | every step of the receiver or a worker keeps conservation of rows, the capacity bound, the mutex and the order of shutdown |
| `Workers.RunKeepsInv` | lantern_cli/src/external_index/server.rs:325-375 | so does every run |
| `Workers.RunIsSafe` | lantern_cli/src/external_index/server.rs:214-267 | in every interleaving, rows unread, in transit, in workers, in the index and lost make up the rows sent; the received never exceed the reserved capacity, and an add in progress has room |
| `Workers.TakenInOrder` | lantern_cli/src/external_index/server.rs:335-348 | in every interleaving the rows taken by workers, the channel, the row in hand and the unread rows are, in this order, the rows sent |
| `Workers.GrowthExcludesAdds` | lantern_cli/src/external_index/server.rs:244-250 | a step that grows the index finds no worker in the middle of an add |
| `Workers.CapacityFixedDuringAdd` | lantern_cli/src/external_index/server.rs:346-349 | in every run the capacity stays the same from the beginning of an add to its end |
| `Workers.CapacityIsLeastDoubling` | lantern_cli/src/external_index/server.rs:244-250 | in every run the capacity is the initial one doubled just often enough for the rows received |
| `Workers.StepDecreasesWork` | lantern_cli/src/external_index/server.rs:333-356 | every step lowers a measure of outstanding work |
| `Workers.RunsAreFinite` | lantern_cli/src/external_index/server.rs:325-375 | every interleaving ends, within a bound set by the initial state |
| `Workers.StuckExactly` | lantern_cli/src/external_index/server.rs:325-375 | a reachable state has no next step if and only if all workers ended and the receiver is finished, or blocked on a full channel |
| `Workers.CompletedRun` | lantern_cli/src/external_index/server.rs:361-375 | a run that can go no further and lost no row has joined all workers, and the index holds exactly the multiset of rows sent |
| `Workers.ZeroCapacityOverflows` | lantern_cli/src/external_index/server.rs:244-250 | from capacity 0, doubling admits a first row beyond the reserved capacity |
| `Workers.FailedAddCanHang` | lantern_cli/src/external_index/server.rs:347-360 | with one worker and more rows than the channel holds, one failed add can leave the receiver blocked for good and the row lost |
| `Distances.MeanIsBest` | lantern_hnsw/src/hnsw/product_quantization.c:129-146 | no centre has a smaller sum of squared distances to the points than their mean |
| `Distances.MeanDistance` | lantern_hnsw/src/hnsw/product_quantization.c:129-146 | the sum of squared distances to any centre is that to the mean plus, once per point, the distance of the centre from the mean |
| `Distances.MeanWithin` | lantern_hnsw/src/hnsw/product_quantization.c:129-146 | a mean is no farther from a point than the bound that holds for all its points |
| `KMeans.NearestCluster` | lantern_hnsw/src/hnsw/product_quantization.c:98-114 | picks the first nearest centre whenever one is closer than FLT_MAX, and otherwise keeps the index of the previous point |
| `KMeans.AssignToClusters` | lantern_hnsw/src/hnsw/product_quantization.c:80-124 | puts every point in exactly one cluster, in order, and leaves the centres |
| `KMeans.CalculateMean` | lantern_hnsw/src/hnsw/product_quantization.c:129-146 | returns the coordinate-wise mean |
| `KMeans.UpdateCenters` | lantern_hnsw/src/hnsw/product_quantization.c:152-166 | every non-empty cluster gets its mean, every empty one keeps its centre, and all clusters end empty |
| `KMeans.ShouldStop` | lantern_hnsw/src/hnsw/product_quantization.c:173-193 | stops exactly if the distances the centres moved add up to at most 0.1 per centre |
| `KMeans.CostIsLeast` | lantern_hnsw/src/hnsw/product_quantization.c:97-113 | nearest assignment attains the cost, and no assignment is cheaper |
| `KMeans.ClustersPartition` | lantern_hnsw/src/hnsw/product_quantization.c:114-123 | cluster sizes add up to the number of points |
| `KMeans.MoveCentre` | lantern_hnsw/src/hnsw/product_quantization.c:157-165 | moving one centre changes the cost by what it changes for its own points |
| `KMeans.UpdateLowersAssigned` | lantern_hnsw/src/hnsw/product_quantization.c:152-166 | the update never raises the cost of the assignment |
| `KMeans.IterationNeverRaisesCost` | lantern_hnsw/src/hnsw/product_quantization.c:220-234 | assignment and update together never raise the sum of distances to the nearest centre |
| `KMeans.StaysNear` | lantern_hnsw/src/hnsw/product_quantization.c:152-166 | points within FLT_MAX of each other and of the centres stay within it of the updated centres |
| `KMeans.ReachKept` | lantern_hnsw/src/hnsw/product_quantization.c:99-113 | a cost below FLT_MAX, or points and centres that close, puts every point in reach of a centre |
| `KMeans.Iterate` | lantern_hnsw/src/hnsw/product_quantization.c:221-227 | one iteration with every point in reach of some centre sends each point to its first nearest centre and each centre to the mean of its points, does not raise the cost and leaves all clusters empty |
| `KMeans.Run` | lantern_hnsw/src/hnsw/product_quantization.c:207-240 | returns the last of a trace of centre lists that starts with the picked points, in which each is the iteration of the one before, and which ends after the asked number of steps or with the first that settles; so the centroids cost no more than the initial ones, if the initial cost or all distances between points are below FLT_MAX |
| `KMeans.TraceNeverRaisesCost` | lantern_hnsw/src/hnsw/product_quantization.c:220-234 | along such a trace the cost never rises |
| `Quantize.GetClosestCentroid` | lantern_cli/src/pq/quantization.rs:25-38 | returns the byte cast of the first nearest centroid, or of 0 if none is below f32::MAX |
| `Quantize.ByteIsEnoughExactly` | lantern_cli/src/pq/quantization.rs:29-37 | the byte code names a nearest centroid for all inputs if and only if there are at most 256 centroids |
| `Quantize.PartsGiveTheWhole` | lantern_cli/src/pq/quantization.rs:61-69 | codes nearest in each part decode to a vector at least as close as that of any other codeword |
| `Quantize.QuantizePart` | lantern_cli/src/pq/quantization.rs:62-68 | the code of one part names a nearest centroid of that part |
| `Quantize.QuantizeVector` | lantern_cli/src/pq/quantization.rs:44-72 | the code of a vector minimises the full distance over all codewords |
| `Codebook.CompleteSize` | lantern_hnsw/src/hnsw/pqtable.c:320-322 | a complete codebook has parts times centroids rows, so the division gives the centroid count back |
| `Codebook.RangesApart` | lantern_hnsw/src/hnsw/pqtable.c:316-318 | the ranges of two different rows do not overlap |
| `Codebook.CopyRows` | lantern_hnsw/src/hnsw/pqtable.c:297-319 | the scan loop writes every row to its place and nothing behind the last centroid |
| `Codebook.EntryOfRow` | lantern_hnsw/src/hnsw/pqtable.c:316-318 | every entry before the end of the last centroid belongs to some row |
| `Codebook.EntryIs` | lantern_hnsw/src/hnsw/pqtable.c:316-318 | entry c * D + s * d + t of the array is element t of centroid c of part s |
| `Codebook.LoadCodebook` | lantern_hnsw/src/hnsw/pqtable.c:246-324 | for every heap order, all writes are in bounds, every row ends up whole in its range, the rest of the array is zero, and both counts are the true ones |
| `Codebook.OrderDoesNotMatter` | lantern_hnsw/src/hnsw/pqtable.c:297-319 | two loads of the same rows in different orders give equal arrays |
| `Codebook.InsertsAtEnd` | lantern_cli/src/pq/quantization.rs:245-253 | with rows ordered by centroid, each insert is at the end of its part's list |
| `Codebook.BuildMap` | lantern_cli/src/pq/quantization.rs:238-253 | for a complete codebook in centroid order no insert is out of bounds, entry s holds centroid c of part s at place c, and the keys are exactly the parts |
| `Codebook.MapIsComplete` | lantern_cli/src/pq/quantization.rs:238-253 | a map that holds a complete codebook has exactly the parts as keys and all centroids under each |
| `Daemon.SplitIsExact` | lantern_cli/src/daemon/embedding_jobs.rs:914-930 | kept and extra ids make up the batch in order; a batch over the maximum keeps one less than it, any other keeps all; none are kept exactly for a maximum of 1 |
| `Daemon.DrainPlaces` | lantern_cli/src/daemon/embedding_jobs.rs:888-891 | draining the batching map moves every id and duplicates none |
| `Daemon.LocalPlaces` | lantern_cli/src/daemon/embedding_jobs.rs:774-948 | a step moves ids between the places of a daemon; only a won lock adds one, only a finish, a failed lookup or a cancel removes any |
| `Daemon.StepKeepsExact` | lantern_cli/src/daemon/embedding_jobs.rs:175-198 | every step but the failure, cancels included, keeps: a key is locked exactly if it is in one place of one daemon, or leaked |
| `Daemon.RunKeepsExact` | lantern_cli/src/daemon/embedding_jobs.rs:674-689 | so does every run without failures, of any number of daemons |
| `Daemon.MutualExclusion` | lantern_cli/src/daemon/embedding_jobs.rs:783-808 | a row is in one place of one daemon at most, and is locked while it is there |
| `Daemon.StepKeepsBounded` | lantern_cli/src/daemon/embedding_jobs.rs:914-930 | every step keeps all batches that are sent, queued or worked on within the batch size of their model |
| `Daemon.RunKeepsBounded` | lantern_cli/src/daemon/embedding_jobs.rs:886-948 | in every run, failures, retries and cancels included, no batch exceeds its model's batch size |
| `DaemonProgress.FromMap` | lantern_cli/src/daemon/embedding_jobs.rs:886-948 | a row that waits in the batching map comes to a worker after finitely many rounds of the collector, however often its batch is split |
| `DaemonProgress.CanWorkOn` | lantern_cli/src/daemon/embedding_jobs.rs:774-948 | wherever a row is in a daemon, steps of that daemon alone lead to a worker on it |
| `DaemonProgress.RowCanFinish` | lantern_cli/src/daemon/embedding_jobs.rs:674-689 | from every state of the system a row that is with a daemon can be worked on and unlocked, if every model takes at least two rows at a time, as they do |
| `Daemon.SkippedRowIsNeverTakenAgain` | lantern_cli/src/daemon/embedding_jobs.rs:895-911 | after a lookup error or a cancel the row stays locked and no daemon takes it, in every continuation without failures |
| `Daemon.RetryBreaksExclusion` | lantern_cli/src/daemon/embedding_jobs.rs:636-643 | after a failure with a pending retry another daemon can take the row, which is then in two places |
| `TokenGroups.GroupByTokenCount` | lantern_cli/src/embeddings/core/openai_runtime.rs:282-312 | groups concatenate to the input, a group is closed exactly when the next input does not fit, and they stay within the limit once inputs do; an empty group appears exactly if the first input is over the limit |
| `TokenGroups.OneGroupOpensOnce` | lantern_cli/src/embeddings/core/openai_runtime.rs:294-303 | the loop opens at most one group while it reads a run that fits one group |
| `TokenGroups.OpensAtMostPerGroup` | lantern_cli/src/embeddings/core/openai_runtime.rs:294-303 | so it opens at most one per group of any grouping within the limit |
| `TokenGroups.GreedyIsOptimal` | lantern_cli/src/embeddings/core/openai_runtime.rs:282-312 | no order-preserving grouping within the limit has fewer groups |
| `TokenGroups.EmbedAll` | lantern_cli/src/embeddings/core/http_runtime.rs:53-62 | with one reply per input in order, embedding i is that of the first tokens of input i up to the limit, and of all of them if there are no more |
| `TokenGroups.PairUp` | lantern_cli/src/embeddings/mod.rs:223-226 | pairs ids and embeddings from their ends, and panics exactly if there are more embeddings than ids |
| `TokenGroups.RecordsAreRightExactly` | lantern_cli/src/embeddings/mod.rs:223-226 | whatever replies are missing, doubled or out of order, every record pairs an id with its own embedding if and only if the replies are those of the last inputs, in order |
| `TokenGroups.RightAfterLastMissing` | lantern_cli/src/embeddings/mod.rs:223-226 | with replies in order and some missing, a record is right if and only if no reply is missing from its own input on |
| `TokenGroups.EmbedRows` | lantern_cli/src/embeddings/mod.rs:199-226 | grouping, service and pairing together give every id the embedding of its own input, cut only at the end and only over the limit |
| `TopK.Ranking.Accumulate` | lantern_extras/src/bm25_agg.rs:190-296 | a term either adds its scores to the map or, past 100 documents and with a filter, only adds its filter |
| `TopK.AddedMeans` | lantern_extras/src/bm25_agg.rs:272-292 | a document's value is its old value plus its scores in the term, and no other document enters |
| `TopK.FiltersNeedBaseline` | lantern_extras/src/bm25_agg.rs:207-216 | after any sequence of terms a filter is there only if there are more than 100 documents |
| `TopK.ValueAfterTerms` | lantern_extras/src/bm25_agg.rs:190-296 | after any sequence of terms a document's value is the sum of its scores over the terms not kept as filters |
| `TopK.FiltersAfterTerms` | lantern_extras/src/bm25_agg.rs:207-216 | after any sequence of terms the filters are, in order, those of exactly the terms that have one and come after more than 100 documents |
| `TopK.KeepBest` | lantern_extras/src/bm25_agg.rs:314-335 | the bounded heap keeps a best part of all documents, for every order of the map |
| `TopK.NeverBelowTrueScore` | lantern_extras/src/bm25_agg.rs:342-352 | a document's adjusted score is at least its partial score plus its true filter terms, with equality if no filter reports it falsely |
| `TopK.AdjustPermutes` | lantern_extras/src/bm25_agg.rs:342-354 | adjusting permuted documents gives permuted results |
| `TopK.SortDescSorts` | lantern_extras/src/bm25_agg.rs:356-365 | the sort is a descending permutation |
| `TopK.TruncateIsTop` | lantern_extras/src/bm25_agg.rs:366-367 | truncating a descending list gives a top part of it |
| `TopK.BestOfBest` | lantern_extras/src/bm25_agg.rs:328-366 | a best part of a larger best part is a best part of the whole |
| `TopK.Finalize` | lantern_extras/src/bm25_agg.rs:311-367 | output is sorted and within the limit; it is the exact top without filters, and with them up to ten times the limit; it panics exactly on a limit of 0 with documents |
| `TopK.FinalizeUnlimited` | lantern_extras/src/bm25_agg.rs:368-387 | without a limit all documents come sorted by partial score, which is the adjusted ranking if and only if no filter adds to any of them |
| `TopK.SmallIsExact` | lantern_extras/src/bm25_agg.rs:207-367 | after any sequence of terms the output is the exact top if there are at most ten times the limit, or at most 100, documents |
| `TopK.ExactUpToTenfold` | lantern_extras/src/bm25_agg.rs:311-367 | n documents are ranked exactly, for all sequences of terms that leave n of them and all tie choices, if and only if n is at most ten times the limit or at most 100 |
| `TopK.MissesBest` | lantern_extras/src/bm25_agg.rs:207-367 | for every larger n, a run of two terms, the second recorded as a filter, whose best adjusted document is missing from the output |
| `CopyText.FourPassesAreOne` | lantern_cli/src/embeddings/mod.rs:52-57 | the four replacements, each over the output of the one before, equal one pass over the value |
| `CopyText.EscapedHasNoSpecial` | lantern_cli/src/embeddings/mod.rs:52-57 | the escaped value has no raw tab, carriage return or newline |
| `CopyText.UnescapeEscaped` | lantern_cli/src/embeddings/mod.rs:52-57 | reading an escaped value gives the value back |
| `CopyText.MarkMeets` | lantern_cli/src/embeddings/mod.rs:462-464 | an escaped value is the NULL mark only if the value is that text, and is never the default mark |
| `CopyText.ReadOneRow` | lantern_cli/src/embeddings/mod.rs:48-64 | a framed row followed by anything is read as its two fields, and what follows is left |
| `CopyText.ReadAllRows` | lantern_cli/src/embeddings/mod.rs:477-483 | the reader recovers every row written, in order |
| `CopyText.AppendRows` | lantern_cli/src/embeddings/mod.rs:478-483 | the framing loop appends exactly the frames of its rows |
| `CopyText.Export` | lantern_cli/src/embeddings/mod.rs:476-555 | every row goes to exactly one committed COPY, in order, grouped as the row counts and flush timers say; only streaming makes more than one, each but the last with at least 50 rows; none is made without rows |
| `CopyText.FlushedIsCut` | lantern_cli/src/embeddings/mod.rs:508-532 | a COPY is closed after the first batch with which the rows since the last one reach 1000, or reach 50 with the timer run out |
| `CopyText.SegmentIsRightExactly` | lantern_cli/src/embeddings/mod.rs:460-532 | a row of a COPY is read as intended if and only if its value is not the one that COPY misreads |
| `CopyText.ExportIsRightExactly` | lantern_cli/src/embeddings/mod.rs:476-555 | a whole run is read as intended if and only if no first-COPY value is the text NULL and no later value is empty |
| `CopyText.LateEmptyValueBecomesText` | lantern_cli/src/embeddings/mod.rs:527-531 | every streamed run of 1000 rows and then a row with an empty value flushes in between, and the empty value reaches the table as the text NULL |

## Left out

- The usearch library: graph search, graph insertion, distance kernels. Its source is not part of this model; node sizes and list places follow lantern_hnsw/src/hnsw/usearch_storage.cpp.
- PostgreSQL's buffer, page and WAL internals beyond pin, lock, register, add item; crash recovery. Pages are values in a field of the relation object, so aliasing of page memory is not modelled.
- Header page contents other than the counters, the last data block and the entry slot; the init message and codebook messages of the protocol; sizes and element counts sent back to the client.
- Socket set-up, timeouts, TLS, router redirection, and the text of relayed error messages.
- k-means on metrics other than squared L2; the random choice of initial centres, which is a parameter; the loop over parts around k-means.
- KMeans.Run: stated for initial costs, or distances between points, below FLT_MAX; beyond both only what `KMeans.NearestCluster` says holds, that a point out of reach of every centre joins the cluster of the point before it.
- Quantize.QuantizeVector: stated for at most 256 centroids and distances below f32::MAX; `Quantize.ByteIsEnoughExactly` shows the first bound is needed.
- Build.StoreExternalIndex: stated for at least one vector, the only way lantern_hnsw/src/hnsw/build.c:616-625 calls it, and for relations within PostgreSQL's 2^32 blocks.
- InsertSession.AmInsert: stated for inserts that hold fewer than 100 blocks, which is what the asserts of lantern_hnsw/src/hnsw/extra_dirtied.c:32 demand; buffers are named by their blocks.
- Scan: scans without an order-by key raise an error, and those with a null key emit nothing, before any label is read; a search answers with finitely many non-empty batches.
- The daemon's initial full-table jobs, cancellation of running jobs, failure to send on the job queue, and the stored failure table.
- The BM25 formula itself (its logarithm); a document's score per term is a value. Filters are sets of reported ids, and the heap is a list whose top is searched for.
- The tokenizer, HTTP retries and reply parsing; `chunk_inputs` for custom deployments, which sends one request.
- CopyText: vector records, octal and hexadecimal escapes and the end-of-data mark of COPY, which escaped values never contain; sizes are counted in characters.
- The SQL client API, command line, autotuning, cost estimation, index validation, caches that hold nothing, per-connection row ranges of the quantization jobs.
