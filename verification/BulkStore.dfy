/**
 The bulk store: packing the nodes of a finished graph into data pages, either from
 one buffer or through a rotating buffer fed by a socket.
 */
module BulkStore {
  import opened Bytes
  import opened Pages
  import opened NodeLayout
  import opened Sockets

  const HEADER_BYTES: nat := 136            // USEARCH_HEADER_SIZE
  const BUFFER_BYTES: nat := 10485760       // EXTERNAL_INDEX_FILE_BUFFER_SIZE

  /** What the store has produced so far: pages, last data block, one pointer per node. */
  datatype Store = Store(pages: seq<Page>, last: BlockRef, pointers: seq<ItemPointer>)

  ghost predicate Ready(s: Store) {
    s.last.Block? ==>
      && s.last.no < |s.pages|
      && s.pages[s.last.no].special.lastId == |s.pointers| - 1
  }

  /** Reference store of one node: onto the last page when PageAddItem takes it there,
      onto a fresh page otherwise. */
  ghost function StoreNode(s: Store, node: seq<byte>): (r: Store)
    requires Ready(s)
    ensures Ready(r) && r.last.Block? && |r.pointers| == |s.pointers| + 1
  {
    var id := |s.pointers|;
    var t := Tuple(id, |node|, node);
    if s.last.Block? && HasRoom(s.pages[s.last.no], |node|) then
      Store(AppendTuple(s.pages, s.last.no, t), s.last,
            s.pointers + [ItemPointer(s.last.no, |s.pages[s.last.no].items| + 1)])
    else
      Store(ExtendWith(s.pages, s.last, t), Block(|s.pages|), s.pointers + [ItemPointer(|s.pages|, 1)])
  }

  ghost function StoreAll(s: Store, nodes: seq<seq<byte>>): (r: Store)
    requires Ready(s)
    ensures Ready(r) && |r.pointers| == |s.pointers| + |nodes|
    ensures nodes != [] ==> r.last.Block?
  {
    if nodes == [] then s
    else StoreNode(StoreAll(s, nodes[..|nodes| - 1]), nodes[|nodes| - 1])
  }

  lemma {:induction false} StoreAllSnoc(s: Store, nodes: seq<seq<byte>>, k: nat)
    requires Ready(s) && k < |nodes|
    ensures StoreAll(s, nodes[..k + 1]) == StoreNode(StoreAll(s, nodes[..k]), nodes[k])
  {
    assert nodes[..k + 1][..k] == nodes[..k];
  }

  /** Storing in two calls is storing in one. */
  lemma {:induction false} StoreAllConcat(s: Store, a: seq<seq<byte>>, b: seq<seq<byte>>)
    requires Ready(s)
    ensures StoreAll(s, a + b) == StoreAll(StoreAll(s, a), b)
    decreases |b|
  {
    if b == [] {
      assert a + b == a;
    } else {
      var m := |b| - 1;
      assert (a + b)[..|a + b| - 1] == a + b[..m];
      StoreAllConcat(s, a, b[..m]);
    }
  }

  // ----- one pass of the loop in StoreExternalIndexNodes

  /** The loop's own state: pages, the page being filled, and force_create_page. */
  datatype Cursor = Cursor(pages: seq<Page>, cur: BlockRef, force: bool)

  ghost predicate Placed(c: Cursor) {
    if c.cur.Block? then c.cur.no < |c.pages| else c.force
  }

  ghost function OpenPage(c: Cursor, id: nat): (r: Cursor)
    requires Placed(c)
    ensures Placed(r)
  {
    var b := |c.pages|;
    var empty := PageInit(SPECIAL_BYTES).(special := Special(id, 0, NoBlock));
    Cursor(Linked(c.pages, c.cur, b, id - 1) + [empty], Block(b), false)
  }

  /** One pass: open a page if forced to or if the guard says so, then try PageAddItem;
      on failure the same node is tried again with `force` set. */
  ghost function TryOnce(c: Cursor, id: nat, node: seq<byte>): (r: (Cursor, nat))
    requires Placed(c)
    ensures Placed(r.0)
  {
    var c1 := if c.force || FreeSpace(c.pages[c.cur.no]) < TUPLE_HEADER + |node| then OpenPage(c, id) else c;
    var (p, off) := AddItem(c1.pages[c1.cur.no], Tuple(id, |node|, node));
    if off == INVALID_OFFSET then (c1.(force := true), INVALID_OFFSET)
    else (c1.(pages := c1.pages[c1.cur.no := p]), off)
  }

  function Closed(pages: seq<Page>, b: nat, lastId: int): seq<Page>
    requires b < |pages|
  {
    pages[b := pages[b].(special := pages[b].special.(lastId := lastId))]
  }

  /** The loop state shows the store `s` while it works on `node`: equal pages up to the
      open page's lastId, and a forced page only after a refused add. */
  ghost predicate Shows(c: Cursor, s: Store, node: seq<byte>) {
    && Ready(s) && Placed(c) && c.cur == s.last
    && (c.cur.Block? ==> s.pages == Closed(c.pages, c.cur.no, |s.pointers| - 1))
    && (c.cur.NoBlock? ==> c.pages == s.pages)
    && (c.force && c.cur.Block? ==> !HasRoom(c.pages[c.cur.no], |node|))
  }

  /** A pass either stores the node exactly as the reference does, or changes nothing but
      `force`, and the pass after that one stores it. */
  lemma {:induction false} TryOnceRefines(c: Cursor, s: Store, node: seq<byte>, next: seq<byte>)
    requires Shows(c, s, node) && |node| <= MAX_NODE_BYTES
    ensures var (c1, off) := TryOnce(c, |s.pointers|, node);
      if off == INVALID_OFFSET then
        !c.force && c1.force && Shows(c1, s, node)
      else
        && !c1.force && Shows(c1, StoreNode(s, node), next)
        && StoreNode(s, node).pointers == s.pointers + [ItemPointer(c1.cur.no, off)]
  {
    FitsEmptyPage(|node|);
    var id := |s.pointers|;
    if c.force || FreeSpace(c.pages[c.cur.no]) < TUPLE_HEADER + |node| {
      var c1 := OpenPage(c, id);
      assert c.cur.Block? ==> !HasRoom(c.pages[c.cur.no], |node|);
      assert HasRoom(c1.pages[c1.cur.no], |node|);
      assert Linked(c.pages, c.cur, c1.cur.no, id - 1) == Linked(s.pages, s.last, c1.cur.no, id - 1);
    }
  }

  ghost function Retry(c: Cursor, id: nat, node: seq<byte>, passes: nat): (r: (Cursor, nat))
    requires Placed(c)
    ensures Placed(r.0)
    decreases passes
  {
    if passes == 0 then (c, INVALID_OFFSET)
    else
      var (c1, off) := TryOnce(c, id, node);
      if off == INVALID_OFFSET then Retry(c1, id, node, passes - 1) else (c1, off)
  }

  /** The loop leaves a node behind if and only if the node fits an empty page; a larger one
      is retried for ever, taking a new page on every pass but perhaps the first. */
  lemma {:induction false} LoopProgress(c: Cursor, id: nat, node: seq<byte>)
    requires Placed(c) && (c.cur.Block? ==> Geometry(c.pages[c.cur.no]))
    ensures |node| <= MAX_NODE_BYTES <==> exists n: nat :: Retry(c, id, node, n).1 != INVALID_OFFSET
    ensures |node| <= MAX_NODE_BYTES ==> Retry(c, id, node, 2).1 != INVALID_OFFSET
    ensures |node| > MAX_NODE_BYTES ==> forall n: nat :: |Retry(c, id, node, n).0.pages| + 1 >= |c.pages| + n
  {
    if |node| <= MAX_NODE_BYTES {
      StoredWithinTwo(c, id, node);
      var two: nat := 2;
      assert Retry(c, id, node, two).1 != INVALID_OFFSET;
    } else {
      forall n: nat
        ensures Retry(c, id, node, n).1 == INVALID_OFFSET
        ensures |Retry(c, id, node, n).0.pages| + 1 >= |c.pages| + n
      {
        OversizedNeverStored(c, id, node, n);
      }
    }
  }

  lemma {:induction false} ForcedPassStores(c: Cursor, id: nat, node: seq<byte>)
    requires Placed(c) && c.force && |node| <= MAX_NODE_BYTES
    ensures TryOnce(c, id, node).1 != INVALID_OFFSET
  {
    FitsEmptyPage(|node|);
  }

  lemma {:induction false} StoredWithinTwo(c: Cursor, id: nat, node: seq<byte>)
    requires Placed(c) && |node| <= MAX_NODE_BYTES
    ensures Retry(c, id, node, 2).1 != INVALID_OFFSET
  {
    var (c1, off1) := TryOnce(c, id, node);
    if off1 == INVALID_OFFSET {
      ForcedPassStores(c1, id, node);
      assert Retry(c, id, node, 2) == Retry(c1, id, node, 1);
    }
  }

  lemma {:induction false} OversizedNeverStored(c: Cursor, id: nat, node: seq<byte>, n: nat)
    requires Placed(c) && |node| > MAX_NODE_BYTES
    requires c.cur.Block? ==> Geometry(c.pages[c.cur.no])
    ensures Retry(c, id, node, n).1 == INVALID_OFFSET
    ensures |Retry(c, id, node, n).0.pages| + (if c.force then 0 else 1) >= |c.pages| + n
    decreases n
  {
    if n > 0 {
      FitsEmptyPage(|node|);
      if c.cur.Block? {
        OversizedRefused(c, node);
      }
      var (c1, off) := TryOnce(c, id, node);
      assert off == INVALID_OFFSET && c1.force;
      OversizedNeverStored(c1, id, node, n - 1);
    }
  }

  lemma {:induction false} OversizedRefused(c: Cursor, node: seq<byte>)
    requires Placed(c) && |node| > MAX_NODE_BYTES
    requires c.cur.Block? && Geometry(c.pages[c.cur.no])
    ensures !HasRoom(c.pages[c.cur.no], |node|)
  {
  }

  // ----- where nodes sit in a buffer

  ghost predicate Storable(meta: Meta, nodes: seq<seq<byte>>) {
    forall i :: 0 <= i < |nodes| ==> Sized(meta, nodes[i]) && |nodes[i]| <= MAX_NODE_BYTES
  }

  lemma {:induction false} FlattenPrefixMonotone(nodes: seq<seq<byte>>, i: nat, j: nat)
    requires i <= j <= |nodes|
    ensures |Flatten(nodes[..i])| <= |Flatten(nodes[..j])|
    decreases j
  {
    if i < j {
      FlattenSplit(nodes, j - 1);
      FlattenPrefixMonotone(nodes, i, j - 1);
    }
  }

  lemma {:induction false} NodeInFlat(nodes: seq<seq<byte>>, k: nat)
    requires k < |nodes|
    ensures var at := |Flatten(nodes[..k])|;
      at + |nodes[k]| <= |Flatten(nodes)| && Flatten(nodes)[at..at + |nodes[k]|] == nodes[k]
  {
    FlattenSplit(nodes, k);
  }

  /** The first node boundary at or behind `limit`. */
  ghost function Boundary(nodes: seq<seq<byte>>, limit: nat): (k: nat)
    requires 0 < limit <= |Flatten(nodes)|
    ensures 0 < k <= |nodes| && |Flatten(nodes[..k - 1])| < limit <= |Flatten(nodes[..k])|
  {
    var n := |nodes| - 1;
    assert nodes[..n + 1] == nodes;
    if |Flatten(nodes[..n])| < limit then n + 1
    else
      var k := Boundary(nodes[..n], limit);
      assert nodes[..n][..k] == nodes[..k] && nodes[..n][..k - 1] == nodes[..k - 1];
      k
  }

  /** A storable node is never empty, so the last one starts before the end of the body. */
  lemma {:induction false} LastNode(meta: Meta, nodes: seq<seq<byte>>)
    requires nodes != [] && Storable(meta, nodes)
    ensures |Flatten(nodes[..|nodes| - 1])| < |Flatten(nodes)|
  {
    NodeInFlat(nodes, |nodes| - 1);
  }

  lemma {:induction false} StorableRest(meta: Meta, nodes: seq<seq<byte>>, k: nat)
    requires k < |nodes| && Storable(meta, nodes)
    ensures Storable(meta, nodes[k..]) && nodes[k..] != []
  {
  }

  /** How many nodes one pass over the rotating buffer stores. `filled` bytes of the remaining body
      are in the buffer: all of it, or a full buffer, of which the last page's worth is left alone. */
  lemma {:induction false} ChunkEnd(meta: Meta, rest: seq<seq<byte>>, dataSize: nat, filled: nat) returns (k: nat)
    requires rest != [] && Storable(meta, rest)
    requires filled <= |Flatten(rest)|
    requires if filled == |Flatten(rest)| then dataSize == filled else dataSize + BLCKSZ == filled && dataSize > 0
    ensures 0 < k <= |rest| && Storable(meta, rest[..k])
    ensures rest[..k] != [] && |Flatten(rest[..k][..|rest[..k]| - 1])| < dataSize <= |Flatten(rest[..k])| <= filled
    ensures Flatten(rest)[..|Flatten(rest[..k])|] == Flatten(rest[..k])
    ensures Flatten(rest)[|Flatten(rest[..k])|..] == Flatten(rest[k..])
    ensures k == if filled == |Flatten(rest)| then |rest| else Boundary(rest, dataSize)
  {
    hide Flatten, Sized;
    LastNode(meta, rest);
    assert rest[..|rest|] == rest;
    if filled == |Flatten(rest)| {
      k := |rest|;
    } else {
      k := Boundary(rest, dataSize);
      FlattenSplit(rest, k - 1);
    }
    assert rest[..k][..k - 1] == rest[..k - 1];
    FlattenConcat(rest[..k], rest[k..]);
    assert rest == rest[..k] + rest[k..];
  }

  /** Some refill of the rotating buffer is taken for an error message: this one, which reads what follows the
      `position` bytes carried over, or a later one. */
  ghost predicate RefillFails(offer: nat -> nat, call: nat, rest: seq<seq<byte>>, position: nat)
    requires position <= |Flatten(rest)| && position <= BUFFER_BYTES
    decreases |rest|
  {
    var stream, room := Flatten(rest)[position..], BUFFER_BYTES - position;
    || ReadsError(offer, call, room, stream)
    || (|stream| > room && NextRefillFails(offer, CallAfter(offer, call, room, |stream|), rest))
  }

  ghost predicate NextRefillFails(offer: nat -> nat, call: nat, rest: seq<seq<byte>>)
    requires |Flatten(rest)| > BUFFER_BYTES
    decreases |rest|, 0
  {
    var k := Boundary(rest, BUFFER_BYTES - BLCKSZ);
    var stored := |Flatten(rest[..k])|;
    RestFlat(rest, k);
    stored <= BUFFER_BYTES && RefillFails(offer, call, rest[k..], BUFFER_BYTES - stored)
  }

  lemma {:induction false} RestFlat(rest: seq<seq<byte>>, k: nat)
    requires k <= |rest|
    ensures |Flatten(rest[..k])| + |Flatten(rest[k..])| == |Flatten(rest)|
  {
    FlattenConcat(rest[..k], rest[k..]);
    assert rest == rest[..k] + rest[k..];
  }

  lemma {:induction false} RefillStep(offer: nat -> nat, call: nat, rest: seq<seq<byte>>, position: nat, stream: seq<byte>)
    requires position <= BUFFER_BYTES && position + |stream| == |Flatten(rest)| && stream == Flatten(rest)[position..]
    ensures var room := BUFFER_BYTES - position;
      && (ReadsError(offer, call, room, stream) ==> RefillFails(offer, call, rest, position))
      && (|stream| <= room && !ReadsError(offer, call, room, stream) ==> !RefillFails(offer, call, rest, position))
      && (|stream| > room && !ReadsError(offer, call, room, stream) ==>
            (RefillFails(offer, call, rest, position)
             <==> NextRefillFails(offer, CallAfter(offer, call, room, |stream|), rest)))
  {
    hide NextRefillFails, ReadsError, CallAfter, Flatten;
  }

  lemma {:induction false} ReadStep(buf: seq<byte>, position: nat, stream: seq<byte>, n: nat, flat: seq<byte>)
    requires position + n <= |buf| && n <= |stream| && buf[..position] + stream == flat
    ensures Overwrite(buf, position, stream[..n])[..position + n] == flat[..position + n]
    ensures stream[n..] == flat[position + n..]
    ensures |flat| == position + |stream|
  {
  }

  lemma {:induction false} ChunkInBuffer(buf: seq<byte>, flat: seq<byte>, filled: nat, chunk: seq<byte>)
    requires filled <= |buf| && filled <= |flat| && buf[..filled] == flat[..filled]
    requires |chunk| <= filled && flat[..|chunk|] == chunk
    ensures buf[..|chunk|] == chunk
  {
    assert buf[..filled][..|chunk|] == buf[..|chunk|];
    assert flat[..filled][..|chunk|] == flat[..|chunk|];
  }

  lemma {:induction false} TailStep(buf: seq<byte>, flat: seq<byte>, progress: nat, incoming: seq<byte>)
    requires progress <= |buf| <= |flat| && buf[..|buf|] == flat[..|buf|] && incoming == flat[|buf|..]
    ensures buf[progress..] + incoming == flat[progress..]
  {
    assert buf == flat[..|buf|];
  }

  lemma {:induction false} EmptyTail(buf: seq<byte>, nodes: seq<seq<byte>>, done: nat)
    requires buf == [] && done == |nodes|
    ensures buf + [] == Flatten(nodes[done..])
  {
    assert nodes[done..] == [];
  }

  lemma {:induction false} StreamStart(s0: Store, nodes: seq<seq<byte>>)
    requires Ready(s0)
    ensures StoreAll(s0, nodes[..0]) == s0 && nodes[0..] == nodes
  {
  }

  lemma {:induction false} StoreChunk(s0: Store, nodes: seq<seq<byte>>, done: nat, k: nat)
    requires Ready(s0) && done + k <= |nodes|
    ensures StoreAll(StoreAll(s0, nodes[..done]), nodes[done..][..k]) == StoreAll(s0, nodes[..done + k])
  {
    hide StoreAll;
    StoreAllConcat(s0, nodes[..done], nodes[done..][..k]);
    assert nodes[..done + k] == nodes[..done] + nodes[done..][..k];
  }

  lemma {:induction false} Subslice(s: seq<byte>, base: nat, len: nat, at: nat, n: nat)
    requires base + len <= |s| && at + n <= len
    ensures s[base..base + len][at..at + n] == s[base + at..base + at + n]
  {
    var a, b := s[base..base + len][at..at + n], s[base + at..base + at + n];
    assert |a| == |b| && forall i :: 0 <= i < n ==> a[i] == b[i];
  }

  /** Loop invariant of the store: `k` nodes and `written` bytes done. */
  ghost predicate Filling(s0: Store, nodes: seq<seq<byte>>, k: nat, written: nat,
                          pointers: seq<ItemPointer>, c: Cursor)
  {
    && Ready(s0) && k <= |nodes|
    && written == |Flatten(nodes[..k])|
    && pointers == StoreAll(s0, nodes[..k]).pointers
    && Shows(c, StoreAll(s0, nodes[..k]), if k < |nodes| then nodes[k] else [])
    && (c.force && c.cur.Block? ==> k < |nodes|)
  }

  lemma {:induction false} FillingStart(s0: Store, nodes: seq<seq<byte>>, c: Cursor)
    requires Ready(s0) && c == Cursor(s0.pages, s0.last, s0.last.NoBlock?)
    ensures Filling(s0, nodes, 0, 0, s0.pointers, c)
  {
    assert nodes[..0] == [];
  }

  lemma {:induction false} FillingNext(s0: Store, nodes: seq<seq<byte>>, k: nat, written: nat,
                                       pointers: seq<ItemPointer>, c: Cursor, limit: nat, meta: Meta)
    requires Filling(s0, nodes, k, written, pointers, c) && Storable(meta, nodes)
    requires written < limit <= |Flatten(nodes)|
    ensures k < |nodes| && Placed(c) && Sized(meta, nodes[k]) && |nodes[k]| <= MAX_NODE_BYTES
    ensures written + |nodes[k]| <= |Flatten(nodes)|
    ensures Flatten(nodes)[written..written + |nodes[k]|] == nodes[k]
  {
    assert nodes[..|nodes|] == nodes;
    NodeInFlat(nodes, k);
  }

  lemma {:induction false} FillingStep(s0: Store, nodes: seq<seq<byte>>, k: nat, written: nat,
                                       pointers: seq<ItemPointer>, c: Cursor)
    requires k < |nodes| && Filling(s0, nodes, k, written, pointers, c)
    requires |nodes[k]| <= MAX_NODE_BYTES
    ensures var (c1, off) := TryOnce(c, |pointers|, nodes[k]);
      if off == INVALID_OFFSET then
        !c.force && c1.force && c1.cur.Block? && Filling(s0, nodes, k, written, pointers, c1)
      else
        && !c1.force && c1.cur.Block?
        && Filling(s0, nodes, k + 1, written + |nodes[k]|, pointers + [ItemPointer(c1.cur.no, off)], c1)
  {
    StoreAllSnoc(s0, nodes, k);
    FlattenSplit(nodes, k);
    TryOnceRefines(c, StoreAll(s0, nodes[..k]), nodes[k], if k + 1 < |nodes| then nodes[k + 1] else []);
  }

  lemma {:induction false} FillingDone(s0: Store, nodes: seq<seq<byte>>, k: nat, written: nat,
                                       pointers: seq<ItemPointer>, c: Cursor, limit: nat)
    requires Filling(s0, nodes, k, written, pointers, c)
    requires nodes != [] && |Flatten(nodes[..|nodes| - 1])| < limit <= written
    ensures k == |nodes| && written == |Flatten(nodes)| && c.cur.Block? && c.cur.no < |c.pages| && !c.force
    ensures StoreAll(s0, nodes) == Store(Closed(c.pages, c.cur.no, |pointers| - 1), c.cur, pointers)
  {
    if k < |nodes| {
      FlattenPrefixMonotone(nodes, k, |nodes| - 1);
    }
    assert nodes[..|nodes|] == nodes;
  }

  /** The node at `at`: its level is read first, and its size follows from the level. */
  method ReadNode(meta: Meta, data: array<byte>, at: nat, ghost expected: seq<byte>) returns (node: seq<byte>)
    requires Sized(meta, expected)
    requires at + |expected| <= data.Length && data[at..at + |expected|] == expected
    ensures node == expected
  {
    var head := data[at..at + NODE_HEAD];
    assert head == expected[..NODE_HEAD];
    var size := NodeBytes(meta, LevelOf(head));
    node := data[at..at + size];
  }

  /** Moves the tail of the buffer from `from` on to its front. */
  method Rotate(buffer: array<byte>, from: nat)
    requires from <= buffer.Length && buffer.Length - from <= from
    modifies buffer
    ensures buffer[..buffer.Length - from] == old(buffer[from..])
  {
    forall i | 0 <= i < buffer.Length - from {
      buffer[i] := buffer[from + i];
    }
  }

  // ----- the index relation

  /** One read into the rotating buffer behind the bytes carried over, and how much of it may be stored: the
      whole nodes that start more than a page before its end, or all of it at the end of the stream. */
  method Refill(meta: Meta, socket: Socket, buffer: array<byte>, position: nat, left: nat, ghost rest: seq<seq<byte>>)
    returns (ok: bool, bytesRead: nat, dataSize: nat, ghost k: nat)
    requires rest != [] && Storable(meta, rest) && buffer.Length == BUFFER_BYTES && position <= BLCKSZ
    requires left == |socket.incoming| && buffer[..position] + socket.incoming == Flatten(rest)
    modifies socket`incoming, socket`readCalls, buffer
    ensures ok ==> bytesRead + |socket.incoming| == left
    ensures ok ==> 0 < k <= |rest| && Storable(meta, rest[..k]) && rest[..k] != []
    ensures ok ==> |Flatten(rest[..k][..|rest[..k]| - 1])| < dataSize <= |Flatten(rest[..k])| <= BUFFER_BYTES
    ensures ok ==> buffer[0..0 + |Flatten(rest[..k])|] == Flatten(rest[..k])
    ensures ok && bytesRead == left ==> k == |rest|
    ensures ok && bytesRead != left ==>
      && BUFFER_BYTES - |Flatten(rest[..k])| <= BLCKSZ && k < |rest|
      && buffer[|Flatten(rest[..k])|..] + socket.incoming == Flatten(rest[k..])
    ensures position <= |Flatten(rest)|
    ensures RefillFails(socket.readOffer, old(socket.readCalls), rest, position) <==>
      !ok || (bytesRead != left
              && BUFFER_BYTES - |Flatten(rest[..k])| <= |Flatten(rest[k..])|
              && RefillFails(socket.readOffer, socket.readCalls, rest[k..], BUFFER_BYTES - |Flatten(rest[..k])|))
  {
    hide Flatten, Storable, Overwrite, RefillFails, NextRefillFails, ReadsError, CallAfter, Boundary;
    ghost var before, stream := buffer[..], socket.incoming;
    assert stream == Flatten(rest)[position..];
    RefillStep(socket.readOffer, socket.readCalls, rest, position, stream);
    ok, bytesRead := socket.ReadAll(buffer, position, BUFFER_BYTES - position);
    dataSize, k := 0, 0;
    if !ok {
      return;
    }
    ReadStep(before, position, stream, bytesRead, Flatten(rest));
    dataSize := if bytesRead == left then position + bytesRead else BUFFER_BYTES - BLCKSZ;
    k := ChunkEnd(meta, rest, dataSize, position + bytesRead);
    RestFlat(rest, k);
    ChunkInBuffer(buffer[..], Flatten(rest), position + bytesRead, Flatten(rest[..k]));
    assert buffer[0..0 + |Flatten(rest[..k])|] == buffer[..][..|Flatten(rest[..k])|];
    if bytesRead != left {
      TailStep(buffer[..], Flatten(rest), |Flatten(rest[..k])|, socket.incoming);
      NextRefill(socket.readOffer, socket.readCalls, rest, k);
    }
  }

  lemma {:induction false} NextRefill(offer: nat -> nat, call: nat, rest: seq<seq<byte>>, k: nat)
    requires |Flatten(rest)| > BUFFER_BYTES && k == Boundary(rest, BUFFER_BYTES - BLCKSZ)
    requires |Flatten(rest[..k])| <= BUFFER_BYTES
    ensures BUFFER_BYTES - |Flatten(rest[..k])| <= |Flatten(rest[k..])|
    ensures NextRefillFails(offer, call, rest)
            <==> RefillFails(offer, call, rest[k..], BUFFER_BYTES - |Flatten(rest[..k])|)
  {
    hide RefillFails, Flatten, Boundary;
    RestFlat(rest, k);
  }

  class IndexRelation {
    var pages: seq<Page>
    var lastDataBlock: BlockRef
    var numVectors: nat

    /** StoreExternalEmptyIndex: the header page and nothing else. */
    constructor ()
      ensures pages == [PageInit(0)] && lastDataBlock == NoBlock && numVectors == 0
    {
      pages, lastDataBlock, numVectors := [PageInit(0)], NoBlock, 0;
    }

    /** One pass of the store loop: open a page if needed, try to add the tuple there. */
    method TryAdd(cur: BlockRef, forceCreate: bool, nodeId: nat, node: seq<byte>)
      returns (cur': BlockRef, forceCreate': bool, offset: nat)
      requires Placed(Cursor(pages, cur, forceCreate))
      modifies this`pages
      ensures (Cursor(pages, cur', forceCreate'), offset) == TryOnce(old(Cursor(pages, cur, forceCreate)), nodeId, node)
    {
      cur', forceCreate' := cur, forceCreate;
      if forceCreate || FreeSpace(pages[cur.no]) < TUPLE_HEADER + |node| {
        var blockno := |pages|;
        pages := Linked(pages, cur, blockno, nodeId - 1)
                 + [PageInit(SPECIAL_BYTES).(special := Special(nodeId, 0, NoBlock))];
        cur', forceCreate' := Block(blockno), false;
      }
      var (page, at) := AddItem(pages[cur'.no], Tuple(nodeId, |node|, node));
      offset := at;
      if offset == INVALID_OFFSET {
        forceCreate' := true;
      } else {
        pages := pages[cur'.no := page];
      }
    }

    /** StoreExternalIndexNodes. `nodes` are the nodes that start before `bufferSize`; the last
        of them may end behind it, but not behind the end of the buffer. */
    method StoreNodes(meta: Meta, data: array<byte>, base: nat, bufferSize: nat, firstId: nat,
                      itemPointers: array<ItemPointer>, ghost nodes: seq<seq<byte>>)
      returns (written: nat, added: nat, ghost attempts: nat)
      requires nodes != [] && Storable(meta, nodes)
      requires |Flatten(nodes[..|nodes| - 1])| < bufferSize <= |Flatten(nodes)|
      requires base + |Flatten(nodes)| <= data.Length
      requires data[base..base + |Flatten(nodes)|] == Flatten(nodes)
      requires firstId + |nodes| <= itemPointers.Length
      requires Ready(Store(pages, lastDataBlock, itemPointers[..firstId]))
      modifies this`pages, this`lastDataBlock, itemPointers
      ensures written == |Flatten(nodes)| && added == |nodes|
      ensures Store(pages, lastDataBlock, itemPointers[..firstId + |nodes|]) == StoreAll(old(Store(pages, lastDataBlock, itemPointers[..firstId])), nodes)
      ensures attempts <= 2 * |nodes|
    {
      hide *;
      ghost var s0 := Store(pages, lastDataBlock, itemPointers[..firstId]);
      written, attempts := 0, 0;
      added := 0;
      var cur := lastDataBlock;
      var forceCreate := cur.NoBlock?;
      FillingStart(s0, nodes, Cursor(pages, cur, forceCreate));
      while written < bufferSize
        invariant added <= |nodes|
        invariant Filling(s0, nodes, added, written, itemPointers[..firstId + added], Cursor(pages, cur, forceCreate))
        invariant attempts <= 2 * added + if forceCreate && cur.Block? then 1 else 0
        decreases |nodes| - added, !forceCreate
      {
        FillingNext(s0, nodes, added, written, itemPointers[..firstId + added], Cursor(pages, cur, forceCreate), bufferSize, meta);
        var at := base + written;
        Subslice(data[..], base, |Flatten(nodes)|, written, |nodes[added]|);
        var node := ReadNode(meta, data, at, nodes[added]);
        var offset;
        FillingStep(s0, nodes, added, written, itemPointers[..firstId + added], Cursor(pages, cur, forceCreate));
        cur, forceCreate, offset := TryAdd(cur, forceCreate, firstId + added, node);
        attempts := attempts + 1;
        if offset == INVALID_OFFSET {
          continue;
        }
        itemPointers[firstId + added] := ItemPointer(cur.no, offset);
        assert itemPointers[..firstId + added + 1] == itemPointers[..firstId + added] + [ItemPointer(cur.no, offset)];
        written, added := written + |node|, added + 1;
      }
      FillingDone(s0, nodes, added, written, itemPointers[..firstId + added], Cursor(pages, cur, forceCreate), bufferSize);
      pages := Closed(pages, cur.no, firstId + added - 1);
      lastDataBlock := cur;
    }

    /** The mmapped path of StoreExternalIndex: one call over the whole body. */
    method StoreFromBuffer(meta: Meta, data: array<byte>, itemPointers: array<ItemPointer>,
                           ghost nodes: seq<seq<byte>>)
      requires nodes != [] && Storable(meta, nodes)
      requires data.Length == HEADER_BYTES + |Flatten(nodes)|
      requires data[HEADER_BYTES..] == Flatten(nodes)
      requires itemPointers.Length == |nodes|
      requires Ready(Store(pages, lastDataBlock, []))
      modifies this`pages, this`lastDataBlock, itemPointers
      ensures Store(pages, lastDataBlock, itemPointers[..]) == StoreAll(old(Store(pages, lastDataBlock, [])), nodes)
    {
      LastNode(meta, nodes);
      assert itemPointers[..0] == [];
      assert data[HEADER_BYTES..HEADER_BYTES + |Flatten(nodes)|] == data[HEADER_BYTES..];
      var written, added, _ :=
        StoreNodes(meta, data, HEADER_BYTES, data.Length - HEADER_BYTES, 0, itemPointers, nodes);
      assert itemPointers[..0 + |nodes|] == itemPointers[..];
    }

    /** The socket path: a 10 MB buffer is filled, the nodes that start more than a page before its
        end are stored, and the unread tail is moved to the front before the next read. A refill that
        starts like an error message raises an error. */
    method StoreFromSocket(meta: Meta, socket: Socket, indexFileSize: nat, itemPointers: array<ItemPointer>,
                           ghost nodes: seq<seq<byte>>) returns (ok: bool)
      requires nodes != [] && Storable(meta, nodes)
      requires socket.incoming == Flatten(nodes)
      requires indexFileSize == HEADER_BYTES + |Flatten(nodes)|
      requires itemPointers.Length == |nodes|
      requires Ready(Store(pages, lastDataBlock, []))
      modifies this`pages, this`lastDataBlock, itemPointers, socket
      ensures ok <==> !RefillFails(socket.readOffer, old(socket.readCalls), nodes, 0)
      ensures ok ==>
        Store(pages, lastDataBlock, itemPointers[..]) == StoreAll(old(Store(pages, lastDataBlock, [])), nodes)
      ensures ok ==> socket.incoming == []
    {
      hide StoreAll, Flatten, Storable, Ready, RefillFails, Boundary;
      ghost var s0 := Store(pages, lastDataBlock, []);
      var buffer := new byte[BUFFER_BYTES](i => 0);
      var totalRead: nat, position: nat, indexed: nat := HEADER_BYTES, 0, 0;
      StreamStart(s0, nodes);
      assert itemPointers[..0] == [] && buffer[..0] == [];
      while indexed < itemPointers.Length
        invariant fresh(buffer) && buffer.Length == BUFFER_BYTES && position <= BLCKSZ && indexed <= |nodes|
        invariant totalRead + |socket.incoming| == indexFileSize
        invariant Store(pages, lastDataBlock, itemPointers[..indexed]) == StoreAll(s0, nodes[..indexed])
        invariant buffer[..position] + socket.incoming == Flatten(nodes[indexed..])
        invariant RefillFails(socket.readOffer, old(socket.readCalls), nodes, 0) <==>
                    indexed < |nodes| && RefillFails(socket.readOffer, socket.readCalls, nodes[indexed..], position)
      {
        ghost var rest := nodes[indexed..];
        StorableRest(meta, nodes, indexed);
        var read, bytesRead, dataSize, k := Refill(meta, socket, buffer, position, indexFileSize - totalRead, rest);
        if !read {
          return false;
        }
        totalRead := totalRead + bytesRead;
        var progress, added, _ := StoreNodes(meta, buffer, 0, dataSize, indexed, itemPointers, rest[..k]);
        StoreChunk(s0, nodes, indexed, k);
        assert rest[k..] == nodes[indexed + k..];
        indexed := indexed + added;
        if totalRead != indexFileSize {
          position := BUFFER_BYTES - progress;
          Rotate(buffer, progress);
        } else {
          position := 0;   // the buffer is freed here; all nodes are stored
          EmptyTail(buffer[..position], nodes, indexed);
        }
      }
      assert nodes[..|nodes|] == nodes && itemPointers[..|nodes|] == itemPointers[..];
      ok := true;
    }
  }
}
