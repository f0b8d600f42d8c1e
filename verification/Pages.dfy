/**
 PostgreSQL pages as the index uses them: a 24-byte header, 4-byte line pointers
 growing up from `lower`, items growing down from `upper` padded to 8 bytes, and a
 special block at the end of the page.
 */
module Pages {
  import opened Bytes

  const BLCKSZ: nat := 8192
  const PAGE_HEADER: nat := 24
  const LINE_POINTER: nat := 4
  const SPECIAL_BYTES: nat := 12     // sizeof(HnswIndexPageSpecialBlock)
  const TUPLE_HEADER: nat := 8       // sizeof(HnswIndexTuple)
  const INVALID_OFFSET: nat := 0
  const EMPTY_UPPER: nat := 8176     // BLCKSZ minus the padded special block
  const MAX_NODE_BYTES: nat := 8136  // largest node an empty page takes

  datatype BlockRef = NoBlock | Block(no: nat)
  datatype Special = Special(firstId: int, lastId: int, next: BlockRef)
  datatype Tuple = Tuple(seqid: nat, size: nat, node: seq<byte>)
  datatype Page = Page(lower: nat, upper: nat, items: seq<Tuple>, special: Special)
  datatype ItemPointer = ItemPointer(block: nat, pos: nat)

  function MaxAlign(n: nat): (r: nat)
    ensures r % 8 == 0 && n <= r < n + 8
  {
    (n + 7) / 8 * 8
  }

  /** PageInit zeroes the page, so a fresh special block points at block 0. */
  function PageInit(specialBytes: nat): Page
    requires specialBytes <= 1000
  {
    Page(PAGE_HEADER, BLCKSZ - MaxAlign(specialBytes), [], Special(0, 0, Block(0)))
  }

  function ItemBytes(t: Tuple): nat {
    MaxAlign(TUPLE_HEADER + |t.node|)
  }

  function FreeSpace(p: Page): nat {
    if p.upper < p.lower + LINE_POINTER then 0 else p.upper - p.lower - LINE_POINTER
  }

  /** The test PageAddItem makes: room for one more line pointer and the padded item. */
  predicate HasRoom(p: Page, nodeBytes: nat) {
    p.lower + LINE_POINTER + MaxAlign(TUPLE_HEADER + nodeBytes) <= p.upper
  }

  /** PageAddItem without an offset: appends, or answers InvalidOffsetNumber. */
  function AddItem(p: Page, t: Tuple): (r: (Page, nat)) {
    if HasRoom(p, |t.node|) then
      (p.(lower := p.lower + LINE_POINTER, upper := p.upper - ItemBytes(t), items := p.items + [t]),
       |p.items| + 1)
    else
      (p, INVALID_OFFSET)
  }

  function UsedBytes(items: seq<Tuple>): nat {
    if items == [] then 0 else UsedBytes(items[..|items| - 1]) + ItemBytes(items[|items| - 1])
  }

  /** The bounds of a data page are what its items make them. */
  ghost predicate Geometry(p: Page) {
    && p.lower == PAGE_HEADER + LINE_POINTER * |p.items|
    && p.upper + UsedBytes(p.items) == EMPTY_UPPER
    && p.lower <= p.upper
    && forall i :: 0 <= i < |p.items| ==> p.items[i].size == |p.items[i].node|
  }

  lemma {:induction false} GeometryAdd(p: Page, t: Tuple)
    requires Geometry(p) && HasRoom(p, |t.node|) && t.size == |t.node|
    ensures Geometry(AddItem(p, t).0)
  {
    assert (p.items + [t])[..|p.items|] == p.items;
  }

  lemma {:induction false} UsedBytesAligned(items: seq<Tuple>)
    ensures UsedBytes(items) % 8 == 0
    ensures UsedBytes(items) >= 8 * |items|
  {
    if items != [] {
      UsedBytesAligned(items[..|items| - 1]);
    }
  }

  /** `lower` is always 4-byte and `upper` always 8-byte aligned, and a page holds
      far fewer items than a 16-bit offset can count. */
  lemma {:induction false} PageAlignment(p: Page)
    requires Geometry(p)
    ensures p.lower % 4 == 0 && p.upper % 8 == 0
    ensures |p.items| <= 1000
  {
    UsedBytesAligned(p.items);
  }

  /** The insert path's free-space guard is enough for the padded item: the page
      bounds are aligned, so the unpadded slack the guard leaves covers the padding. */
  lemma {:induction false} InsertGuardSuffices(p: Page, nodeBytes: nat)
    requires Geometry(p)
    requires FreeSpace(p) > LINE_POINTER + TUPLE_HEADER + nodeBytes
    ensures HasRoom(p, nodeBytes)
  {
    hide Geometry, MaxAlign;
    PageAlignment(p);
    FourApart(p.lower, p.upper, MaxAlign(TUPLE_HEADER + nodeBytes));
  }

  /** Between aligned bounds a gap that is not large enough for a padded item is at least 4 short of it. */
  lemma {:induction false} FourApart(lower: nat, upper: nat, padded: nat)
    requires lower % 4 == 0 && upper % 8 == 0 && padded % 8 == 0
    ensures upper < lower + LINE_POINTER + padded ==> upper + 4 <= lower + LINE_POINTER + padded
  {
    var l, u, p := lower / 4, upper / 8, padded / 8;
    assert lower == 4 * l && upper == 8 * u && padded == 8 * p;
  }

  /** The bulk path's guard only rules out pages PageAddItem would refuse anyway. */
  lemma {:induction false} BulkGuardIsNecessary(p: Page, nodeBytes: nat)
    requires HasRoom(p, nodeBytes)
    ensures FreeSpace(p) >= TUPLE_HEADER + nodeBytes
  {
  }

  /** Exactly the nodes of at most MAX_NODE_BYTES fit an empty data page. */
  lemma {:induction false} FitsEmptyPage(nodeBytes: nat)
    ensures HasRoom(PageInit(SPECIAL_BYTES), nodeBytes) <==> nodeBytes <= MAX_NODE_BYTES
  {
    var a := MaxAlign(TUPLE_HEADER + nodeBytes);
    assert a % 8 == 0;
  }

  // ----- growing the data pages by one tuple

  /** The tuple goes onto page `b`, whose special block then ends with its id. */
  function AppendTuple(pages: seq<Page>, b: nat, t: Tuple): seq<Page>
    requires b < |pages|
  {
    var p := AddItem(pages[b], t).0;
    pages[b := p.(special := p.special.(lastId := t.seqid))]
  }

  function Linked(pages: seq<Page>, last: BlockRef, next: nat, lastId: int): seq<Page>
    requires last.Block? ==> last.no < |pages|
  {
    if last.Block? then
      pages[last.no := pages[last.no].(special := pages[last.no].special.(next := Block(next), lastId := lastId))]
    else
      pages
  }

  /** The tuple goes onto a new page, linked behind the last one. */
  function ExtendWith(pages: seq<Page>, last: BlockRef, t: Tuple): seq<Page>
    requires last.Block? ==> last.no < |pages|
  {
    var p := PageInit(SPECIAL_BYTES).(special := Special(t.seqid, t.seqid, NoBlock));
    Linked(pages, last, |pages|, t.seqid - 1) + [AddItem(p, t).0]
  }
}
