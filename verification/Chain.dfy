/**
 The chain of data pages: one singly linked list of blocks along which the sequence
 ids run 0, 1, 2, ... without a gap.
 */
module Chain {
  import opened Pages

  /** A data page on the chain: non-empty, its ids a contiguous run bounded by its special block. */
  ghost predicate PageOk(p: Page) {
    && Geometry(p)
    && p.items != []
    && p.special.lastId == p.special.firstId + |p.items| - 1
    && forall j :: 0 <= j < |p.items| ==> p.items[j].seqid == p.special.firstId + j
  }

  ghost predicate Ordered(chain: seq<nat>, size: nat) {
    && (forall i :: 0 <= i < |chain| ==> 1 <= chain[i] < size)
    && (forall i, j :: 0 <= i < j < |chain| ==> chain[i] < chain[j])
  }

  ghost predicate Links(pages: seq<Page>, chain: seq<nat>)
    requires Ordered(chain, |pages|)
  {
    forall i, j :: 0 <= i && j == i + 1 && j < |chain| ==>
      && pages[chain[i]].special.next == Block(chain[j])
      && pages[chain[j]].special.firstId == pages[chain[i]].special.lastId + 1
  }

  ghost predicate Ends(pages: seq<Page>, chain: seq<nat>, last: BlockRef, count: nat)
    requires Ordered(chain, |pages|)
  {
    if chain == [] then
      last == NoBlock && count == 0
    else
      && last == Block(chain[|chain| - 1])
      && pages[chain[0]].special.firstId == 0
      && pages[chain[|chain| - 1]].special.lastId == count - 1
      && pages[chain[|chain| - 1]].special.next == NoBlock
  }

  /** `chain` is the chain of an index of `count` vectors whose header names `last`. */
  ghost predicate IsChain(pages: seq<Page>, chain: seq<nat>, last: BlockRef, count: nat) {
    && Ordered(chain, |pages|)
    && (forall i :: 0 <= i < |chain| ==> PageOk(pages[chain[i]]))
    && Links(pages, chain)
    && Ends(pages, chain, last, count)
    && (forall b :: 0 <= b < |pages| && b !in chain ==> pages[b].items == [])
  }

  // ----- the two ways to grow the chain

  lemma {:induction false} PageOkAppend(p: Page, t: Tuple)
    requires PageOk(p) && HasRoom(p, |t.node|) && t.size == |t.node| && t.seqid == p.special.lastId + 1
    ensures var q := AddItem(p, t).0; PageOk(q.(special := q.special.(lastId := t.seqid)))
  {
    GeometryAdd(p, t);
    var q := AddItem(p, t).0;
    assert Geometry(q.(special := q.special.(lastId := t.seqid)));
  }

  lemma {:induction false} AppendKeepsChain(pages: seq<Page>, chain: seq<nat>, last: nat, count: nat, t: Tuple)
    requires IsChain(pages, chain, Block(last), count)
    requires HasRoom(pages[last], |t.node|) && t.size == |t.node| && t.seqid == count
    ensures IsChain(AppendTuple(pages, last, t), chain, Block(last), count + 1)
  {
    var n := |chain| - 1;
    assert last == chain[n];
    PageOkAppend(pages[last], t);
    var pages' := AppendTuple(pages, last, t);
    forall i | 0 <= i < n ensures pages'[chain[i]] == pages[chain[i]] {
      assert chain[i] < chain[n];
    }
  }

  lemma {:induction false} FreshPageOk(t: Tuple)
    requires |t.node| <= MAX_NODE_BYTES && t.size == |t.node|
    ensures PageOk(AddItem(PageInit(SPECIAL_BYTES).(special := Special(t.seqid, t.seqid, NoBlock)), t).0)
  {
    FitsEmptyPage(|t.node|);
    var p := PageInit(SPECIAL_BYTES).(special := Special(t.seqid, t.seqid, NoBlock));
    assert Geometry(p);
    GeometryAdd(p, t);
  }

  lemma {:induction false} PageOkLinked(p: Page, next: BlockRef)
    requires PageOk(p)
    ensures PageOk(p.(special := p.special.(next := next)))
  {
    assert Geometry(p.(special := p.special.(next := next)));
  }

  /** What linking a new page `p` behind the chain leaves as it was. */
  ghost predicate LinkFrame(pages: seq<Page>, chain: seq<nat>, count: nat, pages': seq<Page>, p: Page)
    requires Ordered(chain, |pages|)
  {
    && |pages'| == |pages| + 1 && pages'[|pages|] == p
    && (forall b :: 0 <= b < |pages| ==> pages'[b].items == pages[b].items)
    && (forall i :: 0 <= i < |chain| - 1 ==> pages'[chain[i]] == pages[chain[i]])
    && (chain != [] ==>
          var q := pages[chain[|chain| - 1]];
          pages'[chain[|chain| - 1]] == q.(special := q.special.(next := Block(|pages|), lastId := count - 1)))
  }

  lemma {:induction false} LinkFrameHolds(pages: seq<Page>, chain: seq<nat>, last: BlockRef, count: nat, p: Page)
    requires Ordered(chain, |pages|) && Ends(pages, chain, last, count)
    ensures LinkFrame(pages, chain, count, Linked(pages, last, |pages|, count - 1) + [p], p)
  {
    if chain != [] {
      forall i | 0 <= i < |chain| - 1 ensures chain[i] != chain[|chain| - 1] {
      }
    }
  }

  lemma {:induction false} LinkedOrder(chain: seq<nat>, size: nat)
    requires Ordered(chain, size) && size >= 1
    ensures Ordered(chain + [size], size + 1)
  {
  }

  lemma {:induction false} LinkedPagesOk(pages: seq<Page>, chain: seq<nat>, count: nat, pages': seq<Page>, p: Page, i: nat)
    requires Ordered(chain, |pages|) && LinkFrame(pages, chain, count, pages', p) && PageOk(p)
    requires forall i :: 0 <= i < |chain| ==> PageOk(pages[chain[i]])
    requires chain != [] ==> pages[chain[|chain| - 1]].special.lastId == count - 1
    requires i <= |chain|
    ensures (chain + [|pages|])[i] < |pages'| && PageOk(pages'[(chain + [|pages|])[i]])
  {
    hide PageOk;
    if i == |chain| - 1 {
      PageOkLinked(pages[chain[i]], Block(|pages|));
    }
  }

  lemma {:induction false} LinkedLinks(pages: seq<Page>, chain: seq<nat>, count: nat, pages': seq<Page>, p: Page)
    requires Ordered(chain, |pages|) && Links(pages, chain) && LinkFrame(pages, chain, count, pages', p)
    requires p.special.firstId == count
    requires chain != [] ==> pages[chain[|chain| - 1]].special.lastId == count - 1
    requires Ordered(chain + [|pages|], |pages'|)
    ensures Links(pages', chain + [|pages|])
  {
    var chain' := chain + [|pages|];
    forall i, j | 0 <= i && j == i + 1 && j < |chain'|
      ensures pages'[chain'[i]].special.next == Block(chain'[j])
      ensures pages'[chain'[j]].special.firstId == pages'[chain'[i]].special.lastId + 1
    {
      assert chain'[i] == chain[i];
      if j < |chain| {
        assert chain'[j] == chain[j];
      }
    }
  }

  /** Link the last page of a chain to a new page at the end of the relation. */
  lemma {:induction false} LinkKeepsChain(pages: seq<Page>, chain: seq<nat>, last: BlockRef, count: nat, p: Page)
    requires IsChain(pages, chain, last, count) && |pages| >= 1
    requires PageOk(p) && p.special == Special(count, count, NoBlock)
    ensures last.Block? ==> last.no < |pages|
    ensures IsChain(Linked(pages, last, |pages|, count - 1) + [p], chain + [|pages|], Block(|pages|), count + 1)
  {
    hide PageOk, Links;
    var pages', chain' := Linked(pages, last, |pages|, count - 1) + [p], chain + [|pages|];
    LinkFrameHolds(pages, chain, last, count, p);
    LinkedOrder(chain, |pages|);
    LinkedLinks(pages, chain, count, pages', p);
    forall i: nat | i < |chain'| ensures PageOk(pages'[chain'[i]]) {
      LinkedPagesOk(pages, chain, count, pages', p, i);
    }
    forall b | 0 <= b < |pages'| && b !in chain' ensures pages'[b].items == [] {
      assert chain'[|chain|] == |pages|;
      assert b !in chain;
    }
  }

  lemma {:induction false} ExtendKeepsChain(pages: seq<Page>, chain: seq<nat>, last: BlockRef, count: nat, t: Tuple)
    requires IsChain(pages, chain, last, count) && |pages| >= 1
    requires |t.node| <= MAX_NODE_BYTES && t.size == |t.node| && t.seqid == count
    ensures last.Block? ==> last.no < |pages|
    ensures IsChain(ExtendWith(pages, last, t), chain + [|pages|], Block(|pages|), count + 1)
  {
    hide IsChain, PageOk, HasRoom;
    FreshPageOk(t);
    FitsEmptyPage(|t.node|);
    var p := AddItem(PageInit(SPECIAL_BYTES).(special := Special(t.seqid, t.seqid, NoBlock)), t).0;
    LinkKeepsChain(pages, chain, last, count, p);
  }

  /** An extension whose insert then fails leaves an unlinked page without items. */
  lemma {:induction false} LeakKeepsChain(pages: seq<Page>, chain: seq<nat>, last: BlockRef, count: nat, p: Page)
    requires IsChain(pages, chain, last, count) && p.items == []
    ensures IsChain(pages + [p], chain, last, count)
  {
  }

  // ----- what the chain gives a reader

  /** The tuples read page by page along the chain. */
  ghost function Along(pages: seq<Page>, chain: seq<nat>): seq<Tuple>
    requires forall i :: 0 <= i < |chain| ==> chain[i] < |pages|
  {
    if chain == [] then [] else Along(pages, chain[..|chain| - 1]) + pages[chain[|chain| - 1]].items
  }

  lemma {:induction false} AlongIds(pages: seq<Page>, chain: seq<nat>, k: nat)
    requires k <= |chain|
    requires Ordered(chain, |pages|) && Links(pages, chain)
    requires forall i :: 0 <= i < |chain| ==> PageOk(pages[chain[i]])
    requires chain != [] ==> pages[chain[0]].special.firstId == 0
    ensures var ts := Along(pages, chain[..k]);
      && (k > 0 ==> |ts| == pages[chain[k - 1]].special.lastId + 1)
      && (k == 0 ==> ts == [])
      && forall i :: 0 <= i < |ts| ==> ts[i].seqid == i
    decreases k
  {
    if k > 0 {
      AlongIds(pages, chain, k - 1);
      assert chain[..k][..k - 1] == chain[..k - 1];
      var before, p := Along(pages, chain[..k - 1]), pages[chain[k - 1]];
      assert PageOk(p);
      if k > 1 {
        assert pages[chain[k - 1]].special.firstId == pages[chain[k - 2]].special.lastId + 1;
      }
      assert p.special.firstId == |before|;
    }
  }

  /** Reading along the chain gives exactly the ids 0 .. count-1, in order. */
  lemma {:induction false} ChainReadsInOrder(pages: seq<Page>, chain: seq<nat>, last: BlockRef, count: nat)
    requires IsChain(pages, chain, last, count)
    ensures |Along(pages, chain)| == count
    ensures forall i :: 0 <= i < count ==> Along(pages, chain)[i].seqid == i
  {
    AlongIds(pages, chain, |chain|);
    assert chain[..|chain|] == chain;
  }

  /** Blocks met by following nextblockno, as long as it moves forward. */
  ghost function Walk(pages: seq<Page>, from: nat): seq<nat>
    requires from < |pages|
    decreases |pages| - from
  {
    var next := pages[from].special.next;
    if next.Block? && from < next.no < |pages| then [from] + Walk(pages, next.no) else [from]
  }

  lemma {:induction false} WalkFrom(pages: seq<Page>, chain: seq<nat>, last: BlockRef, count: nat, i: nat)
    requires IsChain(pages, chain, last, count) && i < |chain|
    ensures Walk(pages, chain[i]) == chain[i..]
    decreases |chain| - i
  {
    if i + 1 < |chain| {
      WalkFrom(pages, chain, last, count, i + 1);
      assert pages[chain[i]].special.next == Block(chain[i + 1]);
      assert chain[i..] == [chain[i]] + chain[i + 1..];
    } else {
      assert chain[i..] == [chain[i]];
    }
  }

  /** Following nextblockno from the first data page visits the whole chain and stops at
      last_data_block. */
  lemma {:induction false} ChainIsWalked(pages: seq<Page>, chain: seq<nat>, last: BlockRef, count: nat)
    requires IsChain(pages, chain, last, count) && chain != []
    ensures Walk(pages, chain[0]) == chain && last == Block(chain[|chain| - 1])
  {
    WalkFrom(pages, chain, last, count, 0);
  }

  /** A sequence id is stored at one place only. */
  lemma {:induction false} IdsUnique(pages: seq<Page>, chain: seq<nat>, last: BlockRef, count: nat,
                                     b: nat, i: nat, c: nat, j: nat)
    requires IsChain(pages, chain, last, count)
    requires b < |pages| && i < |pages[b].items| && c < |pages| && j < |pages[c].items|
    requires pages[b].items[i].seqid == pages[c].items[j].seqid
    ensures b == c && i == j
  {
    var x :| 0 <= x < |chain| && chain[x] == b;
    var y :| 0 <= y < |chain| && chain[y] == c;
    assert PageOk(pages[chain[x]]) && PageOk(pages[chain[y]]);
    if x < y {
      IdsGrow(pages, chain, last, count, x, y);
    } else if y < x {
      IdsGrow(pages, chain, last, count, y, x);
    }
  }

  lemma {:induction false} IdsGrow(pages: seq<Page>, chain: seq<nat>, last: BlockRef, count: nat, x: nat, y: nat)
    requires IsChain(pages, chain, last, count) && x < y < |chain|
    ensures pages[chain[x]].special.lastId < pages[chain[y]].special.firstId
    decreases y
  {
    assert pages[chain[y]].special.firstId == pages[chain[y - 1]].special.lastId + 1;
    if x < y - 1 {
      IdsGrow(pages, chain, last, count, x, y - 1);
      assert PageOk(pages[chain[y - 1]]);
    }
  }
}
