/** Pages are filled before the next one is opened. */
module Packing {
  import opened Pages
  import opened Chain
  import opened Shapes

  /** Page p could not take a node of that size: by the page's own test, or by the insert path's guard. */
  ghost predicate Full(p: Page, nodeBytes: nat, tight: bool) {
    if tight then !HasRoom(p, nodeBytes) else FreeSpace(p) <= LINE_POINTER + TUPLE_HEADER + nodeBytes
  }

  /** Every page but the last was full for the first node of the page after it. */
  ghost predicate Packed(pages: seq<Page>, chain: seq<nat>, tight: bool) {
    && Ordered(chain, |pages|)
    && forall i, j :: 0 <= i && j == i + 1 && j < |chain| ==> FullFor(pages[chain[i]], pages[chain[j]], tight)
  }

  ghost predicate FullFor(p: Page, q: Page, tight: bool) {
    q.items != [] && Full(p, |q.items[0].node|, tight)
  }

  /** A page that refuses a node also fails the insert path's guard for it, by alignment. */
  lemma {:induction false} RefusalFailsGuard(p: Page, nodeBytes: nat)
    requires Geometry(p) && !HasRoom(p, nodeBytes)
    ensures FreeSpace(p) <= LINE_POINTER + TUPLE_HEADER + nodeBytes
  {
    hide Geometry, MaxAlign;
    PageAlignment(p);
    FourApart(p.lower, p.upper, MaxAlign(TUPLE_HEADER + nodeBytes));
  }

  lemma {:induction false} TightIsPacked(pages: seq<Page>, chain: seq<nat>, last: BlockRef, count: nat)
    requires IsChain(pages, chain, last, count) && Packed(pages, chain, true)
    ensures Packed(pages, chain, false)
  {
    hide HasRoom, FreeSpace, Geometry;
    forall i, j | 0 <= i && j == i + 1 && j < |chain| ensures FullFor(pages[chain[i]], pages[chain[j]], false) {
      assert PageOk(pages[chain[i]]) && FullFor(pages[chain[i]], pages[chain[j]], true);
      RefusalFailsGuard(pages[chain[i]], |pages[chain[j]].items[0].node|);
    }
  }

  lemma {:induction false} AppendKeepsPacked(pages: seq<Page>, chain: seq<nat>, last: nat, count: nat, t: Tuple, tight: bool)
    requires IsChain(pages, chain, Block(last), count) && Packed(pages, chain, tight) && last < |pages|
    ensures Packed(AppendTuple(pages, last, t), chain, tight)
  {
    hide HasRoom, FreeSpace, Full;
    var after := AppendTuple(pages, last, t);
    forall i, j | 0 <= i && j == i + 1 && j < |chain| ensures FullFor(after[chain[i]], after[chain[j]], tight) {
      assert FullFor(pages[chain[i]], pages[chain[j]], tight);
      assert chain[i] < chain[j] && (j == |chain| - 1 || chain[j] < chain[|chain| - 1]);
      assert after[chain[i]] == pages[chain[i]];
      assert after[chain[j]].items[0] == pages[chain[j]].items[0];
    }
  }

  lemma {:induction false} ExtendKeepsPacked(pages: seq<Page>, chain: seq<nat>, last: BlockRef, count: nat, t: Tuple, tight: bool)
    requires IsChain(pages, chain, last, count) && Packed(pages, chain, tight) && |pages| >= 1
    requires |t.node| <= MAX_NODE_BYTES
    requires last.Block? ==> last.no < |pages| && Full(pages[last.no], |t.node|, tight)
    ensures last.Block? ==> last.no < |pages|
    ensures Packed(ExtendWith(pages, last, t), chain + [|pages|], tight)
  {
    hide HasRoom, FreeSpace, Full, ExtendWith, PageOk, Links;
    var after, longer := ExtendWith(pages, last, t), chain + [|pages|];
    LinkedOrder(chain, |pages|);
    NewPage(pages, last, t);
    forall i, j | 0 <= i && j == i + 1 && j < |longer| ensures FullFor(after[longer[i]], after[longer[j]], tight) {
      SameRoom(pages, last, t, longer[i], tight);
      if j < |chain| {
        assert FullFor(pages[chain[i]], pages[chain[j]], tight);
        SameRoom(pages, last, t, longer[j], tight);
      } else {
        assert last == Block(longer[i]);
      }
    }
  }

  lemma {:induction false} NewPage(pages: seq<Page>, last: BlockRef, t: Tuple)
    requires (last.Block? ==> last.no < |pages|) && |t.node| <= MAX_NODE_BYTES
    ensures |ExtendWith(pages, last, t)| == |pages| + 1 && ExtendWith(pages, last, t)[|pages|].items == [t]
  {
    FitsEmptyPage(|t.node|);
  }

  /** Linking a page changes nothing of what it holds or of its room. */
  lemma {:induction false} SameRoom(pages: seq<Page>, last: BlockRef, t: Tuple, b: nat, tight: bool)
    requires (last.Block? ==> last.no < |pages|) && b < |pages|
    ensures var after := ExtendWith(pages, last, t);
      && b < |after| && after[b].items == pages[b].items
      && forall n: nat :: Full(after[b], n, tight) == Full(pages[b], n, tight)
  {
  }

  lemma {:induction false} ShapeKeepsPacked(ps: seq<Page>, qs: seq<Page>, chain: seq<nat>, tight: bool)
    requires SameShapes(ps, qs) && Packed(ps, chain, tight)
    ensures Packed(qs, chain, tight)
  {
    hide HasRoom, FreeSpace, Full;
    forall i, j | 0 <= i && j == i + 1 && j < |chain| ensures FullFor(qs[chain[i]], qs[chain[j]], tight) {
      assert FullFor(ps[chain[i]], ps[chain[j]], tight);
      assert SameShape(ps[chain[i]], qs[chain[i]]) && SameShape(ps[chain[j]], qs[chain[j]]);
      SameBounds(ps[chain[i]], qs[chain[i]], |qs[chain[j]].items[0].node|, tight);
    }
  }

  lemma {:induction false} SameBounds(p: Page, q: Page, n: nat, tight: bool)
    requires SameShape(p, q)
    ensures Full(q, n, tight) == Full(p, n, tight)
  {
  }

  lemma {:induction false} LeakKeepsPacked(pages: seq<Page>, chain: seq<nat>, p: Page, tight: bool)
    requires Packed(pages, chain, tight)
    ensures Packed(pages + [p], chain, tight)
  {
    hide Full;
    var after := pages + [p];
    forall i, j | 0 <= i && j == i + 1 && j < |chain| ensures FullFor(after[chain[i]], after[chain[j]], tight) {
      assert FullFor(pages[chain[i]], pages[chain[j]], tight);
    }
  }
}
