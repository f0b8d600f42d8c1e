/**
 In-place changes of stored nodes: the bytes of a node change, its length and place do not.
 Relinking neighbours, resetting a label and the rewrite after a build are all of this kind.
 */
module Shapes {
  import opened Pages
  import opened Chain

  ghost predicate SameShape(p: Page, q: Page) {
    && q.lower == p.lower && q.upper == p.upper && q.special == p.special
    && |q.items| == |p.items|
    && forall j :: 0 <= j < |p.items| ==>
         && q.items[j].seqid == p.items[j].seqid
         && q.items[j].size == p.items[j].size
         && |q.items[j].node| == |p.items[j].node|
  }

  ghost predicate SameShapes(ps: seq<Page>, qs: seq<Page>) {
    |qs| == |ps| && forall b :: 0 <= b < |ps| ==> SameShape(ps[b], qs[b])
  }

  lemma {:induction false} UsedBytesOfShape(xs: seq<Tuple>, ys: seq<Tuple>)
    requires |xs| == |ys| && forall j :: 0 <= j < |xs| ==> |ys[j].node| == |xs[j].node|
    ensures UsedBytes(ys) == UsedBytes(xs)
    decreases |xs|
  {
    if xs != [] {
      var n := |xs| - 1;
      UsedBytesOfShape(xs[..n], ys[..n]);
      assert |ys[n].node| == |xs[n].node|;
    }
  }

  lemma {:induction false} ShapeKeepsPage(p: Page, q: Page)
    requires SameShape(p, q) && PageOk(p)
    ensures PageOk(q)
  {
    UsedBytesOfShape(p.items, q.items);
  }

  /** Rewriting node bytes in place keeps the chain. */
  lemma {:induction false} ShapeKeepsChain(ps: seq<Page>, qs: seq<Page>, chain: seq<nat>, last: BlockRef, count: nat)
    requires SameShapes(ps, qs) && IsChain(ps, chain, last, count)
    ensures IsChain(qs, chain, last, count)
  {
    hide PageOk;
    forall i | 0 <= i < |chain| ensures PageOk(qs[chain[i]]) {
      ShapeKeepsPage(ps[chain[i]], qs[chain[i]]);
    }
    forall b | 0 <= b < |qs| && b !in chain ensures qs[b].items == [] {
      assert SameShape(ps[b], qs[b]) && ps[b].items == [];
    }
    ShapeKeepsLinks(ps, qs, chain, last, count);
  }

  lemma {:induction false} ShapeKeepsLinks(ps: seq<Page>, qs: seq<Page>, chain: seq<nat>, last: BlockRef, count: nat)
    requires SameShapes(ps, qs) && Ordered(chain, |ps|) && Links(ps, chain) && Ends(ps, chain, last, count)
    ensures Ordered(chain, |qs|) && Links(qs, chain) && Ends(qs, chain, last, count)
  {
    forall i | 0 <= i < |chain| ensures qs[chain[i]].special == ps[chain[i]].special {
      assert SameShape(ps[chain[i]], qs[chain[i]]);
    }
  }

  // ----- following item pointers

  ghost predicate Resolves(pages: seq<Page>, p: ItemPointer) {
    && 1 <= p.block < |pages|
    && 1 <= p.pos <= |pages[p.block].items|
  }

  /** What the node retrievers return for a pointer. */
  ghost function Retrieve(pages: seq<Page>, p: ItemPointer): Tuple
    requires Resolves(pages, p)
  {
    pages[p.block].items[p.pos - 1]
  }

  lemma {:induction false} ShapeKeepsPointer(ps: seq<Page>, qs: seq<Page>, p: ItemPointer)
    requires SameShapes(ps, qs) && Resolves(ps, p)
    ensures Resolves(qs, p) && Retrieve(qs, p).seqid == Retrieve(ps, p).seqid
  {
    assert SameShape(ps[p.block], qs[p.block]);
  }

  lemma {:induction false} AppendKeepsPointer(pages: seq<Page>, last: nat, t: Tuple, p: ItemPointer)
    requires last < |pages| && Resolves(pages, p)
    ensures Resolves(AppendTuple(pages, last, t), p) && Retrieve(AppendTuple(pages, last, t), p) == Retrieve(pages, p)
  {
  }

  lemma {:induction false} ExtendKeepsPointer(pages: seq<Page>, last: BlockRef, t: Tuple, p: ItemPointer)
    requires (last.Block? ==> last.no < |pages|) && Resolves(pages, p)
    ensures Resolves(ExtendWith(pages, last, t), p) && Retrieve(ExtendWith(pages, last, t), p) == Retrieve(pages, p)
  {
    hide AddItem, PageInit;
  }

  /** On a chained index a pointer and the id it leads to determine each other. */
  lemma {:induction false} PointersInjective(pages: seq<Page>, chain: seq<nat>, last: BlockRef, count: nat,
                                             p: ItemPointer, q: ItemPointer)
    requires IsChain(pages, chain, last, count) && Resolves(pages, p) && Resolves(pages, q)
    requires Retrieve(pages, p).seqid == Retrieve(pages, q).seqid
    ensures p == q
  {
    IdsUnique(pages, chain, last, count, p.block, p.pos - 1, q.block, q.pos - 1);
  }
}
