/** Bulk delete: nodes are not removed, their labels are reset to the invalid label. */
module Vacuum {
  import opened Bytes
  import opened Pages
  import opened NodeLayout
  import opened Chain
  import opened Shapes
  import opened BulkStore

  /** VACUUM's callback: is this heap tuple dead? */
  type Callback = ItemPointer -> bool

  const ZERO_LABEL: seq<byte> := [0, 0, 0, 0, 0, 0, 0, 0]

  function VacuumNode(node: seq<byte>, dead: Callback): (r: seq<byte>)
    requires |node| >= NODE_HEAD
    ensures |r| == |node|
  {
    if dead(LabelToPointer(LabelOf(node))) then Overwrite(node, 0, ZERO_LABEL) else node
  }

  function VacuumLabel(lbl: nat, dead: Callback): nat {
    if dead(LabelToPointer(lbl)) then INVALID_LABEL else lbl
  }

  /** Only the label changes, and it becomes the one a scan skips. */
  lemma {:induction false} VacuumNodeLabel(node: seq<byte>, dead: Callback)
    requires |node| >= NODE_HEAD
    ensures LabelOf(VacuumNode(node, dead)) == VacuumLabel(LabelOf(node), dead)
    ensures VacuumNode(node, dead)[LABEL_BYTES..] == node[LABEL_BYTES..]
  {
    if dead(LabelToPointer(LabelOf(node))) {
      var r := Overwrite(node, 0, ZERO_LABEL);
      assert forall i :: 0 <= i < 8 ==> r[i] == r[0..8][i];
    }
  }

  ghost predicate Labelled(p: Page) {
    forall j :: 0 <= j < |p.items| ==> |p.items[j].node| >= NODE_HEAD
  }

  ghost predicate PageVacuumed(p: Page, q: Page, dead: Callback)
    requires Labelled(p)
  {
    && q == p.(items := q.items) && |q.items| == |p.items|
    && forall j :: 0 <= j < |p.items| ==> q.items[j] == p.items[j].(node := VacuumNode(p.items[j].node, dead))
  }

  /** Tuples of a page whose label the callback answers for. */
  ghost function Matches(items: seq<Tuple>, dead: Callback): nat
    requires forall j :: 0 <= j < |items| ==> |items[j].node| >= NODE_HEAD
  {
    if items == [] then 0
    else Matches(items[..|items| - 1], dead)
         + if dead(LabelToPointer(LabelOf(items[|items| - 1].node))) then 1 else 0
  }

  ghost function MatchesUpTo(pages: seq<Page>, n: nat, dead: Callback): nat
    requires n <= |pages| && forall b :: 0 <= b < |pages| ==> Labelled(pages[b])
  {
    if n <= 1 then 0 else MatchesUpTo(pages, n - 1, dead) + Matches(pages[n - 1].items, dead)
  }

  ghost predicate IsDead(t: Tuple, dead: Callback) {
    |t.node| >= NODE_HEAD && dead(LabelToPointer(LabelOf(t.node)))
  }

  /** The places, before page n, of the nodes whose row the callback finds dead. */
  ghost function DeadPlaces(pages: seq<Page>, n: nat, dead: Callback): set<(nat, nat)>
    requires n <= |pages|
  {
    set b: nat, j: nat | 1 <= b < n && j < |pages[b].items| && IsDead(pages[b].items[j], dead) :: (b, j)
  }

  ghost function DeadOn(b: nat, items: seq<Tuple>, dead: Callback): set<(nat, nat)> {
    set j: nat | j < |items| && IsDead(items[j], dead) :: (b, j)
  }

  lemma {:induction false} DeadOnCount(b: nat, items: seq<Tuple>, dead: Callback)
    requires forall j :: 0 <= j < |items| ==> |items[j].node| >= NODE_HEAD
    ensures |DeadOn(b, items, dead)| == Matches(items, dead)
    decreases |items|
  {
    hide LabelOf, LabelToPointer;
    if items != [] {
      var n := |items| - 1;
      DeadOnCount(b, items[..n], dead);
      assert forall j: nat :: j < n ==> items[..n][j] == items[j];
      if IsDead(items[n], dead) {
        assert DeadOn(b, items, dead) == DeadOn(b, items[..n], dead) + {(b, n)};
      } else {
        assert DeadOn(b, items, dead) == DeadOn(b, items[..n], dead);
      }
    }
  }

  /** The count of matches is the number of those places. */
  lemma {:induction false} MatchesAreDeadPlaces(pages: seq<Page>, n: nat, dead: Callback)
    requires n <= |pages| && forall b :: 0 <= b < |pages| ==> Labelled(pages[b])
    ensures MatchesUpTo(pages, n, dead) == |DeadPlaces(pages, n, dead)|
    decreases n
  {
    hide LabelOf, LabelToPointer, IsDead, Matches;
    if n <= 1 {
      assert DeadPlaces(pages, n, dead) == {};
    } else {
      MatchesAreDeadPlaces(pages, n - 1, dead);
      assert Labelled(pages[n - 1]);
      DeadOnCount(n - 1, pages[n - 1].items, dead);
      assert DeadPlaces(pages, n, dead) == DeadPlaces(pages, n - 1, dead) + DeadOn(n - 1, pages[n - 1].items, dead);
      assert DeadPlaces(pages, n - 1, dead) !! DeadOn(n - 1, pages[n - 1].items, dead);
    }
  }

  lemma {:induction false} NoneBehind(pages: seq<Page>, n: nat, dead: Callback)
    requires n <= |pages| && forall b :: n <= b < |pages| ==> pages[b].items == []
    ensures DeadPlaces(pages, n, dead) == DeadPlaces(pages, |pages|, dead)
  {
    hide IsDead;
  }

  method VacuumPage(p: Page, dead: Callback) returns (q: Page, removed: nat)
    requires Labelled(p)
    ensures PageVacuumed(p, q, dead) && removed == Matches(p.items, dead)
  {
    hide LabelOf, LabelToPointer, Overwrite;
    q, removed := p, 0;
    for offset := 1 to |p.items| + 1
      invariant |q.items| == |p.items| && q == p.(items := q.items)
      invariant forall j :: offset - 1 <= j < |p.items| ==> q.items[j] == p.items[j]
      invariant forall j :: 0 <= j < offset - 1 ==> q.items[j] == p.items[j].(node := VacuumNode(p.items[j].node, dead))
      invariant removed == Matches(p.items[..offset - 1], dead)
    {
      var t := q.items[offset - 1];
      assert p.items[..offset][..offset - 1] == p.items[..offset - 1];
      if dead(LabelToPointer(LabelOf(t.node))) {
        q := q.(items := q.items[offset - 1 := t.(node := Overwrite(t.node, 0, ZERO_LABEL))]);
        removed := removed + 1;
      }
    }
    assert p.items[..|p.items|] == p.items;
  }

  /** ldb_ambulkdelete. The block loop has no guard for an index without data pages: there
      last_data_block is InvalidBlockNumber, the loop runs on past the last block of the relation and
      the read fails. So it succeeds exactly on an index that has a data page, and a failed call has
      changed nothing. */
  method BulkDelete(rel: IndexRelation, dead: Callback, ghost chain: seq<nat>) returns (ok: bool, removed: nat)
    requires IsChain(rel.pages, chain, rel.lastDataBlock, rel.numVectors)
    requires 1 <= |rel.pages| <= 0xFFFF_FFFF
    requires forall b :: 0 <= b < |rel.pages| ==> Labelled(rel.pages[b])
    modifies rel`pages
    ensures ok <==> rel.lastDataBlock != NoBlock
    ensures ok ==> |rel.pages| == |old(rel.pages)| && forall b :: 0 <= b < |rel.pages| ==>
                     PageVacuumed(old(rel.pages)[b], rel.pages[b], dead)
    ensures ok ==> removed == MatchesUpTo(old(rel.pages), rel.lastDataBlock.no + 1, dead)
    ensures ok ==> removed == |DeadPlaces(old(rel.pages), |old(rel.pages)|, dead)|
    ensures !ok ==> rel.pages == old(rel.pages)
  {
    hide PageOk, Links, Labelled, PageVacuumed, Matches, DeadPlaces;
    BlocksInRange(rel.pages, chain, rel.lastDataBlock, rel.numVectors, dead);
    var last := if rel.lastDataBlock.Block? then rel.lastDataBlock.no else 0xFFFF_FFFF;
    removed := 0;
    var blockno := 1;
    while blockno <= last
      invariant 1 <= blockno <= last + 1 && blockno <= |rel.pages| && |rel.pages| == |old(rel.pages)|
      invariant forall b :: 0 <= b < |rel.pages| && !(1 <= b < blockno) ==> rel.pages[b] == old(rel.pages)[b]
      invariant forall b :: 1 <= b < blockno ==> PageVacuumed(old(rel.pages)[b], rel.pages[b], dead)
      invariant removed == MatchesUpTo(old(rel.pages), blockno, dead)
    {
      if blockno >= |rel.pages| {
        ItemlessUnchanged(old(rel.pages), rel.pages, dead);
        return false, removed;    // could not read block
      }
      var page, n := VacuumPage(rel.pages[blockno], dead);
      rel.pages := rel.pages[blockno := page];
      removed := removed + n;
      blockno := blockno + 1;
    }
    ok := true;
    MatchesAreDeadPlaces(old(rel.pages), last + 1, dead);
    NoneBehind(old(rel.pages), last + 1, dead);
    forall b | 0 <= b < |rel.pages| ensures PageVacuumed(old(rel.pages)[b], rel.pages[b], dead) {
      if !(1 <= b < blockno) {
        ItemlessVacuumed(old(rel.pages)[b], dead);
      }
    }
  }

  lemma {:induction false} ItemlessVacuumed(p: Page, dead: Callback)
    requires p.items == []
    ensures Labelled(p) && PageVacuumed(p, p, dead)
  {
  }

  lemma {:induction false} ItemlessUnchanged(ps: seq<Page>, qs: seq<Page>, dead: Callback)
    requires |qs| == |ps| && forall b :: 0 <= b < |ps| ==> ps[b].items == [] && Labelled(ps[b])
    requires forall b :: 0 <= b < |ps| ==> qs[b] == ps[b] || PageVacuumed(ps[b], qs[b], dead)
    ensures qs == ps
  {
    forall b | 0 <= b < |ps| ensures qs[b] == ps[b] {
    }
  }

  lemma {:induction false} BlocksInRange(pages: seq<Page>, chain: seq<nat>, last: BlockRef, count: nat, dead: Callback)
    requires IsChain(pages, chain, last, count) && |pages| >= 1
    ensures last.Block? ==> 1 <= last.no < |pages| && forall b :: last.no < b < |pages| ==> pages[b].items == []
    ensures last.Block? ==> pages[0].items == []
    ensures last.NoBlock? ==> forall b :: 0 <= b < |pages| ==> pages[b].items == []
  {
    hide PageOk, Links;
    if last.Block? {
      var n := |chain| - 1;
      forall i | 0 <= i < |chain| ensures 1 <= chain[i] <= last.no {
        assert i == n || chain[i] < chain[n];
      }
      forall b | last.no < b < |pages| ensures pages[b].items == [] {
        assert b !in chain;
      }
      assert 0 !in chain;
    }
  }

  /** A vacuum is an in-place change: the chain and every pointer survive it, and each stored label is
      either kept or reset. */
  lemma {:induction false} VacuumKeepsShape(ps: seq<Page>, qs: seq<Page>, dead: Callback, p: ItemPointer)
    requires |qs| == |ps| && forall b :: 0 <= b < |ps| ==> Labelled(ps[b]) && PageVacuumed(ps[b], qs[b], dead)
    ensures SameShapes(ps, qs)
    ensures Resolves(ps, p) ==>
              && Resolves(qs, p) && |Retrieve(ps, p).node| >= NODE_HEAD && |Retrieve(qs, p).node| >= NODE_HEAD
              && Retrieve(qs, p).seqid == Retrieve(ps, p).seqid
              && LabelOf(Retrieve(qs, p).node) == VacuumLabel(LabelOf(Retrieve(ps, p).node), dead)
  {
    hide LabelOf, VacuumLabel;
    forall b | 0 <= b < |ps| ensures SameShape(ps[b], qs[b]) {
      assert PageVacuumed(ps[b], qs[b], dead);
    }
    if Resolves(ps, p) {
      assert PageVacuumed(ps[p.block], qs[p.block], dead);
      VacuumNodeLabel(Retrieve(ps, p).node, dead);
    }
  }
}
