/** What the bulk store leaves behind: a chain, and a pointer to every node. */
module BulkChain {
  import opened Bytes
  import opened Pages
  import opened Chain
  import opened Shapes
  import opened Packing
  import opened BulkStore

  /** Pointer `i` leads to the tuple that holds node `i`. */
  ghost predicate Located(s: Store, nodes: seq<seq<byte>>) {
    && |s.pointers| == |nodes|
    && forall i :: 0 <= i < |nodes| ==>
         && Resolves(s.pages, s.pointers[i])
         && Retrieve(s.pages, s.pointers[i]) == Tuple(i, |nodes[i]|, nodes[i])
  }

  lemma {:induction false} StoreNodeKeeps(s: Store, chain: seq<nat>, nodes: seq<seq<byte>>, node: seq<byte>)
    returns (chain': seq<nat>)
    requires Ready(s) && Located(s, nodes) && |s.pages| >= 1
    requires IsChain(s.pages, chain, s.last, |nodes|) && Packed(s.pages, chain, true)
    requires |node| <= MAX_NODE_BYTES
    ensures IsChain(StoreNode(s, node).pages, chain', StoreNode(s, node).last, |nodes| + 1)
    ensures Located(StoreNode(s, node), nodes + [node]) && Packed(StoreNode(s, node).pages, chain', true)
    ensures var pages := StoreNode(s, node).pages;
      if chain' == chain then |pages| == |s.pages| else chain' == chain + [|s.pages|] && |pages| == |s.pages| + 1
  {
    hide IsChain, Packed;
    var t := Tuple(|s.pointers|, |node|, node);
    var r := StoreNode(s, node);
    if s.last.Block? && HasRoom(s.pages[s.last.no], |node|) {
      chain' := chain;
      AppendKeepsChain(s.pages, chain, s.last.no, |nodes|, t);
      AppendKeepsPacked(s.pages, chain, s.last.no, |nodes|, t, true);
      LastOnChain(s.pages, chain, s.last.no, |nodes|);
      forall i | 0 <= i < |nodes|
        ensures Resolves(r.pages, r.pointers[i]) && Retrieve(r.pages, r.pointers[i]) == Tuple(i, |nodes[i]|, nodes[i])
      {
        AppendKeepsPointer(s.pages, s.last.no, t, s.pointers[i]);
      }
    } else {
      FitsEmptyPage(|node|);
      chain' := chain + [|s.pages|];
      ExtendKeepsChain(s.pages, chain, s.last, |nodes|, t);
      ExtendKeepsPacked(s.pages, chain, s.last, |nodes|, t, true);
      forall i | 0 <= i < |nodes|
        ensures Resolves(r.pages, r.pointers[i]) && Retrieve(r.pages, r.pointers[i]) == Tuple(i, |nodes[i]|, nodes[i])
      {
        ExtendKeepsPointer(s.pages, s.last, t, s.pointers[i]);
      }
    }
  }

  lemma {:induction false} LastOnChain(pages: seq<Page>, chain: seq<nat>, last: nat, count: nat)
    requires IsChain(pages, chain, Block(last), count)
    ensures 1 <= last < |pages| && Geometry(pages[last])
  {
    assert PageOk(pages[chain[|chain| - 1]]);
  }

  /** The blocks from `first` on, one after another. */
  ghost predicate Consecutive(chain: seq<nat>, first: nat) {
    forall i :: 0 <= i < |chain| ==> chain[i] == first + i
  }

  /** After storing `nodes` from scratch the data pages form one chain along which the ids are
      0 .. n-1, and every node sits, whole and once, where its item pointer says. The chain is exactly the
      pages added, in block order, and none was opened while the one before had room. */
  lemma {:induction false} StoreAllLocates(s: Store, nodes: seq<seq<byte>>) returns (chain: seq<nat>)
    requires s.last == NoBlock && s.pointers == [] && |s.pages| >= 1
    requires forall b :: 0 <= b < |s.pages| ==> s.pages[b].items == []
    requires forall i :: 0 <= i < |nodes| ==> |nodes[i]| <= MAX_NODE_BYTES
    ensures var r := StoreAll(s, nodes);
      && IsChain(r.pages, chain, r.last, |nodes|) && Located(r, nodes) && Packed(r.pages, chain, true)
      && Consecutive(chain, |s.pages|) && |r.pages| == |s.pages| + |chain| && |chain| <= |nodes|
    decreases |nodes|
  {
    hide IsChain, Located, StoreNode, Packed;
    if nodes == [] {
      chain := [];
      NothingStored(s);
    } else {
      var n := |nodes| - 1;
      var before := StoreAllLocates(s, nodes[..n]);
      chain := StoreNodeKeeps(StoreAll(s, nodes[..n]), before, nodes[..n], nodes[n]);
      assert nodes[..n] + [nodes[n]] == nodes;
    }
  }

  lemma {:induction false} NothingStored(s: Store)
    requires s.last == NoBlock && s.pointers == [] && |s.pages| >= 1
    requires forall b :: 0 <= b < |s.pages| ==> s.pages[b].items == []
    ensures IsChain(s.pages, [], s.last, 0) && Located(s, []) && Packed(s.pages, [], true)
  {
  }
}
