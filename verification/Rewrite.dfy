/**
 The in-place rewrite after a bulk store: every neighbour slot and the entry slot stop holding
 sequence ids and start holding item pointers, inside the same bytes.
 */
module Rewrite {
  import opened Bytes
  import opened Pages
  import opened NodeLayout

  function SlotAt(meta: Meta, level: nat, j: nat): nat {
    ListStart(meta, level) + COUNT_BYTES + SLOT_BYTES * j
  }

  ghost predicate HasList(meta: Meta, node: seq<byte>, level: nat) {
    |node| >= NODE_HEAD && level <= LevelOf(node) && ListStart(meta, level) + ListBytes(meta, level) <= |node|
  }

  function CountAt(meta: Meta, node: seq<byte>, level: nat): nat
    requires HasList(meta, node, level)
  {
    Le32(node, ListStart(meta, level))
  }

  ghost predicate IsSlot(meta: Meta, node: seq<byte>, level: nat, j: nat) {
    HasList(meta, node, level) && j < CountAt(meta, node, level) && j < Capacity(meta, level)
  }

  function SeqidAt(node: seq<byte>, at: nat): nat
    requires at + SLOT_BYTES <= |node|
  {
    Le32(node, at)
  }

  /** A node of an `n`-node graph: sized, its lists within capacity, its neighbours existing. */
  ghost predicate GraphNode(meta: Meta, node: seq<byte>, n: nat) {
    && Sized(meta, node)
    && (forall l :: 0 <= l <= LevelOf(node) ==> HasList(meta, node, l) && CountAt(meta, node, l) <= Capacity(meta, l))
    && (forall l, j :: IsSlot(meta, node, l, j) ==>
          SlotAt(meta, l, j) + SLOT_BYTES <= |node| && SeqidAt(node, SlotAt(meta, l, j)) < n)
  }

  ghost predicate InSlot(meta: Meta, node: seq<byte>, i: nat) {
    exists l, j :: IsSlot(meta, node, l, j) && SlotAt(meta, l, j) <= i < SlotAt(meta, l, j) + SLOT_BYTES
  }

  ghost predicate PointersInRange(ptrs: seq<ItemPointer>) {
    forall i :: 0 <= i < |ptrs| ==> PointerInRange(ptrs[i])
  }

  /** `r` is `node` with exactly the slots that end at or before `front` rewritten. */
  ghost predicate RewrittenTo(meta: Meta, ptrs: seq<ItemPointer>, node: seq<byte>, r: seq<byte>, front: nat) {
    && GraphNode(meta, node, |ptrs|) && PointersInRange(ptrs)
    && |r| == |node| && front <= |node|
    && r[front..] == node[front..]
    && (forall l, j :: IsSlot(meta, node, l, j) && SlotAt(meta, l, j) + SLOT_BYTES <= front ==>
          r[SlotAt(meta, l, j)..SlotAt(meta, l, j) + SLOT_BYTES]
          == EncodePointer(ptrs[SeqidAt(node, SlotAt(meta, l, j))]))
    && (forall i :: 0 <= i < front && !InSlot(meta, node, i) ==> r[i] == node[i])
  }

  ghost predicate Rewritten(meta: Meta, ptrs: seq<ItemPointer>, node: seq<byte>, r: seq<byte>) {
    RewrittenTo(meta, ptrs, node, r, |node|)
  }

  // ----- slots do not overlap

  lemma {:induction false} SlotsApart(meta: Meta, l: nat, j: nat, m: nat, k: nat)
    requires j < Capacity(meta, l) && k < Capacity(meta, m)
    ensures (l == m && j == k)
         || SlotAt(meta, l, j) + SLOT_BYTES <= SlotAt(meta, m, k)
         || SlotAt(meta, m, k) + SLOT_BYTES <= SlotAt(meta, l, j)
  {
    if l < m {
      ListStartMonotone(meta, l, m);
    } else if m < l {
      ListStartMonotone(meta, m, l);
    }
  }

  // ----- the steps of the rewrite

  lemma {:induction false} RewriteStart(meta: Meta, ptrs: seq<ItemPointer>, node: seq<byte>)
    requires GraphNode(meta, node, |ptrs|) && PointersInRange(ptrs)
    ensures RewrittenTo(meta, ptrs, node, node, SlotAt(meta, 0, 0))
  {
    assert HasList(meta, node, 0);
    forall l, j | IsSlot(meta, node, l, j) ensures SlotAt(meta, l, j) >= SlotAt(meta, 0, 0) {
      if l > 0 {
        ListStartMonotone(meta, 0, l);
      }
    }
  }

  /** One slot: the id is read from bytes nothing has written yet, then overwritten. */
  lemma {:induction false} RewriteSlot(meta: Meta, ptrs: seq<ItemPointer>, node: seq<byte>, r: seq<byte>, l: nat, j: nat)
    requires IsSlot(meta, node, l, j) && RewrittenTo(meta, ptrs, node, r, SlotAt(meta, l, j))
    ensures var at := SlotAt(meta, l, j);
      && at + SLOT_BYTES <= |r|
      && SeqidAt(r, at) == SeqidAt(node, at) < |ptrs|
      && RewrittenTo(meta, ptrs, node, Overwrite(r, at, EncodePointer(ptrs[SeqidAt(r, at)])), at + SLOT_BYTES)
  {
    hide EncodePointer, ListStart, ListBytes, LevelOf, CountAt, HasList, Sized;
    var at := SlotAt(meta, l, j);
    SameTail(node, r, at);
    var v := EncodePointer(ptrs[SeqidAt(node, at)]);
    var r' := Overwrite(r, at, v);
    forall m, k | IsSlot(meta, node, m, k) && SlotAt(meta, m, k) + SLOT_BYTES <= at + SLOT_BYTES
      ensures r'[SlotAt(meta, m, k)..SlotAt(meta, m, k) + SLOT_BYTES]
           == EncodePointer(ptrs[SeqidAt(node, SlotAt(meta, m, k))])
    {
      EarlierSlots(meta, ptrs, node, r, l, j, m, k);
    }
    forall i | 0 <= i < at + SLOT_BYTES && !InSlot(meta, node, i) ensures r'[i] == node[i] {
      assert i < at;
    }
    assert r'[at + SLOT_BYTES..] == r[at..][SLOT_BYTES..];
    assert node[at + SLOT_BYTES..] == node[at..][SLOT_BYTES..];
  }

  lemma {:induction false} EarlierSlots(meta: Meta, ptrs: seq<ItemPointer>, node: seq<byte>, r: seq<byte>,
                                        l: nat, j: nat, m: nat, k: nat)
    requires IsSlot(meta, node, l, j) && RewrittenTo(meta, ptrs, node, r, SlotAt(meta, l, j))
    requires IsSlot(meta, node, m, k) && SlotAt(meta, m, k) <= SlotAt(meta, l, j)
    ensures var at, v := SlotAt(meta, l, j), EncodePointer(ptrs[SeqidAt(node, SlotAt(meta, l, j))]);
      Overwrite(r, at, v)[SlotAt(meta, m, k)..SlotAt(meta, m, k) + SLOT_BYTES]
      == EncodePointer(ptrs[SeqidAt(node, SlotAt(meta, m, k))])
  {
    hide EncodePointer, ListStart, ListBytes, LevelOf, CountAt, HasList, Sized, SlotAt;
    SlotsApart(meta, l, j, m, k);
    if !(l == m && j == k) {
      OverwriteElsewhere(r, SlotAt(meta, l, j), EncodePointer(ptrs[SeqidAt(node, SlotAt(meta, l, j))]),
                         SlotAt(meta, m, k), SlotAt(meta, m, k) + SLOT_BYTES);
    }
  }

  lemma {:induction false} SameTail(node: seq<byte>, r: seq<byte>, at: nat)
    requires |r| == |node| && at + SLOT_BYTES <= |node| && r[at..] == node[at..]
    ensures SeqidAt(r, at) == SeqidAt(node, at)
  {
    SameTailByte(node, r, at, at);
    SameTailByte(node, r, at, at + 1);
    SameTailByte(node, r, at, at + 2);
    SameTailByte(node, r, at, at + 3);
  }

  lemma {:induction false} SameTailByte(node: seq<byte>, r: seq<byte>, at: nat, i: nat)
    requires |r| == |node| && at <= i < |node| && r[at..] == node[at..]
    ensures r[i] == node[i]
  {
    assert r[at..][i - at] == node[at..][i - at];
  }

  /** Stepping over bytes that hold no slot changes nothing. */
  lemma {:induction false} RewriteGap(meta: Meta, ptrs: seq<ItemPointer>, node: seq<byte>, r: seq<byte>, from: nat, to: nat)
    requires RewrittenTo(meta, ptrs, node, r, from) && from <= to <= |node|
    requires forall l, j :: IsSlot(meta, node, l, j) ==>
               SlotAt(meta, l, j) + SLOT_BYTES <= from || to <= SlotAt(meta, l, j)
    ensures RewrittenTo(meta, ptrs, node, r, to)
  {
    hide EncodePointer, ListStart, ListBytes, LevelOf, CountAt, HasList, Sized, IsSlot;
    assert r[to..] == r[from..][to - from..];
    assert node[to..] == node[from..][to - from..];
    forall i | 0 <= i < to && !InSlot(meta, node, i) ensures r[i] == node[i] {
      if i >= from {
        SameTailByte(node, r, from, i);
      }
    }
    forall l, j | IsSlot(meta, node, l, j) && SlotAt(meta, l, j) + SLOT_BYTES <= to
      ensures SlotAt(meta, l, j) + SLOT_BYTES <= from
    {
    }
  }

  /** The count of a list not reached yet is still the original one. */
  lemma {:induction false} CountUntouched(meta: Meta, ptrs: seq<ItemPointer>, node: seq<byte>, r: seq<byte>, level: nat)
    requires RewrittenTo(meta, ptrs, node, r, ListStart(meta, level) + COUNT_BYTES) && HasList(meta, node, level)
    requires forall i :: ListStart(meta, level) <= i < ListStart(meta, level) + COUNT_BYTES ==> !InSlot(meta, node, i)
    ensures Le32(r, ListStart(meta, level)) == CountAt(meta, node, level)
  {
  }

  lemma {:induction false} SlotAvoidsCount(meta: Meta, level: nat, l: nat, j: nat)
    requires j < Capacity(meta, l)
    ensures SlotAt(meta, l, j) + SLOT_BYTES <= ListStart(meta, level)
         || ListStart(meta, level) + COUNT_BYTES <= SlotAt(meta, l, j)
  {
    if l < level {
      ListStartMonotone(meta, l, level);
    } else if l > level {
      ListStartMonotone(meta, level, l);
    }
  }

  lemma {:induction false} CountHoldsNoSlot(meta: Meta, node: seq<byte>, level: nat, i: nat)
    requires ListStart(meta, level) <= i < ListStart(meta, level) + COUNT_BYTES
    ensures !InSlot(meta, node, i)
  {
    hide ListStart, ListBytes, Capacity, SlotAt;
    if InSlot(meta, node, i) {
      var l, j :| IsSlot(meta, node, l, j) && SlotAt(meta, l, j) <= i < SlotAt(meta, l, j) + SLOT_BYTES;
      SlotAvoidsCount(meta, level, l, j);
    }
  }

  /** From behind the last used slot of a level to the first slot of the next, or to the end. */
  lemma {:induction false} ListDone(meta: Meta, ptrs: seq<ItemPointer>, node: seq<byte>, r: seq<byte>, level: nat)
    requires HasList(meta, node, level)
    requires RewrittenTo(meta, ptrs, node, r, SlotAt(meta, level, CountAt(meta, node, level)))
    ensures if level < LevelOf(node) then RewrittenTo(meta, ptrs, node, r, SlotAt(meta, level + 1, 0))
            else RewrittenTo(meta, ptrs, node, r, |node|)
  {
    var from := SlotAt(meta, level, CountAt(meta, node, level));
    ListsAreConsecutive(meta, level);
    var to := if level < LevelOf(node) then SlotAt(meta, level + 1, 0) else |node|;
    if level < LevelOf(node) {
      assert HasList(meta, node, level + 1);
    }
    assert CountAt(meta, node, level) <= Capacity(meta, level);
    forall l, j | IsSlot(meta, node, l, j) ensures SlotAt(meta, l, j) + SLOT_BYTES <= from || to <= SlotAt(meta, l, j) {
      SlotBesideGap(meta, node, level, l, j);
    }
    RewriteGap(meta, ptrs, node, r, from, to);
  }

  lemma {:induction false} SlotBesideGap(meta: Meta, node: seq<byte>, level: nat, l: nat, j: nat)
    requires IsSlot(meta, node, l, j) && HasList(meta, node, level)
    ensures SlotAt(meta, l, j) + SLOT_BYTES <= SlotAt(meta, level, CountAt(meta, node, level))
         || (l > level && SlotAt(meta, level + 1, 0) <= SlotAt(meta, l, j))
  {
    if l < level {
      ListStartMonotone(meta, l, level);
    } else if l > level + 1 {
      ListStartMonotone(meta, level + 1, l);
    }
  }

  /** The loops over levels and slots. */
  method RewriteNode(meta: Meta, ptrs: array<ItemPointer>, node: seq<byte>) returns (r: seq<byte>)
    requires GraphNode(meta, node, ptrs.Length) && PointersInRange(ptrs[..])
    ensures Rewritten(meta, ptrs[..], node, r)
  {
    hide RewrittenTo, PointersInRange;
    r := node;
    var level := LevelOf(node);
    RewriteStart(meta, ptrs[..], node);
    for i := 0 to level + 1
      invariant |r| == |node|
      invariant if i <= level then RewrittenTo(meta, ptrs[..], node, r, SlotAt(meta, i, 0))
                else RewrittenTo(meta, ptrs[..], node, r, |node|)
    {
      assert HasList(meta, node, i);
      forall k | ListStart(meta, i) <= k < ListStart(meta, i) + COUNT_BYTES ensures !InSlot(meta, node, k) {
        CountHoldsNoSlot(meta, node, i, k);
      }
      CountUntouched(meta, ptrs[..], node, r, i);
      var slots := Le32(r, ListStart(meta, i));
      r := RewriteList(meta, ptrs, node, r, i, slots);
      ListDone(meta, ptrs[..], node, r, i);
    }
  }

  method RewriteList(meta: Meta, ptrs: array<ItemPointer>, ghost node: seq<byte>, start: seq<byte>, i: nat, slots: nat)
    returns (r: seq<byte>)
    requires GraphNode(meta, node, ptrs.Length) && PointersInRange(ptrs[..])
    requires HasList(meta, node, i) && slots == CountAt(meta, node, i) && |start| == |node|
    requires RewrittenTo(meta, ptrs[..], node, start, SlotAt(meta, i, 0))
    ensures |r| == |node| && RewrittenTo(meta, ptrs[..], node, r, SlotAt(meta, i, slots))
  {
    hide RewrittenTo, EncodePointer;
    r := start;
    for j := 0 to slots
      invariant |r| == |node| && RewrittenTo(meta, ptrs[..], node, r, SlotAt(meta, i, j))
    {
      assert IsSlot(meta, node, i, j);
      RewriteSlot(meta, ptrs[..], node, r, i, j);
      var at := SlotAt(meta, i, j);
      var nid := SeqidAt(r, at);
      r := Overwrite(r, at, EncodePointer(ptrs[nid]));
    }
  }
}
