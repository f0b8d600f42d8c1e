/**
 The bytes of a graph node (usearch's tape) and of the pointers stored in it.

 A node is an 8-byte label, a 2-byte level, one neighbour list per level (a 4-byte
 count and a fixed number of 6-byte slots) and the vector. A slot is a union: a
 4-byte sequence id while the graph is built, a 6-byte item pointer once stored.
 */
module NodeLayout {
  import opened Bytes
  import opened Pages

  const INVALID_LABEL: nat := 0     // INVALID_ELEMENT_LABEL, the label of a deleted node
  const NODE_HEAD: nat := 10
  const LABEL_BYTES: nat := 8
  const COUNT_BYTES: nat := 4
  const SLOT_BYTES: nat := 6

  datatype Meta = Meta(baseSlots: nat, levelSlots: nat, vectorBytes: nat)

  function Capacity(meta: Meta, level: nat): nat {
    if level == 0 then meta.baseSlots else meta.levelSlots
  }

  function ListBytes(meta: Meta, level: nat): nat {
    COUNT_BYTES + SLOT_BYTES * Capacity(meta, level)
  }

  function Times(a: nat, b: nat): (r: nat) {
    a * b
  }

  /** Where the neighbour list of a level starts inside the node. */
  function ListStart(meta: Meta, level: nat): nat {
    if level == 0 then NODE_HEAD
    else NODE_HEAD + ListBytes(meta, 0) + Times(ListBytes(meta, 1), level - 1)
  }

  /** UsearchNodeBytes / node_tuple_size: the size follows from the level alone. */
  function NodeBytes(meta: Meta, level: nat): nat {
    NODE_HEAD + ListBytes(meta, 0) + Times(ListBytes(meta, 1), level) + meta.vectorBytes
  }

  function LevelOf(node: seq<byte>): nat
    requires |node| >= NODE_HEAD
  {
    Le16(node, LABEL_BYTES)
  }

  function LabelOf(node: seq<byte>): nat
    requires |node| >= NODE_HEAD
  {
    Le32(node, 0) + 0x1_0000_0000 * Le32(node, 4)
  }

  /** A node the store can take: its length is what its level says it is. */
  ghost predicate Sized(meta: Meta, node: seq<byte>) {
    && |node| >= NODE_HEAD
    && |node| == NodeBytes(meta, LevelOf(node))
    && LevelOf(node) < 100
  }

  lemma {:induction false} ListsAreConsecutive(meta: Meta, level: nat)
    ensures ListStart(meta, level + 1) == ListStart(meta, level) + ListBytes(meta, level)
    ensures NodeBytes(meta, level) == ListStart(meta, level + 1) + meta.vectorBytes
    ensures NodeBytes(meta, level)
         == 10 + (4 + 6 * meta.baseSlots) + level * (4 + 6 * meta.levelSlots) + meta.vectorBytes
  {
    assert ListBytes(meta, 1) * level == level * (4 + 6 * meta.levelSlots);
    if level > 0 {
      assert ListBytes(meta, 1) * level == ListBytes(meta, 1) * (level - 1) + ListBytes(meta, 1);
    }
  }

  lemma {:induction false} ListStartMonotone(meta: Meta, a: nat, b: nat)
    requires a < b
    ensures ListStart(meta, a) + ListBytes(meta, a) <= ListStart(meta, b)
    decreases b
  {
    ListsAreConsecutive(meta, b - 1);
    if a < b - 1 {
      ListStartMonotone(meta, a, b - 1);
    }
  }

  // ----- item pointers and labels

  ghost predicate PointerInRange(p: ItemPointer) {
    p.block < 0x1_0000_0000 && 1 <= p.pos < 0x1_0000
  }

  /** ItemPointerData in memory: high half of the block, low half, position. */
  function EncodePointer(p: ItemPointer): (b: seq<byte>)
    requires PointerInRange(p)
    ensures |b| == SLOT_BYTES
  {
    Put16(p.block / 0x1_0000) + Put16(p.block % 0x1_0000) + Put16(p.pos)
  }

  function DecodePointer(b: seq<byte>): (p: ItemPointer)
    requires |b| == SLOT_BYTES
  {
    ItemPointer(Le16(b, 0) * 0x1_0000 + Le16(b, 2), Le16(b, 4))
  }

  lemma {:induction false} PointerRoundTrip(p: ItemPointer)
    requires PointerInRange(p)
    ensures DecodePointer(EncodePointer(p)) == p
  {
  }

  /** ItemPointer2Label: the six bytes copied into a zeroed 64-bit integer. */
  function PointerToLabel(p: ItemPointer): (lbl: nat)
    requires PointerInRange(p)
  {
    var b := EncodePointer(p) + [0, 0];
    Le32(b, 0) + 0x1_0000_0000 * Le32(b, 4)
  }

  /** label2ItemPointer: the low six bytes of the label. */
  function LabelToPointer(lbl: nat): (p: ItemPointer) {
    var low := lbl % 0x1_0000_0000;
    ItemPointer(low % 0x1_0000 * 0x1_0000 + low / 0x1_0000, lbl / 0x1_0000_0000 % 0x1_0000)
  }

  lemma {:induction false} Halves16(low: nat, high: nat)
    requires low < 0x1_0000
    ensures (low + 0x1_0000 * high) % 0x1_0000 == low && (low + 0x1_0000 * high) / 0x1_0000 == high
  {
  }

  lemma {:induction false} Halves32(low: nat, high: nat)
    requires low < 0x1_0000_0000
    ensures (low + 0x1_0000_0000 * high) % 0x1_0000_0000 == low
    ensures (low + 0x1_0000_0000 * high) / 0x1_0000_0000 == high
  {
  }

  /** Labels round-trip, and no heap tuple gets the label 0 that marks a deleted node. */
  lemma {:induction false} LabelRoundTrip(p: ItemPointer)
    requires PointerInRange(p)
    ensures LabelToPointer(PointerToLabel(p)) == p
    ensures PointerToLabel(p) != 0
    ensures PointerToLabel(p) < 0x1_0000_0000_0000_0000
  {
    LabelValue(p);
    Halves16(p.block / 0x1_0000, p.block % 0x1_0000);
    Halves32(p.block / 0x1_0000 + 0x1_0000 * (p.block % 0x1_0000), p.pos);
  }

  lemma {:induction false} LabelValue(p: ItemPointer)
    requires PointerInRange(p)
    ensures PointerToLabel(p) == p.block / 0x1_0000 + 0x1_0000 * (p.block % 0x1_0000) + 0x1_0000_0000 * p.pos
  {
    var b := EncodePointer(p) + [0, 0];
    assert Le16(b, 0) == p.block / 0x1_0000;
    assert Le16(b, 2) == p.block % 0x1_0000;
    assert Le16(b, 4) == p.pos;
    assert Le16(b, 6) == 0;
  }

  lemma {:induction false} LabelsInjective(p: ItemPointer, q: ItemPointer)
    requires PointerInRange(p) && PointerInRange(q)
    requires PointerToLabel(p) == PointerToLabel(q)
    ensures p == q
  {
    LabelRoundTrip(p);
    LabelRoundTrip(q);
  }
}
