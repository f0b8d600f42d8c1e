/**
 Bytes and little-endian integers, as the C code reads and writes them with memcpy
 on a little-endian machine.
 */
module Bytes {

  type byte = x: int | 0 <= x < 256

  function Le16(b: seq<byte>, at: nat): (v: nat)
    requires at + 2 <= |b|
    ensures v < 0x1_0000
  {
    b[at] as int + 256 * b[at + 1] as int
  }

  function Le32(b: seq<byte>, at: nat): (v: nat)
    requires at + 4 <= |b|
    ensures v < 0x1_0000_0000
  {
    Le16(b, at) + 0x1_0000 * Le16(b, at + 2)
  }

  function Put16(v: nat): (b: seq<byte>)
    requires v < 0x1_0000
    ensures |b| == 2 && Le16(b, 0) == v
  {
    [v % 256, v / 256]
  }

  function Put32(v: nat): (b: seq<byte>)
    requires v < 0x1_0000_0000
    ensures |b| == 4 && Le32(b, 0) == v
  {
    Put16(v % 0x1_0000) + Put16(v / 0x1_0000)
  }

  /** `b` with the bytes of `v` copied over it at position `at`. */
  function Overwrite(b: seq<byte>, at: nat, v: seq<byte>): (r: seq<byte>)
    requires at + |v| <= |b|
    ensures |r| == |b|
    ensures r[at..at + |v|] == v
    ensures forall i :: 0 <= i < |b| && !(at <= i < at + |v|) ==> r[i] == b[i]
  {
    b[..at] + v + b[at + |v|..]
  }

  /** A stretch of `b` that an overwrite does not touch keeps its bytes. */
  lemma {:induction false} OverwriteElsewhere(b: seq<byte>, at: nat, v: seq<byte>, from: nat, to: nat)
    requires at + |v| <= |b| && from <= to <= |b|
    requires to <= at || at + |v| <= from
    ensures Overwrite(b, at, v)[from..to] == b[from..to]
  {
  }

  /** Concatenation of a list of byte strings. */
  function Flatten(parts: seq<seq<byte>>): (r: seq<byte>)
    ensures parts == [] ==> r == []
  {
    if parts == [] then [] else parts[0] + Flatten(parts[1..])
  }

  lemma {:induction false} FlattenConcat(a: seq<seq<byte>>, b: seq<seq<byte>>)
    ensures Flatten(a + b) == Flatten(a) + Flatten(b)
  {
    if a == [] {
      assert a + b == b;
    } else {
      FlattenConcat(a[1..], b);
      assert (a + b)[1..] == a[1..] + b;
    }
  }

  lemma {:induction false} FlattenSnoc(parts: seq<seq<byte>>, p: seq<byte>)
    ensures Flatten(parts + [p]) == Flatten(parts) + p
  {
    FlattenConcat(parts, [p]);
    assert [p][1..] == [];
    assert Flatten([p]) == p + [];
  }

  /** The k-th part sits right behind the first k parts. */
  lemma {:induction false} FlattenSplit(parts: seq<seq<byte>>, k: nat)
    requires k < |parts|
    ensures Flatten(parts[..k + 1]) == Flatten(parts[..k]) + parts[k]
    ensures Flatten(parts) == Flatten(parts[..k + 1]) + Flatten(parts[k + 1..])
  {
    assert parts[..k + 1] == parts[..k] + [parts[k]];
    FlattenSnoc(parts[..k], parts[k]);
    assert parts == parts[..k + 1] + parts[k + 1..];
    FlattenConcat(parts[..k + 1], parts[k + 1..]);
  }
}
