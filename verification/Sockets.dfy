/**
 A byte stream with partial reads and writes. What the peer delivered and has not been
 read yet is `incoming`; the two oracles say how much each call moves, so a statement
 about every oracle is a statement about every fragmentation.
 */
module Sockets {
  import opened Basics
  import opened Bytes

  const ERR_MSG: nat := 0x3733_3337

  /** Bytes moved by one call: at least one when there is room and data, never more than both. */
  function Moved(offer: nat, room: nat, available: nat): (n: nat)
    ensures n <= room && n <= available
    ensures n == 0 <==> room == 0 || available == 0
  {
    Min(Min(if offer == 0 then 1 else offer, room), available)
  }

  /** The number of the call after a loop that reads until the room is full or the stream has ended. */
  function CallAfter(offer: nat -> nat, call: nat, room: nat, available: nat): nat
    decreases room
  {
    if room == 0 then call
    else
      var n := Moved(offer(call), room, available);
      if n == 0 then call + 1 else CallAfter(offer, call + 1, room - n, available - n)
  }

  /** Some read of that loop returns at least the four bytes of a message header. */
  function SomeLongRead(offer: nat -> nat, call: nat, room: nat, available: nat): bool
    decreases room
  {
    var n := Moved(offer(call), room, available);
    n >= 4 || (n > 0 && SomeLongRead(offer, call + 1, room - n, available - n))
  }

  /** The loop takes what it reads for an error message: the region starts like one, and some read is long
      enough for the start to be looked at. */
  ghost predicate ReadsError(offer: nat -> nat, call: nat, room: nat, bytes: seq<byte>) {
    SomeLongRead(offer, call, room, |bytes|) && StartsError(bytes)
  }

  ghost predicate StartsError(bytes: seq<byte>) {
    |bytes| >= 4 && Le32(bytes, 0) == ERR_MSG
  }

  /** The loop that started at call `first` is at call `call` with `total` bytes read and no error seen. */
  ghost predicate Reading(offer: nat -> nat, first: nat, size: nat, src: seq<byte>, call: nat, total: nat) {
    && total <= size && total <= |src|
    && CallAfter(offer, call, size - total, |src| - total) == CallAfter(offer, first, size, |src|)
    && (ReadsError(offer, first, size, src) <==>
          SomeLongRead(offer, call, size - total, |src| - total) && StartsError(src))
  }

  lemma {:induction false} ReadingNext(offer: nat -> nat, first: nat, size: nat, src: seq<byte>, call: nat, total: nat)
    requires Reading(offer, first, size, src, call, total) && total < size
    ensures var n := Moved(offer(call), size - total, |src| - total);
      && (n >= 4 && StartsError(src) ==> ReadsError(offer, first, size, src))
      && (n == 0 ==> !ReadsError(offer, first, size, src) && call + 1 == CallAfter(offer, first, size, |src|))
      && (n > 0 && !(n >= 4 && StartsError(src)) ==> Reading(offer, first, size, src, call + 1, total + n))
  {
    hide Moved, Le32;
  }

  lemma {:induction false} ReadingStart(offer: nat -> nat, first: nat, size: nat, src: seq<byte>)
    ensures Reading(offer, first, size, src, first, 0)
  {
  }

  lemma {:induction false} ReadingDone(offer: nat -> nat, first: nat, size: nat, src: seq<byte>, call: nat)
    requires Reading(offer, first, size, src, call, size)
    ensures !ReadsError(offer, first, size, src) && call == CallAfter(offer, first, size, |src|)
  {
    hide Le32;
  }

  class Socket {
    var incoming: seq<byte>
    var outgoing: seq<byte>
    var readCalls: nat
    var writeCalls: nat
    const readOffer: nat -> nat
    const writeOffer: nat -> nat

    constructor (incoming: seq<byte>, readOffer: nat -> nat, writeOffer: nat -> nat)
      ensures this.incoming == incoming && outgoing == [] && readCalls == 0
      ensures this.readOffer == readOffer
    {
      this.incoming, this.outgoing, this.readCalls, this.writeCalls := incoming, [], 0, 0;
      this.readOffer, this.writeOffer := readOffer, writeOffer;
    }

    /** read(2): some of the delivered bytes; 0 means the peer closed the stream. */
    method Read(buf: array<byte>, at: nat, size: nat) returns (n: nat)
      requires at + size <= buf.Length
      modifies this`incoming, this`readCalls, buf
      ensures n == Moved(readOffer(old(readCalls)), size, |old(incoming)|)
      ensures readCalls == old(readCalls) + 1
      ensures incoming == old(incoming)[n..]
      ensures buf[..] == Overwrite(old(buf[..]), at, old(incoming)[..n])
    {
      n := Moved(readOffer(readCalls), size, |incoming|);
      forall i | 0 <= i < n {
        buf[at + i] := incoming[i];
      }
      incoming, readCalls := incoming[n..], readCalls + 1;
    }

    /** read_data_exact: read until the buffer is full or the stream ends. */
    method ReadExact(buf: array<byte>, at: nat, size: nat) returns (total: nat)
      requires at + size <= buf.Length
      modifies this`incoming, this`readCalls, buf
      ensures total == Min(size, |old(incoming)|)
      ensures readCalls == CallAfter(readOffer, old(readCalls), size, |old(incoming)|)
      ensures incoming == old(incoming)[total..]
      ensures buf[..] == Overwrite(old(buf[..]), at, old(incoming)[..total])
    {
      hide Overwrite, Moved;
      total := 0;
      while total < size
        invariant total <= size && total <= |old(incoming)|
        invariant incoming == old(incoming)[total..]
        invariant CallAfter(readOffer, readCalls, size - total, |incoming|)
               == CallAfter(readOffer, old(readCalls), size, |old(incoming)|)
        invariant buf[..] == Overwrite(old(buf[..]), at, old(incoming)[..total])
        decreases size - total
      {
        var n := Read(buf, at + total, size - total);
        OverwriteNext(old(buf[..]), at, old(incoming), total, n);
        if n == 0 {
          break;
        }
        total := total + n;
      }
    }

    /** external_index_read_all: the same loop, but after every read of at least four bytes the start of the
        region is compared with the error message header, and a match raises an error. */
    method ReadAll(buf: array<byte>, at: nat, size: nat) returns (ok: bool, total: nat)
      requires at + size <= buf.Length
      modifies this`incoming, this`readCalls, buf
      ensures ok <==> !ReadsError(readOffer, old(readCalls), size, old(incoming))
      ensures ok ==> total == Min(size, |old(incoming)|)
      ensures ok ==> readCalls == CallAfter(readOffer, old(readCalls), size, |old(incoming)|)
      ensures ok ==> incoming == old(incoming)[total..]
      ensures ok ==> buf[..] == Overwrite(old(buf[..]), at, old(incoming)[..total])
    {
      hide Overwrite, Moved, CallAfter, SomeLongRead, ReadsError, Reading, Le32;
      ghost var src := incoming;
      ok, total := true, 0;
      ReadingStart(readOffer, readCalls, size, src);
      while total < size
        invariant ok && total <= size && total <= |src| && incoming == src[total..]
        invariant Reading(readOffer, old(readCalls), size, src, readCalls, total)
        invariant buf[..] == Overwrite(old(buf[..]), at, src[..total])
        decreases size - total
      {
        ReadingNext(readOffer, old(readCalls), size, src, readCalls, total);
        var n := Read(buf, at + total, size - total);
        OverwriteNext(old(buf[..]), at, src, total, n);
        if n >= 4 {
          RegionStart(old(buf[..]), at, src, total + n);
          if Le32(buf[..], at) == ERR_MSG {
            return false, total;
          }
        }
        if n == 0 {
          return;
        }
        total := total + n;
      }
      ReadingDone(readOffer, old(readCalls), size, src, readCalls);
    }

    /** write(2): takes a prefix of what it is given. */
    method Write(data: seq<byte>) returns (n: nat)
      modifies this`outgoing, this`writeCalls
      ensures n == Moved(writeOffer(old(writeCalls)), |data|, |data|)
      ensures writeCalls == old(writeCalls) + 1
      ensures outgoing == old(outgoing) + data[..n]
    {
      n := Moved(writeOffer(writeCalls), |data|, |data|);
      outgoing, writeCalls := outgoing + data[..n], writeCalls + 1;
    }

    /** external_index_write_all: every byte goes out once and in order, however the writes split. */
    method WriteAll(data: seq<byte>)
      modifies this`outgoing, this`writeCalls
      ensures outgoing == old(outgoing) + data
    {
      var total := 0;
      while total < |data|
        invariant total <= |data|
        invariant outgoing == old(outgoing) + data[..total]
      {
        var n := Write(data[total..]);
        assert data[..total] + data[total..][..n] == data[..total + n];
        total := total + n;
      }
    }
  }

  lemma {:induction false} OverwriteNext(b: seq<byte>, at: nat, src: seq<byte>, total: nat, n: nat)
    requires total + n <= |src| && at + total + n <= |b|
    ensures Overwrite(Overwrite(b, at, src[..total]), at + total, src[total..][..n])
         == Overwrite(b, at, src[..total + n])
  {
    assert src[..total + n] == src[..total] + src[total..][..n];
  }

  lemma {:induction false} RegionStart(b: seq<byte>, at: nat, src: seq<byte>, n: nat)
    requires 4 <= n <= |src| && at + n <= |b|
    ensures Le32(Overwrite(b, at, src[..n]), at) == Le32(src, 0)
  {
    var r := Overwrite(b, at, src[..n]);
    assert forall i :: 0 <= i < n ==> r[at + i] == r[at..at + n][i] == src[i];
  }
}
