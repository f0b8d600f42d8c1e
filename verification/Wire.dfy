/**
 The external indexing protocol: the client streams fixed-size tuple frames and an end message, the
 server cuts the byte stream back into frames, whatever the fragmentation.
 */
module Wire {
  import opened Bytes
  import opened Pages
  import opened NodeLayout
  import opened Sockets

  const PROTOCOL_HEADER: nat := 4
  const LABEL_SIZE: nat := 8
  const INIT_MSG: nat := 0x1333_3337
  const END_MSG: nat := 0x3133_3337

  datatype Row = Row(lbl: nat, vector: seq<byte>)
  datatype Message = Exit | Init(buf: seq<byte>) | Data(buf: seq<byte>) | Invalid
  datatype Received = Rows(rows: seq<Row>) | Refused

  // ----- sizes

  /** Bytes of a tuple as the client computes them, from the column's dimensions. */
  function ClientTupleSize(scalarBits: nat, dimensions: nat): nat {
    if scalarBits < 8 then LABEL_SIZE + (dimensions * 32 + 7) / 8
    else LABEL_SIZE + dimensions * (scalarBits / 8)
  }

  /** Bytes of a frame as the server computes them, from the dimensions the client announced. */
  function ServerFrameSize(elementBits: nat, dimensions: nat): nat {
    if elementBits < 8 then LABEL_SIZE + (dimensions + 7) / 8
    else LABEL_SIZE + dimensions * (elementBits / 8)
  }

  /** Dimensions in the init message: with the hamming metric they count bits. */
  function AnnouncedDimensions(hamming: bool, dimensions: nat): nat {
    if hamming then dimensions * 32 else dimensions
  }

  lemma {:induction false} FrameSizesAgree(hamming: bool, dimensions: nat)
    ensures var bits := if hamming then 1 else 32;
      && ClientTupleSize(bits, dimensions) == ServerFrameSize(bits, AnnouncedDimensions(hamming, dimensions))
      && ClientTupleSize(bits, dimensions) == LABEL_SIZE + 4 * dimensions
  {
  }

  // ----- frames

  function LabelBytes(tid: ItemPointer): (b: seq<byte>)
    requires PointerInRange(tid)
    ensures |b| == LABEL_SIZE
  {
    EncodePointer(tid) + [0, 0]
  }

  function ParseTuple(buf: seq<byte>): Row
    requires |buf| >= LABEL_SIZE
  {
    Row(Le32(buf, 0) + 0x1_0000_0000 * Le32(buf, 4), buf[LABEL_SIZE..])
  }

  lemma {:induction false} ParseFrame(tid: ItemPointer, vector: seq<byte>)
    requires PointerInRange(tid)
    ensures ParseTuple(LabelBytes(tid) + vector) == Row(PointerToLabel(tid), vector)
  {
    var f := LabelBytes(tid) + vector;
    assert forall i :: 0 <= i < LABEL_SIZE ==> f[i] == LabelBytes(tid)[i];
    assert f[LABEL_SIZE..] == vector;
  }

  /** A frame looks like a control message exactly for one heap block each. */
  lemma {:induction false} PrefixOfFrame(tid: ItemPointer, vector: seq<byte>)
    requires PointerInRange(tid)
    ensures Le32(LabelBytes(tid) + vector, 0) == END_MSG <==> tid.block == 0x3337_3133
    ensures Le32(LabelBytes(tid) + vector, 0) == INIT_MSG <==> tid.block == 0x3337_1333
  {
    var f, hi, lo := LabelBytes(tid) + vector, tid.block / 0x1_0000, tid.block % 0x1_0000;
    assert forall i :: 0 <= i < LABEL_SIZE ==> f[i] == LabelBytes(tid)[i];
    assert Le16(f, 0) == hi && Le16(f, 2) == lo;
  }

  ghost predicate Frames(frames: seq<seq<byte>>, size: nat) {
    forall i :: 0 <= i < |frames| ==> |frames[i]| == size
  }

  /** What the server makes of a stream of frames followed by the end message: a frame whose first
      bytes read as END ends the stream early, one that reads as INIT is refused. */
  ghost function Decode(frames: seq<seq<byte>>, size: nat): Received
    requires Frames(frames, size) && size >= LABEL_SIZE
  {
    if frames == [] || Le32(frames[0], 0) == END_MSG then Rows([])
    else if Le32(frames[0], 0) == INIT_MSG then Refused
    else match Decode(frames[1..], size)
      case Rows(rows) => Rows([ParseTuple(frames[0])] + rows)
      case Refused => Refused
  }

  ghost predicate NoControlPrefix(frames: seq<seq<byte>>, size: nat)
    requires Frames(frames, size) && size >= LABEL_SIZE
  {
    forall i :: 0 <= i < |frames| ==> Le32(frames[i], 0) != END_MSG && Le32(frames[i], 0) != INIT_MSG
  }

  ghost function ParseAll(frames: seq<seq<byte>>, size: nat): seq<Row>
    requires Frames(frames, size) && size >= LABEL_SIZE
  {
    if frames == [] then [] else [ParseTuple(frames[0])] + ParseAll(frames[1..], size)
  }

  lemma {:induction false} ParseAllLength(frames: seq<seq<byte>>, size: nat)
    requires Frames(frames, size) && size >= LABEL_SIZE
    ensures |ParseAll(frames, size)| == |frames|
    ensures forall i :: 0 <= i < |frames| ==> ParseAll(frames, size)[i] == ParseTuple(frames[i])
  {
    if frames != [] {
      ParseAllLength(frames[1..], size);
    }
  }

  lemma {:induction false} DecodeLength(frames: seq<seq<byte>>, size: nat)
    requires Frames(frames, size) && size >= LABEL_SIZE
    ensures Decode(frames, size).Rows? ==> |Decode(frames, size).rows| <= |frames|
    ensures Decode(frames, size) == Rows(ParseAll(frames, size)) ==> NoControlPrefix(frames, size)
    ensures NoControlPrefix(frames, size) ==> Decode(frames, size) == Rows(ParseAll(frames, size))
  {
    if frames != [] {
      DecodeLength(frames[1..], size);
      ParseAllLength(frames, size);
      ParseAllLength(frames[1..], size);
      assert frames == [frames[0]] + frames[1..];
    }
  }

  // ----- the server

  /** The meaning of a frame at the head of `bytes` when the first read returns `first` bytes of it. */
  ghost function FrameOf(bytes: seq<byte>, expected: nat, first: nat, wanted: nat, checkHeader: bool): Message
    requires first <= |bytes|
  {
    if first < PROTOCOL_HEADER then Invalid
    else if Le32(bytes, 0) == END_MSG then Exit
    else if (checkHeader && Le32(bytes, 0) != wanted) || |bytes| < expected then Invalid
    else if Le32(bytes, 0) == INIT_MSG then Init(bytes[..expected])
    else Data(bytes[..expected])
  }

  /** read_frame: one read into the frame buffer, and if that was not all of it, the rest. */
  method ReadFrame(stream: Socket, expected: nat, wanted: nat, checkHeader: bool) returns (m: Message, ghost first: nat)
    requires expected >= PROTOCOL_HEADER
    modifies stream`incoming, stream`readCalls
    ensures first == Moved(stream.readOffer(old(stream.readCalls)), expected, |old(stream.incoming)|)
    ensures m == FrameOf(old(stream.incoming), expected, first, wanted, checkHeader)
    ensures m.Exit? ==> stream.incoming == old(stream.incoming)[first..]
    ensures m.Data? || m.Init? ==> stream.incoming == old(stream.incoming)[expected..]
    ensures m.Data? ==>
      stream.readCalls == CallAfter(stream.readOffer, old(stream.readCalls), expected, |old(stream.incoming)|)
  {
    hide Overwrite, Le32, Moved, CallAfter;
    ghost var bytes, call := stream.incoming, stream.readCalls;
    FirstOfAll(stream.readOffer, call, expected, |bytes|);
    var buf := new byte[expected](i => 0);
    ghost var empty := buf[..];
    var n := stream.Read(buf, 0, expected);
    first := n;
    if n < PROTOCOL_HEADER {
      return Invalid, first;
    }
    ReadAtStart(empty, bytes[..n]);
    HeaderRead(buf[..], bytes, n);
    var msg := Le32(buf[..], 0);
    if msg == END_MSG {
      return Exit, first;
    }
    if checkHeader && msg != wanted {
      return Invalid, first;
    }
    if expected > n {
      ghost var before := buf[..];
      var got := stream.ReadExact(buf, n, expected - n);
      if got < expected - n {
        return Invalid, first;
      }
      RestRead(before, buf[..], bytes, n, expected);
    } else {
      assert buf[..] == bytes[..expected];
    }
    m := if msg == INIT_MSG then Init(buf[..]) else Data(buf[..]);
  }

  /** The first read of a loop leaves the loop's remaining reads to the rest. */
  lemma {:induction false} FirstOfAll(offer: nat -> nat, call: nat, room: nat, available: nat)
    requires room > 0
    ensures var n := Moved(offer(call), room, available);
      n > 0 ==> CallAfter(offer, call, room, available) == CallAfter(offer, call + 1, room - n, available - n)
    ensures Moved(offer(call), room, available) == room ==> CallAfter(offer, call, room, available) == call + 1
  {
    hide Moved;
  }

  lemma {:induction false} ReadAtStart(b: seq<byte>, v: seq<byte>)
    requires |v| <= |b|
    ensures Overwrite(b, 0, v)[0..0 + |v|] == v
  {
  }

  lemma {:induction false} HeaderRead(buf: seq<byte>, bytes: seq<byte>, n: nat)
    requires PROTOCOL_HEADER <= n <= |buf| && n <= |bytes| && buf[0..0 + n] == bytes[..n]
    ensures Le32(buf, 0) == Le32(bytes, 0) && buf[..n] == bytes[..n]
  {
    forall i | 0 <= i < n ensures buf[i] == bytes[i] {
      assert buf[0..0 + n][i] == bytes[..n][i];
    }
  }

  lemma {:induction false} RestRead(before: seq<byte>, after: seq<byte>, bytes: seq<byte>, n: nat, expected: nat)
    requires n <= expected == |before| && expected <= |bytes| && before[..n] == bytes[..n]
    requires after == Overwrite(before, n, bytes[n..][..expected - n])
    ensures after == bytes[..expected] && bytes[n..][expected - n..] == bytes[expected..]
  {
    assert after[..n] == before[..n];
  }

  ghost function Prepend(rows: seq<Row>, d: Received): Received {
    if d.Rows? then Rows(rows + d.rows) else Refused
  }

  lemma {:induction false} DecodeStep(rows: seq<Row>, frames: seq<seq<byte>>, size: nat)
    requires Frames(frames, size) && size >= LABEL_SIZE && frames != []
    requires Le32(frames[0], 0) != END_MSG && Le32(frames[0], 0) != INIT_MSG
    ensures Prepend(rows, Decode(frames, size)) == Prepend(rows + [ParseTuple(frames[0])], Decode(frames[1..], size))
  {
    hide ParseTuple;
    var d := Decode(frames[1..], size);
    if d.Rows? {
      assert rows + ([ParseTuple(frames[0])] + d.rows) == rows + [ParseTuple(frames[0])] + d.rows;
    }
  }

  /** The head of the stream: the next frame, or the end message. */
  lemma {:induction false} StreamHead(frames: seq<seq<byte>>, size: nat)
    requires Frames(frames, size) && size >= LABEL_SIZE
    ensures var bytes := Flatten(frames) + Put32(END_MSG);
      if frames == [] then
        |bytes| == PROTOCOL_HEADER && Le32(bytes, 0) == END_MSG
      else
        && |bytes| >= size && bytes[..size] == frames[0] && Le32(bytes, 0) == Le32(frames[0], 0)
        && bytes[size..] == Flatten(frames[1..]) + Put32(END_MSG)
  {
    var bytes := Flatten(frames) + Put32(END_MSG);
    if frames == [] {
      assert bytes == Put32(END_MSG);
    } else {
      assert bytes == frames[0] + (Flatten(frames[1..]) + Put32(END_MSG));
      assert forall i :: 0 <= i < size ==> bytes[i] == frames[0][i];
    }
  }

  /** initialize_index: the server goes on exactly if the first frame is a whole init message, read with at least
      its header at once. */
  method ReceiveInit(stream: Socket, expected: nat) returns (accepted: bool, payload: seq<byte>)
    requires expected >= PROTOCOL_HEADER
    modifies stream`incoming, stream`readCalls
    ensures accepted <==>
      var bytes := old(stream.incoming);
      && Moved(stream.readOffer(old(stream.readCalls)), expected, |bytes|) >= PROTOCOL_HEADER
      && |bytes| >= expected && Le32(bytes, 0) == INIT_MSG
    ensures accepted ==> payload == old(stream.incoming)[PROTOCOL_HEADER..expected]
                         && stream.incoming == old(stream.incoming)[expected..]
  {
    hide Le32, Moved;
    ghost var bytes := stream.incoming;
    var m, first := ReadFrame(stream, expected, INIT_MSG, true);
    accepted, payload := m.Init?, [];
    if accepted {
      payload := m.buf[PROTOCOL_HEADER..expected];
      assert bytes[..expected][PROTOCOL_HEADER..expected] == bytes[PROTOCOL_HEADER..expected];
    }
  }

  // ----- which reads begin a frame

  /** The number of the read call that begins frame k, every frame before it having been read in full. */
  ghost function FirstCall(offer: nat -> nat, start: nat, frames: seq<seq<byte>>, size: nat, k: nat): nat
    requires k <= |frames|
  {
    if k == 0 then start
    else CallAfter(offer, FirstCall(offer, start, frames, size, k - 1), size,
                   |Flatten(frames[k - 1..]) + Put32(END_MSG)|)
  }

  /** How many frames are read before the one that ends the stream. */
  ghost function Stop(frames: seq<seq<byte>>, size: nat): (k: nat)
    requires Frames(frames, size) && size >= LABEL_SIZE
    ensures k <= |frames|
  {
    if frames == [] || Le32(frames[0], 0) == END_MSG || Le32(frames[0], 0) == INIT_MSG then 0
    else 1 + Stop(frames[1..], size)
  }

  /** The first read of each of the frames 0 to `last`, the end message counted, covers a header. */
  ghost predicate LongFirsts(offer: nat -> nat, start: nat, frames: seq<seq<byte>>, size: nat, last: nat)
    requires last <= |frames|
  {
    forall k :: 0 <= k <= last ==> offer(FirstCall(offer, start, frames, size, k)) >= PROTOCOL_HEADER
  }

  lemma {:induction false} StopHead(frames: seq<seq<byte>>, size: nat)
    requires Frames(frames, size) && size >= LABEL_SIZE
    ensures Stop(frames, size) ==
            if frames == [] || Le32(frames[0], 0) == END_MSG || Le32(frames[0], 0) == INIT_MSG then 0
            else 1 + Stop(frames[1..], size)
  {
  }

  /** receive_rows: for every fragmentation, the rows are those Decode names if the first read of every frame
      it reaches covers the header, and the stream is refused otherwise. */
  method ReceiveRows(stream: Socket, size: nat, ghost frames: seq<seq<byte>>) returns (r: Received)
    requires Frames(frames, size) && size >= LABEL_SIZE
    requires stream.incoming == Flatten(frames) + Put32(END_MSG)
    modifies stream`incoming, stream`readCalls
    ensures r == if LongFirsts(stream.readOffer, old(stream.readCalls), frames, size, Stop(frames, size))
                 then Decode(frames, size) else Refused
  {
    hide Decode, Flatten, ParseTuple, Le32, Stop, CallAfter;
    var rows := [];
    ghost var k, start := 0, stream.readCalls;
    DecodeStart(frames, size);
    while true
      invariant k <= |frames| && stream.incoming == Flatten(frames[k..]) + Put32(END_MSG)
      invariant Prepend(rows, Decode(frames[k..], size)) == Decode(frames, size)
      invariant k + Stop(frames[k..], size) == Stop(frames, size)
      invariant stream.readCalls == FirstCall(stream.readOffer, start, frames, size, k)
      invariant forall j :: 0 <= j < k ==> stream.readOffer(FirstCall(stream.readOffer, start, frames, size, j)) >= PROTOCOL_HEADER
      decreases |frames| - k
    {
      ghost var rest := frames[k..];
      StreamHead(rest, size);
      var m, first := ReadFrame(stream, size, 0, false);
      DecodeHead(rest, size);
      StopHead(rest, size);
      match m
      case Exit =>
        assert rows + [] == rows;
        return Rows(rows);
      case Data(buf) =>
        DecodeStep(rows, rest, size);
        rows := rows + [ParseTuple(buf)];
        k := k + 1;
        assert rest[1..] == frames[k..];
      case Init(_) =>
        return Refused;
      case Invalid =>
        return Refused;
    }
  }

  lemma {:induction false} DecodeStart(frames: seq<seq<byte>>, size: nat)
    requires Frames(frames, size) && size >= LABEL_SIZE
    ensures frames[0..] == frames && Prepend([], Decode(frames, size)) == Decode(frames, size)
  {
    if Decode(frames, size).Rows? {
      assert [] + Decode(frames, size).rows == Decode(frames, size).rows;
    }
  }

  lemma {:induction false} DecodeHead(frames: seq<seq<byte>>, size: nat)
    requires Frames(frames, size) && size >= LABEL_SIZE
    ensures frames == [] || Le32(frames[0], 0) == END_MSG ==> Decode(frames, size) == Rows([])
    ensures frames != [] && Le32(frames[0], 0) == INIT_MSG ==> Decode(frames, size) == Refused
  {
  }

  // ----- the client

  datatype HeapTuple = HeapTuple(tid: ItemPointer, vector: seq<byte>)

  ghost predicate Sendable(tuples: seq<HeapTuple>, dimensions: nat) {
    forall i :: 0 <= i < |tuples| ==>
      PointerInRange(tuples[i].tid) && |tuples[i].vector| == 4 * dimensions
  }

  ghost function FramesOf(tuples: seq<HeapTuple>, dimensions: nat): (f: seq<seq<byte>>)
    requires Sendable(tuples, dimensions)
    ensures |f| == |tuples| && Frames(f, LABEL_SIZE + 4 * dimensions)
    ensures forall i :: 0 <= i < |f| ==> f[i] == LabelBytes(tuples[i].tid) + tuples[i].vector
  {
    seq(|tuples|, i requires 0 <= i < |tuples| => LabelBytes(tuples[i].tid) + tuples[i].vector)
  }

  /** external_index_send_tuple for every tuple, then the end message. */
  method SendTuples(socket: Socket, hamming: bool, dimensions: nat, tuples: seq<HeapTuple>)
    requires Sendable(tuples, dimensions)
    modifies socket`outgoing, socket`writeCalls
    ensures socket.outgoing == old(socket.outgoing) + Flatten(FramesOf(tuples, dimensions)) + Put32(END_MSG)
  {
    hide Flatten, LabelBytes;
    ghost var frames := FramesOf(tuples, dimensions);
    NoFrames(frames);
    for i := 0 to |tuples|
      invariant socket.outgoing == old(socket.outgoing) + Flatten(frames[..i])
    {
      var size := ClientTupleSize(if hamming then 1 else 32, dimensions);
      FrameSizesAgree(hamming, dimensions);
      var frame := LabelBytes(tuples[i].tid) + tuples[i].vector[..size - LABEL_SIZE];
      assert tuples[i].vector[..size - LABEL_SIZE] == tuples[i].vector;
      socket.WriteAll(frame);
      FlattenSplit(frames, i);
    }
    assert frames[..|tuples|] == frames;
    socket.WriteAll(Put32(END_MSG));
  }

  lemma {:induction false} NoFrames(frames: seq<seq<byte>>)
    ensures Flatten(frames[..0]) == []
  {
  }

  /** The rows the server decodes are exactly the tuples sent if and only if no tuple lies in one of
      the two heap blocks whose labels read as control messages; in particular for every heap of
      fewer than 0x33371333 blocks. */
  lemma {:induction false} DecodedAsSent(tuples: seq<HeapTuple>, dimensions: nat)
    requires Sendable(tuples, dimensions)
    ensures var d := Decode(FramesOf(tuples, dimensions), LABEL_SIZE + 4 * dimensions);
      (forall i :: 0 <= i < |tuples| ==> tuples[i].tid.block != 0x3337_3133 && tuples[i].tid.block != 0x3337_1333)
      <==> d.Rows? && |d.rows| == |tuples| && forall i :: 0 <= i < |tuples| ==>
             d.rows[i] == Row(PointerToLabel(tuples[i].tid), tuples[i].vector)
  {
    hide Decode, ParseTuple, PointerToLabel, LabelBytes, Le32;
    var size, frames := LABEL_SIZE + 4 * dimensions, FramesOf(tuples, dimensions);
    DecodeLength(frames, size);
    ParseAllLength(frames, size);
    forall i | 0 <= i < |tuples|
      ensures ParseTuple(frames[i]) == Row(PointerToLabel(tuples[i].tid), tuples[i].vector)
      ensures Le32(frames[i], 0) == END_MSG <==> tuples[i].tid.block == 0x3337_3133
      ensures Le32(frames[i], 0) == INIT_MSG <==> tuples[i].tid.block == 0x3337_1333
    {
      ParseFrame(tuples[i].tid, tuples[i].vector);
      PrefixOfFrame(tuples[i].tid, tuples[i].vector);
    }
    var d := Decode(frames, size);
    if d.Rows? && |d.rows| == |tuples|
       && forall i :: 0 <= i < |tuples| ==> d.rows[i] == Row(PointerToLabel(tuples[i].tid), tuples[i].vector) {
      assert d.rows == ParseAll(frames, size);
    }
  }

  ghost predicate NoControlBlock(tuples: seq<HeapTuple>) {
    forall i :: 0 <= i < |tuples| ==> tuples[i].tid.block != 0x3337_3133 && tuples[i].tid.block != 0x3337_1333
  }

  ghost predicate AsSent(r: Received, tuples: seq<HeapTuple>)
    requires forall i :: 0 <= i < |tuples| ==> PointerInRange(tuples[i].tid)
  {
    && r.Rows? && |r.rows| == |tuples|
    && forall i :: 0 <= i < |tuples| ==> r.rows[i] == Row(PointerToLabel(tuples[i].tid), tuples[i].vector)
  }

  /** Client and server together, over every fragmentation of the writes and of the reads: the rows arrive as
      sent exactly if no tuple is on a control-like block and the first read of every frame, and of the end
      message, covers a header. */
  method Transfer(hamming: bool, dimensions: nat, tuples: seq<HeapTuple>, writeOffer: nat -> nat, readOffer: nat -> nat)
    returns (r: Received)
    requires Sendable(tuples, dimensions)
    ensures var frames, size := FramesOf(tuples, dimensions), LABEL_SIZE + 4 * dimensions;
      AsSent(r, tuples) <==> NoControlBlock(tuples) && LongFirsts(readOffer, 0, frames, size, |frames|)
  {
    hide Decode, Flatten, PointerToLabel, LongFirsts, Stop;
    var client := new Socket([], readOffer, writeOffer);
    SendTuples(client, hamming, dimensions, tuples);
    var server := new Socket(client.outgoing, readOffer, writeOffer);
    var bits := if hamming then 1 else 32;
    FrameSizesAgree(hamming, dimensions);
    DecodedAsSent(tuples, dimensions);
    ghost var frames := FramesOf(tuples, dimensions);
    assert client.outgoing == Flatten(frames) + Put32(END_MSG);
    var size := ServerFrameSize(bits, AnnouncedDimensions(hamming, dimensions));
    r := ReceiveRows(server, size, frames);
    if NoControlBlock(tuples) {
      StopsAtEnd(tuples, dimensions);
    }
  }

  lemma {:induction false} StopsAtEnd(tuples: seq<HeapTuple>, dimensions: nat)
    requires Sendable(tuples, dimensions) && NoControlBlock(tuples)
    ensures Stop(FramesOf(tuples, dimensions), LABEL_SIZE + 4 * dimensions) == |tuples|
  {
    hide LabelBytes, Le32;
    var frames := FramesOf(tuples, dimensions);
    forall i | 0 <= i < |tuples| ensures Le32(frames[i], 0) != END_MSG && Le32(frames[i], 0) != INIT_MSG {
      PrefixOfFrame(tuples[i].tid, tuples[i].vector);
    }
    StopWithout(frames, LABEL_SIZE + 4 * dimensions);
  }

  lemma {:induction false} StopWithout(frames: seq<seq<byte>>, size: nat)
    requires Frames(frames, size) && size >= LABEL_SIZE && NoControlPrefix(frames, size)
    ensures Stop(frames, size) == |frames|
    decreases |frames|
  {
    hide Le32;
    if frames == [] {
    } else {
      StopWithout(frames[1..], size);
    }
  }
}
