/**
  kernel/vds_http/websocket_client.cpp: framing and masking of outgoing messages, and the
  decoder of incoming frames, which takes at most one frame out of its buffer per write.
 */
module WebsocketClient {
  import opened Collections
  import opened Gf2Poly
  import opened Bytes
  import opened Numbers
  import opened WebsocketFrames
  import opened WebsocketDelivery
  import opened Wrappers

  // ----- Sending -----

  class Client {
    var sendBuffer: seq<Byte>
    /** What has been written to the connection. */
    var sent: seq<Byte>

    constructor ()
      ensures sent == []
    {
      sendBuffer, sent := [], [];
    }

    /** send_message; the mask is drawn at random by the source. */
    method SendMessage(message: seq<Byte>, isBinary: bool, mask: Mask)
      requires |message| < SIZE_LIMIT
      modifies this
      ensures sent == old(sent) + Frame(Message(isBinary, mask, message))
    {
      PutHeader(|message|, isBinary);
      ghost var header := sendBuffer;
      for i := 0 to 4
        invariant sendBuffer == header + mask[..i] && sent == old(sent)
      {
        sendBuffer := sendBuffer + [mask[i]];
      }
      assert mask[..4] == mask;
      PutMasked(message, mask);
      sent := sent + sendBuffer;
    }

    /** The first byte and the length, in the shortest of the three forms. */
    method PutHeader(messageSize: nat, isBinary: bool)
      requires messageSize < SIZE_LIMIT
      modifies this`sendBuffer
      ensures sendBuffer == [FirstByte(isBinary)] + LengthBytes(messageSize, true)
    {
      TwoBytes(messageSize);
      EightBytes(messageSize);
      hide ToBigEndian;
      sendBuffer := [];
      sendBuffer := sendBuffer + [if isBinary then 0x82 else 0x81];
      if messageSize < 126 {
        sendBuffer := sendBuffer + [0x80 + messageSize];
      } else if messageSize <= 0xFFFF {
        sendBuffer := sendBuffer + [0x80 + 126];
        sendBuffer := sendBuffer + [(messageSize / 0x100) % 0x100];
        sendBuffer := sendBuffer + [messageSize % 0x100];
      } else {
        sendBuffer := sendBuffer + [0x80 + 127];
        sendBuffer := sendBuffer + [(messageSize / 0x100_0000_0000_0000) % 0x100];
        sendBuffer := sendBuffer + [(messageSize / 0x1_0000_0000_0000) % 0x100];
        sendBuffer := sendBuffer + [(messageSize / 0x100_0000_0000) % 0x100];
        sendBuffer := sendBuffer + [(messageSize / 0x1_0000_0000) % 0x100];
        sendBuffer := sendBuffer + [(messageSize / 0x100_0000) % 0x100];
        sendBuffer := sendBuffer + [(messageSize / 0x1_0000) % 0x100];
        sendBuffer := sendBuffer + [(messageSize / 0x100) % 0x100];
        sendBuffer := sendBuffer + [messageSize % 0x100];
      }
    }

    /** The payload loop, with its 8-bit index into the mask. */
    method PutMasked(message: seq<Byte>, mask: Mask)
      modifies this`sendBuffer
      ensures sendBuffer == old(sendBuffer) + UnmaskAll(Some(mask), 0, message)
    {
      hide *;
      var messageSize := |message|;
      var index, position := 0, 0;
      NothingMasked(mask);
      while 0 < messageSize
        invariant 0 <= position <= |message| && position + messageSize == |message|
        invariant index == position % 0x100
        invariant sendBuffer == old(sendBuffer) + UnmaskAll(Some(mask), 0, message[..position])
      {
        IndexWraps(position);
        ByteXor(mask[position % 4], message[position]);
        MaskSnoc(mask, message, position);
        sendBuffer := sendBuffer + [Xor(mask[index % 4], message[position])];
        index := (index + 1) % 0x100;
        position := position + 1;
        messageSize := messageSize - 1;
      }
      assert message[..position] == message;
    }
  }

  /** The 8-bit index into the mask wraps around without losing its place. */
  lemma IndexWraps(position: nat)
    ensures (position % 0x100) % 4 == position % 4
    ensures (position % 0x100 + 1) % 0x100 == (position + 1) % 0x100
  {
  }

  lemma NothingMasked(mask: Mask)
    ensures UnmaskAll(Some(mask), 0, []) == []
  {
  }

  lemma MaskSnoc(mask: Mask, message: seq<Byte>, n: nat)
    requires n < |message|
    ensures UnmaskAll(Some(mask), 0, message[..n + 1])
         == UnmaskAll(Some(mask), 0, message[..n]) + [Xor(mask[n % 4], message[n])]
  {
    ByteXor(mask[n % 4], message[n]);
    XorComm(mask[n % 4], message[n]);
  }

  // ----- Receiving -----

  datatype Parse = NeedMore | Overrun | Bad | Got(kind: Kind, payload: seq<Byte>, used: nat)

  /**
    What the decoder makes of its buffer: at most the first frame. The sum in the test for its
    end wraps around in 64 bits; when the payload is then read behind the buffer, it is an overrun.
   */
  function ParseFrame(buffer: seq<Byte>): Parse {
    if |buffer| < 2 || |buffer| < HeaderSize(buffer) then NeedMore
    else
      var start, length := HeaderSize(buffer), LengthOf(buffer);
      if Wrap64(length + start) > |buffer| then NeedMore
      else if length + start > |buffer| then Overrun
      else
        var payload := UnmaskAll(MaskOf(buffer), 0, buffer[start..start + length]);
        match buffer[0] % 0x10
        case 1 => Got(Text, payload, start + length)
        case 2 => Got(Binary, payload, start + length)
        case _ => Bad
  }

  datatype Decoder = Decoder(buffer: seq<Byte>, delivered: seq<Delivery>)

  /** One write; without data it is the end of the stream. */
  function Receive(d: Decoder, data: seq<Byte>): Result<Decoder> {
    if |data| == 0 then if |d.buffer| == 0 then Ok(d) else Err("Unexpected end of stream")
    else
      var buffer := d.buffer + data;
      match ParseFrame(buffer)
      case NeedMore => Ok(Decoder(buffer, d.delivered))
      case Overrun => Err("Payload past the end")
      case Bad => Err("Unexpected opcode")
      case Got(kind, payload, used) =>
        UsedBound(buffer);
        Ok(Decoder(buffer[used..], d.delivered + [Delivery(kind, payload, 1)]))
  }

  lemma UsedBound(buffer: seq<Byte>)
    ensures ParseFrame(buffer).Got? ==> 2 <= ParseFrame(buffer).used <= |buffer|
  {
  }

  datatype Plain = Plain(isBinary: bool, payload: seq<Byte>)

  /** A frame as websocket_output writes it. */
  function PlainFrame(p: Plain): seq<Byte> {
    PlainHead(p.isBinary, |p.payload|) + p.payload
  }

  /** The length of the payload is a 64-bit number. */
  ghost predicate PlainFramable(p: Plain) {
    |p.payload| < SIZE_LIMIT
  }

  /** The length of the whole frame is one. */
  ghost predicate PlainSendable(p: Plain) {
    |PlainFrame(p)| < SIZE_LIMIT
  }

  function PlainWire(messages: seq<Plain>): seq<Byte> {
    if |messages| == 0 then [] else PlainFrame(messages[0]) + PlainWire(messages[1..])
  }

  function PlainDelivery(p: Plain): Delivery {
    Delivery(KindOf(p.isBinary), p.payload, 1)
  }

  lemma PlainFields(p: Plain, rest: seq<Byte>)
    requires PlainFramable(p)
    ensures var h := PlainHead(p.isBinary, |p.payload|) + rest;
      && HeaderSize(h) == |PlainHead(p.isBinary, |p.payload|)| && LengthOf(h) == |p.payload| && MaskOf(h) == None
      && h[0] % 0x10 == (if p.isBinary then 2 else 1)
  {
    LengthRead(FirstByte(p.isBinary), |p.payload|, false, rest);
  }

  /** A buffer that begins with a whole frame. */
  lemma WholeFrame(p: Plain, rest: seq<Byte>)
    requires PlainSendable(p)
    ensures ParseFrame(PlainFrame(p) + rest) == Got(if p.isBinary then Binary else Text, p.payload, |PlainFrame(p)|)
  {
    hide PlainHead, ParseFrame, HeaderSize, LengthOf, MaskOf, LengthBytes;
    var h := PlainHead(p.isBinary, |p.payload|);
    var all := PlainFrame(p) + rest;
    assert |PlainFrame(p)| == |h| + |p.payload|;
    PayloadSlice(h, p.payload, rest);
    assert all == h + (p.payload + rest);
    hide *;
    PlainFields(p, p.payload + rest);
    Unmasked(all, |h|, |p.payload|);
  }

  /** An unmasked frame that is complete in the buffer. */
  lemma Unmasked(buffer: seq<Byte>, start: nat, length: nat)
    requires 2 <= |buffer| && HeaderSize(buffer) == start && start + length <= |buffer| && start + length < SIZE_LIMIT
    requires LengthOf(buffer) == length && MaskOf(buffer) == None && buffer[0] % 0x10 in {1, 2}
    ensures ParseFrame(buffer)
         == Got(if buffer[0] % 0x10 == 1 then Text else Binary, buffer[start..start + length], start + length)
  {
    hide UnmaskAll, HeaderSize, LengthOf, MaskOf;
    NoMask(buffer[start..start + length]);
  }

  lemma PayloadSlice(h: seq<Byte>, payload: seq<Byte>, rest: seq<Byte>)
    ensures (h + (payload + rest))[|h|..|h| + |payload|] == payload
  {
  }

  lemma NoMask(s: seq<Byte>)
    ensures UnmaskAll(None, 0, s) == s
  {
  }

  /** A buffer that holds only part of a frame. */
  lemma PartOfFrame(p: Plain, part: seq<Byte>)
    requires PlainSendable(p) && part <= PlainFrame(p) && |part| < |PlainFrame(p)|
    ensures ParseFrame(part) == NeedMore
  {
    var h := PlainHead(p.isBinary, |p.payload|);
    PlainFields(p, p.payload);
    var all := PlainFrame(p);
    if |part| >= 2 {
      assert part[1] == all[1];
      if |part| >= |h| {
        assert part == h + part[|h|..];
        PlainFields(p, part[|h|..]);
      }
    }
  }

  /** What the client makes of a complete frame, masked or not: opcodes 1 and 2 are messages, all others an error. */
  lemma CompleteFrame(buffer: seq<Byte>)
    requires |buffer| >= 2 && |buffer| >= HeaderSize(buffer)
    requires LengthOf(buffer) + HeaderSize(buffer) <= |buffer| && LengthOf(buffer) + HeaderSize(buffer) < SIZE_LIMIT
    ensures var r, opcode, start, length := ParseFrame(buffer), buffer[0] % 0x10, HeaderSize(buffer), LengthOf(buffer);
      && (r.Got? <==> opcode in {1, 2}) && (r.Bad? <==> opcode !in {1, 2})
      && (r.Got? ==>
            && r.kind == (if opcode == 1 then Text else Binary) && r.used == start + length
            && |r.payload| == length
            && forall i :: 0 <= i < length ==>
                 r.payload[i] == if buffer[1] < 0x80 then buffer[start + i]
                                 else Xor(buffer[start + i], buffer[start - 4 + i % 4]))
  {
    hide LengthOf, BigEndian;
  }

  // ----- Where the test for the end of a frame wraps around -----

  /** A length so near to 2^64 that the sum wraps: the header is taken for a whole frame. */
  lemma Overruns(p: Plain, part: seq<Byte>)
    requires PlainFramable(p) && !PlainSendable(p)
    requires PlainHead(p.isBinary, |p.payload|) <= part <= PlainFrame(p) && |part| < |PlainFrame(p)|
    ensures ParseFrame(part) == Overrun
  {
    var h := PlainHead(p.isBinary, |p.payload|);
    assert part == h + part[|h|..];
    PlainFields(p, part[|h|..]);
    assert |h| == 10;
    assert Wrap64(|PlainFrame(p)|) == |PlainFrame(p)| - SIZE_LIMIT;
  }

  /** Every part of a frame waits for the rest of it if and only if the length of the frame fits into 64 bits. */
  lemma PartsWaitIff(p: Plain)
    requires PlainFramable(p)
    ensures (forall part :: part <= PlainFrame(p) && |part| < |PlainFrame(p)| ==> ParseFrame(part) == NeedMore) <==>
            |PlainFrame(p)| < SIZE_LIMIT
  {
    hide ParseFrame, PlainHead;
    if PlainSendable(p) {
      forall part | part <= PlainFrame(p) && |part| < |PlainFrame(p)| ensures ParseFrame(part) == NeedMore {
        PartOfFrame(p, part);
      }
    } else {
      var h := PlainHead(p.isBinary, |p.payload|);
      assert h <= PlainFrame(p);
      Overruns(p, h);
    }
  }

  /** The ten bytes that announce a text of 2^64 - 5 bytes. */
  lemma TenBytesFail()
    ensures PlainHead(false, SIZE_LIMIT - 5) == [0x81, 0x7F, 0xFF, 0xFF, 0xFF, 0xFF, 0xFF, 0xFF, 0xFF, 0xFB]
    ensures Receive(Decoder([], []), PlainHead(false, SIZE_LIMIT - 5)) == Err("Payload past the end")
  {
    TenBytes();
    LengthRead(FirstByte(false), SIZE_LIMIT - 5, false, []);
    var h := PlainHead(false, SIZE_LIMIT - 5);
    assert [FirstByte(false)] + LengthBytes(SIZE_LIMIT - 5, false) + [] == h;
    hide ToBigEndian, BigEndian, PlainHead, LengthBytes;
    assert [] + h == h;
    assert Wrap64(SIZE_LIMIT + 5) == 5;
  }

  lemma TenBytes()
    ensures PlainHead(false, SIZE_LIMIT - 5) == [0x81, 0x7F, 0xFF, 0xFF, 0xFF, 0xFF, 0xFF, 0xFF, 0xFF, 0xFB]
  {
    hide ToBigEndian;
    EightHighBytes();
  }

  lemma EightHighBytes()
    ensures ToBigEndian(SIZE_LIMIT - 5, 8) == [0xFF, 0xFF, 0xFF, 0xFF, 0xFF, 0xFF, 0xFF, 0xFB]
  {
    hide ToBigEndian;
    EightBytes(SIZE_LIMIT - 5);
  }

  // ----- Nothing is lost -----

  /** d messages have been delivered, and their frames with the buffer are all that was received. */
  ghost predicate Conserved(messages: seq<Plain>, d: nat, decoder: Decoder, received: seq<Byte>) {
    && d <= |messages|
    && decoder.delivered == seq(d, i requires 0 <= i < d => PlainDelivery(messages[i]))
    && received == PlainWire(messages[..d]) + decoder.buffer
    && decoder.buffer <= PlainWire(messages[d..])
  }

  lemma {:induction false} WireSplit(messages: seq<Plain>, d: nat)
    requires d <= |messages|
    ensures PlainWire(messages) == PlainWire(messages[..d]) + PlainWire(messages[d..])
  {
    if d != 0 {
      WireSplit(messages[1..], d - 1);
      assert messages[1..][..d - 1] == messages[..d][1..];
      assert messages[1..][d - 1..] == messages[d..];
    } else {
      assert messages[d..] == messages;
    }
  }

  /**
    One write delivers the next message if its whole frame is in the buffer by now, and
    nothing otherwise; either way no byte is lost.
   */
  lemma ReceiveConserves(messages: seq<Plain>, d: nat, decoder: Decoder, received: seq<Byte>, data: seq<Byte>)
    requires forall m :: m in messages ==> PlainSendable(m)
    requires Conserved(messages, d, decoder, received) && received + data <= PlainWire(messages)
    requires |data| > 0
    ensures Receive(decoder, data).Ok?
    ensures var more := d < |messages| && |decoder.buffer + data| >= |PlainFrame(messages[d])|;
            Conserved(messages, if more then d + 1 else d, Receive(decoder, data).value, received + data)
  {
    hide *;
    BufferBegins(messages, d, decoder, received, data);
    assert messages[d] in messages;
    if |decoder.buffer + data| >= |PlainFrame(messages[d])| {
      FrameTaken(messages, d, decoder, received, data);
    } else {
      PartKept(messages, d, decoder, received, data);
    }
  }

  /** The buffer holds the beginning of what is still to be delivered. */
  lemma BufferBegins(messages: seq<Plain>, d: nat, decoder: Decoder, received: seq<Byte>, data: seq<Byte>)
    requires Conserved(messages, d, decoder, received) && received + data <= PlainWire(messages) && |data| > 0
    ensures d < |messages| && decoder.buffer + data <= PlainWire(messages[d..])
    ensures |decoder.buffer + data| < |PlainFrame(messages[d])| ==> decoder.buffer + data <= PlainFrame(messages[d])
  {
    hide PlainFrame;
    var buffer, rest, done := decoder.buffer + data, messages[d..], PlainWire(messages[..d]);
    WireSplit(messages, d);
    assert received + data == done + buffer;
    PrefixTail(done, buffer, PlainWire(rest));
    assert d == |messages| ==> PlainWire(rest) == [];
    assert PlainWire(rest) == PlainFrame(messages[d]) + PlainWire(rest[1..]);
    hide Conserved, PlainWire;
  }

  lemma PartKept(messages: seq<Plain>, d: nat, decoder: Decoder, received: seq<Byte>, data: seq<Byte>)
    requires d < |messages| && PlainSendable(messages[d]) && Conserved(messages, d, decoder, received) && |data| > 0
    requires decoder.buffer + data <= PlainWire(messages[d..])
    requires decoder.buffer + data <= PlainFrame(messages[d]) && |decoder.buffer + data| < |PlainFrame(messages[d])|
    ensures Receive(decoder, data).Ok? && Conserved(messages, d, Receive(decoder, data).value, received + data)
  {
    PartOfFrame(messages[d], decoder.buffer + data);
    hide ParseFrame, PlainFrame, PlainWire;
    assert received + data == PlainWire(messages[..d]) + (decoder.buffer + data);
  }

  lemma FrameTaken(messages: seq<Plain>, d: nat, decoder: Decoder, received: seq<Byte>, data: seq<Byte>)
    requires d < |messages| && PlainSendable(messages[d])
    requires Conserved(messages, d, decoder, received)
    requires decoder.buffer + data <= PlainWire(messages[d..])
    requires |data| > 0 && |decoder.buffer + data| >= |PlainFrame(messages[d])|
    ensures Receive(decoder, data).Ok? && Conserved(messages, d + 1, Receive(decoder, data).value, received + data)
  {
    hide ParseFrame, PlainFrame;
    var buffer, rest := decoder.buffer + data, messages[d..];
    var done, frame := PlainWire(messages[..d]), PlainFrame(messages[d]);
    assert rest[1..] == messages[d + 1..];
    assert PlainWire(rest) == frame + PlainWire(rest[1..]);
    var tail := buffer[|frame|..];
    assert buffer == frame + tail;
    WholeFrame(messages[d], tail);
    WireSnoc(messages, d);
    PrefixTail(frame, tail, PlainWire(rest[1..]));
    hide PlainWire;
    assert received + data == (done + frame) + tail;
  }

  lemma PrefixTail(a: seq<Byte>, b: seq<Byte>, c: seq<Byte>)
    requires a + b <= a + c
    ensures b <= c
  {
    forall i | 0 <= i < |b| ensures i < |c| && b[i] == c[i] {
      assert (a + b)[|a| + i] == (a + c)[|a| + i];
    }
  }

  lemma WireSnoc(messages: seq<Plain>, d: nat)
    requires d < |messages|
    ensures PlainWire(messages[..d + 1]) == PlainWire(messages[..d]) + PlainFrame(messages[d])
  {
    hide PlainFrame;
    var s := messages[..d + 1];
    WireSplit(s, d);
    assert s[..d] == messages[..d] && s[d..] == [messages[d]] && [messages[d]][1..] == [];
    assert PlainWire([messages[d]]) == PlainFrame(messages[d]) + PlainWire([]);
  }

  function ReceiveAll(d: Decoder, pieces: seq<seq<Byte>>): Result<Decoder> {
    if |pieces| == 0 then Ok(d)
    else
      match ReceiveAll(d, pieces[..|pieces| - 1])
      case Err(e) => Err(e)
      case Ok(d1) => Receive(d1, pieces[|pieces| - 1])
  }

  // ----- How many messages are out -----

  /** The number of whole frames among the first bytes of the wire. */
  function Whole(messages: seq<Plain>, size: nat): (c: nat)
    ensures c <= |messages|
  {
    if |messages| == 0 || |PlainFrame(messages[0])| > size then 0
    else 1 + Whole(messages[1..], size - |PlainFrame(messages[0])|)
  }

  lemma {:induction false} WholeIff(messages: seq<Plain>, size: nat, c: nat)
    requires c <= |messages|
    ensures c <= Whole(messages, size) <==> |PlainWire(messages[..c])| <= size
  {
    hide PlainFrame;
    if c > 0 {
      var first := |PlainFrame(messages[0])|;
      assert messages[..c][1..] == messages[1..][..c - 1];
      if first <= size {
        WholeIff(messages[1..], size - first, c - 1);
      }
    }
  }

  /** The number of whole frames that have arrived with the first j writes. */
  function Arrived(messages: seq<Plain>, pieces: seq<seq<Byte>>, j: nat): nat
    requires j <= |pieces|
  {
    Whole(messages, |Joined(pieces[..j])|)
  }

  function Min(a: nat, b: nat): nat {
    if a <= b then a else b
  }

  /** The number of messages delivered: each write brings out one more, if a whole one is there. */
  function Out(messages: seq<Plain>, pieces: seq<seq<Byte>>): nat {
    if |pieces| == 0 then 0
    else Min(Out(messages, pieces[..|pieces| - 1]) + 1, Whole(messages, |Joined(pieces)|))
  }

  /** Any cutting of any part of the stream, without empty pieces. */
  ghost predicate CutOf(messages: seq<Plain>, pieces: seq<seq<Byte>>) {
    (forall p :: p in pieces ==> |p| > 0) && Joined(pieces) <= PlainWire(messages)
  }

  ghost predicate WritesOf(messages: seq<Plain>, pieces: seq<seq<Byte>>) {
    (forall m :: m in messages ==> PlainSendable(m)) && CutOf(messages, pieces)
  }

  lemma WritesBefore(messages: seq<Plain>, pieces: seq<seq<Byte>>)
    requires WritesOf(messages, pieces) && |pieces| > 0
    ensures WritesOf(messages, pieces[..|pieces| - 1])
  {
    var n := |pieces| - 1;
    JoinedLast(pieces);
    assert forall p :: p in pieces[..n] ==> p in pieces;
  }

  /**
    After any run of writes exactly the first Out messages have been delivered, and their
    frames followed by the buffer are all bytes received.
   */
  lemma {:induction false} NothingLost(messages: seq<Plain>, pieces: seq<seq<Byte>>)
    requires WritesOf(messages, pieces)
    ensures ReceiveAll(Decoder([], []), pieces).Ok?
    ensures Conserved(messages, Out(messages, pieces), ReceiveAll(Decoder([], []), pieces).value, Joined(pieces))
  {
    if |pieces| > 0 {
      var n := |pieces| - 1;
      WritesBefore(messages, pieces);
      NothingLost(messages, pieces[..n]);
      var d, decoder := Out(messages, pieces[..n]), ReceiveAll(Decoder([], []), pieces[..n]).value;
      assert pieces[n] in pieces;
      JoinedLast(pieces);
      hide ParseFrame, PlainWire, PlainFrame, Joined;
      ReceiveConserves(messages, d, decoder, Joined(pieces[..n]), pieces[n]);
      OneMoreIff(messages, d, decoder, Joined(pieces[..n]), pieces[n]);
      hide Receive, Conserved, Whole;
    }
  }

  /** The frames one by one. */
  function Frames(messages: seq<Plain>): (r: seq<seq<Byte>>)
    ensures |r| == |messages|
  {
    seq(|messages|, i requires 0 <= i < |messages| => PlainFrame(messages[i]))
  }

  /** Frames written one by one are delivered one by one. */
  lemma {:induction false} OneByOne(messages: seq<Plain>)
    requires forall m :: m in messages ==> PlainSendable(m)
    ensures Joined(Frames(messages)) == PlainWire(messages)
    ensures ReceiveAll(Decoder([], []), Frames(messages)).Ok?
    ensures ReceiveAll(Decoder([], []), Frames(messages)).value.buffer == []
  {
    if |messages| > 0 {
      var n := |messages| - 1;
      var frames := Frames(messages);
      OneByOne(messages[..n]);
      assert frames[..n] == Frames(messages[..n]);
      JoinedLast(frames);
      WireSnoc(messages, n);
      assert messages[..n + 1] == messages;
      hide PlainWire, Joined, PlainSendable, Receive;
      FrameFirst(ReceiveAll(Decoder([], []), Frames(messages[..n])).value, messages[n], []);
      assert PlainFrame(messages[n]) + [] == PlainFrame(messages[n]);
    }
  }

  /** A frame that comes to an empty buffer is delivered; what follows it in the same write stays. */
  lemma FrameFirst(d: Decoder, p: Plain, rest: seq<Byte>)
    requires d.buffer == [] && PlainSendable(p)
    ensures Receive(d, PlainFrame(p) + rest) == Ok(Decoder(rest, d.delivered + [PlainDelivery(p)]))
  {
    WholeFrame(p, rest);
    FrameNotEmpty(p);
    hide ParseFrame, PlainFrame;
    var all := PlainFrame(p) + rest;
    assert [] + all == all && all[|PlainFrame(p)|..] == rest;
  }

  lemma HeadAlone(d: Decoder, p: Plain)
    requires d.buffer == [] && PlainFramable(p) && !PlainSendable(p)
    ensures Receive(d, PlainHead(p.isBinary, |p.payload|)).Err?
  {
    var h := PlainHead(p.isBinary, |p.payload|);
    assert h <= PlainFrame(p);
    Overruns(p, h);
    assert |h| >= 2;
    hide ParseFrame, PlainHead;
    assert [] + h == h;
  }

  /** The frames before message i, one by one, and then only the header of its frame. */
  function UpToHead(messages: seq<Plain>, i: nat): seq<seq<Byte>>
    requires i < |messages|
  {
    Frames(messages[..i]) + [PlainHead(messages[i].isBinary, |messages[i].payload|)]
  }

  lemma UpToHeadFails(messages: seq<Plain>, i: nat)
    requires i < |messages| && PlainFramable(messages[i]) && !PlainSendable(messages[i])
    requires forall m :: m in messages[..i] ==> PlainSendable(m)
    ensures CutOf(messages, UpToHead(messages, i)) && ReceiveAll(Decoder([], []), UpToHead(messages, i)).Err?
  {
    var before, m, pieces := messages[..i], messages[i], UpToHead(messages, i);
    var head := PlainHead(m.isBinary, |m.payload|);
    OneByOne(before);
    assert pieces[..i] == Frames(before) && pieces[i] == head;
    JoinedLast(pieces);
    HeadAlone(ReceiveAll(Decoder([], []), Frames(before)).value, m);
    HeadOnWire(messages, i);
    forall p | p in pieces ensures |p| > 0 {
      var j :| 0 <= j < |pieces| && p == pieces[j];
      FrameNotEmpty(messages[j]);
    }
  }

  lemma HeadOnWire(messages: seq<Plain>, i: nat)
    requires i < |messages|
    ensures PlainWire(messages[..i]) + PlainHead(messages[i].isBinary, |messages[i].payload|) <= PlainWire(messages)
  {
    WireSplit(messages, i);
    var rest := messages[i..];
    assert PlainWire(rest) == PlainFrame(messages[i]) + PlainWire(rest[1..]);
  }

  /** No way of cutting the stream is an error if and only if the length of every frame fits into 64 bits. */
  lemma NeverFailsIff(messages: seq<Plain>)
    requires forall m :: m in messages ==> PlainFramable(m)
    ensures (forall pieces :: CutOf(messages, pieces) ==> ReceiveAll(Decoder([], []), pieces).Ok?) <==>
            (forall m :: m in messages ==> |PlainFrame(m)| < SIZE_LIMIT)
  {
    hide CutOf, ReceiveAll, PlainFrame;
    if forall m :: m in messages ==> PlainSendable(m) {
      forall pieces | CutOf(messages, pieces) ensures ReceiveAll(Decoder([], []), pieces).Ok? {
        NothingLost(messages, pieces);
      }
    } else {
      var i := FirstTooLong(messages);
      UpToHeadFails(messages, i);
    }
  }

  lemma {:induction false} FirstTooLong(messages: seq<Plain>) returns (i: nat)
    requires exists m :: m in messages && !PlainSendable(m)
    ensures i < |messages| && !PlainSendable(messages[i]) && forall m :: m in messages[..i] ==> PlainSendable(m)
  {
    if PlainSendable(messages[0]) {
      var rest := messages[1..];
      assert messages == [messages[0]] + rest;
      var j := FirstTooLong(rest);
      i := j + 1;
      assert messages[..i] == [messages[0]] + rest[..j];
    } else {
      i := 0;
    }
  }

  /** The next frame is complete in the buffer exactly when one more whole frame has arrived. */
  lemma OneMoreIff(messages: seq<Plain>, d: nat, decoder: Decoder, received: seq<Byte>, data: seq<Byte>)
    requires Conserved(messages, d, decoder, received)
    ensures var c := Whole(messages, |received + data|);
            var more := d < |messages| && |decoder.buffer + data| >= |PlainFrame(messages[d])|;
            d <= c && (more <==> d < c)
  {
    hide PlainFrame, Whole;
    WholeIff(messages, |received + data|, d);
    if d < |messages| {
      WholeIff(messages, |received + data|, d + 1);
      WireSnoc(messages, d);
    }
  }

  /** In closed form: the least, over all earlier points, of what had arrived then and one message a write since. */
  lemma {:induction false} OutIsMinimum(messages: seq<Plain>, pieces: seq<seq<Byte>>)
    ensures forall j :: 0 <= j <= |pieces| ==> Out(messages, pieces) <= Arrived(messages, pieces, j) + |pieces| - j
    ensures exists j :: 0 <= j <= |pieces| && Out(messages, pieces) == Arrived(messages, pieces, j) + |pieces| - j
  {
    hide Whole;
    var n := |pieces|;
    assert pieces[..n] == pieces;
    if n == 0 {
      NoneArrived(messages);
      assert Arrived(messages, pieces, 0) == 0;
    } else {
      var before := pieces[..n - 1];
      OutIsMinimum(messages, before);
      forall j | 0 <= j < n ensures Arrived(messages, before, j) == Arrived(messages, pieces, j) {
        assert before[..j] == pieces[..j];
      }
      assert Arrived(messages, pieces, n) == Whole(messages, |Joined(pieces)|);
      if Out(messages, pieces) == Out(messages, before) + 1 {
        var j: nat :| j <= n - 1 && Out(messages, before) == Arrived(messages, before, j) + (n - 1) - j;
        assert Out(messages, pieces) == Arrived(messages, pieces, j) + n - j;
      } else {
        assert Out(messages, pieces) == Arrived(messages, pieces, n) + n - n;
      }
    }
  }

  lemma NoneArrived(messages: seq<Plain>)
    ensures Whole(messages, 0) == 0
  {
  }

  /** Every whole frame that has arrived is out if and only if since no point more frames than writes have come. */
  lemma AllOutIff(messages: seq<Plain>, pieces: seq<seq<Byte>>)
    ensures var n := |pieces|;
      Out(messages, pieces) == Arrived(messages, pieces, n) <==>
      forall j :: 0 <= j <= n ==> Arrived(messages, pieces, n) <= Arrived(messages, pieces, j) + n - j
  {
    OutIsMinimum(messages, pieces);
    hide Whole, Out, Arrived;
    var n := |pieces|;
    var k: nat :| k <= n && Out(messages, pieces) == Arrived(messages, pieces, k) + n - k;
    assert Out(messages, pieces) <= Arrived(messages, pieces, n) + n - n;
  }

  /** After every write all whole frames are out if and only if no write completes two frames. */
  lemma {:induction false} AlwaysOutIff(messages: seq<Plain>, pieces: seq<seq<Byte>>)
    ensures (forall i :: 0 <= i <= |pieces| ==> Out(messages, pieces[..i]) == Arrived(messages, pieces, i)) <==>
            (forall i :: 0 <= i < |pieces| ==> Arrived(messages, pieces, i + 1) <= Arrived(messages, pieces, i) + 1)
  {
    forall i | 0 <= i < |pieces|
      ensures Out(messages, pieces[..i + 1]) ==
              Min(Out(messages, pieces[..i]) + 1, Arrived(messages, pieces, i + 1))
    {
      assert pieces[..i + 1][..i] == pieces[..i];
    }
    NoneArrived(messages);
    assert Out(messages, pieces[..0]) == Arrived(messages, pieces, 0);
    hide Out, Arrived, Whole;
    if forall i :: 0 <= i < |pieces| ==> Arrived(messages, pieces, i + 1) <= Arrived(messages, pieces, i) + 1 {
      for k := 0 to |pieces|
        invariant forall i :: 0 <= i <= k ==> Out(messages, pieces[..i]) == Arrived(messages, pieces, i)
      {
        assert Arrived(messages, pieces, k + 1) <= Arrived(messages, pieces, k) + 1;
        ArrivedGrows(messages, pieces, k);
      }
    }
  }

  lemma ArrivedGrows(messages: seq<Plain>, pieces: seq<seq<Byte>>, j: nat)
    requires j < |pieces|
    ensures Arrived(messages, pieces, j) <= Arrived(messages, pieces, j + 1)
  {
    hide Whole, PlainWire;
    assert pieces[..j + 1][..j] == pieces[..j];
    JoinedLast(pieces[..j + 1]);
    var before, after := |Joined(pieces[..j])|, |Joined(pieces[..j + 1])|;
    var c := Whole(messages, before);
    WholeIff(messages, before, c);
    WholeIff(messages, after, c);
  }

  // ----- The end of the stream -----

  /** The final empty write succeeds if and only if the bytes received are the frames of the messages delivered. */
  lemma EndIff(messages: seq<Plain>, pieces: seq<seq<Byte>>)
    requires WritesOf(messages, pieces)
    ensures ReceiveAll(Decoder([], []), pieces).Ok?
    ensures Receive(ReceiveAll(Decoder([], []), pieces).value, []).Ok? <==>
            Joined(pieces) == PlainWire(messages[..Out(messages, pieces)])
  {
    NothingLost(messages, pieces);
    hide ParseFrame, PlainWire, Out, ReceiveAll;
  }

  /** A whole stream ends well if and only if at no point more frames than writes are still to come. */
  lemma WholeStreamEndsIff(messages: seq<Plain>, pieces: seq<seq<Byte>>)
    requires WritesOf(messages, pieces) && Joined(pieces) == PlainWire(messages)
    ensures ReceiveAll(Decoder([], []), pieces).Ok?
    ensures Receive(ReceiveAll(Decoder([], []), pieces).value, []).Ok? <==>
            forall j :: 0 <= j <= |pieces| ==> |messages| <= Arrived(messages, pieces, j) + |pieces| - j
  {
    var n, d := |pieces|, Out(messages, pieces);
    EndIff(messages, pieces);
    NothingLost(messages, pieces);
    AllOutIff(messages, pieces);
    assert pieces[..n] == pieces && messages[..|messages|] == messages;
    WholeIff(messages, |Joined(pieces)|, |messages|);
    assert Arrived(messages, pieces, n) == |messages|;
    WireSplit(messages, d);
    if d < |messages| {
      FrameNotEmpty(messages[d]);
      assert PlainWire(messages[d..]) == PlainFrame(messages[d]) + PlainWire(messages[d..][1..]);
    }
    hide ParseFrame, Out, ReceiveAll, Arrived, Whole, PlainFrame, Receive;
  }

  lemma FrameNotEmpty(p: Plain)
    ensures |PlainFrame(p)| >= 2
  {
  }

  /** One write never delivers two messages: of frames that arrive together all but the first stay in the buffer. */
  lemma OthersWait(messages: seq<Plain>)
    requires |messages| > 0 && forall m :: m in messages ==> PlainSendable(m)
    ensures var r := Receive(Decoder([], []), PlainWire(messages));
      && r == Ok(Decoder(PlainWire(messages[1..]), [PlainDelivery(messages[0])]))
      && (Receive(r.value, []).Ok? <==> |messages| == 1)
  {
    hide *;
    var rest, first := PlainWire(messages[1..]), PlainDelivery(messages[0]);
    assert messages[0] in messages;
    WireFirst(messages);
    FrameFirst(Decoder([], []), messages[0], rest);
    RestEmptyIff(messages[1..]);
    EndAccepted(Decoder(rest, [first]));
    assert [] + [first] == [first];
  }

  lemma WireFirst(messages: seq<Plain>)
    requires |messages| > 0
    ensures PlainWire(messages) == PlainFrame(messages[0]) + PlainWire(messages[1..])
  {
  }

  lemma EndAccepted(d: Decoder)
    ensures Receive(d, []).Ok? <==> d.buffer == []
  {
  }

  lemma RestEmptyIff(messages: seq<Plain>)
    ensures PlainWire(messages) == [] <==> |messages| == 0
  {
    if |messages| > 0 {
      FrameNotEmpty(messages[0]);
    }
    hide PlainFrame;
  }

  class InputStream {
    var buffer: seq<Byte>
    /** The messages handed to the application's handlers. */
    var delivered: seq<Delivery>

    constructor ()
      ensures buffer == [] && delivered == []
    {
      buffer, delivered := [], [];
    }

    /**
      write_async: an empty write ends the stream and fails when part of a frame is left. The
      source has no test for a payload that reaches behind the buffer after the sum has wrapped.
     */
    method WriteAsync(data: seq<Byte>) returns (r: Result<()>)
      modifies this
      ensures |data| == 0 ==> buffer == old(buffer)
      ensures match Receive(Decoder(old(buffer), old(delivered)), data)
              case Ok(d) => r.Ok? && buffer == d.buffer && delivered == d.delivered
              case Err(_) => r.Err? && delivered == old(delivered)
    {
      hide UnmaskAll, BigEndian;
      if 0 == |data| {
        return if 0 != |buffer| then Err("Unexpected end of stream") else Ok(());
      }
      buffer := buffer + data;
      ghost var before := buffer;
      if 2 > |buffer| {
        return Ok(());
      }
      var opcode := buffer[0] % 0x10;
      var hasMask := buffer[1] >= 0x80;
      var payloadLength: nat := buffer[1] % 0x80;
      var maskSize := if hasMask then 4 else 0;
      var offset := if payloadLength == 126 then 4 else if payloadLength == 127 then 10 else 2;
      if offset + maskSize > |buffer| {
        return Ok(());
      }
      if payloadLength == 126 {
        payloadLength := BigEndian(buffer[2..4]);
      } else if payloadLength == 127 {
        payloadLength := BigEndian(buffer[2..10]);
      }
      if Wrap64(payloadLength + offset + maskSize) > |buffer| {
        return Ok(());
      }
      if payloadLength + offset + maskSize > |buffer| {
        return Err("Payload past the end");
      }
      assert offset + maskSize == HeaderSize(before) && payloadLength == LengthOf(before);
      r := TakeFrame(opcode, hasMask, offset, payloadLength);
    }

    /** The first frame is complete: it is unmasked, handed to its handler and taken out of the buffer. */
    method TakeFrame(opcode: nat, hasMask: bool, offset: nat, payloadLength: nat) returns (r: Result<()>)
      requires |buffer| >= 2 && |buffer| >= HeaderSize(buffer)
      requires opcode == buffer[0] % 0x10 && hasMask == HasMask(buffer)
      requires offset == LengthEnd(buffer) && payloadLength == LengthOf(buffer)
      requires Wrap64(payloadLength + HeaderSize(buffer)) <= payloadLength + HeaderSize(buffer) <= |buffer|
      modifies this
      ensures match ParseFrame(old(buffer))
              case Got(kind, payload, used) =>
                && r.Ok? && used <= |old(buffer)| && buffer == old(buffer)[used..]
                && delivered == old(delivered) + [Delivery(kind, payload, 1)]
              case Bad => r.Err? && delivered == old(delivered)
              case _ => false
    {
      hide UnmaskAll, BigEndian;
      ghost var before := buffer;
      var start := offset + if hasMask then 4 else 0;
      if hasMask {
        UnmaskInPlace(offset, start, payloadLength);
      }
      assert buffer[start..start + payloadLength]
          == UnmaskAll(MaskOf(before), 0, before[start..start + payloadLength]) by {
        NoMask(before[start..start + payloadLength]);
      }
      if opcode == 1 {
        delivered := delivered + [Delivery(Text, buffer[start..start + payloadLength], 1)];
      } else if opcode == 2 {
        delivered := delivered + [Delivery(Binary, buffer[start..start + payloadLength], 1)];
      } else {
        return Err("Unexpected opcode");
      }
      buffer := buffer[start + payloadLength..];
      r := Ok(());
    }

    /** The loop that unmasks the payload where it lies, with an 8-bit index. */
    method UnmaskInPlace(offset: nat, start: nat, length: nat)
      requires start == offset + 4 && start + length <= |buffer|
      modifies this`buffer
      ensures |buffer| == |old(buffer)| && buffer[start + length..] == old(buffer)[start + length..]
      ensures buffer[start..start + length]
           == UnmaskAll(Some(old(buffer)[offset..start]), 0, old(buffer)[start..start + length])
    {
      ghost var before := buffer;
      ghost var mask: Mask := buffer[offset..start];
      var index := 0;
      for i := 0 to length
        invariant |buffer| == |before| && index == i % 0x100
        invariant forall j :: 0 <= j < |before| && !(start <= j < start + i) ==> buffer[j] == before[j]
        invariant forall j :: start <= j < start + i ==> buffer[j] == Unmask(Some(mask), j - start, before[j])
      {
        IndexWraps(i);
        assert mask[i % 4] == before[offset + i % 4];
        ByteXor(buffer[start + i], buffer[offset + index % 4]);
        buffer := buffer[start + i := Xor(buffer[start + i], buffer[offset + index % 4])];
        index := (index + 1) % 0x100;
      }
      assert buffer[start + length..] == before[start + length..];
    }
  }
}
