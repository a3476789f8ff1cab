/**
  From the client to the server: messages framed and masked by send_message, cut into
  arbitrary pieces, come out of the server's reader unchanged.
 */
module WebsocketDelivery {
  import opened Collections
  import opened Gf2Poly
  import opened Bytes
  import opened Numbers
  import opened WebsocketFrames
  import opened Wrappers

  /** The second byte of a frame and the extended length. */
  function LengthBytes(size: nat, masked: bool): (s: seq<Byte>)
    ensures |s| == if size < 126 then 1 else if size <= 0xFFFF then 3 else 9
  {
    var bit := if masked then 0x80 else 0;
    if size < 126 then [bit + size]
    else if size <= 0xFFFF then [bit + 126] + ToBigEndian(size, 2)
    else [bit + 127] + ToBigEndian(size, 8)
  }

  datatype Message = Message(isBinary: bool, mask: Mask, payload: seq<Byte>)

  /** The length of the payload is a 64-bit number. */
  ghost predicate Framable(m: Message) {
    |m.payload| < SIZE_LIMIT
  }

  /** The reader can count the masked bytes of the payload. */
  ghost predicate Sendable(m: Message) {
    |m.payload| <= INT_MAX
  }

  function FirstByte(isBinary: bool): Byte {
    if isBinary then 0x82 else 0x81
  }

  function KindOf(isBinary: bool): Kind {
    if isBinary then Binary else Text
  }

  /** The frame of a message. */
  function Frame(m: Message): seq<Byte> {
    Head(m) + UnmaskAll(Some(m.mask), 0, m.payload)
  }

  function Head(m: Message): seq<Byte> {
    [FirstByte(m.isBinary)] + LengthBytes(|m.payload|, true) + m.mask
  }

  function Wire(messages: seq<Message>): seq<Byte> {
    if |messages| == 0 then []
    else Wire(messages[..|messages| - 1]) + Frame(messages[|messages| - 1])
  }

  function Expected(m: Message): Delivery {
    Delivery(KindOf(m.isBinary), m.payload, 1)
  }

  function AllExpected(messages: seq<Message>): (r: seq<Delivery>)
    ensures |r| == |messages|
  {
    seq(|messages|, i requires 0 <= i < |messages| => Expected(messages[i]))
  }

  // ----- One frame -----

  /** The length part of a header is read back. */
  lemma LengthRead(first: Byte, size: nat, masked: bool, rest: seq<Byte>)
    requires size < SIZE_LIMIT
    ensures var length := LengthBytes(size, masked);
            var h := [first] + length + rest;
      && HasMask(h) == masked && LengthEnd(h) == 1 + |length| && LengthOf(h) == size
  {
    hide Pow2, BigEndian, ToBigEndian;
    var length := LengthBytes(size, masked);
    var h := [first] + length + rest;
    assert h[1] == length[0];
    BigEndianRoundTrip(size, 2);
    BigEndianRoundTrip(size, 8);
    PowersOfBytes();
    if 126 <= size <= 0xFFFF {
      assert h[2..4] == ToBigEndian(size, 2);
    } else if size > 0xFFFF {
      assert h[2..10] == ToBigEndian(size, 8);
    }
  }

  lemma HeadFields(m: Message)
    requires Framable(m)
    ensures var h := Head(m);
      && |h| == HeaderSize(h) >= 6 && MaskOf(h) == Some(m.mask) && LengthOf(h) == |m.payload|
      && h[0] % 0x10 == (if m.isBinary then 2 else 1)
  {
    LengthRead(FirstByte(m.isBinary), |m.payload|, true, m.mask);
    var first, length := [FirstByte(m.isBinary)], LengthBytes(|m.payload|, true);
    var h, k := Head(m), LengthEnd(Head(m));
    assert h == first + length + m.mask && k == |first + length|;
    hide *;
    assert h[k..k + 4] == m.mask;
  }

  /** No proper prefix of a header is taken for a header. */
  lemma PrefixIncomplete(h: seq<Byte>, j: nat)
    requires |h| >= 3 && |h| == HeaderSize(h) && j < |h|
    ensures !Complete(h[..j])
  {
    if j >= 2 {
      assert h[..j][1] == h[1];
    }
  }

  lemma MaskTwice(mask: Mask, payload: seq<Byte>)
    ensures UnmaskAll(Some(mask), 0, UnmaskAll(Some(mask), 0, payload)) == payload
  {
    forall i | 0 <= i < |payload|
      ensures UnmaskAll(Some(mask), 0, UnmaskAll(Some(mask), 0, payload))[i] == payload[i]
    {
      XorCancel(payload[i], mask[i % 4]);
    }
  }

  /** Between two messages. */
  ghost predicate Ready(s: State) {
    s.phase == Header([])
  }

  /** The state in which the payload of a message is awaited. */
  function Opened(s: State, m: Message): State {
    State(Payload(KindOf(m.isBinary), |m.payload|, Some(m.mask), 0), s.log + [Delivery(KindOf(m.isBinary), [], 0)])
  }

  lemma HeadReads(s: State, m: Message)
    requires Ready(s) && Framable(m)
    ensures Inv(s) && Feed(s, Head(m)) == Ok(Opened(s, m))
  {
    var h := Head(m);
    HeadFields(m);
    hide Head, Feed;
    forall j | 0 <= j < |h| ensures !Complete(s.phase.head + h[..j]) {
      assert s.phase.head + h[..j] == h[..j];
      PrefixIncomplete(h, j);
    }
    assert s.phase.head + h == h;
    FeedHeader(s, h);
  }

  /** A whole frame is one delivery; without payload its end is still due. */
  lemma FrameReads(s: State, m: Message)
    requires Ready(s) && Sendable(m)
    ensures Inv(s) && Feed(s, Frame(m)).Ok?
    ensures var r := Feed(s, Frame(m)).value;
      && Inv(r) && Ready(Settle(r)) && Settle(r).log == s.log + [Expected(m)]
      && (r == Settle(r) <==> |m.payload| > 0)
  {
    var code, s1 := UnmaskAll(Some(m.mask), 0, m.payload), Opened(s, m);
    HeadReads(s, m);
    FeedConcat(s, Head(m), code);
    MaskTwice(m.mask, m.payload);
    if |m.payload| > 0 {
      hide UnmaskAll, Feed, Head;
      FeedPayload(s1, code);
      assert [] + UnmaskAll(Some(m.mask), 0, code) == m.payload;
    }
  }

  /** A frame is read without an error if and only if the mask index can count its payload. */
  lemma FrameReadsIff(s: State, m: Message)
    requires Ready(s) && Framable(m)
    ensures Inv(s) && (Feed(s, Frame(m)).Ok? <==> |m.payload| <= 0x7FFF_FFFF)
  {
    if Sendable(m) {
      FrameReads(s, m);
    } else {
      var code := UnmaskAll(Some(m.mask), 0, m.payload);
      HeadReads(s, m);
      FeedConcat(s, Head(m), code);
      hide Feed;
      FeedPastIndex(Opened(s, m), code);
    }
  }

  // ----- Many frames, any pieces -----

  /**
    Every message arrives with its kind, its payload and one end signal, in order; only the
    end of a last message without payload is still due.
   */
  lemma {:induction false} AllDelivered(messages: seq<Message>)
    requires forall m :: m in messages ==> Sendable(m)
    ensures Inv(Init) && Feed(Init, Wire(messages)).Ok?
    ensures var r := Feed(Init, Wire(messages)).value;
      && Inv(r) && Ready(Settle(r)) && Settle(r).log == AllExpected(messages)
      && (r == Settle(r) <==> |messages| > 0 ==> |messages[|messages| - 1].payload| > 0)
    decreases |messages|
  {
    if |messages| > 0 {
      var n := |messages| - 1;
      var before, m := messages[..n], messages[n];
      AllDelivered(before);
      var r := Feed(Init, Wire(before)).value;
      FeedConcat(Init, Wire(before), Frame(m));
      FeedSettled(r, Frame(m));
      FrameReads(Settle(r), m);
      assert AllExpected(messages) == AllExpected(before) + [Expected(m)];
    }
  }

  /** Any number of frames is read without an error if and only if the mask index can count every payload. */
  lemma {:induction false} AllReadIff(messages: seq<Message>)
    requires forall m :: m in messages ==> Framable(m)
    ensures Inv(Init) && (Feed(Init, Wire(messages)).Ok? <==> forall m :: m in messages ==> |m.payload| <= 0x7FFF_FFFF)
    decreases |messages|
  {
    if |messages| > 0 {
      var n := |messages| - 1;
      var before, m := messages[..n], messages[n];
      AllReadIff(before);
      assert messages == before + [m];
      FeedConcat(Init, Wire(before), Frame(m));
      if forall m :: m in before ==> Sendable(m) {
        AllDelivered(before);
        var r := Feed(Init, Wire(before)).value;
        FeedSettled(r, Frame(m));
        FrameReadsIff(Settle(r), m);
      }
    }
  }

  /** The reader after one write for every piece. */
  ghost function FeedPieces(s: State, pieces: seq<seq<Byte>>): Result<State>
    requires Inv(s)
    decreases |pieces|
  {
    if |pieces| == 0 then Ok(s)
    else
      FeedInv(s, pieces[0]);
      match Feed(s, pieces[0])
      case Err(e) => Err(e)
      case Ok(s1) => FeedPieces(s1, pieces[1..])
  }

  lemma {:induction false} PiecesDoNotMatter(s: State, pieces: seq<seq<Byte>>)
    requires Inv(s)
    ensures FeedPieces(s, pieces) == Feed(s, Joined(pieces))
    decreases |pieces|
  {
    if |pieces| != 0 {
      FeedConcat(s, pieces[0], Joined(pieces[1..]));
      if Feed(s, pieces[0]).Ok? {
        PiecesDoNotMatter(Feed(s, pieces[0]).value, pieces[1..]);
      }
    }
  }

  /**
    Client to server under any segmentation: everything is out, each message ended once, if and
    only if the mask index can count every payload and the last one is not empty.
   */
  lemma DeliveredInPieces(messages: seq<Message>, pieces: seq<seq<Byte>>)
    requires forall m :: m in messages ==> Framable(m)
    requires Joined(pieces) == Wire(messages)
    ensures Inv(Init)
    ensures FeedPieces(Init, pieces).Ok? && FeedPieces(Init, pieces).value.log == AllExpected(messages) <==>
            && (forall m :: m in messages ==> |m.payload| <= 0x7FFF_FFFF)
            && (|messages| > 0 ==> |messages[|messages| - 1].payload| > 0)
  {
    AllReadIff(messages);
    PiecesDoNotMatter(Init, pieces);
    if forall m :: m in messages ==> Sendable(m) {
      AllDelivered(messages);
      var r := Feed(Init, Wire(messages)).value;
      if r != Settle(r) {
        EndStillDue(r);
      }
    }
  }

  /** An end that is still due shows in what the application has been handed. */
  lemma EndStillDue(s: State)
    requires Inv(s) && s != Settle(s)
    ensures s.log != Settle(s).log
  {
    assert Last(Settle(s).log).ends == Last(s.log).ends + 1;
  }

  // ----- The bytes of section 5.2 of RFC 6455 -----

  /** FIN set, the reserved bits clear, and opcode 1 or 2. */
  function FinByte(isBinary: bool): Byte {
    0x80 + if isBinary then 2 else 1
  }

  /** The header of a masked frame, byte by byte. */
  lemma HeadBytes(m: Message)
    requires Framable(m)
    ensures var n := |m.payload|;
      Head(m) ==
        (if n < 126 then [FinByte(m.isBinary), 0x80 + n]
         else if n < 0x1_0000 then [FinByte(m.isBinary), 0x80 + 126, n / 0x100, n % 0x100]
         else [FinByte(m.isBinary), 0x80 + 127] + EightOf(n)) + m.mask
  {
    TwoBytes(|m.payload|);
    EightBytes(|m.payload|);
    hide ToBigEndian;
  }

  /** The header of an unmasked frame, byte by byte. */
  lemma PlainHeadBytes(isBinary: bool, n: nat)
    requires n < SIZE_LIMIT
    ensures PlainHead(isBinary, n) ==
        if n < 126 then [FinByte(isBinary), n]
        else if n < 0x1_0000 then [FinByte(isBinary), 126, n / 0x100, n % 0x100]
        else [FinByte(isBinary), 127] + EightOf(n)
  {
    TwoBytes(n);
    EightBytes(n);
    hide ToBigEndian;
  }

  /** A 64-bit number, most significant byte first. */
  function EightOf(n: nat): seq<Byte> {
    [n / 0x100_0000_0000_0000 % 0x100, n / 0x1_0000_0000_0000 % 0x100, n / 0x100_0000_0000 % 0x100,
     n / 0x1_0000_0000 % 0x100, n / 0x100_0000 % 0x100, n / 0x1_0000 % 0x100, n / 0x100 % 0x100, n % 0x100]
  }

  /** Byte i of the payload of a masked frame. */
  lemma FramePayload(m: Message, i: nat)
    requires i < |m.payload|
    ensures |Frame(m)| == |Head(m)| + |m.payload|
    ensures Frame(m)[..|Head(m)|] == Head(m) && Frame(m)[|Head(m)| + i] == Xor(m.payload[i], m.mask[i % 4])
  {
  }

  /** Which frames the server's reader takes: opcodes 1, 2 and 9. */
  lemma OpcodesIff(s: State, head: seq<Byte>)
    requires Ready(s) && |head| >= 3 && |head| == (if HeaderSize(head) < 3 then 3 else HeaderSize(head))
    ensures Inv(s) && (Feed(s, head).Ok? <==> head[0] % 0x10 in {1, 2, 9})
    ensures Feed(s, head).Ok? ==>
      var r := Feed(s, head).value;
      && r.phase.Payload? && r.phase.left == LengthOf(head) && r.phase.mask == MaskOf(head)
      && r.phase.kind == (if head[0] % 0x10 == 1 then Text else if head[0] % 0x10 == 2 then Binary else Ping)
  {
    forall j | 0 <= j < |head| ensures !Complete(s.phase.head + head[..j]) {
      assert s.phase.head + head[..j] == head[..j];
      if j >= 3 {
        assert head[..j][1] == head[1];
      }
    }
    hide Feed, LengthOf, MaskOf, HeaderSize;
    assert s.phase.head + head == head;
    FeedHeader(s, head);
  }

  // ----- What an unmasked frame does to the server's reader -----

  /** websocket_output::start: the header of an unmasked frame. */
  function PlainHead(isBinary: bool, size: nat): (h: seq<Byte>)
    ensures 2 <= |h| <= 10
  {
    [FirstByte(isBinary)] + LengthBytes(size, false)
  }

  /**
    The reader asks for three bytes before it looks at the header, so a short unmasked frame
    loses its first payload byte: after the whole frame one byte is still expected.
   */
  lemma ShortPlainFrameLosesByte(s: State, isBinary: bool, payload: seq<Byte>)
    requires Ready(s) && 1 <= |payload| < 126
    ensures Inv(s) && Feed(s, PlainHead(isBinary, |payload|) + payload).Ok?
    ensures var r := Feed(s, PlainHead(isBinary, |payload|) + payload).value;
      && r.phase.Payload? && r.phase.left == 1
      && r.log == s.log + [Delivery(KindOf(isBinary), payload[1..], 0)]
  {
    var h, rest := PlainHead(isBinary, |payload|) + payload[..1], payload[1..];
    assert PlainHead(isBinary, |payload|) + payload == h + rest;
    assert h == [FirstByte(isBinary), |payload|, payload[0]];
    ShortHeadReads(s, isBinary, |payload|, payload[0]);
    hide *;
    FeedConcat(s, h, rest);
    AfterShortHead(s, State(Payload(KindOf(isBinary), |payload|, None, 0),
                            s.log + [Delivery(KindOf(isBinary), [], 0)]), rest);
  }

  /** Three bytes are enough for a short header, whatever the third one is. */
  lemma ShortHeadReads(s: State, isBinary: bool, size: nat, b: Byte)
    requires Ready(s) && size < 126
    ensures Inv(s) && Feed(s, [FirstByte(isBinary), size, b])
         == Ok(State(Payload(KindOf(isBinary), size, None, 0), s.log + [Delivery(KindOf(isBinary), [], 0)]))
  {
    var h: seq<Byte> := [FirstByte(isBinary), size, b];
    ShortHeadFields(isBinary, size, b);
    assert s.phase.head + h == h;
    forall j | 0 <= j < |h| ensures !Complete(s.phase.head + h[..j]) {
      assert |s.phase.head + h[..j]| < 3;
    }
    hide Feed, LengthOf, MaskOf, HeaderSize, OpcodeKind, KindOf, FirstByte;
    FeedHeader(s, h);
  }

  lemma ShortHeadFields(isBinary: bool, size: nat, b: Byte)
    requires size < 126
    ensures var h: seq<Byte> := [FirstByte(isBinary), size, b];
      && HeaderSize(h) == 2 && LengthOf(h) == size && MaskOf(h) == None
      && OpcodeKind(h[0] % 0x10) == Some(KindOf(isBinary))
  {
  }

  lemma AfterShortHead(s: State, s1: State, rest: seq<Byte>)
    requires s1.phase.Payload? && s1.phase.mask == None && s1.phase.left == |rest| + 1
    requires s1.log == s.log + [Delivery(s1.phase.kind, [], 0)]
    ensures Inv(s1) && Feed(s1, rest).Ok?
    ensures var r := Feed(s1, rest).value;
      && r.phase.Payload? && r.phase.left == 1
      && r.log == s.log + [Delivery(s1.phase.kind, rest, 0)]
  {
    if |rest| > 0 {
      FeedPayload(s1, rest);
      assert [] + UnmaskAll(None, s1.phase.index, rest) == rest;
    }
  }

  lemma LongPlainFields(isBinary: bool, size: nat)
    requires 126 <= size < SIZE_LIMIT
    ensures var h := PlainHead(isBinary, size);
      && |h| == HeaderSize(h) >= 4 && MaskOf(h) == None && LengthOf(h) == size
      && OpcodeKind(h[0] % 0x10) == Some(KindOf(isBinary))
  {
    var h := PlainHead(isBinary, size);
    LengthRead(FirstByte(isBinary), size, false, []);
    assert h + [] == h;
    hide LengthOf;
  }

  /** A header of four bytes or more is read like a masked one. */
  lemma LongPlainHeadReads(s: State, isBinary: bool, size: nat)
    requires Ready(s) && 126 <= size < SIZE_LIMIT
    ensures Inv(s) && Feed(s, PlainHead(isBinary, size))
         == Ok(State(Payload(KindOf(isBinary), size, None, 0), s.log + [Delivery(KindOf(isBinary), [], 0)]))
  {
    var h := PlainHead(isBinary, size);
    LongPlainFields(isBinary, size);
    hide PlainHead, KindOf, Feed, LengthOf, MaskOf, HeaderSize, OpcodeKind;
    forall j | 0 <= j < |h| ensures !Complete(s.phase.head + h[..j]) {
      assert s.phase.head + h[..j] == h[..j];
      PrefixIncomplete(h, j);
    }
    assert s.phase.head + h == h;
    FeedHeader(s, h);
  }

  lemma LongPlainFrameReads(s: State, isBinary: bool, payload: seq<Byte>)
    requires Ready(s) && 126 <= |payload| < SIZE_LIMIT
    ensures Inv(s) && Feed(s, PlainHead(isBinary, |payload|) + payload)
         == Ok(State(Header([]), s.log + [Delivery(KindOf(isBinary), payload, 1)]))
  {
    hide *;
    LongPlainHeadReads(s, isBinary, |payload|);
    FeedConcat(s, PlainHead(isBinary, |payload|), payload);
    PlainPayloadReads(s.log, KindOf(isBinary), payload);
  }

  lemma PlainPayloadReads(log: seq<Delivery>, kind: Kind, payload: seq<Byte>)
    requires |payload| > 0
    ensures var s := State(Payload(kind, |payload|, None, 0), log + [Delivery(kind, [], 0)]);
            Inv(s) && Feed(s, payload) == Ok(State(Header([]), log + [Delivery(kind, payload, 1)]))
  {
    hide Feed, UnmaskAll;
    FeedPayload(State(Payload(kind, |payload|, None, 0), log + [Delivery(kind, [], 0)]), payload);
    NothingToUnmask(payload);
    assert [] + payload == payload;
  }

  lemma NothingToUnmask(payload: seq<Byte>)
    ensures UnmaskAll(None, 0, payload) == payload
  {
  }

  /** An empty unmasked frame has two bytes: the reader still waits for a third. */
  lemma EmptyPlainFrameWaits(s: State, isBinary: bool)
    requires Ready(s)
    ensures Inv(s) && Feed(s, PlainHead(isBinary, 0) + []) == Ok(State(Header(PlainHead(isBinary, 0)), s.log))
  {
    hide Feed;
    var h := PlainHead(isBinary, 0);
    assert h + [] == h && |h| == 2 && s.phase.head + h == h;
    FeedHeader(s, h);
  }

  /** The reader takes an unmasked frame for one complete delivery of its payload. */
  ghost predicate PlainDelivered(s: State, isBinary: bool, payload: seq<Byte>)
    requires Ready(s)
  {
    assert Inv(s);
    var r := Feed(s, PlainHead(isBinary, |payload|) + payload);
    && r.Ok? && Inv(r.value) && Ready(Settle(r.value))
    && Settle(r.value).log == s.log + [Delivery(KindOf(isBinary), payload, 1)]
  }

  /** No unmasked frame is an error, but it is read as what it is if and only if it has at least 126 bytes of payload. */
  lemma PlainFrameIff(s: State, isBinary: bool, payload: seq<Byte>)
    requires Ready(s) && |payload| < SIZE_LIMIT
    ensures Inv(s) && Feed(s, PlainHead(isBinary, |payload|) + payload).Ok?
    ensures PlainDelivered(s, isBinary, payload) <==> |payload| >= 126
  {
    hide Feed;
    if |payload| >= 126 {
      LongPlainFrameReads(s, isBinary, payload);
    } else if |payload| > 0 {
      ShortPlainFrameLosesByte(s, isBinary, payload);
    } else {
      assert payload == [];
      EmptyPlainFrameWaits(s, isBinary);
    }
  }
}
