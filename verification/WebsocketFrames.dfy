/**
  WebSocket frames as kernel/vds_http/websocket_client.cpp writes them and
  kernel/vds_http/websocket.cpp reads them, byte by byte (sections 5.2 and 5.3 of RFC 6455).
 */
module WebsocketFrames {
  import opened Gf2Poly
  import opened Bytes
  import opened Numbers
  import opened Wrappers

  datatype Kind = Text | Binary | Ping

  /** A message handed to the application: the bytes written so far, and how often its end was signalled. */
  datatype Delivery = Delivery(kind: Kind, payload: seq<Byte>, ends: nat)

  type Mask = s: seq<Byte> | |s| == 4 witness [0, 0, 0, 0]

  datatype Phase =
    /** The header bytes read so far. */
    | Header(head: seq<Byte>)
    /** The bytes still to come, and the mask with the position in it. */
    | Payload(kind: Kind, left: nat, mask: Option<Mask>, index: nat)

  /** The reader between two bytes. */
  datatype State = State(phase: Phase, log: seq<Delivery>)

  const Init := State(Header([]), [])

  // ----- The wire format -----

  function HasMask(head: seq<Byte>): bool
    requires |head| >= 2
  {
    head[1] >= 0x80
  }

  function ShortLength(head: seq<Byte>): nat
    requires |head| >= 2
  {
    head[1] % 0x80
  }

  function LengthEnd(head: seq<Byte>): nat
    requires |head| >= 2
  {
    match ShortLength(head)
    case 126 => 4
    case 127 => 10
    case _ => 2
  }

  /** The length of the header, mask included. */
  function HeaderSize(head: seq<Byte>): nat
    requires |head| >= 2
  {
    LengthEnd(head) + (if HasMask(head) then 4 else 0)
  }

  function LengthOf(head: seq<Byte>): nat
    requires |head| >= 2 && |head| >= LengthEnd(head)
  {
    match ShortLength(head)
    case 126 => BigEndian(head[2..4])
    case 127 => BigEndian(head[2..10])
    case n => n
  }

  function MaskOf(head: seq<Byte>): Option<Mask>
    requires |head| >= 2 && |head| >= HeaderSize(head)
  {
    if HasMask(head) then Some(head[LengthEnd(head)..LengthEnd(head) + 4]) else None
  }

  /** A header is parsed when it is complete, but not before three bytes have been read. */
  predicate Complete(head: seq<Byte>) {
    |head| >= 3 && |head| >= HeaderSize(head)
  }

  function Unmask(mask: Option<Mask>, index: nat, b: Byte): Byte {
    match mask
    case None => b
    case Some(m) =>
      ByteXor(b, m[index % 4]);
      Xor(b, m[index % 4])
  }

  // ----- Reading -----

  function OpcodeKind(opcode: nat): Option<Kind> {
    match opcode
    case 1 => Some(Text)
    case 2 => Some(Binary)
    case 9 => Some(Ping)
    case _ => None
  }

  /** The complete header is interpreted: the application is asked for a stream. */
  function Open(log: seq<Delivery>, head: seq<Byte>): Result<State>
    requires Complete(head)
  {
    var kind := OpcodeKind(head[0] % 0x10);
    if kind.None? then Err("Not implemented")
    else
      Ok(State(Payload(kind.value, LengthOf(head), MaskOf(head), 0), log + [Delivery(kind.value, [], 0)]))
  }

  function WithLast(log: seq<Delivery>, d: Delivery): seq<Delivery>
    requires |log| > 0
  {
    log[..|log| - 1] + [d]
  }

  function Last(log: seq<Delivery>): Delivery
    requires |log| > 0
  {
    log[|log| - 1]
  }

  /** The payload is complete: its end is signalled. */
  function Close(s: State): State
    requires |s.log| > 0
  {
    State(Header([]), WithLast(s.log, Last(s.log).(ends := Last(s.log).ends + 1)))
  }

  /** Payload bytes that do not exceed the message are unmasked and handed on. */
  function Received(s: State, bytes: seq<Byte>): State
    requires s.phase.Payload? && |s.log| > 0 && |bytes| <= s.phase.left
  {
    var clear := UnmaskAll(s.phase.mask, s.phase.index, bytes);
    State(s.phase.(left := s.phase.left - |bytes|,
                   index := if s.phase.mask.Some? then s.phase.index + |bytes| else s.phase.index),
          WithLast(s.log, Last(s.log).(payload := Last(s.log).payload + clear)))
  }

  /** The mask index is an int, which every masked byte increments and nothing reduces. */
  predicate IndexFits(phase: Phase, n: nat)
    requires phase.Payload?
  {
    phase.mask.Some? ==> phase.index + n <= INT_MAX
  }

  function UnmaskAll(mask: Option<Mask>, index: nat, bytes: seq<Byte>): (r: seq<Byte>)
    ensures |r| == |bytes|
  {
    seq(|bytes|, i requires 0 <= i < |bytes| => Unmask(mask, index + i, bytes[i]))
  }

  ghost predicate Inv(s: State) {
    match s.phase
    case Header(head) => !Complete(head)
    case Payload(_, _, _, _) => |s.log| > 0 && IndexFits(s.phase, 0)
  }

  /** A message without payload is closed only when the next byte arrives. */
  ghost function Settle(s: State): State
    requires Inv(s)
  {
    if s.phase.Payload? && s.phase.left == 0 then Close(s) else s
  }

  function HeaderByte(s: State, b: Byte): Result<State>
    requires s.phase.Header?
  {
    var head := s.phase.head + [b];
    if Complete(head) then Open(s.log, head) else Ok(State(Header(head), s.log))
  }

  function PayloadByte(s: State, b: Byte): Result<State>
    requires s.phase.Payload? && |s.log| > 0 && s.phase.left > 0
  {
    if !IndexFits(s.phase, 1) then Err("Mask index out of range")
    else
      var s1 := Received(s, [b]);
      Ok(if s1.phase.left == 0 then Close(s1) else s1)
  }

  ghost function Step(s: State, b: Byte): Result<State>
    requires Inv(s)
  {
    var s1 := Settle(s);
    if s1.phase.Header? then HeaderByte(s1, b) else PayloadByte(s1, b)
  }

  lemma StepInv(s: State, b: Byte)
    requires Inv(s)
    ensures Step(s, b).Ok? ==> Inv(Step(s, b).value)
  {
  }

  /** The reader after a run of bytes. */
  ghost function Feed(s: State, data: seq<Byte>): Result<State>
    requires Inv(s)
    decreases |data|
  {
    if |data| == 0 then Ok(s)
    else
      StepInv(s, data[0]);
      match Step(s, data[0])
      case Err(e) => Err(e)
      case Ok(s1) => Feed(s1, data[1..])
  }

  lemma {:induction false} FeedInv(s: State, data: seq<Byte>)
    requires Inv(s)
    ensures Feed(s, data).Ok? ==> Inv(Feed(s, data).value)
    decreases |data|
  {
    if |data| != 0 {
      StepInv(s, data[0]);
      if Step(s, data[0]).Ok? {
        FeedInv(Step(s, data[0]).value, data[1..]);
      }
    }
  }

  /** Reading does not depend on where the stream is cut. */
  lemma {:induction false} FeedConcat(s: State, a: seq<Byte>, b: seq<Byte>)
    requires Inv(s)
    ensures Feed(s, a).Ok? ==> Inv(Feed(s, a).value)
    ensures Feed(s, a + b) == match Feed(s, a) case Ok(s1) => Feed(s1, b) case Err(e) => Err(e)
    decreases |a|
  {
    if |a| == 0 {
      assert a + b == b;
    } else {
      assert (a + b)[1..] == a[1..] + b;
      StepInv(s, a[0]);
      if Step(s, a[0]).Ok? {
        FeedConcat(Step(s, a[0]).value, a[1..], b);
      }
    }
  }

  // ----- Runs of header and payload bytes -----

  /** Bytes that do not complete the header are kept; the one that completes it opens the message. */
  lemma {:induction false} FeedHeader(s: State, bytes: seq<Byte>)
    requires Inv(s) && s.phase.Header?
    requires forall j :: 0 <= j < |bytes| ==> !Complete(s.phase.head + bytes[..j])
    ensures var head := s.phase.head + bytes;
            Feed(s, bytes) == if Complete(head) then Open(s.log, head) else Ok(State(Header(head), s.log))
    decreases |bytes|
  {
    var head := s.phase.head + bytes;
    if |bytes| == 0 {
      assert head == s.phase.head;
    } else {
      assert s.phase.head + bytes[..1] == s.phase.head + [bytes[0]];
      if |bytes| == 1 {
        assert bytes == [bytes[0]];
      } else {
        var s1 := State(Header(s.phase.head + [bytes[0]]), s.log);
        assert !Complete(s.phase.head + bytes[..1]);
        forall j | 0 <= j < |bytes[1..]| ensures !Complete(s1.phase.head + bytes[1..][..j]) {
          assert s1.phase.head + bytes[1..][..j] == s.phase.head + bytes[..j + 1];
        }
        assert s1.phase.head + bytes[1..] == head;
        FeedHeader(s1, bytes[1..]);
      }
    }
  }

  lemma ReceivedOneMore(s: State, bytes: seq<Byte>)
    requires s.phase.Payload? && |s.log| > 0 && 1 <= |bytes| <= s.phase.left
    ensures Received(Received(s, bytes[..1]), bytes[1..]) == Received(s, bytes)
  {
    var one := Received(s, bytes[..1]);
    var clear := UnmaskAll(s.phase.mask, s.phase.index, bytes);
    assert clear == UnmaskAll(s.phase.mask, s.phase.index, bytes[..1])
                    + UnmaskAll(one.phase.mask, one.phase.index, bytes[1..]);
    assert Last(s.log).payload + clear
        == Last(one.log).payload + UnmaskAll(one.phase.mask, one.phase.index, bytes[1..]);
  }

  lemma {:induction false} FeedPayload(s: State, bytes: seq<Byte>)
    requires Inv(s) && s.phase.Payload? && 1 <= |bytes| <= s.phase.left && IndexFits(s.phase, |bytes|)
    ensures Inv(Received(s, bytes)) && Feed(s, bytes) == Ok(Settle(Received(s, bytes)))
    decreases |bytes|
  {
    var s1 := PayloadByte(s, bytes[0]).value;
    StepInv(s, bytes[0]);
    assert bytes[..1] == [bytes[0]];
    ReceivedOneMore(s, bytes);
    if |bytes| == 1 {
      assert bytes[..1] == bytes;
    } else {
      FeedPayload(s1, bytes[1..]);
    }
  }

  /** More masked bytes than the index can count. */
  lemma FeedPastIndex(s: State, bytes: seq<Byte>)
    requires Inv(s) && s.phase.Payload? && |bytes| <= s.phase.left && !IndexFits(s.phase, |bytes|)
    ensures Feed(s, bytes) == Err("Mask index out of range")
  {
    var n := INT_MAX - s.phase.index;
    var s1 := s;
    if n > 0 {
      FeedPayload(s, bytes[..n]);
      s1 := Received(s, bytes[..n]);
    }
    assert bytes == bytes[..n] + bytes[n..];
    FeedConcat(s, bytes[..n], bytes[n..]);
  }

  lemma FeedSettled(s: State, data: seq<Byte>)
    requires Inv(s) && |data| > 0
    ensures Inv(Settle(s)) && Feed(s, data) == Feed(Settle(s), data)
  {
    assert !Complete([]);
    assert Settle(Settle(s)) == Settle(s);
    assert Step(s, data[0]) == Step(Settle(s), data[0]);
  }

  /** While a header is gathered up to its own size, no shorter part of it is complete. */
  lemma GatherIncomplete(head: seq<Byte>, rest: seq<Byte>, j: nat)
    requires !Complete(head) && j < |rest|
    requires |head + rest| <= 3 || |head + rest| <= HeaderSize(head + rest)
    ensures !Complete(head + rest[..j])
  {
    var all, part := head + rest, head + rest[..j];
    if |part| >= 3 {
      assert part[1] == all[1];
    }
  }
}
