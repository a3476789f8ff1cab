/**
  The class websocket_handler of kernel/vds_http/websocket.cpp: the incremental reader with
  its header buffer. Each write is proved equal to feeding the bytes one by one to the reader
  of WebsocketFrames.
 */
module Websocket {
  import opened Bytes
  import opened Numbers
  import opened WebsocketFrames
  import opened Wrappers

  const BUFFER_SIZE: nat := 1024 * 1024

  datatype ReadState = HEADER | TEXT | BINARY | PING | CLOSED

  function KindState(kind: Kind): ReadState {
    match kind case Text => TEXT case Binary => BINARY case Ping => PING
  }

  class WebsocketHandler {
    var readState: ReadState
    const buffer: array<Byte>
    var readed: nat
    var payloadLength: nat
    var hasMask: bool
    var mask: Mask
    var maskIndex: nat
    /** What the application has been handed. */
    var log: seq<Delivery>

    ghost function Abs(): State
      reads this, buffer
      requires readed <= buffer.Length && (readState != HEADER ==> |log| > 0)
    {
      State(if readState == HEADER then Header(buffer[..readed])
            else Payload(Last(log).kind, payloadLength, if hasMask then Some(mask) else None,
                         if hasMask then maskIndex else 0), log)
    }

    ghost predicate Valid()
      reads this, buffer
    {
      && buffer.Length == BUFFER_SIZE && readed <= 14
      && (readState != HEADER ==> |log| > 0 && readState == KindState(Last(log).kind))
      && Inv(Abs())
    }

    constructor ()
      ensures Valid() && Abs() == Init && fresh(buffer)
    {
      readState := HEADER;
      buffer := new Byte[BUFFER_SIZE](_ => 0);
      readed, payloadLength, hasMask, mask, maskIndex := 0, 0, false, [0, 0, 0, 0], 0;
      log := [];
      new;
      assert buffer[..0] == [];
    }

    /** read_minimal: fills the header buffer up to a size, as far as the data goes. */
    method ReadMinimal(minSize: nat, data: seq<Byte>, pos: nat) returns (ok: bool, pos': nat)
      requires buffer.Length == BUFFER_SIZE && readed <= 14 && minSize <= 14 && pos <= |data|
      modifies this`readed, buffer
      ensures readed <= 14 && pos <= pos' <= |data|
      ensures buffer[..readed] == old(buffer[..readed]) + data[pos..pos']
      ensures ok <==> readed >= minSize
      ensures old(readed) >= minSize ==> pos' == pos
      ensures old(readed) < minSize ==> readed <= minSize && (readed < minSize ==> pos' == |data|)
    {
      pos' := pos;
      if readed < minSize {
        var l := |data| - pos;
        if l > minSize - readed {
          l := minSize - readed;
        }
        for i := 0 to l
          invariant readed == old(readed)
          invariant buffer[..readed + i] == old(buffer[..readed]) + data[pos..pos + i]
        {
          buffer[readed + i] := data[pos + i];
          assert buffer[..readed + i + 1] == buffer[..readed + i] + [data[pos + i]];
        }
        readed := readed + l;
        pos' := pos + l;
      }
      ok := readed >= minSize;
    }

    /** The state HEADER: gathers a header, and opens the message when it is complete. */
    method ReadHeader(data: seq<Byte>, pos: nat) returns (r: Result<()>, pos': nat)
      requires Valid() && readState == HEADER && pos < |data|
      modifies this, buffer
      ensures pos < pos' <= |data|
      ensures r.Ok? ==> Valid() && (readState == HEADER ==> pos' == |data|)
      ensures Feed(old(Abs()), data[pos..pos']) == if r.Ok? then Ok(Abs()) else Err(r.message)
    {
      ghost var s := Abs();
      var complete;
      complete, pos' := Gather(data, pos);
      FeedHeader(s, data[pos..pos']);
      if !complete {
        return Ok(()), pos';
      }
      r := OpenMessage();
    }

    /** The complete header in the buffer is interpreted. */
    method OpenMessage() returns (r: Result<()>)
      requires readState == HEADER && readed <= 14 && buffer.Length == BUFFER_SIZE && Complete(buffer[..readed])
      modifies this
      ensures r.Ok? ==> Valid() && readState != HEADER
      ensures Open(old(log), old(buffer[..readed])) == if r.Ok? then Ok(Abs()) else Err(r.message)
    {
      ghost var head := buffer[..readed];
      var opcode := buffer[0] % 0x10;
      hasMask := buffer[1] >= 0x80;
      payloadLength := buffer[1] % 0x80;
      var offset := 2;
      hide BigEndian;
      if payloadLength == 126 {
        payloadLength := BigEndian(buffer[2..4]);
        offset := 4;
        assert buffer[2..4] == head[2..4];
      } else if payloadLength == 127 {
        payloadLength := BigEndian(buffer[2..10]);
        offset := 10;
        assert buffer[2..10] == head[2..10];
      }
      assert offset == LengthEnd(head) && hasMask == HasMask(head);
      if hasMask {
        assert offset + 4 == HeaderSize(head) <= readed;
        mask := buffer[offset..offset + 4];
        maskIndex := 0;
        assert mask == head[offset..offset + 4];
      }
      assert offset == LengthEnd(head) && payloadLength == LengthOf(head);
      var kind := OpcodeKind(opcode);
      if kind.None? {
        readState := CLOSED;
        return Err("Not implemented");
      }
      readState := KindState(kind.value);
      log := log + [Delivery(kind.value, [], 0)];
      r := Ok(());
    }

    /** The reads that come before the header is interpreted: three bytes, then as many as it announces. */
    method Gather(data: seq<Byte>, pos: nat) returns (complete: bool, pos': nat)
      requires Valid() && readState == HEADER && pos < |data|
      modifies this`readed, buffer
      ensures readed <= 14 && pos < pos' <= |data|
      ensures buffer[..readed] == old(buffer[..readed]) + data[pos..pos']
      ensures complete <==> Complete(buffer[..readed])
      ensures !complete ==> pos' == |data|
      ensures forall j :: 0 <= j < pos' - pos ==> !Complete(old(buffer[..readed]) + data[pos..pos'][..j])
    {
      ghost var head := buffer[..readed];
      var ok;
      ok, pos' := ReadMinimal(3, data, pos);
      ghost var first := buffer[..readed];
      if !ok {
        forall j | 0 <= j < pos' - pos ensures !Complete(head + data[pos..pos'][..j]) {
          GatherIncomplete(head, data[pos..pos'], j);
        }
        return false, pos';
      }
      var maskSize := if buffer[1] >= 0x80 then 4 else 0;
      var length := buffer[1] % 0x80;
      var size := if length == 126 then 4 + maskSize else if length == 127 then 10 + maskSize else 2 + maskSize;
      assert size == HeaderSize(first);
      var middle := pos';
      ok, pos' := ReadMinimal(size, data, middle);
      assert data[pos..pos'] == data[pos..middle] + data[middle..pos'];
      assert buffer[..readed] == first + data[middle..pos'];
      assert buffer[..readed][1] == first[1];
      forall j | 0 <= j < pos' - pos ensures !Complete(head + data[pos..pos'][..j]) {
        GatherIncomplete(head, data[pos..pos'], j);
      }
      complete := ok;
    }

    /** The states TEXT, BINARY and PING: hands on a piece of the payload, and ends the message when it is complete. */
    method ReadPayload(data: seq<Byte>, pos: nat) returns (r: Result<()>, pos': nat)
      requires Valid() && readState != HEADER && pos < |data|
      modifies this, buffer
      ensures pos <= pos' <= |data|
      ensures r.Ok? ==> Valid() && (pos' == pos ==> readState == HEADER)
      ensures Feed(old(Abs()), data[pos..]) == if r.Ok? then Feed(Abs(), data[pos'..]) else Err(r.message)
    {
      hide UnmaskAll, Feed, Received, Settle;
      ghost var s := Abs();
      var size := |data| - pos;
      if size > payloadLength {
        size := payloadLength;
      }
      if 0 < size {
        if hasMask && size > BUFFER_SIZE {
          size := BUFFER_SIZE;
        }
        var piece := data[pos..pos + size];
        r := HandOn(piece);
        FeedConcat(s, piece, data[pos + size..]);
        assert data[pos..] == piece + data[pos + size..];
        if r.Err? {
          FeedPastIndex(s, piece);
          return r, pos;
        }
        FeedPayload(s, piece);
      } else {
        FeedSettled(s, data[pos..]);
      }
      pos' := pos + size;
      EndOfPiece();
      r := Ok(());
    }

    /** The end of a piece: the message is ended when its payload is complete. */
    method EndOfPiece()
      requires Valid() && readState != HEADER
      modifies this
      ensures Valid() && Abs() == Settle(old(Abs()))
      ensures old(payloadLength) == 0 ==> readState == HEADER
    {
      readed := 0;
      if 0 == payloadLength {
        log := WithLast(log, Last(log).(ends := Last(log).ends + 1));
        readState := HEADER;
        assert buffer[..readed] == [];
      }
    }

    /** A piece of the payload is unmasked and written to the application's stream. */
    method HandOn(piece: seq<Byte>) returns (r: Result<()>)
      requires Valid() && readState != HEADER && 1 <= |piece| <= payloadLength
      requires hasMask ==> |piece| <= BUFFER_SIZE
      modifies this`log, this`payloadLength, this`maskIndex, buffer
      ensures r == if IndexFits(old(Abs()).phase, |piece|) then Ok(()) else Err("Mask index out of range")
      ensures r.Ok? ==> Valid() && Abs() == Received(old(Abs()), piece)
    {
      hide UnmaskAll;
      var clear := piece;
      if hasMask {
        var unmasked := UnmaskBuffer(piece);
        if unmasked.Err? {
          return Err(unmasked.message);
        }
        clear := unmasked.value;
      }
      UnmaskNone(piece);
      log := WithLast(log, Last(log).(payload := Last(log).payload + clear));
      payloadLength := payloadLength - |piece|;
      r := Ok(());
    }

    /**
      The loop over i: a piece of the payload is copied and unmasked in place. Incrementing the
      index beyond the range of an int is an error here; the source has no test for it.
     */
    method UnmaskBuffer(piece: seq<Byte>) returns (r: Result<seq<Byte>>)
      requires |piece| <= BUFFER_SIZE == buffer.Length && maskIndex <= INT_MAX
      modifies this`maskIndex, buffer
      ensures r == if old(maskIndex) + |piece| <= INT_MAX then Ok(UnmaskAll(Some(mask), old(maskIndex), piece))
                   else Err("Mask index out of range")
      ensures r.Ok? ==> maskIndex == old(maskIndex) + |piece|
    {
      for i := 0 to |piece|
        invariant maskIndex == old(maskIndex)
        invariant buffer[..i] == piece[..i]
      {
        buffer[i] := piece[i];
        assert buffer[..i + 1] == buffer[..i] + [piece[i]];
      }
      assert forall j :: 0 <= j < |piece| ==> buffer[j] == buffer[..|piece|][j] == piece[j];
      for i := 0 to |piece|
        invariant maskIndex == old(maskIndex) + i <= INT_MAX
        invariant forall j :: 0 <= j < i ==> buffer[j] == Unmask(Some(mask), old(maskIndex) + j, piece[j])
        invariant forall j :: i <= j < |piece| ==> buffer[j] == piece[j]
      {
        if maskIndex == INT_MAX {
          return Err("Mask index out of range");
        }
        buffer[i] := Unmask(Some(mask), maskIndex, buffer[i]);
        maskIndex := maskIndex + 1;
      }
      assert buffer[..|piece|] == UnmaskAll(Some(mask), old(maskIndex), piece);
      r := Ok(buffer[..|piece|]);
    }

    /** write_async with data: whatever is still buffered, the bytes are read as one stream. */
    method WriteAsync(data: seq<Byte>) returns (r: Result<()>)
      requires Valid() && |data| > 0
      modifies this, buffer
      ensures r.Ok? ==> Valid()
      ensures Feed(old(Abs()), data) == if r.Ok? then Ok(Abs()) else Err(r.message)
    {
      ghost var s := Abs();
      var pos := 0;
      assert data[0..] == data;
      while pos < |data|
        invariant pos <= |data| && Valid()
        invariant Feed(s, data) == Feed(Abs(), data[pos..])
        decreases |data| - pos, readState != HEADER
      {
        if readState == HEADER {
          ghost var s1, from := Abs(), pos;
          r, pos := ReadHeader(data, pos);
          FeedConcat(s1, data[from..pos], data[pos..]);
          assert data[from..] == data[from..pos] + data[pos..];
          if r.Err? {
            return;
          }
        } else {
          r, pos := ReadPayload(data, pos);
          if r.Err? {
            return;
          }
        }
      }
      r := Ok(());
    }
  }

  lemma UnmaskNone(piece: seq<Byte>)
    ensures UnmaskAll(None, 0, piece) == piece
  {
  }
}
