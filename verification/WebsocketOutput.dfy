/** The class websocket_output of kernel/vds_http/websocket.cpp. */
module WebsocketOutput {
  import opened Bytes
  import opened Numbers
  import opened WebsocketDelivery

  /** Writes the headers of unmasked frames. */
  class Output {
    /** What has been written to the connection. */
    var sent: seq<Byte>

    constructor ()
      ensures sent == []
    {
      sent := [];
    }

    /** start: the header of a message of the given size. */
    method StartMessage(messageSize: nat, isBinary: bool)
      requires messageSize < SIZE_LIMIT
      modifies this
      ensures sent == old(sent) + PlainHead(isBinary, messageSize)
    {
      TwoBytes(messageSize);
      EightBytes(messageSize);
      hide ToBigEndian;
      var buffer := new Byte[10](_ => 0);
      buffer[0] := if isBinary then 0x82 else 0x81;
      var offset;
      if messageSize < 126 {
        buffer[1] := messageSize;
        offset := 2;
      } else if messageSize <= 0xFFFF {
        buffer[1] := 126;
        buffer[2] := (messageSize / 0x100) % 0x100;
        buffer[3] := messageSize % 0x100;
        offset := 4;
      } else {
        buffer[1] := 127;
        buffer[2] := (messageSize / 0x100_0000_0000_0000) % 0x100;
        buffer[3] := (messageSize / 0x1_0000_0000_0000) % 0x100;
        buffer[4] := (messageSize / 0x100_0000_0000) % 0x100;
        buffer[5] := (messageSize / 0x1_0000_0000) % 0x100;
        buffer[6] := (messageSize / 0x100_0000) % 0x100;
        buffer[7] := (messageSize / 0x1_0000) % 0x100;
        buffer[8] := (messageSize / 0x100) % 0x100;
        buffer[9] := messageSize % 0x100;
        offset := 10;
      }
      assert buffer[..offset] == PlainHead(isBinary, messageSize);
      sent := sent + buffer[..offset];
    }
  }
}
