/** The class http_async_serializer of kernel/vds_http/http_serializer.cpp. */
module HttpSerializer {
  import opened Collections
  import opened Bytes
  import opened HttpHeaders
  import opened HttpStream
  import opened Wrappers

  class Serializer {
    var writeBody: bool
    /** What has been written to the connection. */
    var sent: seq<Byte>
    /** The messages that are complete, and the one whose body is being written. */
    ghost var messages: seq<Message>
    ghost var current: Message

    ghost predicate Valid()
      reads this
    {
      sent == Wire(messages) + if writeBody then Encode(current) else []
    }

    constructor ()
      ensures Valid() && !writeBody && messages == []
    {
      writeBody, sent, messages, current := false, [], [], Message([], []);
    }

    /** start_message: the header lines and the empty line in one write. */
    method StartMessage(headers: seq<Line>)
      requires Valid() && !writeBody
      modifies this
      ensures Valid() && writeBody && messages == old(messages) && current == Message(headers, [])
    {
      hide HeadBytes, Wire;
      var stream := [];
      assert [] + HeadBytes(headers[0..]) == HeadBytes(headers) by { assert headers[0..] == headers; }
      for i := 0 to |headers|
        invariant stream + HeadBytes(headers[i..]) == HeadBytes(headers)
        invariant sent == old(sent) && messages == old(messages)
      {
        HeadStep(headers, i, stream);
        stream := stream + headers[i] + [CR, LF];
      }
      NoMoreHeaders(headers);
      stream := stream + [CR, LF];
      sent := sent + stream;
      writeBody := true;
      current := Message(headers, []);
      assert Encode(current) == stream;
    }

    /** out_stream::write_async: a piece of the body; an empty piece ends the message. */
    method WriteAsync(data: seq<Byte>)
      requires Valid() && writeBody
      modifies this
      ensures Valid() && (writeBody <==> |data| > 0)
      ensures |data| > 0 ==> messages == old(messages) && current == old(current).(body := old(current).body + data)
      ensures |data| == 0 ==> messages == old(messages) + [old(current)]
    {
      if 0 != |data| {
        sent := sent + data;
        current := current.(body := current.body + data);
        assert Encode(current) == Encode(old(current)) + data;
      } else {
        writeBody := false;
        WireSnoc(messages, current);
        messages := messages + [current];
      }
    }
  }

  lemma HeadStep(headers: seq<Line>, i: nat, stream: seq<Byte>)
    requires i < |headers|
    ensures stream + HeadBytes(headers[i..]) == stream + headers[i] + [CR, LF] + HeadBytes(headers[i + 1..])
  {
    assert headers[i..][1..] == headers[i + 1..];
  }

  lemma NoMoreHeaders(headers: seq<Line>)
    ensures HeadBytes(headers[|headers|..]) == [CR, LF]
  {
  }

  lemma {:induction false} WireSnoc(messages: seq<Message>, m: Message)
    ensures Wire(messages + [m]) == Wire(messages) + Encode(m)
  {
    hide Encode;
    if |messages| == 0 {
      assert messages + [m] == [m] && [m][1..] == [];
      assert Wire([m]) == Encode(m) + Wire([]);
    } else {
      assert (messages + [m])[1..] == messages[1..] + [m];
      WireSnoc(messages[1..], m);
    }
  }

  /**
    From the serializer's methods to the parser's callbacks: what was written for complete
    messages, cut into any pieces, is delivered as these messages.
   */
  lemma WrittenMessagesComeBack(w: Serializer, pieces: seq<seq<Byte>>)
    requires w.Valid() && !w.writeBody
    requires forall m :: m in w.messages ==> Sendable(m)
    requires Joined(pieces) == w.sent
    ensures FeedPieces(Init, pieces) == Ok(State(Head([], []), Entries(w.messages)))
  {
    assert w.sent == Wire(w.messages);
    ComeBackInPieces(w.messages, pieces);
  }
}
