/**
  The class http_parser of kernel/vds_http/http_parser.cpp for header lines and bodies of
  declared length. Each write is proved equal to feeding its bytes to the reader of HttpStream.
 */
module HttpParser {
  import opened Bytes
  import opened HttpHeaders
  import opened HttpStream
  import opened Wrappers

  class Parser {
    var eof: bool
    var parseBuffer: Line
    var headers: seq<Line>
    /** STATE_PARSE_BODY, as opposed to STATE_PARSE_HEADER. */
    var inBody: bool
    var contentLength: nat
    /** What the message callbacks have been handed. */
    var log: seq<Entry>

    ghost function Abs(): State
      reads this
    {
      State(if inBody then Body(contentLength) else Head(parseBuffer, headers), log)
    }

    ghost predicate Valid()
      reads this
    {
      Inv(Abs()) && (inBody ==> parseBuffer == [] && headers == [])
    }

    constructor ()
      ensures Valid() && Abs() == Init && !eof
    {
      eof, parseBuffer, headers, inBody, contentLength, log := false, [], [], false, 0, [];
    }

    /** memchr for the line feed. */
    static method FindLineFeed(data: seq<Byte>, pos: nat) returns (p: Option<nat>)
      requires pos <= |data|
      ensures p.None? ==> LF !in data[pos..]
      ensures p.Some? ==> pos <= p.value < |data| && data[p.value] == LF && LF !in data[pos..p.value]
    {
      for i := pos to |data|
        invariant LF !in data[pos..i]
      {
        if data[i] == LF {
          return Some(i);
        }
      }
      p := None;
    }

    /** finish_body: the end of the body is signalled. */
    method FinishMessage()
      requires |log| > 0 && parseBuffer == [] && headers == []
      modifies this`log, this`inBody
      ensures Abs() == FinishBody(old(Abs()))
      ensures !inBody
    {
      log := WithLast(log, Last(log).(ends := Last(log).ends + 1));
      inBody := false;
    }

    /** A line is complete; parseBuffer holds it with its CR. */
    method FinishLine() returns (r: Result<()>)
      requires Valid() && !inBody
      modifies this
      ensures eof == old(eof)
      ensures r.Ok? ==> Valid()
      ensures EndOfLine(old(Abs())) == if r.Ok? then Ok(Abs()) else Err(r.message)
    {
      StepInv(Abs(), LF);
      if |parseBuffer| > 0 && parseBuffer[|parseBuffer| - 1] == CR {
        parseBuffer := parseBuffer[..|parseBuffer| - 1];
      }
      if |parseBuffer| == 0 {
        if |headers| == 0 {
          return Err("Invalid request");
        }
        if Chunked(headers) {
          return Err("chunked");
        }
        contentLength := UNLIMITED;
        var value := GetHeader(headers, ContentLength());
        if value.Some? {
          var number := Stoul(value.value);
          if number.Err? {
            return Err(number.message);
          }
          contentLength := number.value;
        }
        log := log + [Entry(headers, [], 0)];
        headers := [];
        if 0 == contentLength {
          FinishMessage();
        } else {
          inBody := true;
        }
      } else {
        headers := headers + [parseBuffer];
        parseBuffer := [];
      }
      r := Ok(());
    }

    /** The state STATE_PARSE_HEADER. */
    method ReadHeader(data: seq<Byte>, pos: nat) returns (r: Result<()>, pos': nat)
      requires Valid() && !inBody && pos < |data|
      modifies this
      ensures pos < pos' <= |data| && eof == old(eof)
      ensures r.Ok? ==> Valid()
      ensures Feed(old(Abs()), data[pos..]) == if r.Ok? then Feed(Abs(), data[pos'..]) else Err(r.message)
    {
      hide EndOfLine, EntryOk, HeadOk, DeclaredLength;
      ghost var s := Abs();
      var p := FindLineFeed(data, pos);
      if p.None? {
        FeedLine(s, data[pos..]);
        parseBuffer := parseBuffer + data[pos..];
        return Ok(()), |data|;
      }
      ghost var line := data[pos..p.value];
      FeedLine(s, line);
      FeedConcat(s, line, data[p.value..]);
      assert data[pos..] == line + data[p.value..];
      assert data[p.value..][1..] == data[p.value + 1..];
      parseBuffer := parseBuffer + data[pos..p.value];
      pos' := p.value + 1;
      r := FinishLine();
    }

    /** The state STATE_PARSE_BODY. */
    method ReadBody(data: seq<Byte>, pos: nat) returns (pos': nat)
      requires Valid() && inBody && pos < |data|
      modifies this
      ensures pos < pos' <= |data| && Valid() && eof == old(eof)
      ensures Feed(old(Abs()), data[pos..]) == Feed(Abs(), data[pos'..])
    {
      hide EntryOk, HeadOk, DeclaredLength, Feed;
      ghost var s := Abs();
      var size := |data| - pos;
      if size > contentLength {
        size := contentLength;
      }
      ghost var bytes := data[pos..pos + size];
      FeedBody(s, bytes);
      FeedConcat(s, bytes, data[pos + size..]);
      assert data[pos..] == bytes + data[pos + size..];
      log := WithLast(log, Last(log).(body := Last(log).body + data[pos..pos + size]));
      contentLength := contentLength - size;
      pos' := pos + size;
      if 0 == contentLength {
        FinishMessage();
      }
    }

    /** write_async; an empty write is the end of the connection. */
    method WriteAsync(data: seq<Byte>) returns (r: Result<()>)
      requires Valid() && !eof
      modifies this
      ensures eof == (|data| == 0)
      ensures |data| == 0 ==> r.Ok? && Abs() == Ended(old(Abs()))
      ensures |data| > 0 && r.Ok? ==> Valid()
      ensures |data| > 0 ==> Feed(old(Abs()), data) == if r.Ok? then Ok(Abs()) else Err(r.message)
    {
      if 0 == |data| {
        eof := true;
        if inBody {
          FinishMessage();
        }
        return Ok(());
      }
      ghost var s := Abs();
      var pos := 0;
      assert data[0..] == data;
      while pos < |data|
        invariant pos <= |data| && Valid() && !eof
        invariant Feed(s, data) == Feed(Abs(), data[pos..])
      {
        if inBody {
          pos := ReadBody(data, pos);
        } else {
          r, pos := ReadHeader(data, pos);
          if r.Err? {
            return;
          }
        }
      }
      r := Ok(());
    }
  }
}
