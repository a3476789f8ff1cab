/**
  HTTP messages as kernel/vds_http/http_serializer.cpp writes them and
  kernel/vds_http/http_parser.cpp reads them, byte by byte (sections 3 and 3.3.2 of RFC 7230).
 */
module HttpStream {
  import opened Collections
  import opened Bytes
  import opened HttpHeaders
  import opened Wrappers

  /** What one message callback has been handed: the headers, the body so far, and how often it was ended. */
  datatype Entry = Entry(headers: seq<Line>, body: seq<Byte>, ends: nat)

  datatype Phase =
    /** The line read so far and the complete header lines. */
    | Head(line: Line, headers: seq<Line>)
    /** The body bytes still to come. */
    | Body(left: nat)

  datatype State = State(phase: Phase, log: seq<Entry>)

  const Init := State(Head([], []), [])

  // ----- Headers that decide about the body -----

  function TransferEncoding(): Line { Ascii("Transfer-Encoding") }

  function ContentLength(): Line { Ascii("Content-Length") }

  predicate Chunked(headers: seq<Line>) {
    GetHeader(headers, TransferEncoding()) == Some(Ascii("chunked"))
  }

  /** The body length; a message without the header has as many bytes as still come. */
  function DeclaredLength(headers: seq<Line>): Result<nat> {
    match GetHeader(headers, ContentLength())
    case None => Ok(UNLIMITED)
    case Some(value) => Stoul(value)
  }

  // ----- Reading -----

  function StripCr(line: Line): Line {
    if |line| > 0 && line[|line| - 1] == CR then line[..|line| - 1] else line
  }

  /** The empty line: the message is handed over; chunked bodies are not modelled. */
  function Begin(headers: seq<Line>, log: seq<Entry>): Result<State> {
    if Chunked(headers) then Err("chunked")
    else
      match DeclaredLength(headers)
      case Err(e) => Err(e)
      case Ok(n) =>
        if n == 0 then Ok(State(Head([], []), log + [Entry(headers, [], 1)]))
        else Ok(State(Body(n), log + [Entry(headers, [], 0)]))
  }

  function EndOfLine(s: State): Result<State>
    requires s.phase.Head?
  {
    var line := StripCr(s.phase.line);
    if |line| > 0 then Ok(State(Head([], s.phase.headers + [line]), s.log))
    else if |s.phase.headers| == 0 then Err("Invalid request")
    else Begin(s.phase.headers, s.log)
  }

  function WithLast(log: seq<Entry>, e: Entry): (r: seq<Entry>)
    requires |log| > 0
    ensures |r| == |log|
  {
    log[..|log| - 1] + [e]
  }

  function Last(log: seq<Entry>): Entry
    requires |log| > 0
  {
    log[|log| - 1]
  }

  function FinishBody(s: State): State
    requires |s.log| > 0
  {
    State(Head([], []), WithLast(s.log, Last(s.log).(ends := Last(s.log).ends + 1)))
  }

  /** Body bytes that do not exceed the message are handed on; the last one ends it. */
  function Received(s: State, bytes: seq<Byte>): State
    requires s.phase.Body? && |s.log| > 0 && |bytes| <= s.phase.left
  {
    var s1 := State(Body(s.phase.left - |bytes|), WithLast(s.log, Last(s.log).(body := Last(s.log).body + bytes)));
    if s1.phase.left == 0 then FinishBody(s1) else s1
  }

  function Step(s: State, b: Byte): Result<State>
    requires s.phase.Body? ==> |s.log| > 0 && s.phase.left > 0
  {
    if s.phase.Body? then Ok(Received(s, [b]))
    else if b == LF then EndOfLine(s)
    else Ok(State(Head(s.phase.line + [b], s.phase.headers), s.log))
  }

  /** The parser after a run of bytes. */
  ghost function Feed(s: State, data: seq<Byte>): Result<State>
    requires Inv(s)
    decreases |data|
  {
    if |data| == 0 then Ok(s)
    else
      StepInv(s, data[0]);
      match Step(s, data[0])
      case Err(e) => Err(e)
      case Ok(s1) => Feed(s1, data[1..])
  }

  /** The connection is closed: a body without a declared length ends here. */
  function Ended(s: State): State
    requires s.phase.Body? ==> |s.log| > 0
  {
    if s.phase.Body? then FinishBody(s) else s
  }

  // ----- What is delivered is a message the serializer could have written -----

  datatype Message = Message(headers: seq<Line>, body: seq<Byte>)

  predicate LineOk(h: Line) {
    |h| > 0 && LF !in h
  }

  predicate HeadOk(headers: seq<Line>) {
    |headers| > 0 && (forall h :: h in headers ==> LineOk(h)) && !Chunked(headers)
  }

  /** Non-empty header lines without a line feed, and a declared length that is the body's. */
  predicate Sendable(m: Message) {
    HeadOk(m.headers) && DeclaredLength(m.headers) == Ok(|m.body|)
  }

  predicate EntryOk(e: Entry) {
    e.ends == 1 && Sendable(Message(e.headers, e.body))
  }

  ghost predicate Inv(s: State) {
    && (forall i :: 0 <= i < |s.log| - (if s.phase.Body? then 1 else 0) ==> EntryOk(s.log[i]))
    && match s.phase
       case Head(line, headers) => LF !in line && forall h :: h in headers ==> LineOk(h)
       case Body(left) =>
         && left > 0 && |s.log| > 0
         && Last(s.log).ends == 0 && HeadOk(Last(s.log).headers)
         && DeclaredLength(Last(s.log).headers) == Ok(|Last(s.log).body| + left)
  }

  lemma StepInv(s: State, b: Byte)
    requires Inv(s)
    ensures Step(s, b).Ok? ==> Inv(Step(s, b).value)
  {
    hide Chunked, DeclaredLength;
  }

  lemma {:induction false} FeedInv(s: State, data: seq<Byte>)
    requires Inv(s)
    ensures Feed(s, data).Ok? ==> Inv(Feed(s, data).value)
    decreases |data|
  {
    hide Step, EntryOk, HeadOk, DeclaredLength;
    if |data| != 0 {
      StepInv(s, data[0]);
      if Step(s, data[0]).Ok? {
        FeedInv(Step(s, data[0]).value, data[1..]);
      }
    }
  }

  /** Reading does not depend on where the stream is cut. */
  lemma {:induction false} FeedConcat(s: State, a: seq<Byte>, b: seq<Byte>)
    requires Inv(s)
    ensures Feed(s, a).Ok? ==> Inv(Feed(s, a).value)
    ensures Feed(s, a + b) == match Feed(s, a) case Ok(s1) => Feed(s1, b) case Err(e) => Err(e)
    decreases |a|
  {
    hide Step, EntryOk, HeadOk, DeclaredLength;
    if |a| == 0 {
      assert a + b == b;
    } else {
      assert (a + b)[1..] == a[1..] + b;
      StepInv(s, a[0]);
      if Step(s, a[0]).Ok? {
        FeedConcat(Step(s, a[0]).value, a[1..], b);
      }
    }
  }

  // ----- Runs of bytes -----

  /** Bytes without a line feed extend the line. */
  lemma {:induction false} FeedLine(s: State, bytes: seq<Byte>)
    requires Inv(s) && s.phase.Head? && LF !in bytes
    ensures Feed(s, bytes) == Ok(State(Head(s.phase.line + bytes, s.phase.headers), s.log))
    decreases |bytes|
  {
    if |bytes| == 0 {
      assert s.phase.line + bytes == s.phase.line;
    } else {
      var s1 := State(Head(s.phase.line + [bytes[0]], s.phase.headers), s.log);
      StepInv(s, bytes[0]);
      FeedLine(s1, bytes[1..]);
      assert s1.phase.line + bytes[1..] == s.phase.line + bytes;
    }
  }

  lemma ReceivedSplit(s: State, bytes: seq<Byte>)
    requires Inv(s) && s.phase.Body? && 2 <= |bytes| <= s.phase.left
    ensures Received(s, bytes[..1]).phase.Body? && |Received(s, bytes[..1]).log| > 0
    ensures Received(s, bytes[..1]).phase.left == s.phase.left - 1
    ensures Received(Received(s, bytes[..1]), bytes[1..]) == Received(s, bytes)
  {
    hide EntryOk, HeadOk, DeclaredLength;
    assert bytes == bytes[..1] + bytes[1..];
    var one := Received(s, bytes[..1]);
    var e := Last(s.log);
    assert one.log == WithLast(s.log, e.(body := e.body + bytes[..1]));
    assert e.body + bytes == (e.body + bytes[..1]) + bytes[1..];
    assert WithLast(one.log, e.(body := e.body + bytes)) == WithLast(s.log, e.(body := e.body + bytes));
    assert s.phase.left - 1 - |bytes[1..]| == s.phase.left - |bytes|;
  }

  lemma {:induction false} FeedBody(s: State, bytes: seq<Byte>)
    requires Inv(s) && s.phase.Body? && 1 <= |bytes| <= s.phase.left
    ensures Feed(s, bytes) == Ok(Received(s, bytes))
    decreases |bytes|
  {
    StepInv(s, bytes[0]);
    assert bytes[..1] == [bytes[0]];
    if |bytes| == 1 {
      assert bytes == [bytes[0]] && bytes[1..] == [];
    } else {
      ReceivedSplit(s, bytes);
      hide Received;
      FeedBody(Received(s, bytes[..1]), bytes[1..]);
    }
  }

  // ----- One message -----

  function HeadBytes(headers: seq<Line>): seq<Byte> {
    if |headers| == 0 then [CR, LF] else headers[0] + [CR, LF] + HeadBytes(headers[1..])
  }

  /** A message as the serializer writes it. */
  function Encode(m: Message): seq<Byte> {
    HeadBytes(m.headers) + m.body
  }

  /** CR LF after a line: exactly one CR is taken off. */
  lemma LineReads(s: State, line: Line)
    requires Inv(s) && s.phase.Head? && s.phase.line == [] && LF !in line
    ensures Feed(s, line + [CR, LF]) == EndOfLine(State(Head(line + [CR], s.phase.headers), s.log))
  {
    hide EndOfLine;
    var s1 := State(Head(line + [CR], s.phase.headers), s.log);
    FeedLine(s, line + [CR]);
    assert [] + (line + [CR]) == line + [CR];
    FeedConcat(s, line + [CR], [LF]);
    assert line + [CR, LF] == line + [CR] + [LF];
    StepInv(s1, LF);
    assert [LF][1..] == [];
  }

  lemma {:induction false} HeadReads(s: State, headers: seq<Line>)
    requires Inv(s) && s.phase.Head? && s.phase.line == []
    requires forall h :: h in headers ==> LineOk(h)
    requires |s.phase.headers| + |headers| > 0
    ensures Feed(s, HeadBytes(headers)) == Begin(s.phase.headers + headers, s.log)
    decreases |headers|
  {
    hide Begin, EntryOk, Feed;
    if |headers| == 0 {
      LineReads(s, []);
      assert [] + [CR, LF] == [CR, LF];
      assert s.phase.headers + [] == s.phase.headers;
    } else {
      var h := headers[0];
      var s1 := State(Head([], s.phase.headers + [h]), s.log);
      assert LineOk(h);
      LineReads(s, h);
      assert StripCr(h + [CR]) == h;
      FeedConcat(s, h + [CR, LF], HeadBytes(headers[1..]));
      HeadReads(s1, headers[1..]);
      assert s1.phase.headers + headers[1..] == s.phase.headers + headers;
    }
  }

  ghost predicate Ready(s: State) {
    Inv(s) && s.phase == Head([], [])
  }

  lemma MessageReads(s: State, m: Message)
    requires Ready(s) && Sendable(m)
    ensures Feed(s, Encode(m)) == Ok(State(Head([], []), s.log + [Entry(m.headers, m.body, 1)]))
  {
    HeadReads(s, m.headers);
    FeedConcat(s, HeadBytes(m.headers), m.body);
    assert [] + m.headers == m.headers;
    if |m.body| > 0 {
      var s1 := State(Body(|m.body|), s.log + [Entry(m.headers, [], 0)]);
      hide Feed;
      FeedBody(s1, m.body);
      assert [] + m.body == m.body;
    }
  }

  /** A message comes back as it was written exactly when its header lines and its declared length allow it. */
  lemma ComesBackIff(s: State, m: Message)
    requires Ready(s)
    ensures Feed(s, Encode(m)) == Ok(State(Head([], []), s.log + [Entry(m.headers, m.body, 1)])) <==> Sendable(m)
  {
    hide Sendable, Feed, Encode;
    if Sendable(m) {
      MessageReads(s, m);
    }
    FeedInv(s, Encode(m));
    var e := Entry(m.headers, m.body, 1);
    assert (s.log + [e])[|s.log|] == e;
    assert Inv(State(Head([], []), s.log + [e])) ==> EntryOk(e);
  }

  /**
    Whatever bytes arrive: no message is ended twice, only the last may still be open, and every
    ended one is a message that the serializer could have written.
   */
  lemma OnlySendable(data: seq<Byte>, i: nat)
    requires Feed(Init, data).Ok? && i < |Feed(Init, data).value.log|
    ensures var log := Feed(Init, data).value.log; var e := log[i];
      e.ends <= 1 && if e.ends == 0 then i == |log| - 1 else Sendable(Message(e.headers, e.body))
  {
    FeedInv(Init, data);
  }

  // ----- Many messages, any pieces -----

  function Wire(messages: seq<Message>): seq<Byte> {
    if |messages| == 0 then [] else Encode(messages[0]) + Wire(messages[1..])
  }

  function Entries(messages: seq<Message>): seq<Entry> {
    seq(|messages|, i requires 0 <= i < |messages| => Entry(messages[i].headers, messages[i].body, 1))
  }

  lemma {:induction false} AllComeBack(s: State, messages: seq<Message>)
    requires Ready(s) && forall m :: m in messages ==> Sendable(m)
    ensures Feed(s, Wire(messages)) == Ok(State(Head([], []), s.log + Entries(messages)))
    decreases |messages|
  {
    hide Sendable, Encode;
    if |messages| == 0 {
      assert s.log + Entries(messages) == s.log;
    } else {
      var m := messages[0];
      MessageReads(s, m);
      FeedConcat(s, Encode(m), Wire(messages[1..]));
      var s1 := Feed(s, Encode(m)).value;
      AllComeBack(s1, messages[1..]);
      assert s.log + [Entry(m.headers, m.body, 1)] + Entries(messages[1..]) == s.log + Entries(messages);
    }
  }

  /** The parser after one write for every piece. */
  ghost function FeedPieces(s: State, pieces: seq<seq<Byte>>): Result<State>
    requires Inv(s)
    decreases |pieces|
  {
    if |pieces| == 0 then Ok(s)
    else
      FeedInv(s, pieces[0]);
      match Feed(s, pieces[0])
      case Err(e) => Err(e)
      case Ok(s1) => FeedPieces(s1, pieces[1..])
  }

  lemma {:induction false} PiecesDoNotMatter(s: State, pieces: seq<seq<Byte>>)
    requires Inv(s)
    ensures FeedPieces(s, pieces) == Feed(s, Joined(pieces))
    decreases |pieces|
  {
    if |pieces| != 0 {
      FeedConcat(s, pieces[0], Joined(pieces[1..]));
      if Feed(s, pieces[0]).Ok? {
        PiecesDoNotMatter(Feed(s, pieces[0]).value, pieces[1..]);
      }
    }
  }

  /** Pipelined messages, cut anywhere: the same header lists and bodies, each finished once. */
  lemma ComeBackInPieces(messages: seq<Message>, pieces: seq<seq<Byte>>)
    requires forall m :: m in messages ==> Sendable(m)
    requires Joined(pieces) == Wire(messages)
    ensures FeedPieces(Init, pieces) == Ok(State(Head([], []), Entries(messages)))
  {
    AllComeBack(Init, messages);
    PiecesDoNotMatter(Init, pieces);
    assert [] + Entries(messages) == Entries(messages);
  }

  /** A last message without a declared length is finished by the end of the connection. */
  lemma UntilClose(s: State, m: Message)
    requires Ready(s) && HeadOk(m.headers) && GetHeader(m.headers, ContentLength()) == None
    requires |m.body| < UNLIMITED
    ensures Feed(s, Encode(m)).Ok? && Inv(Feed(s, Encode(m)).value)
    ensures Ended(Feed(s, Encode(m)).value) == State(Head([], []), s.log + [Entry(m.headers, m.body, 1)])
  {
    var s1 := State(Body(UNLIMITED), s.log + [Entry(m.headers, [], 0)]);
    assert Encode(m) == HeadBytes(m.headers) + m.body;
    hide *;
    HeadUnlimited(s, m.headers);
    FeedConcat(s, HeadBytes(m.headers), m.body);
    UnlimitedBody(s.log, m);
  }

  /** Body bytes without a declared length, and then the end of the connection. */
  lemma UnlimitedBody(log: seq<Entry>, m: Message)
    requires |m.body| < UNLIMITED && Inv(State(Body(UNLIMITED), log + [Entry(m.headers, [], 0)]))
    ensures var r := Feed(State(Body(UNLIMITED), log + [Entry(m.headers, [], 0)]), m.body);
      && r.Ok? && Inv(r.value) && Ended(r.value) == State(Head([], []), log + [Entry(m.headers, m.body, 1)])
  {
    var s1 := State(Body(UNLIMITED), log + [Entry(m.headers, [], 0)]);
    FeedInv(s1, m.body);
    hide Inv;
    if |m.body| > 0 {
      FeedBody(s1, m.body);
      hide Feed;
      assert [] + m.body == m.body;
    }
  }

  lemma HeadUnlimited(s: State, headers: seq<Line>)
    requires Ready(s) && HeadOk(headers) && GetHeader(headers, ContentLength()) == None
    ensures Inv(s) && Feed(s, HeadBytes(headers)) == Ok(State(Body(UNLIMITED), s.log + [Entry(headers, [], 0)]))
    ensures Inv(State(Body(UNLIMITED), s.log + [Entry(headers, [], 0)]))
  {
    HeadReads(s, headers);
    assert [] + headers == headers;
    FeedInv(s, HeadBytes(headers));
  }

  // ----- Header lines by their bytes -----

  /** Content-Length: */
  const LENGTH_NAME: Line :=
    [0x43, 0x6F, 0x6E, 0x74, 0x65, 0x6E, 0x74, 0x2D, 0x4C, 0x65, 0x6E, 0x67, 0x74, 0x68, 0x3A]

  /** Transfer-Encoding: */
  const ENCODING_NAME: Line :=
    [0x54, 0x72, 0x61, 0x6E, 0x73, 0x66, 0x65, 0x72, 0x2D, 0x45, 0x6E, 0x63, 0x6F, 0x64, 0x69, 0x6E, 0x67, 0x3A]

  /** chunked */
  const CHUNKED: Line := [0x63, 0x68, 0x75, 0x6E, 0x6B, 0x65, 0x64]

  lemma LengthName()
    ensures ContentLength() + [COLON] == LENGTH_NAME
  {
    var s := "Content-Length";
    assert |s| == 14;
    assert s[0] as int == 0x43 && s[1] as int == 0x6F && s[2] as int == 0x6E && s[3] as int == 0x74;
    assert s[4] as int == 0x65 && s[5] as int == 0x6E && s[6] as int == 0x74 && s[7] as int == 0x2D;
    assert s[8] as int == 0x4C && s[9] as int == 0x65 && s[10] as int == 0x6E && s[11] as int == 0x67;
    assert s[12] as int == 0x74 && s[13] as int == 0x68;
  }

  lemma EncodingName()
    ensures TransferEncoding() + [COLON] == ENCODING_NAME && Ascii("chunked") == CHUNKED
  {
    var s, t := "Transfer-Encoding", "chunked";
    assert |s| == 17 && |t| == 7;
    assert s[0] as int == 0x54 && s[1] as int == 0x72 && s[2] as int == 0x61 && s[3] as int == 0x6E;
    assert s[4] as int == 0x73 && s[5] as int == 0x66 && s[6] as int == 0x65 && s[7] as int == 0x72;
    assert s[8] as int == 0x2D && s[9] as int == 0x45 && s[10] as int == 0x6E && s[11] as int == 0x63;
    assert s[12] as int == 0x6F && s[13] as int == 0x64 && s[14] as int == 0x69 && s[15] as int == 0x6E;
    assert s[16] as int == 0x67;
    assert t[0] as int == 0x63 && t[1] as int == 0x68 && t[2] as int == 0x75 && t[3] as int == 0x6E;
    assert t[4] as int == 0x6B && t[5] as int == 0x65 && t[6] as int == 0x64;
  }

  /** No header line begins with the bytes. */
  ghost predicate NoneBegins(headers: seq<Line>, name: Line) {
    forall h :: h in headers ==> !(name <= h)
  }

  lemma {:induction false} NotFound(headers: seq<Line>, name: Line)
    requires NoneBegins(headers, name + [0x3A])
    ensures GetHeader(headers, name) == None
  {
    if |headers| > 0 {
      assert headers[0] in headers;
      assert forall h :: h in headers[1..] ==> h in headers;
      NamedIffPrefix(headers[0], name);
      NotFound(headers[1..], name);
    }
  }

  /** The first line that begins with the name and a colon gives the value, whatever stands around it. */
  lemma Found(before: seq<Line>, name: Line, a: Line, value: Line, b: Line, after: seq<Line>)
    requires NoneBegins(before, name + [0x3A]) && AllBlank(a) && AllBlank(b)
    requires |value| > 0 && value[0] !in BLANKS && value[|value| - 1] !in BLANKS
    ensures GetHeader(before + [(name + [0x3A]) + (a + value + b)] + after, name) == Some(value)
  {
    var h := (name + [0x3A]) + (a + value + b);
    NamedIffPrefix(h, name);
    forall g | g in before ensures !Named(g, name) {
      NamedIffPrefix(g, name);
    }
    FirstNamed(before, h, after, name);
    assert h[|name| + 1..] == a + value + b;
    Trimmed(a, value, b);
  }

  /** The header line that declares a length, with white space or without, as in http_response::simple_text_response. */
  function LengthLine(a: Line, n: nat, b: Line): Line {
    LENGTH_NAME + (a + Decimal(n) + b)
  }

  lemma LengthFound(before: seq<Line>, a: Line, n: nat, b: Line, after: seq<Line>)
    requires NoneBegins(before, LENGTH_NAME) && AllBlank(a) && AllBlank(b) && n <= UNLIMITED
    ensures DeclaredLength(before + [LengthLine(a, n, b)] + after) == Ok(n)
  {
    hide Ascii, ContentLength, Decimal, DeclaredLength, GetHeader, NoneBegins, AllBlank;
    LengthName();
    DecimalNoSpaces(n);
    Found(before, ContentLength(), a, Decimal(n), b, after);
    LengthRead(before + [LengthLine(a, n, b)] + after, n);
  }

  lemma DecimalNoSpaces(n: nat)
    ensures |Decimal(n)| > 0 && Decimal(n)[0] !in BLANKS && Decimal(n)[|Decimal(n)| - 1] !in BLANKS
  {
    DecimalRoundTrip(n);
    DigitsAreNoSpaces(Decimal(n));
  }

  lemma LengthRead(headers: seq<Line>, n: nat)
    requires GetHeader(headers, ContentLength()) == Some(Decimal(n)) && n <= UNLIMITED
    ensures DeclaredLength(headers) == Ok(n)
  {
    hide Decimal, Stoul, Trim;
    DecimalNoSpaces(n);
    NumberRead([], n, []);
    Trimmed([], Decimal(n), []);
    assert [] + Decimal(n) + [] == Decimal(n);
  }

  lemma NotChunked(headers: seq<Line>)
    requires NoneBegins(headers, ENCODING_NAME)
    ensures !Chunked(headers)
  {
    EncodingName();
    hide Ascii;
    NotFound(headers, TransferEncoding());
  }

  /**
    With the length of its body in a header line of these bytes, and no other such line before it,
    a message comes back, and the next one may follow.
   */
  lemma DeclaredComesBack(s: State, before: seq<Line>, a: Line, b: Line, after: seq<Line>, body: seq<Byte>)
    requires Ready(s) && |body| <= UNLIMITED && AllBlank(a) && AllBlank(b)
    requires var headers := before + [LengthLine(a, |body|, b)] + after;
      (forall h :: h in headers ==> LineOk(h)) && NoneBegins(headers, ENCODING_NAME) && NoneBegins(before, LENGTH_NAME)
    ensures var headers := before + [LengthLine(a, |body|, b)] + after;
            Feed(s, Encode(Message(headers, body))) == Ok(State(Head([], []), s.log + [Entry(headers, body, 1)]))
  {
    var headers := before + [LengthLine(a, |body|, b)] + after;
    LengthFound(before, a, |body|, b, after);
    NotChunked(headers);
    assert |headers| > 0;
    hide Feed, Encode, Chunked, DeclaredLength, LengthLine;
    MessageReads(s, Message(headers, body));
  }

  /** A message whose first Transfer-Encoding line says chunked is refused at its empty line. */
  lemma ChunkedRefused(s: State, before: seq<Line>, a: Line, b: Line, after: seq<Line>, body: seq<Byte>)
    requires Ready(s) && AllBlank(a) && AllBlank(b) && NoneBegins(before, ENCODING_NAME)
    requires forall h :: h in before + [ENCODING_NAME + (a + CHUNKED + b)] + after ==> LineOk(h)
    ensures Feed(s, Encode(Message(before + [ENCODING_NAME + (a + CHUNKED + b)] + after, body))) == Err("chunked")
  {
    var headers := before + [ENCODING_NAME + (a + CHUNKED + b)] + after;
    EncodingName();
    assert CHUNKED[0] !in BLANKS && CHUNKED[6] !in BLANKS;
    hide Ascii, Feed;
    Found(before, TransferEncoding(), a, CHUNKED, b, after);
    HeadReads(s, headers);
    assert [] + headers == headers;
    FeedConcat(s, HeadBytes(headers), body);
  }

  /** Without a line that begins with Content-Length: the body lasts until the connection is closed. */
  lemma UndeclaredUntilClose(s: State, m: Message)
    requires Ready(s) && |m.headers| > 0 && (forall h :: h in m.headers ==> LineOk(h)) && |m.body| < UNLIMITED
    requires NoneBegins(m.headers, ENCODING_NAME) && NoneBegins(m.headers, LENGTH_NAME)
    ensures Feed(s, Encode(m)).Ok? && Inv(Feed(s, Encode(m)).value)
    ensures Ended(Feed(s, Encode(m)).value) == State(Head([], []), s.log + [Entry(m.headers, m.body, 1)])
  {
    LengthName();
    NotChunked(m.headers);
    hide Ascii, Feed, Chunked;
    NotFound(m.headers, ContentLength());
    UntilClose(s, m);
  }

  // ----- The bytes of a head -----

  function HeadLines(headers: seq<Line>): (r: seq<Line>)
    ensures |r| == |headers|
  {
    seq(|headers|, i requires 0 <= i < |headers| => headers[i] + [0x0D, 0x0A])
  }

  /** Every line is followed by CR LF, and the last one by an empty line. */
  lemma {:induction false} HeadBytesAre(headers: seq<Line>)
    ensures HeadBytes(headers) == Joined(HeadLines(headers)) + [0x0D, 0x0A]
  {
    if |headers| > 0 {
      HeadBytesAre(headers[1..]);
      assert HeadLines(headers)[1..] == HeadLines(headers[1..]);
      assert headers[0] + [CR, LF] == HeadLines(headers)[0];
    } else {
      assert Joined(HeadLines(headers)) == [];
    }
  }

  /** A line that ends with a bare line feed is read like one that ends with CR LF. */
  lemma BareLineFeed(s: State, line: Line)
    requires Inv(s) && s.phase.Head? && s.phase.line == []
    requires 0x0A !in line && (|line| > 0 ==> line[|line| - 1] != 0x0D)
    ensures Feed(s, line + [0x0A]) == Feed(s, line + [0x0D, 0x0A])
  {
    LineReads(s, line);
    FeedLine(s, line);
    assert [] + line == line;
    FeedConcat(s, line, [LF]);
    assert StripCr(line) == line == StripCr(line + [CR]);
    assert [LF][1..] == [];
    StepInv(State(Head(line, s.phase.headers), s.log), LF);
    hide Begin;
  }

  /** An empty line where a message should begin is an error. */
  lemma EmptyLineFirst(s: State)
    requires Ready(s)
    ensures Feed(s, [0x0D, 0x0A]) == Err("Invalid request")
  {
    LineReads(s, []);
    assert [] + [CR, LF] == [CR, LF] && [] + [CR] == [CR];
  }
}
