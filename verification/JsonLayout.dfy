/**
  Every document the parser reads, however it is laid out: white space between the tokens,
  comments, numbers, any escape of a character, commas after the last element. The text of a
  layout and the tree it means are given by the bytes of section 2 to 7 of RFC 8259 alone.
 */
module JsonLayout {
  import opened Arithmetic
  import opened Bytes
  import opened Utf8
  import opened JsonTree
  import opened JsonMachine
  import opened JsonSteps
  import opened JsonRoundTrip
  import opened Wrappers

  // ----- Strings -----

  /** What the letter of a short escape means: quote, backslash, n, r, b, t and f. */
  const MEANT: map<Byte, Byte> :=
    map[0x22 := 0x22, 0x5C := 0x5C, 0x6E := 0x0A, 0x72 := 0x0D, 0x62 := 0x08, 0x74 := 0x09, 0x66 := 0x0C]

  type HexValueOf = d: nat | d < 16

  const LOWER_HEX: seq<Byte> :=
    [0x30, 0x31, 0x32, 0x33, 0x34, 0x35, 0x36, 0x37, 0x38, 0x39, 0x61, 0x62, 0x63, 0x64, 0x65, 0x66]
  const UPPER_HEX: seq<Byte> :=
    [0x30, 0x31, 0x32, 0x33, 0x34, 0x35, 0x36, 0x37, 0x38, 0x39, 0x41, 0x42, 0x43, 0x44, 0x45, 0x46]

  datatype Hex = Hex(value: HexValueOf, upper: bool) {
    function Char(): Byte {
      if upper then UPPER_HEX[value] else LOWER_HEX[value]
    }
  }

  /** One way to spell a byte or a character in a string. */
  datatype Piece =
    | Raw(b: Byte)
    | Short(letter: Byte)
    | Long(d1: Hex, d2: Hex, d3: Hex, d4: Hex)

  predicate PieceOk(x: Piece) {
    match x
    case Raw(b) => b != 0x22 && b != 0x5C
    case Short(letter) => letter in MEANT
    case Long(_, _, _, _) => true
  }

  function PieceText(x: Piece): seq<Byte> {
    match x
    case Raw(b) => [b]
    case Short(letter) => [0x5C, letter]
    case Long(d1, d2, d3, d4) => [0x5C, 0x75, d1.Char(), d2.Char(), d3.Char(), d4.Char()]
  }

  function PieceValue(x: Piece): seq<Byte>
    requires PieceOk(x)
  {
    match x
    case Raw(b) => [b]
    case Short(letter) => [MEANT[letter]]
    case Long(d1, d2, d3, d4) => Add(0x1000 * d1.value + 0x100 * d2.value + 0x10 * d3.value + d4.value)
  }

  ghost predicate PiecesOk(s: seq<Piece>) {
    forall x :: x in s ==> PieceOk(x)
  }

  ghost function Spelled(s: seq<Piece>): seq<Byte> {
    if |s| == 0 then [] else PieceText(s[0]) + Spelled(s[1..])
  }

  ghost function Meant(s: seq<Piece>): seq<Byte>
    requires PiecesOk(s)
  {
    if |s| == 0 then [] else PieceValue(s[0]) + Meant(s[1..])
  }

  lemma HexSpelled(h: Hex)
    ensures HexValue(h.Char()) == Some(h.value)
  {
  }

  lemma ShortSpelled(letter: Byte)
    requires letter in MEANT
    ensures Unescape(letter) == Some(MEANT[letter])
  {
  }

  lemma LongReads(o: Options, p: Parser, x: Piece, rest: seq<Byte>)
    requires Inv(p) && p.state == STRING && x.Long?
    ensures var q := p.(buffer := p.buffer + PieceValue(x));
            Inv(q) && Run(o, p, PieceText(x) + rest) == Run(o, q, rest)
  {
    hide *;
    HexSpelled(x.d1);
    HexSpelled(x.d2);
    HexSpelled(x.d3);
    HexSpelled(x.d4);
    LongText(x, rest);
    LongValue(x);
    DigitsMean(p, x.d1.value, x.d2.value, x.d3.value, x.d4.value);
    FourDigitsRead(o, p, x.d1.Char(), x.d2.Char(), x.d3.Char(), x.d4.Char(),
                   x.d1.value, x.d2.value, x.d3.value, x.d4.value, rest);
  }

  lemma LongValue(x: Piece)
    requires x.Long?
    ensures PieceOk(x)
    ensures PieceValue(x) == Add(0x1000 * x.d1.value + 0x100 * x.d2.value + 0x10 * x.d3.value + x.d4.value)
  {
  }

  lemma LongText(x: Piece, rest: seq<Byte>)
    requires x.Long?
    ensures PieceText(x) + rest == [BACKSLASH] + ([LETTER_U] + ([x.d1.Char()] + ([x.d2.Char()]
              + ([x.d3.Char()] + ([x.d4.Char()] + rest)))))
  {
  }

  lemma DigitsMean(p: Parser, d1: nat, d2: nat, d3: nat, d4: nat)
    requires Inv(p) && p.state == STRING && d1 < 16 && d2 < 16 && d3 < 16 && d4 < 16
    ensures var q := p.(buffer := p.buffer + Add(0x1000 * d1 + 0x100 * d2 + 0x10 * d3 + d4));
            Inv(q) && FourDigits(p, d1, d2, d3, d4) == q
  {
    var unit := 0x1000 * d1 + 0x100 * d2 + 0x10 * d3 + d4;
    DivMod(unit, 0x1000, d1, 0x100 * d2 + 0x10 * d3 + d4);
    DivMod(unit, 0x100, 0x10 * d1 + d2, 0x10 * d3 + d4);
    DivMod(unit, 0x10, 0x100 * d1 + 0x10 * d2 + d3, d4);
    FourDigitsValue(p, unit);
    hide *;
  }

  lemma PieceReads(o: Options, p: Parser, x: Piece, rest: seq<Byte>)
    requires Inv(p) && p.state == STRING && PieceOk(x)
    ensures var q := p.(buffer := p.buffer + PieceValue(x));
            Inv(q) && Run(o, p, PieceText(x) + rest) == Run(o, q, rest)
  {
    match x
    case Long(_, _, _, _) => LongReads(o, p, x, rest);
    case Raw(b) =>
      hide Run, InString;
      RunOne(o, p, b, rest);
    case Short(letter) =>
      ShortSpelled(letter);
      assert PieceText(x) + rest == [BACKSLASH] + ([letter] + rest);
      hide Run, InString, Unescape;
      RunOne(o, p, BACKSLASH, [letter] + rest);
      RunOne(o, p.(state := STRING_BACKSLESH), letter, rest);
  }

  /** From the character after the opening quote to the one before the closing quote. */
  lemma {:induction false} PiecesRead(o: Options, p: Parser, s: seq<Piece>, rest: seq<Byte>)
    requires Inv(p) && p.state == STRING && PiecesOk(s)
    ensures var q := p.(buffer := p.buffer + Meant(s));
            Inv(q) && Run(o, p, Spelled(s) + rest) == Run(o, q, rest)
    decreases |s|
  {
    if |s| == 0 {
      assert p.buffer + [] == p.buffer && [] + rest == rest;
    } else {
      PiecesSplit(p.buffer, s, rest);
      hide *;
      PieceReads(o, p, s[0], Spelled(s[1..]) + rest);
      PiecesRead(o, p.(buffer := p.buffer + PieceValue(s[0])), s[1..], rest);
    }
  }

  lemma PiecesSplit(buffer: seq<Byte>, s: seq<Piece>, rest: seq<Byte>)
    requires |s| > 0 && PiecesOk(s)
    ensures PieceOk(s[0]) && PiecesOk(s[1..])
    ensures Spelled(s) + rest == PieceText(s[0]) + (Spelled(s[1..]) + rest)
    ensures buffer + PieceValue(s[0]) + Meant(s[1..]) == buffer + Meant(s)
  {
    assert s[0] in s && forall x :: x in s[1..] ==> x in s;
    hide PieceText, PieceValue, PieceOk;
    Associative(PieceText(s[0]), Spelled(s[1..]), rest);
    Associative(buffer, PieceValue(s[0]), Meant(s[1..]));
  }

  ghost function StringText(s: seq<Piece>): seq<Byte> {
    [0x22] + Spelled(s) + [0x22]
  }

  /** A whole string, where its opening quote leads to a state of the given kind. */
  lemma StringSpelled(o: Options, p: Parser, s: seq<Piece>, rest: seq<Byte>)
    requires Inv(p) && PiecesOk(s) && Step(o, p, QUOTE).More?
    requires Step(o, p, QUOTE).next.state == STRING && Step(o, p, QUOTE).next.buffer == []
    ensures var q := Step(o, p, QUOTE).next.(buffer := Meant(s));
            Inv(q) && InString(q) && Inv(EndString(q)) && Run(o, p, StringText(s) + rest) == Run(o, EndString(q), rest)
  {
    var p1 := Step(o, p, QUOTE).next;
    var q := p1.(buffer := Meant(s));
    assert StringText(s) + rest == [QUOTE] + (Spelled(s) + ([QUOTE] + rest));
    assert p1.buffer + Meant(s) == Meant(s);
    RunOne(o, p, QUOTE, Spelled(s) + ([QUOTE] + rest));
    PiecesRead(o, p1, s, [QUOTE] + rest);
    assert Step(o, q, QUOTE) == More(EndString(q));
    EndStringInv(q);
    hide Run, Step, EndString, Meant, Spelled;
    RunOne(o, q, QUOTE, rest);
  }

  // ----- White space and comments -----

  predicate BetweenTokens(p: Parser) {
    p.state == BOF || p.state == ARRAY || p.state == ARRAY_ITEM || p.state == OBJECT || p.state == OBJECT_ITEM
    || p.state == PROPERTY_NAME || p.state == PROPERTY_VALUE
  }

  lemma BlankStays(o: Options, p: Parser, b: Byte)
    requires Inv(p) && BetweenTokens(p) && b in BLANKS
    ensures Step(o, p, b) == More(p)
  {
  }

  lemma {:induction false} BlanksRead(o: Options, p: Parser, s: seq<Byte>, rest: seq<Byte>)
    requires Inv(p) && BetweenTokens(p) && AllBlank(s)
    ensures Run(o, p, s + rest) == Run(o, p, rest)
    decreases |s|
  {
    if |s| == 0 {
      assert s + rest == rest;
    } else {
      assert s[0] in s && forall b :: b in s[1..] ==> b in s;
      BlankStays(o, p, s[0]);
      assert s + rest == [s[0]] + (s[1..] + rest);
      hide Run, Step, Inv;
      RunOne(o, p, s[0], s[1..] + rest);
      BlanksRead(o, p, s[1..], rest);
    }
  }

  /** White space, or a comment up to the end of its line. */
  datatype Part = Blank(b: Byte) | Comment(text: seq<Byte>)

  ghost predicate PartsOk(o: Options, s: seq<Part>) {
    forall x :: x in s ==> if x.Blank? then x.b in BLANKS else o.inlineComments && 0x0A !in x.text
  }

  function PartText(x: Part): seq<Byte> {
    match x
    case Blank(b) => [b]
    case Comment(text) => [0x2F, 0x2F] + text + [0x0A]
  }

  function PartsText(s: seq<Part>): seq<Byte> {
    if |s| == 0 then [] else PartText(s[0]) + PartsText(s[1..])
  }

  lemma {:induction false} CommentText(o: Options, p: Parser, text: seq<Byte>, rest: seq<Byte>)
    requires Inv(p) && p.state == INLINE_COMMENT && 0x0A !in text
    ensures Run(o, p, text + rest) == Run(o, p, rest)
    decreases |text|
  {
    if |text| == 0 {
      assert text + rest == rest;
    } else {
      assert text[0] in text && forall b :: b in text[1..] ==> b in text;
      assert Step(o, p, text[0]) == More(p);
      assert text + rest == [text[0]] + (text[1..] + rest);
      hide Run, Step, Inv;
      RunOne(o, p, text[0], text[1..] + rest);
      CommentText(o, p, text[1..], rest);
    }
  }

  lemma CommentReads(o: Options, p: Parser, text: seq<Byte>, rest: seq<Byte>)
    requires Inv(p) && (p.state == BOF || p.state == ARRAY) && o.inlineComments && 0x0A !in text
    ensures Run(o, p, [0x2F, 0x2F] + text + [0x0A] + rest) == Run(o, p, rest)
  {
    var p1 := p.(savedStates := p.savedStates + [p.state], state := AFTER_SLESH);
    var p2 := p1.(state := INLINE_COMMENT);
    assert [0x2F, 0x2F] + text + [0x0A] + rest == [SLASH] + ([SLASH] + (text + ([NEWLINE] + rest)));
    assert Step(o, p, SLASH) == More(p1);
    RunOne(o, p, SLASH, [SLASH] + (text + ([NEWLINE] + rest)));
    assert Step(o, p1, SLASH) == More(p2);
    RunOne(o, p1, SLASH, text + ([NEWLINE] + rest));
    assert Pop(p2.savedStates) == p.savedStates;
    assert Step(o, p2, NEWLINE) == More(p);
    hide Run, Step;
    CommentText(o, p2, text, [NEWLINE] + rest);
    RunOne(o, p2, NEWLINE, rest);
  }

  lemma {:induction false} PartsRead(o: Options, p: Parser, s: seq<Part>, rest: seq<Byte>)
    requires Inv(p) && (p.state == BOF || p.state == ARRAY) && PartsOk(o, s)
    ensures Run(o, p, PartsText(s) + rest) == Run(o, p, rest)
    decreases |s|
  {
    PartsSplit(o, s, rest);
    hide *;
    if |s| > 0 {
      PartReads(o, p, s[0], PartsText(s[1..]) + rest);
      PartsRead(o, p, s[1..], rest);
    }
  }

  lemma PartsSplit(o: Options, s: seq<Part>, rest: seq<Byte>)
    requires PartsOk(o, s)
    ensures |s| == 0 ==> PartsText(s) + rest == rest
    ensures |s| > 0 ==> PartsOk(o, [s[0]]) && PartsOk(o, s[1..])
                        && PartsText(s) + rest == PartText(s[0]) + (PartsText(s[1..]) + rest)
  {
    if |s| == 0 {
      assert [] + rest == rest;
    } else {
      assert s[0] in s && forall x :: x in s[1..] ==> x in s;
      hide PartText;
    }
  }

  lemma PartReads(o: Options, p: Parser, x: Part, rest: seq<Byte>)
    requires Inv(p) && (p.state == BOF || p.state == ARRAY)
    requires PartsOk(o, [x])
    ensures Run(o, p, PartText(x) + rest) == Run(o, p, rest)
  {
    assert x in [x];
    if x.Blank? {
      assert AllBlank([x.b]);
      BlanksRead(o, p, [x.b], rest);
    } else {
      CommentReads(o, p, x.text, rest);
    }
  }

  // ----- Numbers -----

  predicate IsNumeral(b: Byte) {
    0x30 <= b <= 0x39 || b == 0x2E
  }

  /** Digits and points after a first digit, or after a sign where the number is the value of a property. */
  predicate NumberOk(text: seq<Byte>, signed: bool) {
    && |text| > 0
    && (0x30 <= text[0] <= 0x39 || (signed && (text[0] == 0x2B || text[0] == 0x2D)))
    && forall i :: 1 <= i < |text| ==> IsNumeral(text[i])
  }

  ghost predicate InNumber(p: Parser) {
    Inv(p) && p.state == NUMBER
  }

  lemma {:induction false} NumeralsRead(o: Options, p: Parser, s: seq<Byte>, rest: seq<Byte>)
    requires InNumber(p) && forall i :: 0 <= i < |s| ==> IsNumeral(s[i])
    ensures InNumber(p.(buffer := p.buffer + s)) && Run(o, p, s + rest) == Run(o, p.(buffer := p.buffer + s), rest)
    decreases |s|
  {
    if |s| == 0 {
      assert s + rest == rest && p.buffer + s == p.buffer;
    } else {
      var q := p.(buffer := p.buffer + [s[0]]);
      assert Step(o, p, s[0]) == More(q);
      assert s + rest == [s[0]] + (s[1..] + rest) && p.buffer + [s[0]] + s[1..] == p.buffer + s;
      hide Run, Step, Inv;
      RunOne(o, p, s[0], s[1..] + rest);
      NumeralsRead(o, q, s[1..], rest);
    }
  }

  /** The first character of a number. */
  lemma NumberBegins(o: Options, p: Parser, c: Byte)
    requires Awaits(p) && p.state != BOF && NumberOk([c], p.state == PROPERTY_VALUE)
    ensures Step(o, p, c).More? && InNumber(Step(o, p, c).next) && Step(o, p, c).next.buffer == [c]
    ensures var q := Step(o, p, c).next;
            forall s :: EndNumber(q.(buffer := s)) == Attached(o, p, Primitive(s, true))
  {
    StepGood(o, p, c);
    var q := Step(o, p, c).next;
    forall s ensures EndNumber(q.(buffer := s)) == Attached(o, p, Primitive(s, true)) {
      NumberAttached(o, p, q.(buffer := s));
    }
  }

  lemma NumberAttached(o: Options, p: Parser, q: Parser)
    requires Awaits(p) && p.state != BOF && InNumber(q)
    requires q == if p.state == ARRAY
                  then p.(buffer := q.buffer, savedStates := p.savedStates + [ARRAY_ITEM], state := NUMBER)
                  else p.(buffer := q.buffer, state := NUMBER)
    ensures EndNumber(q) == Attached(o, p, Primitive(q.buffer, true))
  {
    SavedTells(q);
    if p.state == ARRAY {
      assert Pop(q.savedStates) == p.savedStates;
      assert InArray(q, [ARRAY_ITEM]);
    } else {
      assert InProperty(q);
    }
    hide InContainer, SavedFor, Chain;
  }

  /** The character after a number ends it, and is read again. */
  lemma NumberEnds(o: Options, q: Parser, rest: seq<Byte>)
    requires InNumber(q) && |rest| > 0 && !IsNumeral(rest[0])
    ensures Inv(EndNumber(q)) && Run(o, q, rest) == Run(o, EndNumber(q), rest)
  {
    EndNumberInv(q);
    assert Step(o, q, rest[0]) == Again(EndNumber(q));
    hide EndNumber, Step;
  }

  lemma NumberSplit(text: seq<Byte>, rest: seq<Byte>, signed: bool)
    requires NumberOk(text, signed)
    ensures NumberOk([text[0]], signed) && forall i :: 0 <= i < |text| - 1 ==> IsNumeral(text[1..][i])
    ensures text + rest == [text[0]] + (text[1..] + rest) && [text[0]] + text[1..] == text
  {
  }

  /** A number is attached as an integer with all its digits in order, and the character after it is left. */
  lemma NumberReads(o: Options, p: Parser, text: seq<Byte>, rest: seq<Byte>)
    requires Awaits(p) && p.state != BOF && NumberOk(text, p.state == PROPERTY_VALUE)
    requires |rest| > 0 && !IsNumeral(rest[0])
    ensures var q := Attached(o, p, Primitive(text, true));
            Inv(q) && Run(o, p, text + rest) == Run(o, q, rest)
  {
    NumberSplit(text, rest, p.state == PROPERTY_VALUE);
    assert Inv(p);
    hide *;
    NumberBegins(o, p, text[0]);
    var q := Step(o, p, text[0]).next;
    RunOne(o, p, text[0], text[1..] + rest);
    NumeralsRead(o, q, text[1..], rest);
    NumberEnds(o, q.(buffer := text), rest);
  }

  // ----- Documents -----

  datatype Doc =
    | DString(pieces: seq<Piece>)
    | DNumber(text: seq<Byte>)
    | DObject(members: seq<Member>, end: seq<Byte>, comma: bool)
    | DArray(items: seq<Item>, last: seq<Part>, comma: bool)

  /** A property with the white space around its parts. */
  datatype Member = Member(
    before: seq<Byte>, name: seq<Piece>, beforeColon: seq<Byte>, beforeValue: seq<Byte>, value: Doc, after: seq<Byte>)

  datatype Item = Item(before: seq<Part>, value: Doc, after: seq<Byte>)

  ghost predicate DocOk(o: Options, v: Doc, signed: bool)
    decreases v
  {
    match v
    case DString(pieces) => PiecesOk(pieces)
    case DNumber(text) => NumberOk(text, signed)
    case DObject(members, end, comma) =>
      && AllBlank(end) && (comma ==> |members| > 0) && (|members| > 0 && !comma ==> end == [])
      && forall m :: m in members ==>
           && AllBlank(m.before) && PiecesOk(m.name) && AllBlank(m.beforeColon) && AllBlank(m.beforeValue)
           && DocOk(o, m.value, true) && AllBlank(m.after)
    case DArray(items, last, comma) =>
      && PartsOk(o, last) && (comma ==> |items| > 0) && (|items| > 0 && !comma ==> last == [])
      && forall x :: x in items ==> PartsOk(o, x.before) && DocOk(o, x.value, false) && AllBlank(x.after)
  }

  ghost function DocText(v: Doc): seq<Byte>
    decreases v, 1, 0
  {
    match v
    case DString(pieces) => StringText(pieces)
    case DNumber(text) => text
    case DObject(members, _, _) => [0x7B] + MembersSpelled(v, 0)
    case DArray(items, _, _) => [0x5B] + ItemsSpelled(v, 0)
  }

  /** The properties from a position on, and the closing brace. */
  ghost function MembersSpelled(v: Doc, i: nat): seq<Byte>
    requires v.DObject? && i <= |v.members|
    decreases v, 0, |v.members| - i
  {
    if i == |v.members| then (if v.comma then [0x2C] else []) + (v.end + [0x7D])
    else
      var m := v.members[i];
      (if i > 0 then [0x2C] else []) + (m.before + (StringText(m.name) + (m.beforeColon + ([0x3A] + (m.beforeValue
        + (DocText(m.value) + (m.after + MembersSpelled(v, i + 1))))))))
  }

  /** The items from a position on, and the closing bracket. */
  ghost function ItemsSpelled(v: Doc, i: nat): seq<Byte>
    requires v.DArray? && i <= |v.items|
    decreases v, 0, |v.items| - i
  {
    if i == |v.items| then (if v.comma then [0x2C] else []) + (PartsText(v.last) + [0x5D])
    else
      var x := v.items[i];
      (if i > 0 then [0x2C] else []) + (PartsText(x.before) + (DocText(x.value) + (x.after + ItemsSpelled(v, i + 1))))
  }

  /** The tree that a layout means. */
  ghost function Meaning(o: Options, v: Doc, signed: bool): Json
    requires DocOk(o, v, signed)
    decreases v
  {
    match v
    case DString(pieces) => Primitive(Meant(pieces), false)
    case DNumber(text) => Primitive(text, true)
    case DObject(members, _, _) =>
      Object(seq(|members|, i requires 0 <= i < |members| => MemberMeaning(o, v, i)))
    case DArray(items, _, _) =>
      Array(seq(|items|, i requires 0 <= i < |items| => Meaning(o, items[i].value, false)))
  }

  ghost function MemberMeaning(o: Options, v: Doc, i: nat): Property
    requires v.DObject? && DocOk(o, v, true) && i < |v.members|
    decreases v, 0
  {
    var m := v.members[i];
    assert m in v.members;
    Property(Meant(m.name), Some(Meaning(o, m.value, true)))
  }

  /** What follows a number must not continue it. */
  predicate Follows(v: Doc, rest: seq<Byte>) {
    v.DNumber? ==> |rest| > 0 && !IsNumeral(rest[0])
  }

  /** The parser is at a place where the layout may stand. */
  ghost predicate Placed(o: Options, p: Parser, v: Doc, rest: seq<Byte>) {
    && Awaits(p) && DocOk(o, v, p.state == PROPERTY_VALUE) && Follows(v, rest)
    && (p.state == BOF ==> v.DObject? || v.DArray?)
  }

  /** The layout is read as its tree, which is attached where the value was awaited. */
  ghost predicate Reads(o: Options, p: Parser, v: Doc, rest: seq<Byte>)
    requires Placed(o, p, v, rest)
  {
    var q := Attached(o, p, Meaning(o, v, p.state == PROPERTY_VALUE));
    Inv(q) && Run(o, p, DocText(v) + rest) == Run(o, q, rest)
  }

  lemma BlankFollows(after: seq<Byte>, more: seq<Byte>)
    requires AllBlank(after) && |more| > 0 && !IsNumeral(more[0])
    ensures |after + more| > 0 && !IsNumeral((after + more)[0])
  {
    if |after| > 0 {
      assert after[0] in after;
    }
  }

  // ----- Arrays -----

  /** After the items, whether or not a comma follows the last one, the bracket closes the array. */
  lemma ArrayEnds(o: Options, p: Parser, v: Doc, m: Json, rest: seq<Byte>)
    requires Awaits(p) && v.DArray? && DocOk(o, v, false) && m.Array? && |m.items| == |v.items|
    requires Inv(ArrayRead(p, m, |m.items|))
    ensures Inv(Attached(o, p, m))
    ensures Run(o, ArrayRead(p, m, |m.items|), ItemsSpelled(v, |v.items|) + rest) == Run(o, Attached(o, p, m), rest)
  {
    var n, q := |m.items|, ArrayRead(p, m, |m.items|);
    var close := [0x5D] + rest;
    ArrayEndText(o, v, rest);
    assert q.state == if n == 0 then ARRAY else ARRAY_ITEM;
    hide *;
    if n > 0 && !v.comma {
      ArrayCloses(o, p, m, rest);
    } else {
      SeparatorReads(o, q, v.comma, PartsText(v.last) + close);
      OpenArrayCloses(o, p, m, rest);
      PartsRead(o, q.(state := ARRAY), v.last, close);
    }
  }

  lemma ArrayEndText(o: Options, v: Doc, rest: seq<Byte>)
    requires v.DArray? && DocOk(o, v, false)
    ensures PartsOk(o, v.last) && (v.comma ==> |v.items| > 0)
    ensures ItemsSpelled(v, |v.items|) + rest
         == (if v.comma then [0x2C] else []) + (PartsText(v.last) + ([0x5D] + rest))
    ensures |v.items| > 0 && !v.comma ==> ItemsSpelled(v, |v.items|) + rest == [0x5D] + rest
  {
    assert [] + (PartsText([]) + ([0x5D] + rest)) == [0x5D] + rest;
  }

  lemma OpenArrayCloses(o: Options, p: Parser, m: Json, rest: seq<Byte>)
    requires Awaits(p) && m.Array? && Inv(ArrayRead(p, m, |m.items|).(state := ARRAY))
    ensures Inv(Attached(o, p, m))
    ensures Run(o, ArrayRead(p, m, |m.items|).(state := ARRAY), [0x5D] + rest) == Run(o, Attached(o, p, m), rest)
  {
    hide Inv, StartContainer, InContainer, Run, Attached, FinalContainer;
    var q := ArrayRead(p, m, |m.items|).(state := ARRAY);
    var f := q.currentObject.value;
    assert f.items == m.items && q == Within(p, true, f, ARRAY) && Built(f) == m;
    CloseReads(o, q, rest);
    ContainerAttached(o, p, true, f, ARRAY);
  }

  lemma ItemsBegin(o: Options, v: Doc, i: nat)
    requires v.DArray? && DocOk(o, v, false) && 1 <= i <= |v.items|
    ensures |ItemsSpelled(v, i)| > 0 && !IsNumeral(ItemsSpelled(v, i)[0])
  {
    if i == |v.items| && !v.comma {
      assert PartsText([]) + [0x5D] == [0x5D] && [] + [0x5D] == [0x5D];
      assert ItemsSpelled(v, i) == [0x5D];
    } else {
      hide DocText, PartsText;
    }
  }

  /** One item with the comma before it and what stands around it. */
  lemma ItemLaid(o: Options, p: Parser, v: Doc, i: nat, more: seq<Byte>)
    requires Awaits(p) && v.DArray? && DocOk(o, v, false) && i < |v.items|
    requires |more| > 0 && !IsNumeral(more[0]) && Inv(ArrayRead(p, Meaning(o, v, false), i))
    ensures Inv(ArrayRead(p, Meaning(o, v, false), i + 1))
    ensures var x := v.items[i];
      Run(o, ArrayRead(p, Meaning(o, v, false), i),
          (if i > 0 then [0x2C] else []) + (PartsText(x.before) + (DocText(x.value) + (x.after + more))))
        == Run(o, ArrayRead(p, Meaning(o, v, false), i + 1), more)
    decreases v, 0, 0
  {
    var m, x := Meaning(o, v, false), v.items[i];
    assert x in v.items && m.items[i] == Meaning(o, x.value, false);
    var q := ArrayRead(p, m, i);
    var text := DocText(x.value) + (x.after + more);
    BlankFollows(x.after, more);
    SeparatorReads(o, q, i > 0, PartsText(x.before) + text);
    NextItem(o, p, m, i);
    var q1 := q.(state := ARRAY);
    assert Placed(o, q1, x.value, x.after + more) && ArrayRead(p, m, i + 1).state == ARRAY_ITEM;
    hide Run, Meaning, DocText, ArrayRead, Attached, PartsText, DocOk, Inv;
    PartsRead(o, q1, x.before, text);
    DocReads(o, q1, x.value, x.after + more);
    BlanksRead(o, ArrayRead(p, m, i + 1), x.after, more);
  }

  lemma {:induction false} ItemsLaid(o: Options, p: Parser, v: Doc, i: nat, rest: seq<Byte>)
    requires Awaits(p) && v.DArray? && DocOk(o, v, false) && i <= |v.items|
    requires Inv(ArrayRead(p, Meaning(o, v, false), i))
    ensures Inv(Attached(o, p, Meaning(o, v, false)))
    ensures Run(o, ArrayRead(p, Meaning(o, v, false), i), ItemsSpelled(v, i) + rest)
         == Run(o, Attached(o, p, Meaning(o, v, false)), rest)
    decreases v, 0, |v.items| - i
  {
    if i == |v.items| {
      ArrayEnds(o, p, v, Meaning(o, v, false), rest);
    } else {
      var more := ItemsSpelled(v, i + 1) + rest;
      ItemsBegin(o, v, i + 1);
      ItemsSplit(v, i, rest);
      hide *;
      ItemLaid(o, p, v, i, more);
      ItemsLaid(o, p, v, i + 1, rest);
    }
  }

  lemma ItemsSplit(v: Doc, i: nat, rest: seq<Byte>)
    requires v.DArray? && i < |v.items|
    ensures var x := v.items[i];
      ItemsSpelled(v, i) + rest == (if i > 0 then [0x2C] else [])
        + (PartsText(x.before) + (DocText(x.value) + (x.after + (ItemsSpelled(v, i + 1) + rest))))
  {
    var x := v.items[i];
    var comma, before := if i > 0 then [0x2C] else [], PartsText(x.before);
    var text, more := DocText(x.value), ItemsSpelled(v, i + 1);
    assert ItemsSpelled(v, i) == comma + (before + (text + (x.after + more)));
    hide *;
    Regroup4(comma, before, text, x.after, more, rest);
  }

  lemma Regroup4(a: seq<Byte>, b: seq<Byte>, c: seq<Byte>, d: seq<Byte>, e: seq<Byte>, f: seq<Byte>)
    ensures a + (b + (c + (d + e))) + f == a + (b + (c + (d + (e + f))))
  {
    Associative(d, e, f);
    Associative(c, d + e, f);
    Associative(b, c + (d + e), f);
    Associative(a, b + (c + (d + e)), f);
  }

  lemma ArrayLaid(o: Options, p: Parser, v: Doc, rest: seq<Byte>)
    requires Placed(o, p, v, rest) && v.DArray?
    ensures Reads(o, p, v, rest)
    decreases v, 0, |v.items| + 1
  {
    var m := Meaning(o, v, false);
    var more := ItemsSpelled(v, 0) + rest;
    assert DocText(v) + rest == [OPEN_ARRAY] + more;
    assert m == Meaning(o, v, p.state == PROPERTY_VALUE) && m.items[..0] == [];
    RunOne(o, p, OPEN_ARRAY, more);
    assert Step(o, p, OPEN_ARRAY).next == ArrayRead(p, m, 0);
    hide Run, DocText, ItemsSpelled, Meaning, Attached, Step, ArrayRead, DocOk, Inv;
    ItemsLaid(o, p, v, 0, rest);
  }

  // ----- Objects -----

  lemma ObjectEnds(o: Options, p: Parser, v: Doc, m: Json, rest: seq<Byte>)
    requires Awaits(p) && v.DObject? && DocOk(o, v, false) && m.Object? && |m.properties| == |v.members|
    requires Inv(ObjectRead(p, m, |m.properties|))
    ensures Inv(Attached(o, p, m))
    ensures Run(o, ObjectRead(p, m, |m.properties|), MembersSpelled(v, |v.members|) + rest)
         == Run(o, Attached(o, p, m), rest)
  {
    var n, q := |m.properties|, ObjectRead(p, m, |m.properties|);
    var close := [0x7D] + rest;
    assert MembersSpelled(v, n) + rest == (if v.comma then [0x2C] else []) + (v.end + close);
    if n > 0 && !v.comma {
      assert [] + ([] + close) == close;
      ObjectCloses(o, p, m, rest);
    } else {
      PropertyCommaReads(o, q, v.comma, v.end + close);
      BlanksRead(o, q.(state := OBJECT), v.end, close);
      var f := q.currentObject.value;
      assert f.properties == m.properties && q.(state := OBJECT) == Within(p, false, f, OBJECT);
      CloseReads(o, q.(state := OBJECT), rest);
      ContainerAttached(o, p, false, f, OBJECT);
      assert Built(f) == m;
      hide *;
    }
  }

  lemma MembersBegin(o: Options, v: Doc, i: nat)
    requires v.DObject? && DocOk(o, v, false) && 1 <= i <= |v.members|
    ensures |MembersSpelled(v, i)| > 0 && !IsNumeral(MembersSpelled(v, i)[0])
  {
    if i == |v.members| && !v.comma {
      assert [] + ([] + [0x7D]) == [0x7D];
      assert MembersSpelled(v, i) == [0x7D];
    } else {
      hide DocText, StringText;
    }
  }

  /** A name, the colon and what stands around them. */
  lemma NameLaid(o: Options, q: Parser, x: Member, rest: seq<Byte>)
    requires Inv(q) && q.state == OBJECT
    requires AllBlank(x.before) && PiecesOk(x.name) && AllBlank(x.beforeColon) && AllBlank(x.beforeValue)
    ensures Awaits(Named(q, Meant(x.name)))
    ensures Run(o, q, x.before + (StringText(x.name) + (x.beforeColon + ([0x3A] + (x.beforeValue + rest)))))
         == Run(o, Named(q, Meant(x.name)), rest)
  {
    var r1 := x.beforeValue + rest;
    var r2 := x.beforeColon + ([0x3A] + r1);
    BlanksRead(o, q, x.before, StringText(x.name) + r2);
    NameAttached(o, q, Meant(x.name));
    StringSpelled(o, q, x.name, r2);
    var named := Named(q, Meant(x.name));
    var before := named.(state := PROPERTY_NAME);
    assert Step(o, before, COLON) == More(named) && named.state == PROPERTY_VALUE;
    hide Run, Step, Named, Meant, StringText, Inv, EndString;
    BlanksRead(o, before, x.beforeColon, [0x3A] + r1);
    RunOne(o, before, COLON, r1);
    BlanksRead(o, named, x.beforeValue, rest);
  }

  lemma MemberLaid(o: Options, p: Parser, v: Doc, i: nat, more: seq<Byte>)
    requires Awaits(p) && v.DObject? && DocOk(o, v, false) && i < |v.members|
    requires |more| > 0 && !IsNumeral(more[0]) && Inv(ObjectRead(p, Meaning(o, v, false), i))
    ensures Inv(ObjectRead(p, Meaning(o, v, false), i + 1))
    ensures var x := v.members[i];
      Run(o, ObjectRead(p, Meaning(o, v, false), i),
          (if i > 0 then [0x2C] else []) + (x.before + (StringText(x.name) + (x.beforeColon + ([0x3A] + (x.beforeValue
            + (DocText(x.value) + (x.after + more))))))))
        == Run(o, ObjectRead(p, Meaning(o, v, false), i + 1), more)
    decreases v, 0, 0
  {
    var m, x := Meaning(o, v, false), v.members[i];
    assert x in v.members && m.properties[i] == MemberMeaning(o, v, i);
    var q := ObjectRead(p, m, i);
    var text := DocText(x.value) + (x.after + more);
    BlankFollows(x.after, more);
    PropertyCommaReads(o, q, i > 0, x.before + (StringText(x.name) + (x.beforeColon + ([0x3A] + (x.beforeValue + text)))));
    NextProperty(o, p, m, i);
    var q1 := q.(state := OBJECT);
    var named := Named(q1, Meant(x.name));
    assert named.state == PROPERTY_VALUE && ObjectRead(p, m, i + 1).state == OBJECT_ITEM;
    assert DocOk(o, x.value, true);
    hide Run, Meaning, DocText, ObjectRead, Attached, StringText, DocOk, Inv, Named, Meant;
    NameLaid(o, q1, x, text);
    DocReads(o, named, x.value, x.after + more);
    BlanksRead(o, ObjectRead(p, m, i + 1), x.after, more);
  }

  lemma {:induction false} MembersLaid(o: Options, p: Parser, v: Doc, i: nat, rest: seq<Byte>)
    requires Awaits(p) && v.DObject? && DocOk(o, v, false) && i <= |v.members|
    requires Inv(ObjectRead(p, Meaning(o, v, false), i))
    ensures Inv(Attached(o, p, Meaning(o, v, false)))
    ensures Run(o, ObjectRead(p, Meaning(o, v, false), i), MembersSpelled(v, i) + rest)
         == Run(o, Attached(o, p, Meaning(o, v, false)), rest)
    decreases v, 0, |v.members| - i
  {
    if i == |v.members| {
      ObjectEnds(o, p, v, Meaning(o, v, false), rest);
    } else {
      var more := MembersSpelled(v, i + 1) + rest;
      MembersBegin(o, v, i + 1);
      MembersSplit(v, i, rest);
      hide *;
      MemberLaid(o, p, v, i, more);
      MembersLaid(o, p, v, i + 1, rest);
    }
  }

  lemma MembersSplit(v: Doc, i: nat, rest: seq<Byte>)
    requires v.DObject? && i < |v.members|
    ensures var x := v.members[i];
      MembersSpelled(v, i) + rest == (if i > 0 then [0x2C] else [])
        + (x.before + (StringText(x.name) + (x.beforeColon + ([0x3A] + (x.beforeValue
        + (DocText(x.value) + (x.after + (MembersSpelled(v, i + 1) + rest))))))))
  {
    var x := v.members[i];
    var comma, name := if i > 0 then [0x2C] else [], StringText(x.name);
    var text, more := DocText(x.value), MembersSpelled(v, i + 1);
    assert MembersSpelled(v, i)
        == comma + (x.before + (name + (x.beforeColon + ([0x3A] + (x.beforeValue + (text + (x.after + more)))))));
    hide *;
    Regroup4([0x3A], x.beforeValue, text, x.after, more, rest);
    Regroup4(comma, x.before, name, x.beforeColon, [0x3A] + (x.beforeValue + (text + (x.after + more))), rest);
  }

  lemma ObjectLaid(o: Options, p: Parser, v: Doc, rest: seq<Byte>)
    requires Placed(o, p, v, rest) && v.DObject?
    ensures Reads(o, p, v, rest)
    decreases v, 0, |v.members| + 1
  {
    var m := Meaning(o, v, false);
    var more := MembersSpelled(v, 0) + rest;
    assert DocText(v) + rest == [OPEN_OBJECT] + more;
    assert m == Meaning(o, v, p.state == PROPERTY_VALUE) && m.properties[..0] == [];
    RunOne(o, p, OPEN_OBJECT, more);
    assert Step(o, p, OPEN_OBJECT).next == ObjectRead(p, m, 0);
    hide Run, DocText, MembersSpelled, Meaning, Attached, Step, ObjectRead, DocOk, Inv;
    MembersLaid(o, p, v, 0, rest);
  }

  /** Wherever a value may stand, every layout of it is read as the tree it means. */
  lemma {:induction false} DocReads(o: Options, p: Parser, v: Doc, rest: seq<Byte>)
    requires Placed(o, p, v, rest)
    ensures Reads(o, p, v, rest)
    decreases v, 1, 0
  {
    match v
    case DString(pieces) =>
      StringAttached(o, p, Meant(pieces));
      StringSpelled(o, p, pieces, rest);
    case DNumber(text) => NumberReads(o, p, text, rest);
    case DObject(_, _, _) => ObjectLaid(o, p, v, rest);
    case DArray(_, _, _) => ArrayLaid(o, p, v, rest);
  }

  // ----- Whole documents -----

  /** A document with white space before it, in any layout, is parsed as the tree it means. */
  lemma ParseOfLayout(before: seq<Byte>, v: Doc)
    requires AllBlank(before) && (v.DObject? || v.DArray?) && DocOk(DefaultOptions, v, false)
    ensures Parse(before + DocText(v)) == Ok(Meaning(DefaultOptions, v, false))
  {
    assert Inv(Start) && Awaits(Start);
    BlanksRead(DefaultOptions, Start, before, DocText(v));
    assert DocText(v) + [] == DocText(v);
    hide DocText, Meaning, DocOk;
    DocReads(DefaultOptions, Start, v, []);
  }

  /** Nothing may follow the document, not even white space. */
  lemma NothingFollows(before: seq<Byte>, v: Doc, c: Byte, rest: seq<Byte>)
    requires AllBlank(before) && (v.DObject? || v.DArray?) && DocOk(DefaultOptions, v, false)
    ensures Parse(before + (DocText(v) + ([c] + rest))).Err?
  {
    assert Inv(Start) && Awaits(Start);
    BlanksRead(DefaultOptions, Start, before, DocText(v) + ([c] + rest));
    var q := Attached(DefaultOptions, Start, Meaning(DefaultOptions, v, false));
    assert Step(DefaultOptions, q, c).Failed?;
    hide DocText, Meaning, DocOk, Step;
    DocReads(DefaultOptions, Start, v, [c] + rest);
    RunFails(DefaultOptions, q, c, rest);
  }

  /** An object of one property whose value is a number, as in {"port":8050}. */
  lemma NumberDocument(name: seq<Piece>, digits: seq<Byte>)
    requires PiecesOk(name) && NumberOk(digits, true)
    ensures Parse([0x7B] + (StringText(name) + ([0x3A] + (digits + [0x7D]))))
         == Ok(Object([Property(Meant(name), Some(Primitive(digits, true)))]))
  {
    var v := DObject([Member([], name, [], [], DNumber(digits), [])], [], false);
    var m := Meaning(DefaultOptions, v, false);
    assert m.properties == [MemberMeaning(DefaultOptions, v, 0)];
    NumberDocumentText(v, name, digits);
    hide Parse;
    ParseOfLayout([], v);
  }

  lemma NumberDocumentText(v: Doc, name: seq<Piece>, digits: seq<Byte>)
    requires v == DObject([Member([], name, [], [], DNumber(digits), [])], [], false)
    ensures [] + DocText(v) == [0x7B] + (StringText(name) + ([0x3A] + (digits + [0x7D])))
  {
    hide StringText;
    var text := StringText(name);
    assert MembersSpelled(v, 1) == [0x7D];
    assert DocText(v.members[0].value) == digits;
    assert MembersSpelled(v, 0) == [] + ([] + (text + ([] + ([0x3A] + ([] + (digits + ([] + [0x7D])))))));
    assert [] + [0x7D] == [0x7D] && [] + (digits + [0x7D]) == digits + [0x7D];
  }

  // ----- Several documents in one input -----

  datatype Root = Root(before: seq<Part>, doc: Doc)

  ghost predicate RootsOk(o: Options, roots: seq<Root>) {
    forall x :: x in roots ==> PartsOk(o, x.before) && (x.doc.DObject? || x.doc.DArray?) && DocOk(o, x.doc, false)
  }

  ghost function RootsText(roots: seq<Root>, last: seq<Part>): seq<Byte> {
    if |roots| == 0 then PartsText(last)
    else PartsText(roots[0].before) + (DocText(roots[0].doc) + RootsText(roots[1..], last))
  }

  ghost function RootMeanings(o: Options, roots: seq<Root>): seq<Json>
    requires RootsOk(o, roots)
  {
    if |roots| == 0 then [] else [Meaning(o, roots[0].doc, false)] + RootMeanings(o, roots[1..])
  }

  lemma RootReads(o: Options, p: Parser, x: Root, rest: seq<Byte>)
    requires Inv(p) && p.state == BOF && o.multiRootObjects
    requires PartsOk(o, x.before) && (x.doc.DObject? || x.doc.DArray?) && DocOk(o, x.doc, false)
    ensures var q := p.(results := p.results + [Meaning(o, x.doc, false)]);
      Inv(q) && Run(o, p, PartsText(x.before) + (DocText(x.doc) + rest)) == Run(o, q, rest)
  {
    PartsRead(o, p, x.before, DocText(x.doc) + rest);
    hide DocText, Meaning, DocOk, Run;
    DocReads(o, p, x.doc, rest);
  }

  /** With the option for several roots they are handed over in order, with white space and comments around them. */
  lemma {:induction false} RootsRead(o: Options, p: Parser, roots: seq<Root>, last: seq<Part>)
    requires Inv(p) && p.state == BOF && o.multiRootObjects && RootsOk(o, roots) && PartsOk(o, last)
    ensures var q := p.(results := p.results + RootMeanings(o, roots));
            Inv(q) && MayEnd(o, q) && Run(o, p, RootsText(roots, last)) == Ok(q)
    decreases |roots|
  {
    if |roots| == 0 {
      assert PartsText(last) + [] == PartsText(last) && p.results + [] == p.results;
      PartsRead(o, p, last, []);
    } else {
      assert roots[0] in roots && forall x :: x in roots[1..] ==> x in roots;
      var m := Meaning(o, roots[0].doc, false);
      hide Run, Meaning, DocText, DocOk, PartsText, PartsOk, Inv;
      RootReads(o, p, roots[0], RootsText(roots[1..], last));
      RootsRead(o, p.(results := p.results + [m]), roots[1..], last);
      Associative2(p.results, [m], RootMeanings(o, roots[1..]));
    }
  }

  lemma Associative2(a: seq<Json>, b: seq<Json>, c: seq<Json>)
    ensures a + b + c == a + (b + c)
  {
  }

  // ----- What is refused -----

  predicate IsHexChar(c: Byte) {
    0x30 <= c <= 0x39 || 0x41 <= c <= 0x46 || 0x61 <= c <= 0x66
  }

  /** The characters that may come next, in every state. */
  ghost predicate Expected(o: Options, state: St, c: Byte) {
    match state
    case BOF => c in BLANKS || c in {0x5B, 0x7B} || (c == 0x2F && o.inlineComments)
    case AFTER_SLESH => c == 0x2F
    case INLINE_COMMENT => true
    case ARRAY =>
      c in BLANKS || c in {0x5B, 0x5D, 0x7B, 0x22} || 0x30 <= c <= 0x39 || (c == 0x2F && o.inlineComments)
    case ARRAY_ITEM => c in BLANKS || c in {0x2C, 0x5D}
    case OBJECT => c in BLANKS || c in {0x22, 0x7D}
    case OBJECT_ITEM => c in BLANKS || c in {0x2C, 0x7D}
    case NUMBER => true
    case PROPERTY_NAME => c in BLANKS || c == 0x3A
    case PROPERTY_VALUE => c in BLANKS || c in {0x22, 0x5B, 0x7B, 0x2B, 0x2D} || 0x30 <= c <= 0x39
    case STRING => true
    case STRING_BACKSLESH => c in MEANT || c == 0x75
    case STRING_SYMBOL_1 => IsHexChar(c)
    case STRING_SYMBOL_2 => IsHexChar(c)
    case STRING_SYMBOL_3 => IsHexChar(c)
    case STRING_SYMBOL_4 => IsHexChar(c)
    case EOF => false
  }

  /** A character is an error exactly when it is not among those that may come next. */
  lemma RefusedIff(o: Options, p: Parser, c: Byte)
    requires Inv(p)
    ensures Step(o, p, c).Failed? <==> !Expected(o, p.state, c)
  {
    hide Inv, InString, InContainer, StartContainer, FinalContainer, EndString, EndNumber, Add;
  }

  // ----- The writer's spelling -----

  /** The characters with a short escape are written with it. */
  lemma ShortEscapeWritten(letter: Byte)
    requires letter in MEANT
    ensures Escape(MEANT[letter]) == PieceText(Short(letter))
  {
    hide LongEscape;
  }

  /** All others are written as themselves where they are printable, and with four lower-case hex digits otherwise. */
  lemma OtherEscapeWritten(ch: nat)
    requires ch !in {0x22, 0x5C, 0x0A, 0x0D, 0x08, 0x09, 0x0C}
    ensures 0x20 <= ch <= 0x7E ==> Escape(ch) == PieceText(Raw(ch))
    ensures !(0x20 <= ch <= 0x7E) ==>
      var u := ch % 0x1_0000;
      Escape(ch) == PieceText(Long(Hex(u / 0x1000, false), Hex(u / 0x100 % 0x10, false),
                                   Hex(u / 0x10 % 0x10, false), Hex(u % 0x10, false)))
  {
    if !(0x20 <= ch <= 0x7E) {
      LongEscapeWritten(ch % 0x1_0000);
      assert ShortEscape(ch) == None;
      hide LongEscape, PieceText;
    }
  }

  lemma LongEscapeWritten(u: nat)
    requires u < 0x1_0000
    ensures LongEscape(u) == PieceText(Long(Hex(u / 0x1000, false), Hex(u / 0x100 % 0x10, false),
                                            Hex(u / 0x10 % 0x10, false), Hex(u % 0x10, false)))
  {
    LowerHex(u / 0x1000);
    LowerHex(u / 0x100 % 0x10);
    LowerHex(u / 0x10 % 0x10);
    LowerHex(u % 0x10);
    hide HexDigit;
  }

  lemma LowerHex(d: HexValueOf)
    ensures HexDigit(d) == Hex(d, false).Char() == LOWER_HEX[d]
  {
  }

  /** A property without a value is written as null, which the parser refuses. */
  lemma NullWritten(name: seq<Byte>)
    requires WellFormed(name)
    ensures var v := Object([Property(name, None)]);
      && Printable(v) && Text(v) == [0x7B] + Quoted(name) + [0x3A, 0x6E, 0x75, 0x6C, 0x6C, 0x7D]
      && Parse(Text(v)).Err?
  {
    var v := Object([Property(name, None)]);
    assert v.properties[0] in v.properties && Printable(v) && !Structured(v);
    NullPropertyText(v, name);
    hide *;
    ParseOfText(v);
  }

  lemma NullPropertyText(v: Json, name: seq<Byte>)
    requires v == Object([Property(name, None)]) && WellFormed(name) && Printable(v)
    ensures Text(v) == [0x7B] + Quoted(name) + [0x3A, 0x6E, 0x75, 0x6C, 0x6C, 0x7D]
  {
    hide Quoted;
    assert PropertiesText(v, 1) == [];
    assert PropertyText(v, 0) == Quoted(name) + [COLON] + NullText();
    assert PropertiesText(v, 0) == PropertyText(v, 0);
  }
}
