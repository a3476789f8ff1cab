/**
  The other direction of JsonLayout: whatever the parser accepts is a layout of the tree it
  yields. Layouts are taken apart along the states of the machine.
 */
module JsonGrammar {
  import opened Bytes
  import opened JsonTree
  import opened JsonMachine
  import opened JsonSteps
  import opened JsonRoundTrip
  import opened JsonLayout
  import opened Wrappers

  /** The rest of the input completes the document. */
  ghost predicate Accepts(o: Options, p: Parser, data: seq<Byte>)
    requires Inv(p)
  {
    Run(o, p, data).Ok? && MayEnd(o, Run(o, p, data).value)
  }

  /** The next character is one that may come next. */
  lemma TookMore(o: Options, p: Parser, data: seq<Byte>)
    requires Inv(p) && Accepts(o, p, data) && |data| > 0 && p.state != NUMBER
    ensures Expected(o, p.state, data[0]) && data == [data[0]] + data[1..]
    ensures Step(o, p, data[0]).More? && Inv(Step(o, p, data[0]).next) && Accepts(o, Step(o, p, data[0]).next, data[1..])
  {
    RefusedIff(o, p, data[0]);
    StepGood(o, p, data[0]);
    OnlyNumbersStepBack(o, p, data[0]);
    hide Step, Inv;
    assert data == [data[0]] + data[1..];
  }

  /** Inside a document another character must follow. */
  lemma Took(o: Options, p: Parser, data: seq<Byte>)
    requires Inv(p) && Accepts(o, p, data) && !MayEnd(o, p) && p.state != NUMBER
    ensures |data| > 0 && Expected(o, p.state, data[0]) && data == [data[0]] + data[1..]
    ensures Step(o, p, data[0]).More? && Inv(Step(o, p, data[0]).next) && Accepts(o, Step(o, p, data[0]).next, data[1..])
  {
    assert |data| > 0;
    hide *;
    TookMore(o, p, data);
  }

  /** A stretch of input that leads from p to q. */
  lemma AcceptsOn(o: Options, p: Parser, a: seq<Byte>, q: Parser, b: seq<Byte>)
    requires Inv(p) && Inv(q) && Accepts(o, p, a) && Run(o, p, a) == Run(o, q, b)
    ensures Accepts(o, q, b)
  {
  }

  // ----- Strings -----

  lemma HexOf(c: Byte) returns (h: Hex)
    requires IsHexChar(c)
    ensures h.Char() == c
  {
    h := if c <= 0x39 then Hex(c - 0x30, false)
      else if c <= 0x46 then Hex(c - 0x41 + 10, true) else Hex(c - 0x61 + 10, false);
  }

  /** The hex digits of a long escape. */
  lemma DigitsOf(o: Options, p: Parser, data: seq<Byte>) returns (x: Piece, rest: seq<Byte>)
    requires Inv(p) && p.state == STRING_SYMBOL_1 && Accepts(o, p, data)
    ensures x.Long? && PieceText(x) + rest == [0x5C, 0x75] + data && |rest| < |data|
  {
    hide Accepts, Run, InString;
    Took(o, p, data);
    var p2, r2 := Step(o, p, data[0]).next, data[1..];
    Took(o, p2, r2);
    var p3, r3 := Step(o, p2, r2[0]).next, r2[1..];
    Took(o, p3, r3);
    var p4, r4 := Step(o, p3, r3[0]).next, r3[1..];
    Took(o, p4, r4);
    rest := r4[1..];
    var h1 := HexOf(data[0]);
    var h2 := HexOf(r2[0]);
    var h3 := HexOf(r3[0]);
    var h4 := HexOf(r4[0]);
    x := Long(h1, h2, h3, h4);
    hide *;
    assert PieceText(x) == [0x5C, 0x75, data[0], r2[0], r3[0], r4[0]] by {
      LongPieceText(h1, h2, h3, h4);
    }
    FourFirst(data, r2, r3, r4);
  }

  lemma LongPieceText(d1: Hex, d2: Hex, d3: Hex, d4: Hex)
    ensures PieceText(Long(d1, d2, d3, d4)) == [0x5C, 0x75, d1.Char(), d2.Char(), d3.Char(), d4.Char()]
  {
  }

  lemma FourFirst(a: seq<Byte>, b: seq<Byte>, c: seq<Byte>, d: seq<Byte>)
    requires |a| > 0 && |b| > 0 && |c| > 0 && |d| > 0 && b == a[1..] && c == b[1..] && d == c[1..]
    ensures [0x5C, 0x75, a[0], b[0], c[0], d[0]] + d[1..] == [0x5C, 0x75] + a && |d[1..]| < |a|
  {
  }

  /** The first byte or character of a string. */
  lemma PieceOf(o: Options, p: Parser, data: seq<Byte>) returns (x: Piece, rest: seq<Byte>)
    requires Inv(p) && p.state == STRING && Accepts(o, p, data) && |data| > 0 && data[0] != 0x22
    ensures PieceOk(x) && data == PieceText(x) + rest && |rest| < |data|
  {
    if data[0] != 0x5C {
      x, rest := Raw(data[0]), data[1..];
      assert data == [data[0]] + rest;
    } else {
      Took(o, p, data);
      var p1, r1 := p.(state := STRING_BACKSLESH), data[1..];
      assert Step(o, p, data[0]).next == p1;
      Took(o, p1, r1);
      if r1[0] in MEANT {
        x, rest := Short(r1[0]), r1[1..];
        assert data == [0x5C, r1[0]] + rest;
      } else {
        var p2 := p.(state := STRING_SYMBOL_1);
        assert Unescape(0x75) == None && Step(o, p1, r1[0]).next == p2;
        hide Accepts, Run;
        x, rest := DigitsOf(o, p2, r1[1..]);
        assert data == [0x5C, 0x75] + r1[1..];
      }
    }
  }

  /** A string up to its closing quote. */
  lemma {:induction false} StringOf(o: Options, p: Parser, data: seq<Byte>) returns (s: seq<Piece>, rest: seq<Byte>)
    requires Inv(p) && p.state == STRING && Accepts(o, p, data)
    ensures PiecesOk(s) && data == Spelled(s) + ([0x22] + rest)
    decreases |data|
  {
    Took(o, p, data);
    if data[0] == 0x22 {
      s, rest := [], data[1..];
      assert Spelled([]) + data == data;
    } else {
      var x, more := PieceOf(o, p, data);
      PieceReads(o, p, x, more);
      var q := p.(buffer := p.buffer + PieceValue(x));
      AcceptsOn(o, p, data, q, more);
      var s1;
      s1, rest := StringOf(o, q, more);
      s := [x] + s1;
      hide Run, Step, Inv, PieceText, PieceValue, Accepts;
      assert s[1..] == s1;
      Associative(PieceText(x), Spelled(s1), [0x22] + rest);
    }
  }

  // ----- White space, comments, numerals -----

  lemma {:induction false} BlanksOf(data: seq<Byte>) returns (s: seq<Byte>, rest: seq<Byte>)
    ensures AllBlank(s) && data == s + rest && (|rest| > 0 ==> rest[0] !in BLANKS)
    decreases |data|
  {
    if |data| == 0 || data[0] !in BLANKS {
      s, rest := [], data;
    } else {
      var s1;
      s1, rest := BlanksOf(data[1..]);
      s := [data[0]] + s1;
      assert data == [data[0]] + data[1..];
    }
  }

  lemma {:induction false} LineOf(o: Options, p: Parser, data: seq<Byte>) returns (text: seq<Byte>, rest: seq<Byte>)
    requires Inv(p) && p.state == INLINE_COMMENT && Accepts(o, p, data)
    ensures 0x0A !in text && data == text + ([0x0A] + rest)
    decreases |data|
  {
    Took(o, p, data);
    if data[0] == 0x0A {
      text, rest := [], data[1..];
    } else {
      assert Step(o, p, data[0]).next == p;
      var t1;
      t1, rest := LineOf(o, p, data[1..]);
      text := [data[0]] + t1;
    }
  }

  /** White space and comments, as far as they go. */
  lemma {:induction false} PartsOf(o: Options, p: Parser, data: seq<Byte>) returns (s: seq<Part>, rest: seq<Byte>)
    requires Inv(p) && (p.state == BOF || p.state == ARRAY) && Accepts(o, p, data)
    ensures PartsOk(o, s) && data == PartsText(s) + rest && Accepts(o, p, rest) && |rest| <= |data|
    ensures |rest| > 0 ==> rest[0] !in BLANKS && rest[0] != 0x2F
    decreases |data|
  {
    if |data| > 0 && (data[0] in BLANKS || data[0] == 0x2F) {
      var x, more := PartOf(o, p, data);
      PartReads(o, p, x, more);
      AcceptsOn(o, p, data, p, more);
      var s1;
      s1, rest := PartsOf(o, p, more);
      s := [x] + s1;
      hide Run, Inv, Accepts;
      assert s[1..] == s1;
      Associative(PartText(x), PartsText(s1), rest);
    } else {
      s, rest := [], data;
      assert PartsText([]) + data == data;
    }
  }

  lemma PartOf(o: Options, p: Parser, data: seq<Byte>) returns (x: Part, rest: seq<Byte>)
    requires Inv(p) && (p.state == BOF || p.state == ARRAY) && Accepts(o, p, data)
    requires |data| > 0 && (data[0] in BLANKS || data[0] == 0x2F)
    ensures if x.Blank? then x.b in BLANKS else o.inlineComments && 0x0A !in x.text
    ensures data == PartText(x) + rest && |rest| < |data|
  {
    if data[0] in BLANKS {
      x, rest := Blank(data[0]), data[1..];
      assert data == [data[0]] + rest;
    } else {
      TookMore(o, p, data);
      var p1, r1 := p.(savedStates := p.savedStates + [p.state], state := AFTER_SLESH), data[1..];
      assert o.inlineComments && Step(o, p, data[0]).next == p1;
      Took(o, p1, r1);
      var p2 := p1.(state := INLINE_COMMENT);
      assert Step(o, p1, r1[0]).next == p2;
      hide Accepts, Run, Inv, Step;
      var text;
      text, rest := LineOf(o, p2, r1[1..]);
      x := Comment(text);
      assert data == [0x2F, 0x2F] + r1[1..];
    }
  }

  lemma {:induction false} NumeralsOf(data: seq<Byte>) returns (s: seq<Byte>, rest: seq<Byte>)
    ensures (forall i :: 0 <= i < |s| ==> IsNumeral(s[i])) && data == s + rest
    ensures |rest| > 0 ==> !IsNumeral(rest[0])
    decreases |data|
  {
    if |data| == 0 || !IsNumeral(data[0]) {
      s, rest := [], data;
    } else {
      var s1;
      s1, rest := NumeralsOf(data[1..]);
      s := [data[0]] + s1;
      assert data == [data[0]] + data[1..];
    }
  }

  lemma NumberOf(o: Options, p: Parser, data: seq<Byte>) returns (text: seq<Byte>, rest: seq<Byte>)
    requires Awaits(p) && p.state != BOF && Accepts(o, p, data)
    requires |data| > 0 && NumberOk([data[0]], p.state == PROPERTY_VALUE)
    ensures NumberOk(text, p.state == PROPERTY_VALUE) && data == text + rest
    ensures |rest| > 0 && !IsNumeral(rest[0]) && |rest| < |data|
  {
    NumberBegins(o, p, data[0]);
    TookMore(o, p, data);
    var q := Step(o, p, data[0]).next;
    var s;
    s, rest := NumeralsOf(data[1..]);
    hide EndNumber, Attached, Step;
    NumeralsRead(o, q, s, rest);
    text := [data[0]] + s;
    assert data == text + rest;
    Unfinished(o, q.(buffer := q.buffer + s));
  }

  lemma Unfinished(o: Options, q: Parser)
    requires Inv(q) && !MayEnd(o, q)
    ensures !Accepts(o, q, [])
  {
  }

  // ----- Arrays -----

  /** The items found so far, as an array. */
  ghost function Done(items: seq<Item>): Doc {
    DArray(items, [], false)
  }

  ghost predicate ItemsOk(o: Options, items: seq<Item>) {
    DocOk(o, Done(items), false)
  }

  /** The parser after these items. */
  ghost function AfterItems(o: Options, p: Parser, items: seq<Item>): Parser
    requires Awaits(p) && ItemsOk(o, items)
  {
    ArrayRead(p, Meaning(o, Done(items), false), |items|)
  }

  /** What stands between the brackets from a position on, for some array that goes on from the items found. */
  ghost predicate Completes(o: Options, items: seq<Item>, v: Doc, data: seq<Byte>, rest: seq<Byte>) {
    && v.DArray? && DocOk(o, v, false) && |items| <= |v.items| && v.items[..|items|] == items
    && data == ItemsSpelled(v, |items|) + rest && |rest| < |data|
  }

  lemma ItemsSnoc(o: Options, items: seq<Item>, x: Item)
    requires ItemsOk(o, items) && PartsOk(o, x.before) && DocOk(o, x.value, false) && AllBlank(x.after)
    ensures ItemsOk(o, items + [x])
    ensures Meaning(o, Done(items + [x]), false).items[..|items|] == Meaning(o, Done(items), false).items
  {
    forall y | y in items + [x] ensures PartsOk(o, y.before) && DocOk(o, y.value, false) && AllBlank(y.after) {
      assert y in items || y == x;
    }
    var a, b := Meaning(o, Done(items + [x]), false).items, Meaning(o, Done(items), false).items;
    assert forall i :: 0 <= i < |items| ==> (items + [x])[i] == items[i] && a[i] == b[i];
  }

  /** One more item leads from the items before it to the items with it. */
  lemma ItemFound(o: Options, p: Parser, items: seq<Item>, x: Item, data: seq<Byte>, more: seq<Byte>)
    requires Awaits(p) && ItemsOk(o, items) && Inv(AfterItems(o, p, items)) && Accepts(o, AfterItems(o, p, items), data)
    requires PartsOk(o, x.before) && DocOk(o, x.value, false) && AllBlank(x.after)
    requires |more| > 0 && !IsNumeral(more[0])
    requires data == (if |items| > 0 then [0x2C] else []) + (PartsText(x.before) + (DocText(x.value) + (x.after + more)))
    ensures ItemsOk(o, items + [x]) && Inv(AfterItems(o, p, items + [x])) && Accepts(o, AfterItems(o, p, items + [x]), more)
  {
    hide *;
    SameItems(o, p, items, x);
    ItemLaid(o, p, Done(items + [x]), |items|, more);
    AcceptsOn(o, AfterItems(o, p, items), data, AfterItems(o, p, items + [x]), more);
  }

  /** The same parser, seen as having read the first items of the longer array. */
  lemma SameItems(o: Options, p: Parser, items: seq<Item>, x: Item)
    requires Awaits(p) && ItemsOk(o, items) && PartsOk(o, x.before) && DocOk(o, x.value, false) && AllBlank(x.after)
    ensures ItemsOk(o, items + [x]) && DocOk(o, Done(items + [x]), false)
    ensures Done(items + [x]).DArray? && Done(items + [x]).items == items + [x]
    ensures var m := Meaning(o, Done(items + [x]), false);
      && |m.items| == |items| + 1
      && AfterItems(o, p, items) == ArrayRead(p, m, |items|)
      && AfterItems(o, p, items + [x]) == ArrayRead(p, m, |items| + 1)
  {
    ItemsSnoc(o, items, x);
    var m, m1 := Meaning(o, Done(items), false), Meaning(o, Done(items + [x]), false);
    assert m1.items[..|items|] == m.items[..|items|];
    hide Meaning, DocOk;
  }

  /** The bracket that closes the array. */
  lemma ArrayClosed(o: Options, items: seq<Item>, last: seq<Part>, comma: bool, data: seq<Byte>, rest: seq<Byte>)
    requires ItemsOk(o, items) && PartsOk(o, last) && (comma ==> |items| > 0) && (|items| > 0 && !comma ==> last == [])
    requires data == (if comma then [0x2C] else []) + (PartsText(last) + ([0x5D] + rest))
    ensures Completes(o, items, DArray(items, last, comma), data, rest)
  {
    var v := DArray(items, last, comma);
    var c, t := if comma then [0x2C] else [], PartsText(last);
    assert ItemsSpelled(v, |items|) == c + (t + [0x5D]);
    assert v.items[..|items|] == items;
    assert c + (t + ([0x5D] + rest)) == c + (t + [0x5D]) + rest;
  }

  lemma CompletesLater(o: Options, items: seq<Item>, x: Item, v: Doc, data: seq<Byte>, more: seq<Byte>, rest: seq<Byte>)
    requires Completes(o, items + [x], v, more, rest)
    requires data == (if |items| > 0 then [0x2C] else []) + (PartsText(x.before) + (DocText(x.value) + (x.after + more)))
    ensures Completes(o, items, v, data, rest)
  {
    var k := |items|;
    assert v.items[..k + 1][..k] == v.items[..k] && v.items[k] == v.items[..k + 1][k] == x;
    assert (items + [x])[..k] == items;
    ItemsSplit(v, k, rest);
  }

  /** What the character after the white space before an item can be. */
  lemma ItemBegins(o: Options, q: Parser, data: seq<Byte>)
    requires Inv(q) && q.state == ARRAY && Accepts(o, q, data)
    requires |data| > 0 ==> data[0] !in BLANKS && data[0] != 0x2F
    ensures |data| > 0 && (data[0] == 0x5D || Begins(q, data[0]))
  {
    Took(o, q, data);
  }

  /** The first character of a value. */
  predicate Begins(p: Parser, c: Byte) {
    c == 0x5B || c == 0x7B || (p.state != BOF && (c == 0x22 || NumberOk([c], p.state == PROPERTY_VALUE)))
  }

  /** What the character after an item can be. */
  lemma ItemFollowed(o: Options, q: Parser, data: seq<Byte>)
    requires Inv(q) && q.state == ARRAY_ITEM && Accepts(o, q, data) && (|data| > 0 ==> data[0] !in BLANKS)
    ensures |data| > 0 && (data[0] == 0x2C || data[0] == 0x5D)
  {
    Took(o, q, data);
  }

  lemma NoParts()
    ensures PartsText([]) == []
  {
  }

  /** The rest of an array, from the items found so far; after an item its white space has been passed. */
  lemma {:induction false} ItemsOf(o: Options, p: Parser, items: seq<Item>, data: seq<Byte>) returns (v: Doc, rest: seq<Byte>)
    requires Awaits(p) && ItemsOk(o, items) && Inv(AfterItems(o, p, items)) && Accepts(o, AfterItems(o, p, items), data)
    requires |items| > 0 && |data| > 0 ==> data[0] !in BLANKS
    ensures Completes(o, items, v, data, rest)
    decreases |data|, 4
  {
    var q := AfterItems(o, p, items);
    assert q.state == if |items| > 0 then ARRAY_ITEM else ARRAY;
    assert [] + data == data;
    hide AfterItems, Run, Inv, Accepts, Completes, DocText, PartsText, DocOk;
    if |items| > 0 {
      ItemFollowed(o, q, data);
      assert data == [data[0]] + data[1..];
      if data[0] == 0x5D {
        NoParts();
        assert [] + ([] + ([0x5D] + data[1..])) == data;
        ArrayClosed(o, items, [], false, data, data[1..]);
        return DArray(items, [], false), data[1..];
      }
      SeparatorReads(o, q, true, data[1..]);
      AcceptsOn(o, q, data, q.(state := ARRAY), data[1..]);
      v, rest := ItemOrEnd(o, p, items, data, data[1..]);
    } else {
      SeparatorReads(o, q, false, data);
      assert q.(state := ARRAY) == q;
      v, rest := ItemOrEnd(o, p, items, data, data);
    }
  }

  /** After the opening bracket or a comma: an item, or the end of the array. */
  lemma ItemOrEnd(o: Options, p: Parser, items: seq<Item>, data: seq<Byte>, inner: seq<Byte>)
    returns (v: Doc, rest: seq<Byte>)
    requires Awaits(p) && ItemsOk(o, items) && Inv(AfterItems(o, p, items)) && Accepts(o, AfterItems(o, p, items), data)
    requires Awaits(AfterItems(o, p, items).(state := ARRAY)) && Accepts(o, AfterItems(o, p, items).(state := ARRAY), inner)
    requires data == (if |items| > 0 then [0x2C] else []) + inner
    ensures Completes(o, items, v, data, rest)
    decreases |data|, 3
  {
    var q := AfterItems(o, p, items).(state := ARRAY);
    hide AfterItems, Run, Accepts, Completes, DocText, PartsText, DocOk;
    var parts, r := PartsOf(o, q, inner);
    ItemBegins(o, q, r);
    assert r == [r[0]] + r[1..];
    if r[0] == 0x5D {
      ArrayClosed(o, items, parts, |items| > 0, data, r[1..]);
      v, rest := DArray(items, parts, |items| > 0), r[1..];
    } else {
      var x, more := ItemOf(o, q, parts, r);
      ItemFound(o, p, items, x, data, more);
      ItemShorter(data, if |items| > 0 then [0x2C] else [], PartsText(parts), r, more);
      hide Inv, Placed;
      v, rest := ItemsOf(o, p, items + [x], more);
      CompletesLater(o, items, x, v, data, more, rest);
    }
  }

  lemma ItemShorter(data: seq<Byte>, comma: seq<Byte>, parts: seq<Byte>, r: seq<Byte>, more: seq<Byte>)
    requires data == comma + (parts + r) && |more| < |r|
    ensures |more| < |data|
  {
  }

  /** An item whose value begins here, with the white space after it. */
  lemma ItemOf(o: Options, q: Parser, parts: seq<Part>, data: seq<Byte>) returns (x: Item, more: seq<Byte>)
    requires Awaits(q) && q.state == ARRAY && Accepts(o, q, data) && |data| > 0 && Begins(q, data[0]) && PartsOk(o, parts)
    ensures x.before == parts && PartsOk(o, x.before) && DocOk(o, x.value, false) && AllBlank(x.after)
    ensures data == DocText(x.value) + (x.after + more) && |more| < |data|
    ensures |more| > 0 && !IsNumeral(more[0]) && more[0] !in BLANKS
    decreases |data|, 2
  {
    var value, r := ValueOf(o, q, data);
    var after;
    after, more := BlanksOf(r);
    var q1 := Attached(o, q, Meaning(o, value, false));
    assert q1.state == ARRAY_ITEM;
    DocReads(o, q, value, r);
    hide Run, Meaning, DocText, DocOk, Attached;
    AcceptsOn(o, q, data, q1, r);
    BlanksRead(o, q1, after, more);
    AcceptsOn(o, q1, r, q1, more);
    ItemFollowed(o, q1, more);
    x := Item(parts, value, after);
  }

  // ----- Objects -----

  ghost function DoneMembers(members: seq<Member>): Doc {
    DObject(members, [], false)
  }

  ghost predicate MembersOk(o: Options, members: seq<Member>) {
    DocOk(o, DoneMembers(members), false)
  }

  ghost predicate MemberOk(o: Options, x: Member) {
    && AllBlank(x.before) && PiecesOk(x.name) && AllBlank(x.beforeColon) && AllBlank(x.beforeValue)
    && DocOk(o, x.value, true) && AllBlank(x.after)
  }

  /** The parser after these properties. */
  ghost function AfterMembers(o: Options, p: Parser, members: seq<Member>): Parser
    requires Awaits(p) && MembersOk(o, members)
  {
    ObjectRead(p, Meaning(o, DoneMembers(members), false), |members|)
  }

  ghost predicate CompletesObject(o: Options, members: seq<Member>, v: Doc, data: seq<Byte>, rest: seq<Byte>) {
    && v.DObject? && DocOk(o, v, false) && |members| <= |v.members| && v.members[..|members|] == members
    && data == MembersSpelled(v, |members|) + rest && |rest| < |data|
  }

  /** A property with the comma before it and what stands around its parts. */
  ghost function MemberText(x: Member, comma: bool, more: seq<Byte>): seq<Byte> {
    (if comma then [0x2C] else []) + (x.before + (StringText(x.name) + (x.beforeColon + ([0x3A] + (x.beforeValue
      + (DocText(x.value) + (x.after + more)))))))
  }

  lemma MembersSnoc(o: Options, members: seq<Member>, x: Member)
    requires MembersOk(o, members) && MemberOk(o, x)
    ensures MembersOk(o, members + [x])
    ensures Meaning(o, DoneMembers(members + [x]), false).properties[..|members|]
         == Meaning(o, DoneMembers(members), false).properties
  {
    var v, w := DoneMembers(members + [x]), DoneMembers(members);
    forall y | y in members + [x] ensures MemberOk(o, y) {
      assert y in members || y == x;
    }
    var a, b := Meaning(o, v, false).properties, Meaning(o, w, false).properties;
    forall i | 0 <= i < |members| ensures a[i] == b[i] {
      assert (members + [x])[i] == members[i];
      assert a[i] == MemberMeaning(o, v, i) && b[i] == MemberMeaning(o, w, i);
    }
  }

  lemma MemberFound(o: Options, p: Parser, members: seq<Member>, x: Member, data: seq<Byte>, more: seq<Byte>)
    requires Awaits(p) && MembersOk(o, members) && Inv(AfterMembers(o, p, members))
    requires Accepts(o, AfterMembers(o, p, members), data) && MemberOk(o, x)
    requires |more| > 0 && !IsNumeral(more[0]) && data == MemberText(x, |members| > 0, more)
    ensures MembersOk(o, members + [x]) && Inv(AfterMembers(o, p, members + [x]))
    ensures Accepts(o, AfterMembers(o, p, members + [x]), more)
  {
    hide *;
    SameMembers(o, p, members, x);
    MemberRead(o, p, DoneMembers(members + [x]), |members|, x, more);
    AcceptsOn(o, AfterMembers(o, p, members), data, AfterMembers(o, p, members + [x]), more);
  }

  lemma MemberRead(o: Options, p: Parser, v: Doc, i: nat, x: Member, more: seq<Byte>)
    requires Awaits(p) && v.DObject? && DocOk(o, v, false) && i < |v.members| && v.members[i] == x
    requires |more| > 0 && !IsNumeral(more[0]) && Inv(ObjectRead(p, Meaning(o, v, false), i))
    ensures Inv(ObjectRead(p, Meaning(o, v, false), i + 1))
    ensures Run(o, ObjectRead(p, Meaning(o, v, false), i), MemberText(x, i > 0, more))
         == Run(o, ObjectRead(p, Meaning(o, v, false), i + 1), more)
  {
    hide Run, Meaning, ObjectRead, Inv, DocText, StringText, DocOk;
    MemberLaid(o, p, v, i, more);
  }

  /** The same parser, seen as having read the first properties of the longer object. */
  lemma SameMembers(o: Options, p: Parser, members: seq<Member>, x: Member)
    requires Awaits(p) && MembersOk(o, members) && MemberOk(o, x)
    ensures MembersOk(o, members + [x]) && DocOk(o, DoneMembers(members + [x]), false)
    ensures DoneMembers(members + [x]).DObject? && DoneMembers(members + [x]).members == members + [x]
    ensures var m := Meaning(o, DoneMembers(members + [x]), false);
      && |m.properties| == |members| + 1
      && AfterMembers(o, p, members) == ObjectRead(p, m, |members|)
      && AfterMembers(o, p, members + [x]) == ObjectRead(p, m, |members| + 1)
  {
    MembersSnoc(o, members, x);
    var m, m1 := Meaning(o, DoneMembers(members), false), Meaning(o, DoneMembers(members + [x]), false);
    assert m1.properties[..|members|] == m.properties[..|members|];
    hide Meaning, DocOk;
  }

  lemma ObjectClosed(o: Options, members: seq<Member>, end: seq<Byte>, comma: bool, data: seq<Byte>, rest: seq<Byte>)
    requires MembersOk(o, members) && AllBlank(end) && (comma ==> |members| > 0) && (|members| > 0 && !comma ==> end == [])
    requires data == (if comma then [0x2C] else []) + (end + ([0x7D] + rest))
    ensures CompletesObject(o, members, DObject(members, end, comma), data, rest)
  {
    var v := DObject(members, end, comma);
    var c := if comma then [0x2C] else [];
    assert MembersSpelled(v, |members|) == c + (end + [0x7D]);
    assert v.members[..|members|] == members;
    assert c + (end + ([0x7D] + rest)) == c + (end + [0x7D]) + rest;
  }

  lemma MemberThen(o: Options, members: seq<Member>, x: Member, v: Doc, data: seq<Byte>, more: seq<Byte>, rest: seq<Byte>)
    requires CompletesObject(o, members + [x], v, more, rest) && data == MemberText(x, |members| > 0, more)
    ensures CompletesObject(o, members, v, data, rest)
  {
    var k := |members|;
    assert v.members[..k + 1][..k] == v.members[..k] && v.members[k] == v.members[..k + 1][k] == x;
    assert (members + [x])[..k] == members;
    MembersSplit(v, k, rest);
    hide MembersSpelled, DocText, StringText;
  }

  lemma MemberFollowed(o: Options, q: Parser, data: seq<Byte>)
    requires Inv(q) && q.state == OBJECT_ITEM && Accepts(o, q, data) && (|data| > 0 ==> data[0] !in BLANKS)
    ensures |data| > 0 && (data[0] == 0x2C || data[0] == 0x7D)
  {
    Took(o, q, data);
  }

  lemma {:induction false} MembersOf(o: Options, p: Parser, members: seq<Member>, data: seq<Byte>)
    returns (v: Doc, rest: seq<Byte>)
    requires Awaits(p) && MembersOk(o, members) && Inv(AfterMembers(o, p, members))
    requires Accepts(o, AfterMembers(o, p, members), data)
    requires |members| > 0 && |data| > 0 ==> data[0] !in BLANKS
    ensures CompletesObject(o, members, v, data, rest)
    decreases |data|, 4
  {
    var q := AfterMembers(o, p, members);
    assert q.state == if |members| > 0 then OBJECT_ITEM else OBJECT;
    assert [] + data == data;
    hide AfterMembers, Run, Inv, Accepts, CompletesObject, DocText, DocOk;
    if |members| > 0 {
      MemberFollowed(o, q, data);
      assert data == [data[0]] + data[1..];
      if data[0] == 0x7D {
        assert [] + ([] + ([0x7D] + data[1..])) == data;
        ObjectClosed(o, members, [], false, data, data[1..]);
        return DObject(members, [], false), data[1..];
      }
      PropertyCommaReads(o, q, true, data[1..]);
      AcceptsOn(o, q, data, q.(state := OBJECT), data[1..]);
      v, rest := MemberOrEnd(o, p, members, data, data[1..]);
    } else {
      PropertyCommaReads(o, q, false, data);
      assert q.(state := OBJECT) == q;
      v, rest := MemberOrEnd(o, p, members, data, data);
    }
  }

  /** After the opening brace or a comma: a property, or the end of the object. */
  lemma MemberOrEnd(o: Options, p: Parser, members: seq<Member>, data: seq<Byte>, inner: seq<Byte>)
    returns (v: Doc, rest: seq<Byte>)
    requires Awaits(p) && MembersOk(o, members) && Inv(AfterMembers(o, p, members))
    requires Accepts(o, AfterMembers(o, p, members), data)
    requires Inv(AfterMembers(o, p, members).(state := OBJECT))
    requires Accepts(o, AfterMembers(o, p, members).(state := OBJECT), inner)
    requires data == (if |members| > 0 then [0x2C] else []) + inner
    ensures CompletesObject(o, members, v, data, rest)
    decreases |data|, 3
  {
    var q := AfterMembers(o, p, members).(state := OBJECT);
    hide AfterMembers, Run, Accepts, CompletesObject, DocText, DocOk, Inv, StringText;
    var before, r := BlanksOf(inner);
    BlanksRead(o, q, before, r);
    AcceptsOn(o, q, inner, q, r);
    PropertyBegins(o, q, r);
    assert r == [r[0]] + r[1..];
    if r[0] == 0x7D {
      ObjectClosed(o, members, before, |members| > 0, data, r[1..]);
      v, rest := DObject(members, before, |members| > 0), r[1..];
    } else {
      var x, more := MemberOf(o, q, before, r);
      assert data == MemberText(x, |members| > 0, more);
      MemberFound(o, p, members, x, data, more);
      ItemShorter(data, if |members| > 0 then [0x2C] else [], before, r, more);
      v, rest := MembersOf(o, p, members + [x], more);
      MemberThen(o, members, x, v, data, more, rest);
    }
  }

  lemma PropertyBegins(o: Options, q: Parser, data: seq<Byte>)
    requires Inv(q) && q.state == OBJECT && Accepts(o, q, data) && (|data| > 0 ==> data[0] !in BLANKS)
    ensures |data| > 0 && (data[0] == 0x22 || data[0] == 0x7D)
  {
    Took(o, q, data);
  }

  /** The name of a property, up to its closing quote. */
  lemma NameOf(o: Options, q: Parser, data: seq<Byte>) returns (name: seq<Piece>, rest: seq<Byte>)
    requires Inv(q) && q.state == OBJECT && Accepts(o, q, data) && |data| > 0 && data[0] == 0x22
    ensures PiecesOk(name) && data == StringText(name) + rest
    ensures var named := Named(q, Meant(name)).(state := PROPERTY_NAME);
            Inv(named) && Accepts(o, named, rest)
  {
    TookMore(o, q, data);
    NameAttached(o, q, []);
    name, rest := StringOf(o, Step(o, q, 0x22).next, data[1..]);
    assert data == [0x22] + data[1..];
    assert StringText(name) + rest == [0x22] + (Spelled(name) + ([0x22] + rest));
    NameAttached(o, q, Meant(name));
    StringSpelled(o, q, name, rest);
    hide Named, Step, Meant, Run, EndString;
    AcceptsOn(o, q, data, Named(q, Meant(name)).(state := PROPERTY_NAME), rest);
  }

  /** White space, and then the colon or the first character of the value. */
  lemma ColonOf(o: Options, named: Parser, data: seq<Byte>) returns (a: seq<Byte>, b: seq<Byte>, rest: seq<Byte>)
    requires Awaits(named) && named.state == PROPERTY_VALUE && Inv(named.(state := PROPERTY_NAME))
    requires Accepts(o, named.(state := PROPERTY_NAME), data)
    ensures AllBlank(a) && AllBlank(b) && data == a + ([0x3A] + (b + rest)) && Accepts(o, named, rest)
    ensures |rest| > 0 && Begins(named, rest[0])
  {
    var q := named.(state := PROPERTY_NAME);
    var r;
    a, r := BlanksOf(data);
    BlanksRead(o, q, a, r);
    AcceptsOn(o, q, data, q, r);
    Took(o, q, r);
    assert r[0] == 0x3A && Step(o, q, r[0]).next == named;
    b, rest := BlanksOf(r[1..]);
    BlanksRead(o, named, b, rest);
    AcceptsOn(o, named, r[1..], named, rest);
    Took(o, named, rest);
  }

  lemma MemberOf(o: Options, q: Parser, before: seq<Byte>, data: seq<Byte>) returns (x: Member, more: seq<Byte>)
    requires Inv(q) && q.state == OBJECT && Accepts(o, q, data) && |data| > 0 && data[0] == 0x22 && AllBlank(before)
    ensures MemberOk(o, x) && x.before == before && |more| < |data|
    ensures data == StringText(x.name) + (x.beforeColon + ([0x3A] + (x.beforeValue + (DocText(x.value) + (x.after + more)))))
    ensures |more| > 0 && !IsNumeral(more[0]) && more[0] !in BLANKS
    decreases |data|, 2
  {
    var name, r := NameOf(o, q, data);
    NameAttached(o, q, Meant(name));
    var named := Named(q, Meant(name));
    assert named.state == PROPERTY_VALUE;
    hide Named, Meant, Accepts, DocText, StringText, DocOk, Inv;
    var a, b, r1 := ColonOf(o, named, r);
    NameShorter(data, name, r, a, b, r1);
    var value, after;
    value, after, more := ValueThen(o, named, r1);
    x := Member(before, name, a, b, value, after);
  }

  lemma NameShorter(data: seq<Byte>, name: seq<Piece>, r: seq<Byte>, a: seq<Byte>, b: seq<Byte>, r1: seq<Byte>)
    requires data == StringText(name) + r && r == a + ([0x3A] + (b + r1))
    ensures |r1| < |data|
  {
    assert |StringText(name)| >= 2;
  }

  /** The value of a property and the white space after it. */
  lemma ValueThen(o: Options, named: Parser, data: seq<Byte>) returns (value: Doc, after: seq<Byte>, more: seq<Byte>)
    requires Awaits(named) && named.state == PROPERTY_VALUE && Accepts(o, named, data)
    requires |data| > 0 && Begins(named, data[0])
    ensures DocOk(o, value, true) && AllBlank(after) && data == DocText(value) + (after + more) && |more| < |data|
    ensures |more| > 0 && !IsNumeral(more[0]) && more[0] !in BLANKS
    decreases |data|, 2
  {
    var r;
    value, r := ValueOf(o, named, data);
    after, more := BlanksOf(r);
    var q1 := Attached(o, named, Meaning(o, value, true));
    assert q1.state == OBJECT_ITEM;
    DocReads(o, named, value, r);
    hide Run, Meaning, DocText, DocOk, Attached;
    AcceptsOn(o, named, data, q1, r);
    BlanksRead(o, q1, after, more);
    AcceptsOn(o, q1, r, q1, more);
    MemberFollowed(o, q1, more);
  }

  // ----- Values -----

  lemma StringValueOf(o: Options, p: Parser, data: seq<Byte>) returns (s: seq<Piece>, rest: seq<Byte>)
    requires Awaits(p) && p.state != BOF && Accepts(o, p, data) && |data| > 0 && data[0] == 0x22
    ensures PiecesOk(s) && data == StringText(s) + rest && |rest| < |data|
  {
    StringAttached(o, p, []);
    TookMore(o, p, data);
    s, rest := StringOf(o, Step(o, p, 0x22).next, data[1..]);
    assert data == [0x22] + data[1..];
    assert StringText(s) + rest == [0x22] + (Spelled(s) + ([0x22] + rest));
  }

  lemma ArrayOpened(o: Options, p: Parser, data: seq<Byte>)
    requires Awaits(p) && Accepts(o, p, data) && |data| > 0 && data[0] == 0x5B
    ensures ItemsOk(o, []) && Inv(AfterItems(o, p, [])) && Accepts(o, AfterItems(o, p, []), data[1..])
  {
    TookMore(o, p, data);
    EmptyArray(o, p);
    hide *;
  }

  lemma EmptyArray(o: Options, p: Parser)
    requires Awaits(p)
    ensures ItemsOk(o, []) && Step(o, p, 0x5B).More? && Step(o, p, 0x5B).next == AfterItems(o, p, [])
  {
    assert Meaning(o, Done([]), false) == Array([]);
    hide Chain, SavedFor;
  }

  lemma ObjectOpened(o: Options, p: Parser, data: seq<Byte>)
    requires Awaits(p) && Accepts(o, p, data) && |data| > 0 && data[0] == 0x7B
    ensures MembersOk(o, []) && Inv(AfterMembers(o, p, [])) && Accepts(o, AfterMembers(o, p, []), data[1..])
  {
    TookMore(o, p, data);
    EmptyObject(o, p);
    hide *;
  }

  lemma EmptyObject(o: Options, p: Parser)
    requires Awaits(p)
    ensures MembersOk(o, []) && Step(o, p, 0x7B).More? && Step(o, p, 0x7B).next == AfterMembers(o, p, [])
  {
    assert Meaning(o, DoneMembers([]), false) == Object([]);
    hide Chain, SavedFor;
  }

  /** A value that begins here, whatever follows it. */
  lemma {:induction false} ValueOf(o: Options, p: Parser, data: seq<Byte>) returns (v: Doc, rest: seq<Byte>)
    requires Awaits(p) && Accepts(o, p, data) && |data| > 0 && Begins(p, data[0])
    ensures Placed(o, p, v, rest) && data == DocText(v) + rest && |rest| < |data|
    decreases |data|, 1
  {
    hide Accepts, Run, Inv, AfterItems, AfterMembers, ItemsSpelled, MembersSpelled, StringText;
    assert data == [data[0]] + data[1..];
    if data[0] == 0x22 {
      var s;
      s, rest := StringValueOf(o, p, data);
      v := DString(s);
    } else if data[0] == 0x5B {
      ArrayOpened(o, p, data);
      v, rest := ItemsOf(o, p, [], data[1..]);
      Associative([0x5B], ItemsSpelled(v, 0), rest);
    } else if data[0] == 0x7B {
      ObjectOpened(o, p, data);
      v, rest := MembersOf(o, p, [], data[1..]);
      Associative([0x7B], MembersSpelled(v, 0), rest);
    } else {
      var text;
      text, rest := NumberOf(o, p, data);
      v := DNumber(text);
    }
  }

  // ----- The language of the parser -----

  /** The input is white space and one document in some layout. */
  ghost predicate IsLayout(data: seq<Byte>, before: seq<Byte>, v: Doc) {
    AllBlank(before) && (v.DObject? || v.DArray?) && DocOk(DefaultOptions, v, false) && data == before + DocText(v)
  }

  /** Whatever is accepted is a layout. */
  lemma LayoutOf(data: seq<Byte>) returns (before: seq<Byte>, v: Doc)
    requires Parse(data).Ok?
    ensures IsLayout(data, before, v)
  {
    var o, r := DefaultOptions, [];
    before, r := BlanksOf(data);
    BlanksRead(o, Start, before, r);
    AcceptsOn(o, Start, data, Start, r);
    Took(o, Start, r);
    var rest;
    v, rest := ValueOf(o, Start, r);
    var q := Attached(o, Start, Meaning(o, v, false));
    assert q.state == EOF;
    DocReads(o, Start, v, rest);
    hide Meaning, Attached, DocText, DocOk;
    if |rest| > 0 {
      TookMore(o, q, rest);
    }
    assert DocText(v) + rest == DocText(v);
  }

  /** Parsing yields a tree if and only if the input is white space and then some layout of that tree. */
  lemma ParseIff(data: seq<Byte>, m: Json)
    ensures Parse(data) == Ok(m) <==>
            exists before, v :: IsLayout(data, before, v) && m == Meaning(DefaultOptions, v, false)
  {
    hide Parse, Meaning, DocText, DocOk;
    if Parse(data) == Ok(m) {
      var before, v := LayoutOf(data);
      ParseOfLayout(before, v);
    }
    if exists before, v :: IsLayout(data, before, v) && m == Meaning(DefaultOptions, v, false) {
      var before, v :| IsLayout(data, before, v) && m == Meaning(DefaultOptions, v, false);
      ParseOfLayout(before, v);
    }
  }
}
