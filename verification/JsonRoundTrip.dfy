/**
  What the parser makes of the writer's text, for every tree of objects, arrays and primitives:
  the tree comes back exactly when it stays within the writer's and the parser's common domain.
 */
module JsonRoundTrip {
  import opened Bytes
  import opened Utf8
  import opened JsonTree
  import opened JsonMachine
  import opened JsonSteps
  import opened Wrappers

  // ----- Strings -----

  lemma RunOne(o: Options, p: Parser, c: Byte, rest: seq<Byte>)
    requires Inv(p) && Step(o, p, c).More?
    ensures Inv(Step(o, p, c).next) && Run(o, p, [c] + rest) == Run(o, Step(o, p, c).next, rest)
  {
    StepGood(o, p, c);
    hide Step, Inv;
    assert ([c] + rest)[1..] == rest;
  }

  lemma RunFails(o: Options, p: Parser, c: Byte, rest: seq<Byte>)
    requires Inv(p) && Step(o, p, c).Failed?
    ensures Run(o, p, [c] + rest).Err?
  {
  }

  ghost predicate InEscape(p: Parser) {
    Inv(p) && ReadsDigit(p)
  }

  lemma DigitReads(o: Options, p: Parser, c: Byte, d: nat, rest: seq<Byte>)
    requires InEscape(p) && d < 16 && HexValue(c) == Some(d)
    ensures Inv(AfterDigit(p, d)) && (p.state != STRING_SYMBOL_4 ==> InEscape(AfterDigit(p, d)))
    ensures Run(o, p, [c] + rest) == Run(o, AfterDigit(p, d), rest)
  {
    hide Run, HexValue, Add, InString;
    assert Step(o, p, c) == More(AfterDigit(p, d));
    RunOne(o, p, c, rest);
  }

  lemma EscapeOpens(o: Options, p: Parser, rest: seq<Byte>)
    requires Inv(p) && p.state == STRING
    ensures InEscape(p.(state := STRING_SYMBOL_1))
    ensures Run(o, p, [BACKSLASH] + ([LETTER_U] + rest)) == Run(o, p.(state := STRING_SYMBOL_1), rest)
  {
    var p1 := p.(state := STRING_BACKSLESH);
    hide Run, InString;
    RunOne(o, p, BACKSLASH, [LETTER_U] + rest);
    RunOne(o, p1, LETTER_U, rest);
  }

  ghost function FourDigits(p: Parser, d1: nat, d2: nat, d3: nat, d4: nat): Parser
    requires Inv(p) && p.state == STRING && d1 < 16 && d2 < 16 && d3 < 16 && d4 < 16
  {
    AfterDigit(AfterDigit(AfterDigit(AfterDigit(p.(state := STRING_SYMBOL_1), d1), d2), d3), d4)
  }

  /** Any spelling of the four digits. */
  lemma FourDigitsRead(o: Options, p: Parser, c1: Byte, c2: Byte, c3: Byte, c4: Byte,
                       d1: nat, d2: nat, d3: nat, d4: nat, rest: seq<Byte>)
    requires Inv(p) && p.state == STRING && d1 < 16 && d2 < 16 && d3 < 16 && d4 < 16
    requires HexValue(c1) == Some(d1) && HexValue(c2) == Some(d2) && HexValue(c3) == Some(d3) && HexValue(c4) == Some(d4)
    ensures Run(o, p, [BACKSLASH] + ([LETTER_U] + ([c1] + ([c2] + ([c3] + ([c4] + rest))))))
         == Run(o, FourDigits(p, d1, d2, d3, d4), rest)
  {
    var r4 := [c4] + rest;
    var r3 := [c3] + r4;
    var r2 := [c2] + r3;
    EscapeOpens(o, p, [c1] + r2);
    var p1 := p.(state := STRING_SYMBOL_1);
    var p2 := AfterDigit(p1, d1);
    var p3 := AfterDigit(p2, d2);
    var p4 := AfterDigit(p3, d3);
    assert p2.state == STRING_SYMBOL_2 && p3.state == STRING_SYMBOL_3 && p4.state == STRING_SYMBOL_4;
    assert FourDigits(p, d1, d2, d3, d4) == AfterDigit(p4, d4);
    hide *;
    DigitReads(o, p1, c1, d1, r2);
    DigitReads(o, p2, c2, d2, r3);
    DigitReads(o, p3, c3, d3, r4);
    DigitReads(o, p4, c4, d4, rest);
  }

  lemma FourDigitsValue(p: Parser, unit: nat)
    requires Inv(p) && p.state == STRING && unit < 0x1_0000
    ensures unit / 0x1000 < 16
    ensures Inv(p.(buffer := p.buffer + Add(unit)))
    ensures FourDigits(p, unit / 0x1000, unit / 0x100 % 0x10, unit / 0x10 % 0x10, unit % 0x10)
         == p.(buffer := p.buffer + Add(unit))
  {
    UnitDigits(unit);
    hide Add, InString;
  }

  /** The four hex digits of an escape put its 16-bit unit together again. */
  lemma LongEscapeReads(o: Options, p: Parser, unit: nat, rest: seq<Byte>)
    requires Inv(p) && p.state == STRING && unit < 0x1_0000
    ensures Inv(p.(buffer := p.buffer + Add(unit)))
    ensures Run(o, p, LongEscape(unit) + rest) == Run(o, p.(buffer := p.buffer + Add(unit)), rest)
  {
    FourDigitsValue(p, unit);
    LongEscapeSplit(unit, rest);
    hide Run, FourDigits, HexDigit, HexValue, Add, LongEscape, InString;
    var d1, d2, d3, d4 := unit / 0x1000, unit / 0x100 % 0x10, unit / 0x10 % 0x10, unit % 0x10;
    HexReads(d1);
    HexReads(d2);
    HexReads(d3);
    HexReads(d4);
    FourDigitsRead(o, p, HexDigit(d1), HexDigit(d2), HexDigit(d3), HexDigit(d4), d1, d2, d3, d4, rest);
  }

  lemma LongEscapeSplit(unit: nat, rest: seq<Byte>)
    requires unit < 0x1_0000
    ensures LongEscape(unit) + rest ==
      [BACKSLASH] + ([LETTER_U] + ([HexDigit(unit / 0x1000)] + ([HexDigit(unit / 0x100 % 0x10)]
        + ([HexDigit(unit / 0x10 % 0x10)] + ([HexDigit(unit % 0x10)] + rest)))))
  {
    hide HexDigit;
  }

  lemma UnitDigits(unit: nat)
    requires unit < 0x1_0000
    ensures unit / 0x1000 < 0x10
    ensures 0x10 * (0x10 * (0x10 * (unit / 0x1000) + unit / 0x100 % 0x10) + unit / 0x10 % 0x10) + unit % 0x10 == unit
  {
  }

  lemma HexReads(d: nat)
    requires d < 16
    ensures HexValue(HexDigit(d)) == Some(d)
  {
  }

  /** A character is read back as next_char and add leave it. */
  lemma EscapeReads(o: Options, p: Parser, ch: nat, rest: seq<Byte>)
    requires Inv(p) && p.state == STRING
    ensures var q := p.(buffer := p.buffer + Add(ch % 0x1_0000));
            Inv(q) && Run(o, p, Escape(ch) + rest) == Run(o, q, rest)
  {
    var q := p.(buffer := p.buffer + Add(ch % 0x1_0000));
    if ShortEscape(ch).Some? {
      var c := ShortEscape(ch).value;
      assert Unescape(c) == Some(ch) && Add(ch) == [ch] && ch % 0x1_0000 == ch;
      assert Escape(ch) + rest == [BACKSLASH] + ([c] + rest);
      hide Run, InString, Escape, Add;
      RunOne(o, p, BACKSLASH, [c] + rest);
      RunOne(o, p.(state := STRING_BACKSLESH), c, rest);
    } else if 0x20 <= ch < 0x7F {
      assert Add(ch) == [ch] && ch % 0x1_0000 == ch;
      assert ch != QUOTE && ch != BACKSLASH;
      hide Run, InString, Add;
      RunOne(o, p, ch, rest);
    } else {
      LongEscapeReads(o, p, ch % 0x1_0000, rest);
    }
  }

  lemma {:induction false} EscapesRead(o: Options, p: Parser, points: seq<nat>, rest: seq<Byte>)
    requires Inv(p) && p.state == STRING
    ensures var q := p.(buffer := p.buffer + Images(points));
            Inv(q) && Run(o, p, Escapes(points) + rest) == Run(o, q, rest)
    decreases points
  {
    if |points| == 0 {
      assert p.buffer + [] == p.buffer && [] + rest == rest;
    } else {
      var image := Add(points[0] % 0x1_0000);
      var p1 := p.(buffer := p.buffer + image);
      var more := Escapes(points[1..]) + rest;
      EscapeReads(o, p, points[0], more);
      EscapesCons(p.buffer, points, rest);
      hide *;
      EscapesRead(o, p1, points[1..], rest);
    }
  }

  lemma EscapesCons(buffer: seq<Byte>, points: seq<nat>, rest: seq<Byte>)
    requires |points| > 0
    ensures Escapes(points) + rest == Escape(points[0]) + (Escapes(points[1..]) + rest)
    ensures buffer + Add(points[0] % 0x1_0000) + Images(points[1..]) == buffer + Images(points)
  {
    assert Escapes(points) == Escape(points[0]) + Escapes(points[1..]);
    assert Images(points) == Add(points[0] % 0x1_0000) + Images(points[1..]);
    hide *;
    Associative(Escape(points[0]), Escapes(points[1..]), rest);
    Associative(buffer, Add(points[0] % 0x1_0000), Images(points[1..]));
  }

  lemma Associative(a: seq<Byte>, b: seq<Byte>, c: seq<Byte>)
    ensures a + b + c == a + (b + c)
  {
  }

  /** From the character after the opening quote to the closing quote. */
  lemma StringReads(o: Options, p: Parser, s: seq<Byte>, rest: seq<Byte>)
    requires Inv(p) && p.state == STRING && p.buffer == [] && WellFormed(s)
    ensures var q := p.(buffer := Mangled(s));
            Inv(q) && Inv(EndString(q)) && Run(o, p, Escapes(Points(s)) + [QUOTE] + rest) == Run(o, EndString(q), rest)
  {
    var q := p.(buffer := Mangled(s));
    assert Escapes(Points(s)) + [QUOTE] + rest == Escapes(Points(s)) + ([QUOTE] + rest);
    EscapesRead(o, p, Points(s), [QUOTE] + rest);
    assert p.buffer + Images(Points(s)) == Mangled(s);
    hide Run, EndString, Images, Escapes, Points;
    RunOne(o, q, QUOTE, rest);
  }

  // ----- Values -----

  /** A value may begin here. */
  ghost predicate Awaits(p: Parser) {
    Inv(p) && (p.state == BOF || p.state == ARRAY || p.state == PROPERTY_VALUE)
  }

  /** The parser when the value is complete. */
  function Attached(o: Options, p: Parser, v: Json): Parser
    requires Awaits(p)
  {
    if p.state == BOF then
      p.(state := if o.multiRootObjects then BOF else EOF, results := p.results + [v])
    else if p.state == ARRAY then
      p.(state := ARRAY_ITEM, currentObject := Some(AddItem(p.currentObject.value, v)))
    else
      p.(state := OBJECT_ITEM, savedStates := Pop(p.savedStates), currentPath := Pop(p.currentPath),
         currentObject := Some(AddProperty(Top(p.currentPath), p.currentObject.value.name, v)))
  }

  lemma PrimitiveReads(o: Options, p: Parser, s: seq<Byte>, rest: seq<Byte>)
    requires Awaits(p) && p.state != BOF && WellFormed(s)
    ensures var q := Attached(o, p, Primitive(Mangled(s), false));
            Inv(q) && Run(o, p, Quoted(s) + rest) == Run(o, q, rest)
  {
    var inner := Escapes(Points(s)) + [QUOTE] + rest;
    assert Quoted(s) + rest == [QUOTE] + inner;
    RunOne(o, p, QUOTE, inner);
    StringReads(o, Step(o, p, QUOTE).next, s, rest);
    StringAttached(o, p, Mangled(s));
    hide *;
  }

  /** From the opening to the closing quote: the string is attached where a value was awaited. */
  lemma StringAttached(o: Options, p: Parser, value: seq<Byte>)
    requires Awaits(p) && p.state != BOF
    ensures Step(o, p, QUOTE).More? && Step(o, p, QUOTE).next.buffer == [] && Step(o, p, QUOTE).next.state == STRING
    ensures var q := Step(o, p, QUOTE).next.(buffer := value);
            Inv(q) && EndString(q) == Attached(o, p, Primitive(value, false))
  {
    StepGood(o, p, QUOTE);
    var p1 := Step(o, p, QUOTE).next;
    var q := p1.(buffer := value);
    SavedTells(q);
    if p.state == ARRAY {
      assert Pop(p1.savedStates) == p.savedStates;
      assert InArray(q, [ARRAY_ITEM]);
      hide InContainer, SavedFor, Chain, Step;
      assert EndString(q) == FinalItem(q, false);
    } else {
      assert InProperty(q);
      hide InContainer, SavedFor, Chain, Step;
      assert EndString(q) == FinalProperty(q, false);
    }
  }

  /** A container under construction, started where p awaits a value. */
  function Within(p: Parser, isArray: bool, f: Frame, state: St): Parser
    requires Awaits(p)
  {
    StartContainer(p, isArray).(currentObject := Some(f), state := state)
  }

  /** When a container is closed, it is attached where it was started. */
  lemma ContainerAttached(o: Options, p: Parser, isArray: bool, f: Frame, state: St)
    requires Awaits(p) && IsContainer(f) && f.inside == StartContainer(p, isArray).currentObject.value.inside
    requires Inv(Within(p, isArray, f, state))
    requires InContainer(Within(p, isArray, f, state), [])
    ensures FinalContainer(o, Within(p, isArray, f, state)) == Attached(o, p, Built(f))
  {
    var q := Within(p, isArray, f, state);
    ParentKnown(q);
    if p.state == ARRAY {
      assert Pop(q.savedStates) == p.savedStates && Pop(q.currentPath) == p.currentPath;
      assert Top(q.currentPath) == p.currentObject.value;
    } else if p.state == BOF {
      assert Pop(q.savedStates) == p.savedStates;
    }
  }

  // ----- Arrays -----

  /** Whether a string or an object stands before a position. */
  predicate BodyAt(items: seq<Json>, i: nat)
    requires i <= |items|
  {
    exists j :: 0 <= j < i && !items[j].Array?
  }

  /** An item is fit for its array, and separated from the one before it. */
  ghost predicate ItemOk(items: seq<Json>, i: nat)
    requires i < |items|
  {
    Structured(items[i]) && (i > 0 ==> BodyAt(items, i) && !items[i].Array?)
  }

  lemma ArrayStructured(v: Json)
    requires v.Array?
    ensures Structured(v) <==> forall i :: 0 <= i < |v.items| ==> ItemOk(v.items, i)
  {
    var items := v.items;
    if Structured(v) {
      forall i | 0 <= i < |items| ensures ItemOk(items, i) {
        assert items[i] in items;
        if i > 0 {
          assert !items[0].Array?;
        }
      }
    }
    if forall i :: 0 <= i < |items| ==> ItemOk(items, i) {
      forall x | x in items ensures Structured(x) && (|items| > 1 ==> !x.Array?) {
        var i :| 0 <= i < |items| && items[i] == x;
        assert ItemOk(items, i);
        if |items| > 1 {
          assert ItemOk(items, 1);
        }
      }
    }
  }

  /** The parser after the first i items of an array. */
  function ArrayRead(p: Parser, v: Json, i: nat): Parser
    requires Awaits(p) && v.Array? && i <= |v.items|
  {
    Within(p, true, ArrayFrame(v.items[..i], StartContainer(p, true).currentObject.value.inside),
           if i == 0 then ARRAY else ARRAY_ITEM)
  }

  /** What a stretch of text makes of the parser: a state to go on from, or an error. */
  ghost predicate Leads(o: Options, p: Parser, text: seq<Byte>, ok: bool, q: Parser, rest: seq<Byte>)
    requires Inv(p) && (ok ==> Inv(q))
  {
    if ok then Run(o, p, text) == Run(o, q, rest) else Run(o, p, text).Err?
  }

  lemma TextBegins(v: Json)
    requires Printable(v)
    ensures Text(v)[0] == QUOTE || Text(v)[0] == OPEN_OBJECT || Text(v)[0] == OPEN_ARRAY
  {
  }

  lemma ArrayCloses(o: Options, p: Parser, v: Json, rest: seq<Byte>)
    requires Awaits(p) && v.Array? && Inv(ArrayRead(p, v, |v.items|))
    ensures Inv(Attached(o, p, v))
    ensures Run(o, ArrayRead(p, v, |v.items|), [CLOSE_ARRAY] + rest) == Run(o, Attached(o, p, v), rest)
  {
    var q := ArrayRead(p, v, |v.items|);
    var f := q.currentObject.value;
    assert Built(f) == v;
    ContainerAttached(o, p, true, f, q.state);
    CloseReads(o, q, rest);
    hide *;
  }

  /** The closing bracket or brace. */
  lemma CloseReads(o: Options, q: Parser, rest: seq<Byte>)
    requires Inv(q) && (q.state == ARRAY || q.state == ARRAY_ITEM || q.state == OBJECT || q.state == OBJECT_ITEM)
    ensures InContainer(q, []) && Inv(FinalContainer(o, q))
    ensures var c := if q.state == ARRAY || q.state == ARRAY_ITEM then CLOSE_ARRAY else CLOSE_OBJECT;
            Run(o, q, [c] + rest) == Run(o, FinalContainer(o, q), rest)
  {
    var c := if q.state == ARRAY || q.state == ARRAY_ITEM then CLOSE_ARRAY else CLOSE_OBJECT;
    assert Step(o, q, c) == More(FinalContainer(o, q));
    FinalInv(o, q);
    hide Run, Step, FinalContainer, Chain, SavedFor;
    RunOne(o, q, c, rest);
  }

  /** The separator before an item, where there is one. */
  lemma SeparatorReads(o: Options, q: Parser, comma: bool, rest: seq<Byte>)
    requires Inv(q) && (if comma then q.state == ARRAY_ITEM else q.state == ARRAY)
    ensures Awaits(q.(state := ARRAY))
    ensures Run(o, q, (if comma then [COMMA] else []) + rest) == Run(o, q.(state := ARRAY), rest)
  {
    if comma {
      RunOne(o, q, COMMA, rest);
    } else {
      assert [] + rest == rest;
    }
  }

  /** Nothing but a comma or the end of the array may follow an item. */
  lemma NoSeparator(o: Options, q: Parser, v: Json, rest: seq<Byte>)
    requires Inv(q) && q.state == ARRAY_ITEM && Printable(v)
    ensures Run(o, q, Text(v) + rest).Err?
  {
    hide *;
    TextBegins(v);
    var c := Text(v)[0];
    NoValueHere(o, q, c);
    assert Text(v) + rest == [c] + (Text(v)[1..] + rest);
    RunFails(o, q, c, Text(v)[1..] + rest);
  }

  lemma NoValueHere(o: Options, q: Parser, c: Byte)
    requires Inv(q) && q.state == ARRAY_ITEM && (c == QUOTE || c == OPEN_OBJECT || c == OPEN_ARRAY)
    ensures Step(o, q, c).Failed?
  {
  }

  lemma NextItem(o: Options, p: Parser, v: Json, i: nat)
    requires Awaits(p) && v.Array? && i < |v.items| && Awaits(ArrayRead(p, v, i).(state := ARRAY))
    ensures Attached(o, ArrayRead(p, v, i).(state := ARRAY), v.items[i]) == ArrayRead(p, v, i + 1)
  {
    var items, inside := v.items, StartContainer(p, true).currentObject.value.inside;
    hide StartContainer, Awaits;
    assert items[..i] + [items[i]] == items[..i + 1];
    assert AddItem(ArrayFrame(items[..i], inside), items[i]) == ArrayFrame(items[..i + 1], inside);
  }

  lemma ItemsTextSplit(v: Json, i: nat, rest: seq<Byte>)
    requires Printable(v) && v.Array? && i < |v.items|
    ensures ItemsText(v, i, BodyAt(v.items, i)) + rest
         == Separator(v.items[i], BodyAt(v.items, i))
            + (Text(v.items[i]) + (ItemsText(v, i + 1, BodyAt(v.items, i + 1)) + rest))
  {
    assert BodyAt(v.items, i + 1) == (BodyAt(v.items, i) || !v.items[i].Array?);
    hide Text, BodyAt;
  }

  /** One item with its separator. */
  lemma ItemReads(o: Options, p: Parser, v: Json, i: nat, more: seq<Byte>)
    requires Awaits(p) && Printable(v) && v.Array? && i < |v.items| && Inv(ArrayRead(p, Reread(v), i))
    ensures ItemOk(v.items, i) ==> Inv(ArrayRead(p, Reread(v), i + 1))
    ensures Leads(o, ArrayRead(p, Reread(v), i), Separator(v.items[i], BodyAt(v.items, i)) + (Text(v.items[i]) + more),
                  ItemOk(v.items, i), ArrayRead(p, Reread(v), i + 1), more)
    decreases v, 0, 0
  {
    var q, item := ArrayRead(p, Reread(v), i), v.items[i];
    assert Reread(v).items[i] == Reread(item);
    var comma := Separator(item, BodyAt(v.items, i)) != [];
    assert ItemOk(v.items, i) <==> Structured(item) && (comma || i == 0);
    assert comma ==> i > 0;
    hide Run, Text, Reread, BodyAt, Structured, Attached, Within, ItemOk;
    if i > 0 && !comma {
      assert [] + (Text(item) + more) == Text(item) + more;
      NoSeparator(o, q, item, more);
    } else {
      SeparatorReads(o, q, comma, Text(item) + more);
      ValueReads(o, q.(state := ARRAY), item, more);
      NextItem(o, p, Reread(v), i);
    }
  }

  lemma {:induction false} ItemsRead(o: Options, p: Parser, v: Json, i: nat, rest: seq<Byte>)
    requires Awaits(p) && Printable(v) && v.Array? && i <= |v.items| && Inv(ArrayRead(p, Reread(v), i))
    ensures (forall j :: i <= j < |v.items| ==> ItemOk(v.items, j)) ==> Inv(Attached(o, p, Reread(v)))
    ensures Leads(o, ArrayRead(p, Reread(v), i), ItemsText(v, i, BodyAt(v.items, i)) + ([CLOSE_ARRAY] + rest),
                  forall j :: i <= j < |v.items| ==> ItemOk(v.items, j), Attached(o, p, Reread(v)), rest)
    decreases v, 0, |v.items| - i
  {
    var items, close := v.items, [CLOSE_ARRAY] + rest;
    if i == |items| {
      hide Run, Attached, ArrayRead, Reread, Printable, ItemsText, BodyAt, ItemOk, Inv;
      ItemsEnd(v, BodyAt(items, i), close);
      ArrayCloses(o, p, Reread(v), rest);
    } else {
      ItemsTextSplit(v, i, close);
      ItemReads(o, p, v, i, ItemsText(v, i + 1, BodyAt(items, i + 1)) + close);
      hide *;
      OkFrom(items, i);
      if ItemOk(items, i) {
        ItemsRead(o, p, v, i + 1, rest);
      }
    }
  }

  lemma ItemsEnd(v: Json, body: bool, close: seq<Byte>)
    requires Printable(v) && v.Array?
    ensures ItemsText(v, |v.items|, body) + close == close
  {
  }

  lemma OkFrom(items: seq<Json>, i: nat)
    requires i < |items|
    ensures (forall j :: i <= j < |items| ==> ItemOk(items, j))
       <==> ItemOk(items, i) && (forall j :: i + 1 <= j < |items| ==> ItemOk(items, j))
  {
  }

  // ----- Objects -----

  function ObjectRead(p: Parser, v: Json, i: nat): Parser
    requires Awaits(p) && v.Object? && i <= |v.properties|
  {
    Within(p, false, ObjectFrame(v.properties[..i], StartContainer(p, false).currentObject.value.inside),
           if i == 0 then OBJECT else OBJECT_ITEM)
  }

  ghost predicate PropertyOk(p: Property) {
    p.value.Some? && Structured(p.value.value)
  }

  lemma ObjectCloses(o: Options, p: Parser, v: Json, rest: seq<Byte>)
    requires Awaits(p) && v.Object? && Inv(ObjectRead(p, v, |v.properties|))
    ensures Inv(Attached(o, p, v))
    ensures Run(o, ObjectRead(p, v, |v.properties|), [CLOSE_OBJECT] + rest) == Run(o, Attached(o, p, v), rest)
  {
    var q := ObjectRead(p, v, |v.properties|);
    var f := q.currentObject.value;
    assert Built(f) == v;
    ContainerAttached(o, p, false, f, q.state);
    CloseReads(o, q, rest);
    hide *;
  }

  lemma PropertyCommaReads(o: Options, q: Parser, comma: bool, rest: seq<Byte>)
    requires Inv(q) && (if comma then q.state == OBJECT_ITEM else q.state == OBJECT)
    ensures Inv(q.(state := OBJECT))
    ensures Run(o, q, (if comma then [COMMA] else []) + rest) == Run(o, q.(state := OBJECT), rest)
  {
    if comma {
      RunOne(o, q, COMMA, rest);
    } else {
      assert [] + rest == rest;
    }
  }

  /** The state in which the value of a property is awaited. */
  function Named(q: Parser, name: seq<Byte>): Parser
    requires Inv(q) && q.state == OBJECT
  {
    q.(state := PROPERTY_VALUE, savedStates := q.savedStates + [OBJECT_ITEM],
       currentPath := q.currentPath + [q.currentObject.value], currentObject := Some(PropertyFrame(name)))
  }

  /** The name of a property and the colon. */
  lemma NameReads(o: Options, q: Parser, name: seq<Byte>, rest: seq<Byte>)
    requires Inv(q) && q.state == OBJECT && WellFormed(name)
    ensures Awaits(Named(q, Mangled(name)))
    ensures Run(o, q, Quoted(name) + ([COLON] + rest)) == Run(o, Named(q, Mangled(name)), rest)
  {
    var inner := Escapes(Points(name)) + [QUOTE] + ([COLON] + rest);
    assert Quoted(name) + ([COLON] + rest) == [QUOTE] + inner;
    RunOne(o, q, QUOTE, inner);
    StringReads(o, Step(o, q, QUOTE).next, name, [COLON] + rest);
    NameAttached(o, q, Mangled(name));
    var before := Named(q, Mangled(name)).(state := PROPERTY_NAME);
    assert Step(o, before, COLON) == More(Named(q, Mangled(name)));
    hide Run, Step, Named, Mangled, Quoted, Inv, EndString;
    RunOne(o, before, COLON, rest);
  }

  /** From the opening to the closing quote: the string is the name of a property. */
  lemma NameAttached(o: Options, q: Parser, name: seq<Byte>)
    requires Inv(q) && q.state == OBJECT
    ensures Step(o, q, QUOTE).More? && Step(o, q, QUOTE).next.buffer == [] && Step(o, q, QUOTE).next.state == STRING
    ensures var q1 := Step(o, q, QUOTE).next.(buffer := name);
            Inv(q1) && EndString(q1) == Named(q, name).(state := PROPERTY_NAME)
    ensures Inv(Named(q, name).(state := PROPERTY_NAME)) && Awaits(Named(q, name))
  {
    StepGood(o, q, QUOTE);
    var q1 := Step(o, q, QUOTE).next.(buffer := name);
    SavedTells(q1);
    EndStringInv(q1);
    assert Pop(q1.savedStates) == q.savedStates + [OBJECT_ITEM];
    assert EndString(q1) == StartProperty(q1);
  }

  lemma NullFails(o: Options, p: Parser, rest: seq<Byte>)
    requires Inv(p) && p.state == PROPERTY_VALUE
    ensures Run(o, p, NullText() + rest).Err?
  {
    assert NullText() + rest == [0x6E] + ([0x75, 0x6C, 0x6C] + rest);
    RunFails(o, p, 0x6E, [0x75, 0x6C, 0x6C] + rest);
  }

  lemma NextProperty(o: Options, p: Parser, v: Json, i: nat)
    requires Awaits(p) && v.Object? && i < |v.properties| && v.properties[i].value.Some?
    requires Inv(ObjectRead(p, v, i).(state := OBJECT))
    ensures var q := Named(ObjectRead(p, v, i).(state := OBJECT), v.properties[i].name);
            Awaits(q) ==> Attached(o, q, v.properties[i].value.value) == ObjectRead(p, v, i + 1)
  {
    hide Inv, Awaits, StartContainer, Pop, Top;
    var all := v.properties;
    assert all[..i] + [all[i]] == all[..i + 1];
    var s := ObjectRead(p, v, i).(state := OBJECT);
    PushPop(s.savedStates, OBJECT_ITEM);
    PushPop(s.currentPath, s.currentObject.value);
  }

  lemma PushPop<T>(s: seq<T>, x: T)
    ensures Pop(s + [x]) == s && Top(s + [x]) == x
  {
  }

  lemma PropertiesTextSplit(v: Json, i: nat, rest: seq<Byte>)
    requires Printable(v) && v.Object? && i < |v.properties|
    ensures WellFormed(v.properties[i].name)
    ensures v.properties[i].value.Some? ==> Printable(v.properties[i].value.value)
    ensures PropertiesText(v, i) + rest
         == (if i > 0 then [COMMA] else [])
            + (Quoted(v.properties[i].name) + ([COLON]
            + ((if v.properties[i].value.Some? then Text(v.properties[i].value.value) else NullText())
            + (PropertiesText(v, i + 1) + rest))))
  {
    assert v.properties[i] in v.properties;
    var comma, property := if i > 0 then [COMMA] else [], PropertyText(v, i);
    var name := Quoted(v.properties[i].name);
    var value := if v.properties[i].value.Some? then Text(v.properties[i].value.value) else NullText();
    assert PropertiesText(v, i) == comma + property + PropertiesText(v, i + 1);
    assert property == name + [COLON] + value;
    hide *;
    Regrouped(comma, name, value, PropertiesText(v, i + 1), rest);
  }

  lemma Regrouped(comma: seq<Byte>, name: seq<Byte>, value: seq<Byte>, more: seq<Byte>, rest: seq<Byte>)
    ensures comma + (name + [COLON] + value) + more + rest == comma + (name + ([COLON] + (value + (more + rest))))
  {
    assert name + [COLON] + value + (more + rest) == name + ([COLON] + (value + (more + rest)));
  }

  lemma PropertiesEnd(v: Json, close: seq<Byte>)
    requires Printable(v) && v.Object?
    ensures PropertiesText(v, |v.properties|) + close == close
  {
  }

  /** One property with the comma before it. */
  lemma PropertyReads(o: Options, p: Parser, v: Json, i: nat, more: seq<Byte>)
    requires Awaits(p) && Printable(v) && v.Object? && i < |v.properties| && Inv(ObjectRead(p, Reread(v), i))
    requires WellFormed(v.properties[i].name)
    requires v.properties[i].value.Some? ==> Printable(v.properties[i].value.value)
    ensures PropertyOk(v.properties[i]) ==> Inv(ObjectRead(p, Reread(v), i + 1))
    ensures Leads(o, ObjectRead(p, Reread(v), i),
                  (if i > 0 then [COMMA] else []) + (Quoted(v.properties[i].name) + ([COLON]
                  + ((if v.properties[i].value.Some? then Text(v.properties[i].value.value) else NullText()) + more))),
                  PropertyOk(v.properties[i]), ObjectRead(p, Reread(v), i + 1), more)
    decreases v, 0, 0
  {
    var q, x := ObjectRead(p, Reread(v), i), v.properties[i];
    assert x in v.properties && Reread(v).properties[i] == RereadProperty(v, i);
    var valueText := if x.value.Some? then Text(x.value.value) else NullText();
    hide Run, Text, Quoted, NullText, Reread, Structured, Attached, Within, Mangled;
    PropertyCommaReads(o, q, i > 0, Quoted(x.name) + ([COLON] + (valueText + more)));
    NameReads(o, q.(state := OBJECT), x.name, valueText + more);
    var q2 := Named(q.(state := OBJECT), Mangled(x.name));
    assert q2.state == PROPERTY_VALUE;
    hide Named;
    if x.value.None? {
      NullFails(o, q2, more);
    } else {
      ValueReads(o, q2, x.value.value, more);
      NextProperty(o, p, Reread(v), i);
    }
  }

  lemma {:induction false} PropertiesRead(o: Options, p: Parser, v: Json, i: nat, rest: seq<Byte>)
    requires Awaits(p) && Printable(v) && v.Object? && i <= |v.properties| && Inv(ObjectRead(p, Reread(v), i))
    ensures (forall j :: i <= j < |v.properties| ==> PropertyOk(v.properties[j])) ==> Inv(Attached(o, p, Reread(v)))
    ensures Leads(o, ObjectRead(p, Reread(v), i), PropertiesText(v, i) + ([CLOSE_OBJECT] + rest),
                  forall j :: i <= j < |v.properties| ==> PropertyOk(v.properties[j]), Attached(o, p, Reread(v)), rest)
    decreases v, 0, |v.properties| - i
  {
    var properties, close := v.properties, [CLOSE_OBJECT] + rest;
    if i == |properties| {
      hide Run, Attached, ObjectRead, Reread, Printable, PropertiesText, PropertyOk, Inv;
      PropertiesEnd(v, close);
      ObjectCloses(o, p, Reread(v), rest);
    } else {
      PropertiesTextSplit(v, i, close);
      hide Run, Text, PropertiesText, Quoted, NullText, Reread, Attached, ObjectRead, PropertyOk;
      PropertyReads(o, p, v, i, PropertiesText(v, i + 1) + close);
      if PropertyOk(properties[i]) {
        PropertiesRead(o, p, v, i + 1, rest);
        assert (forall j :: i <= j < |properties| ==> PropertyOk(properties[j]))
          <==> (forall j :: i + 1 <= j < |properties| ==> PropertyOk(properties[j]));
      }
    }
  }

  // ----- Values -----

  lemma {:induction false} ValueReads(o: Options, p: Parser, v: Json, rest: seq<Byte>)
    requires Awaits(p) && Printable(v) && (p.state == BOF ==> !v.Primitive?)
    ensures Structured(v) ==> Inv(Attached(o, p, Reread(v)))
    ensures Leads(o, p, Text(v) + rest, Structured(v), Attached(o, p, Reread(v)), rest)
    decreases v, 1, 0
  {
    match v
    case Primitive(value, _) => PrimitiveReads(o, p, value, rest);
    case Object(properties) => ObjectReads(o, p, v, rest);
    case Array(items) => ArrayReads(o, p, v, rest);
  }

  lemma ObjectReads(o: Options, p: Parser, v: Json, rest: seq<Byte>)
    requires Awaits(p) && Printable(v) && v.Object?
    ensures Structured(v) ==> Inv(Attached(o, p, Reread(v)))
    ensures Leads(o, p, Text(v) + rest, Structured(v), Attached(o, p, Reread(v)), rest)
    decreases v, 0, |v.properties| + 1
  {
    var more := PropertiesText(v, 0) + ([CLOSE_OBJECT] + rest);
    assert Text(v) + rest == [OPEN_OBJECT] + more;
    RunOne(o, p, OPEN_OBJECT, more);
    assert Step(o, p, OPEN_OBJECT).next == ObjectRead(p, Reread(v), 0);
    hide Run, Text, PropertiesText, Reread, Attached, Step, Within, StartContainer;
    PropertiesRead(o, p, v, 0, rest);
    assert Structured(v) <==> forall j :: 0 <= j < |v.properties| ==> PropertyOk(v.properties[j]);
  }

  lemma ArrayReads(o: Options, p: Parser, v: Json, rest: seq<Byte>)
    requires Awaits(p) && Printable(v) && v.Array?
    ensures Structured(v) ==> Inv(Attached(o, p, Reread(v)))
    ensures Leads(o, p, Text(v) + rest, Structured(v), Attached(o, p, Reread(v)), rest)
    decreases v, 0, |v.items| + 1
  {
    var more := ItemsText(v, 0, false) + ([CLOSE_ARRAY] + rest);
    assert Text(v) + rest == [OPEN_ARRAY] + more;
    RunOne(o, p, OPEN_ARRAY, more);
    assert Step(o, p, OPEN_ARRAY).next == ArrayRead(p, Reread(v), 0);
    hide Run, Text, ItemsText, Reread, Attached, Step, Within, StartContainer;
    ItemsRead(o, p, v, 0, rest);
    ArrayStructured(v);
  }

  // ----- The round trip -----

  /** The parser reads the writer's text of an object or array, or fails where the two disagree. */
  lemma ParseOfText(v: Json)
    requires Printable(v) && !v.Primitive?
    ensures Structured(v) ==> Parse(Text(v)) == Ok(Reread(v))
    ensures !Structured(v) ==> Parse(Text(v)).Err?
  {
    ValueReads(DefaultOptions, Start, v, []);
    assert Text(v) + [] == Text(v);
    hide Text, Reread, Step;
  }

  /**
    The tree comes back, with the order and the repetitions of its properties, if and only if
    no value is null, an array stands in an array only as its single item, every primitive is
    a string, and every string is made of characters below 0x800 in their shortest form.
   */
  lemma RoundTripIff(v: Json)
    requires Printable(v) && !v.Primitive?
    ensures Parse(Text(v)) == Ok(v) <==> Structured(v) && Plain(v)
  {
    ParseOfText(v);
    RereadSame(v);
  }
}
