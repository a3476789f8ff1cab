/**
  JSON trees of kernel/vds_parser/json_object.h and the text that json_value::str makes of them
  through kernel/vds_parser/json_writer.cpp.
 */
module JsonTree {
  import opened Bytes
  import opened Utf8
  import opened Wrappers

  datatype Json =
    | Primitive(value: seq<Byte>, isInteger: bool)
    | Object(properties: seq<Property>)
    | Array(items: seq<Json>)

  /** A property may have no value. */
  datatype Property = Property(name: seq<Byte>, value: Option<Json>)

  const QUOTE: Byte := 0x22
  const BACKSLASH: Byte := 0x5C
  const COMMA: Byte := 0x2C
  const COLON: Byte := 0x3A
  const SLASH: Byte := 0x2F
  const OPEN_OBJECT: Byte := 0x7B
  const CLOSE_OBJECT: Byte := 0x7D
  const OPEN_ARRAY: Byte := 0x5B
  const CLOSE_ARRAY: Byte := 0x5D
  const NEWLINE: Byte := 0x0A
  const LETTER_U: Byte := 0x75

  // ----- Strings (section 7 of RFC 8259) -----

  function HexDigit(d: nat): Byte
    requires d < 16
  {
    if d < 10 then 0x30 + d else 0x61 + (d - 10)
  }

  /** The character after a backslash, for the characters that have a short escape. */
  function ShortEscape(ch: nat): Option<Byte> {
    match ch
    case 0x5C => Some(BACKSLASH)
    case 0x22 => Some(QUOTE)
    case 0x0A => Some(0x6E)
    case 0x0D => Some(0x72)
    case 0x08 => Some(0x62)
    case 0x09 => Some(0x74)
    case 0x0C => Some(0x66)
    case _ => None
  }

  function LongEscape(unit: nat): seq<Byte>
    requires unit < 0x1_0000
  {
    [BACKSLASH, LETTER_U, HexDigit(unit / 0x1000), HexDigit(unit / 0x100 % 0x10),
     HexDigit(unit / 0x10 % 0x10), HexDigit(unit % 0x10)]
  }

  function Escape(ch: nat): (s: seq<Byte>)
    ensures |s| > 0
  {
    if ShortEscape(ch).Some? then [BACKSLASH, ShortEscape(ch).value]
    else if 0x20 <= ch < 0x7F then [ch]
    else LongEscape(ch % 0x1_0000)
  }

  function Escapes(points: seq<nat>): seq<Byte> {
    if |points| == 0 then [] else Escape(points[0]) + Escapes(points[1..])
  }

  function Quoted(s: seq<Byte>): seq<Byte>
    requires WellFormed(s)
  {
    [QUOTE] + Escapes(Points(s)) + [QUOTE]
  }

  predicate IsPrintableAscii(s: seq<Byte>) {
    forall i :: 0 <= i < |s| ==> 0x20 <= s[i] < 0x7F
  }

  /** No control character and no byte above 0x7E is written, whatever the string holds. */
  lemma {:induction false} EscapesAreAscii(points: seq<nat>)
    ensures IsPrintableAscii(Escapes(points))
  {
    if |points| > 0 {
      EscapesAreAscii(points[1..]);
      EscapeIsAscii(points[0]);
    }
  }

  lemma EscapeIsAscii(ch: nat)
    ensures IsPrintableAscii(Escape(ch))
  {
  }

  // ----- Trees -----

  /** All strings are well-formed UTF-8. */
  ghost predicate Printable(v: Json)
    decreases v
  {
    match v
    case Primitive(value, _) => WellFormed(value)
    case Object(properties) =>
      forall p :: p in properties ==> WellFormed(p.name) && (p.value.Some? ==> Printable(p.value.value))
    case Array(items) => forall x :: x in items ==> Printable(x)
  }

  /** What the writer puts before an item; arrays are written without a comma and do not count as items. */
  function Separator(item: Json, body: bool): seq<Byte> {
    if body && !item.Array? then [COMMA] else []
  }

  function Text(v: Json): (s: seq<Byte>)
    requires Printable(v)
    ensures |s| > 0
    decreases v, 1, 0
  {
    match v
    case Primitive(value, _) => Quoted(value)
    case Object(properties) => [OPEN_OBJECT] + PropertiesText(v, 0) + [CLOSE_OBJECT]
    case Array(items) => [OPEN_ARRAY] + ItemsText(v, 0, false) + [CLOSE_ARRAY]
  }

  /** The items of an array from a position on; body tells whether a string or an object came before. */
  function ItemsText(v: Json, i: nat, body: bool): seq<Byte>
    requires Printable(v) && v.Array? && i <= |v.items|
    decreases v, 0, |v.items| - i
  {
    if i == |v.items| then []
    else Separator(v.items[i], body) + Text(v.items[i]) + ItemsText(v, i + 1, body || !v.items[i].Array?)
  }

  function NullText(): seq<Byte> {
    [0x6E, 0x75, 0x6C, 0x6C]
  }

  function PropertyText(v: Json, i: nat): seq<Byte>
    requires Printable(v) && v.Object? && i < |v.properties|
    decreases v, 0, 0
  {
    var p := v.properties[i];
    Quoted(p.name) + [COLON] + if p.value.Some? then Text(p.value.value) else NullText()
  }

  function PropertiesText(v: Json, i: nat): seq<Byte>
    requires Printable(v) && v.Object? && i <= |v.properties|
    decreases v, 0, |v.properties| - i + 1
  {
    if i == |v.properties| then []
    else (if i > 0 then [COMMA] else []) + PropertyText(v, i) + PropertiesText(v, i + 1)
  }

  // ----- What the text can be parsed into -----

  /** No null value, and an array stands in an array only as its single item. */
  ghost predicate Structured(v: Json)
    decreases v
  {
    match v
    case Primitive(_, _) => true
    case Object(properties) => forall p :: p in properties ==> p.value.Some? && Structured(p.value.value)
    case Array(items) =>
      && (forall x :: x in items ==> Structured(x))
      && (|items| > 1 ==> forall x :: x in items ==> !x.Array?)
  }

  /** The tree with every string as next_char and add leave it, and every primitive a string. */
  function Reread(v: Json): Json
    requires Printable(v)
    decreases v
  {
    match v
    case Primitive(value, _) => Primitive(Mangled(value), false)
    case Object(properties) =>
      Object(seq(|properties|, i requires 0 <= i < |properties| => RereadProperty(v, i)))
    case Array(items) =>
      Array(seq(|items|, i requires 0 <= i < |items| => Reread(items[i])))
  }

  function RereadProperty(v: Json, i: nat): Property
    requires Printable(v) && v.Object? && i < |v.properties|
    decreases v, 0
  {
    var p := v.properties[i];
    Property(Mangled(p.name), if p.value.Some? then Some(Reread(p.value.value)) else None)
  }

  /** All strings are made of characters below 0x800 in their shortest form, and no primitive is an integer. */
  ghost predicate Plain(v: Json)
    decreases v
  {
    match v
    case Primitive(value, isInteger) => Canonical(value) && !isInteger
    case Object(properties) =>
      forall p :: p in properties ==> Canonical(p.name) && (p.value.Some? ==> Plain(p.value.value))
    case Array(items) => forall x :: x in items ==> Plain(x)
  }

  lemma {:induction false} RereadSame(v: Json)
    requires Printable(v)
    ensures Reread(v) == v <==> Plain(v)
    decreases v
  {
    match v
    case Primitive(value, _) => MangledSame(value);
    case Object(properties) =>
      forall i | 0 <= i < |properties| ensures RereadProperty(v, i) == properties[i] <==>
          Canonical(properties[i].name) && (properties[i].value.Some? ==> Plain(properties[i].value.value))
      {
        MangledSame(properties[i].name);
        if properties[i].value.Some? {
          RereadSame(properties[i].value.value);
        }
      }
      ObjectSame(v);
    case Array(items) =>
      forall i | 0 <= i < |items| ensures Reread(items[i]) == items[i] <==> Plain(items[i]) {
        RereadSame(items[i]);
      }
      ArraySame(v);
  }

  lemma ObjectSame(v: Json)
    requires Printable(v) && v.Object?
    ensures Reread(v) == v <==> forall i :: 0 <= i < |v.properties| ==> RereadProperty(v, i) == v.properties[i]
  {
    if forall i :: 0 <= i < |v.properties| ==> RereadProperty(v, i) == v.properties[i] {
      assert Reread(v).properties == v.properties;
    }
    if Reread(v) == v {
      assert forall i :: 0 <= i < |v.properties| ==> Reread(v).properties[i] == RereadProperty(v, i);
    }
  }

  lemma ArraySame(v: Json)
    requires Printable(v) && v.Array?
    ensures Reread(v) == v <==> forall i :: 0 <= i < |v.items| ==> Reread(v.items[i]) == v.items[i]
  {
    if forall i :: 0 <= i < |v.items| ==> Reread(v.items[i]) == v.items[i] {
      assert Reread(v).items == v.items;
    }
    if Reread(v) == v {
      assert forall i :: 0 <= i < |v.items| ==> Reread(v).items[i] == Reread(v.items[i]);
    }
  }

  lemma {:induction false} PlainPrintable(v: Json)
    requires Plain(v)
    ensures Printable(v)
    decreases v
  {
    match v
    case Primitive(value, _) => CanonicalWellFormed(value);
    case Object(properties) =>
      forall p | p in properties
        ensures WellFormed(p.name) && (p.value.Some? ==> Printable(p.value.value))
      {
        CanonicalWellFormed(p.name);
        if p.value.Some? {
          PlainPrintable(p.value.value);
        }
      }
    case Array(items) =>
      forall x | x in items ensures Printable(x) {
        PlainPrintable(x);
      }
  }
}
