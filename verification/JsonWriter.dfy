/**
  The class json_writer of kernel/vds_parser/json_writer.cpp and the tree walk of
  kernel/vds_parser/json_object.cpp that drives it.
 */
module JsonWriter {
  import opened Bytes
  import opened Utf8
  import opened JsonTree
  import opened Wrappers

  datatype WriterState =
    | BOF
    | START_OBJECT
    | OBJECT_BODY
    | PROPERTY
    | PROPERTY_END
    | START_ARRAY
    | ARRAY_BODY

  /** The states in which a value may be written. */
  predicate TakesValue(s: WriterState, v: Json) {
    s == PROPERTY || s == START_ARRAY || s == ARRAY_BODY || (s == BOF && !v.Primitive?)
  }

  /** The state after a value. */
  function AfterValue(s: WriterState, v: Json): WriterState {
    if s == PROPERTY then PROPERTY_END
    else if s == BOF then if v.Array? then PROPERTY_END else ARRAY_BODY
    else if v.Array? then s
    else ARRAY_BODY
  }

  class Writer {
    var stream: seq<Byte>
    var state: WriterState
    var statePath: seq<WriterState>

    constructor ()
      ensures stream == [] && state == BOF && statePath == []
    {
      stream, state, statePath := [], BOF, [];
    }

    /** write_string: every character is decoded, escaped and written. */
    method WriteString(value: seq<Byte>) returns (r: Result<()>)
      modifies this`stream
      ensures r.Ok? <==> WellFormed(value)
      ensures r.Ok? ==> stream == old(stream) + Quoted(value)
    {
      stream := stream + [QUOTE];
      r := WriteCharacters(value);
      stream := stream + [QUOTE];
    }

    method WriteCharacters(value: seq<Byte>) returns (r: Result<()>)
      modifies this`stream
      ensures r.Ok? <==> WellFormed(value)
      ensures r.Ok? ==> stream == old(stream) + Escapes(Points(value))
    {
      hide *;
      NothingEscaped();
      var left := value;
      ghost var done := [];
      while 0 < |left|
        invariant WellFormed(left) <==> WellFormed(value)
        invariant stream == old(stream) + done
        invariant WellFormed(value) ==> done + Escapes(Points(left)) == Escapes(Points(value))
        decreases |left|
      {
        LeftStep(left);
        if CharSize(left) == 0 {
          return Err("Invalid UTF8 string");
        }
        var ch := NextChar(left);
        if WellFormed(value) {
          EscapesStep(done, left);
        }
        var text := EscapeText(ch);
        stream := stream + text;
        done := done + text;
        left := left[CharSize(left)..];
      }
      assert left == [] && done + [] == done;
      r := Ok(());
    }

    /** The switch over one character. */
    static method EscapeText(ch: nat) returns (s: seq<Byte>)
      ensures s == Escape(ch)
    {
      var short := ShortEscape(ch);
      if short.Some? {
        s := [BACKSLASH, short.value];
      } else if 0x20 <= ch < 0x7F {
        s := [ch];
      } else {
        s := LongEscape(ch % 0x1_0000);
      }
    }

    /** write_string_value. */
    method WriteStringValue(value: seq<Byte>) returns (r: Result<()>)
      modifies this
      ensures r.Ok? <==> TakesValue(old(state), Primitive(value, false)) && WellFormed(value)
      ensures r.Ok? ==>
        && stream == old(stream) + Separator(Primitive(value, false), old(state) == ARRAY_BODY) + Quoted(value)
        && state == AfterValue(old(state), Primitive(value, false)) && statePath == old(statePath)
    {
      match state {
        case PROPERTY => state := PROPERTY_END;
        case START_ARRAY => state := ARRAY_BODY;
        case ARRAY_BODY => stream := stream + [COMMA];
        case _ => return Err("Invalid json_writer state");
      }
      r := WriteString(value);
    }

    /** write_null_value, for a property without a value. */
    method WriteNullValue() returns (r: Result<()>)
      modifies this
      ensures r.Ok? <==> old(state) == PROPERTY || old(state) == ARRAY_BODY
      ensures old(state) == PROPERTY ==>
        stream == old(stream) + NullText() && state == PROPERTY_END && statePath == old(statePath)
    {
      match state {
        case PROPERTY => state := PROPERTY_END;
        case ARRAY_BODY => stream := stream + [COMMA];
        case _ => return Err("Invalid json_writer state");
      }
      stream := stream + NullText();
      r := Ok(());
    }

    /** start_property. */
    method StartProperty(name: seq<Byte>) returns (r: Result<()>)
      modifies this
      ensures r.Ok? <==> (old(state) == START_OBJECT || old(state) == OBJECT_BODY) && WellFormed(name)
      ensures r.Ok? ==>
        && stream == old(stream) + (if old(state) == OBJECT_BODY then [COMMA] else []) + Quoted(name) + [COLON]
        && state == PROPERTY && statePath == old(statePath) + [OBJECT_BODY]
    {
      match state {
        case START_OBJECT => state := OBJECT_BODY;
        case OBJECT_BODY => stream := stream + [COMMA];
        case _ => return Err("Invalid json_writer state");
      }
      statePath := statePath + [state];
      state := PROPERTY;
      r := WriteString(name);
      if r.Ok? {
        stream := stream + [COLON];
      }
    }

    /** end_property. */
    method EndProperty() returns (r: Result<()>)
      requires state == PROPERTY_END ==> |statePath| > 0
      modifies this
      ensures r.Ok? <==> old(state) == PROPERTY_END
      ensures r.Ok? ==>
        && stream == old(stream)
        && statePath == old(statePath)[..|old(statePath)| - 1]
        && state == old(statePath)[|old(statePath)| - 1]
    {
      if state != PROPERTY_END {
        return Err("Invalid json_writer state");
      }
      state := statePath[|statePath| - 1];
      statePath := statePath[..|statePath| - 1];
      r := Ok(());
    }

    /** start_object. */
    method StartObject() returns (r: Result<()>)
      modifies this
      ensures r.Ok? <==> TakesValue(old(state), Object([]))
      ensures r.Ok? ==>
        && stream == old(stream) + Separator(Object([]), old(state) == ARRAY_BODY) + [OPEN_OBJECT]
        && state == START_OBJECT && statePath == old(statePath) + [AfterValue(old(state), Object([]))]
    {
      match state {
        case BOF => statePath := statePath + [ARRAY_BODY];
        case START_ARRAY => statePath := statePath + [ARRAY_BODY];
        case ARRAY_BODY =>
          stream := stream + [COMMA];
          statePath := statePath + [ARRAY_BODY];
        case PROPERTY => statePath := statePath + [PROPERTY_END];
        case _ => return Err("Invalid json_writer state");
      }
      state := START_OBJECT;
      stream := stream + [OPEN_OBJECT];
      r := Ok(());
    }

    /** end_object. */
    method EndObject() returns (r: Result<()>)
      requires state == START_OBJECT || state == OBJECT_BODY ==> |statePath| > 0
      modifies this
      ensures r.Ok? <==> old(state) == START_OBJECT || old(state) == OBJECT_BODY
      ensures r.Ok? ==>
        && stream == old(stream) + [CLOSE_OBJECT]
        && statePath == old(statePath)[..|old(statePath)| - 1]
        && state == old(statePath)[|old(statePath)| - 1]
    {
      if state != START_OBJECT && state != OBJECT_BODY {
        return Err("Invalid json_writer state");
      }
      state := statePath[|statePath| - 1];
      statePath := statePath[..|statePath| - 1];
      stream := stream + [CLOSE_OBJECT];
      r := Ok(());
    }

    /** start_array: no comma is written, and the state of an outer array is kept. */
    method StartArray() returns (r: Result<()>)
      modifies this
      ensures r.Ok? <==> TakesValue(old(state), Array([]))
      ensures r.Ok? ==>
        && stream == old(stream) + Separator(Array([]), old(state) == ARRAY_BODY) + [OPEN_ARRAY]
        && state == START_ARRAY && statePath == old(statePath) + [AfterValue(old(state), Array([]))]
    {
      match state {
        case BOF => statePath := statePath + [PROPERTY_END];
        case PROPERTY => statePath := statePath + [PROPERTY_END];
        case START_ARRAY => statePath := statePath + [state];
        case ARRAY_BODY => statePath := statePath + [state];
        case _ => return Err("Invalid json_writer state");
      }
      state := START_ARRAY;
      stream := stream + [OPEN_ARRAY];
      r := Ok(());
    }

    /** end_array. */
    method EndArray() returns (r: Result<()>)
      requires state == START_ARRAY || state == ARRAY_BODY ==> |statePath| > 0
      modifies this
      ensures r.Ok? <==> old(state) == START_ARRAY || old(state) == ARRAY_BODY
      ensures r.Ok? ==>
        && stream == old(stream) + [CLOSE_ARRAY]
        && statePath == old(statePath)[..|old(statePath)| - 1]
        && state == old(statePath)[|old(statePath)| - 1]
    {
      if state != START_ARRAY && state != ARRAY_BODY {
        return Err("Invalid json_writer state");
      }
      state := statePath[|statePath| - 1];
      statePath := statePath[..|statePath| - 1];
      stream := stream + [CLOSE_ARRAY];
      r := Ok(());
    }
  }

  lemma NothingEscaped()
    ensures WellFormed([]) && Escapes(Points([])) == []
  {
  }

  lemma LeftStep(left: seq<Byte>)
    requires |left| > 0
    ensures WellFormed(left) <==> CharSize(left) > 0 && WellFormed(left[CharSize(left)..])
  {
  }

  lemma EscapesStep(stream: seq<Byte>, left: seq<Byte>)
    requires |left| > 0 && WellFormed(left)
    ensures WellFormed(left[CharSize(left)..])
    ensures stream + Escapes(Points(left)) == stream + Escape(NextChar(left)) + Escapes(Points(left[CharSize(left)..]))
  {
    assert Points(left)[1..] == Points(left[CharSize(left)..]);
  }

  // ----- The tree walk -----

  /** What json_value::str does to a writer that takes the value. */
  ghost predicate Wrote(stream: seq<Byte>, state: WriterState, path: seq<WriterState>, w: Writer, v: Json, ok: bool)
    reads w
  {
    && (ok <==> Printable(v))
    && (ok ==>
          && w.stream == stream + Separator(v, state == ARRAY_BODY) + Text(v)
          && w.state == AfterValue(state, v) && w.statePath == path)
  }

  /** str of a primitive, an object or an array. */
  method WriteValue(w: Writer, v: Json) returns (r: Result<()>)
    requires TakesValue(w.state, v)
    modifies w
    ensures Wrote(old(w.stream), old(w.state), old(w.statePath), w, v, r.Ok?)
    decreases v, 3
  {
    match v {
      case Primitive(value, _) =>
        r := w.WriteStringValue(value);
      case Object(properties) =>
        r := WriteObject(w, v);
      case Array(items) =>
        r := WriteArray(w, v);
    }
  }

  /** json_object::str. */
  method WriteObject(w: Writer, v: Json) returns (r: Result<()>)
    requires TakesValue(w.state, v) && v.Object?
    modifies w
    ensures Wrote(old(w.stream), old(w.state), old(w.statePath), w, v, r.Ok?)
    decreases v, 2
  {
    hide Text, PropertiesText, PropertyText, Quoted;
    r := w.StartObject();
    ghost var head := w.stream;
    assert w.statePath[..|w.statePath| - 1] == old(w.statePath);
    r := WriteProperties(w, v);
    PropertiesPrintable(v);
    if r.Err? {
      return;
    }
    r := w.EndObject();
    ObjectText(v);
  }

  lemma ObjectText(v: Json)
    requires Printable(v) && v.Object?
    ensures Text(v) == [OPEN_OBJECT] + PropertiesText(v, 0) + [CLOSE_OBJECT]
  {
  }

  lemma PropertiesPrintable(v: Json)
    requires v.Object?
    ensures Printable(v) <==> forall i :: 0 <= i < |v.properties| ==> PropertyPrintable(v.properties[i])
  {
    if forall i :: 0 <= i < |v.properties| ==> PropertyPrintable(v.properties[i]) {
      assert forall p :: p in v.properties ==> PropertyPrintable(p);
    }
    if Printable(v) {
      assert forall i :: 0 <= i < |v.properties| ==> v.properties[i] in v.properties;
    }
  }

  /** The loop over the properties. */
  method WriteProperties(w: Writer, v: Json) returns (r: Result<()>)
    requires w.state == START_OBJECT && v.Object?
    modifies w
    ensures r.Ok? <==> Printable(v)
    ensures r.Ok? ==> w.stream == old(w.stream) + PropertiesText(v, 0) && w.statePath == old(w.statePath)
    ensures r.Ok? ==> w.state == START_OBJECT || w.state == OBJECT_BODY
    decreases v, 1
  {
    hide *;
    PropertiesPrintable(v);
    for i := 0 to |v.properties|
      invariant w.statePath == old(w.statePath) && w.state == (if i == 0 then START_OBJECT else OBJECT_BODY)
      invariant forall j :: 0 <= j < i ==> PropertyPrintable(v.properties[j])
      invariant Printable(v) ==> w.stream + PropertiesText(v, i) == old(w.stream) + PropertiesText(v, 0)
    {
      if Printable(v) {
        PropertiesStep(v, i, w.stream);
      }
      r := WriteProperty(w, v, i);
      if r.Err? {
        return;
      }
    }
    NoProperties(v);
    assert w.stream + [] == w.stream;
    r := Ok(());
  }

  lemma NoProperties(v: Json)
    requires v.Object?
    ensures Printable(v) ==> PropertiesText(v, |v.properties|) == []
  {
  }

  ghost predicate PropertyPrintable(p: Property) {
    WellFormed(p.name) && (p.value.Some? ==> Printable(p.value.value))
  }

  lemma PropertiesStep(v: Json, i: nat, before: seq<Byte>)
    requires Printable(v) && v.Object? && i < |v.properties|
    ensures before + PropertiesText(v, i)
         == before + (if i > 0 then [COMMA] else []) + PropertyText(v, i) + PropertiesText(v, i + 1)
  {
  }

  /** json_property::str. */
  method WriteProperty(w: Writer, v: Json, i: nat) returns (r: Result<()>)
    requires v.Object? && i < |v.properties|
    requires w.state == if i == 0 then START_OBJECT else OBJECT_BODY
    modifies w
    ensures r.Ok? <==> PropertyPrintable(v.properties[i])
    ensures r.Ok? ==> w.state == OBJECT_BODY && w.statePath == old(w.statePath)
    ensures r.Ok? && Printable(v) ==>
      w.stream == old(w.stream) + (if i > 0 then [COMMA] else []) + PropertyText(v, i)
    decreases v, 0
  {
    hide Text, Quoted, Printable, NullText, PropertyText, WellFormed;
    var p := v.properties[i];
    r := w.StartProperty(p.name);
    if r.Err? {
      return;
    }
    ghost var named := w.stream;
    assert w.statePath[..|w.statePath| - 1] == old(w.statePath);
    if p.value.None? {
      r := w.WriteNullValue();
    } else {
      r := WriteValue(w, p.value.value);
      assert named + [] == named;
    }
    if r.Err? {
      return;
    }
    if Printable(v) {
      PropertySplit(v, i, old(w.stream) + if i > 0 then [COMMA] else []);
    }
    r := w.EndProperty();
  }

  lemma PropertySplit(v: Json, i: nat, before: seq<Byte>)
    requires Printable(v) && v.Object? && i < |v.properties|
    ensures WellFormed(v.properties[i].name)
    ensures v.properties[i].value.Some? ==> Printable(v.properties[i].value.value)
    ensures before + PropertyText(v, i) == before + Quoted(v.properties[i].name) + [COLON]
      + if v.properties[i].value.Some? then Text(v.properties[i].value.value) else NullText()
  {
    assert v.properties[i] in v.properties;
    hide Text, Quoted;
  }

  /** json_array::str. */
  method WriteArray(w: Writer, v: Json) returns (r: Result<()>)
    requires TakesValue(w.state, v) && v.Array?
    modifies w
    ensures Wrote(old(w.stream), old(w.state), old(w.statePath), w, v, r.Ok?)
    decreases v, 2
  {
    hide Text, ItemsText;
    r := w.StartArray();
    ghost var head := w.stream;
    assert w.statePath[..|w.statePath| - 1] == old(w.statePath);
    r := WriteItems(w, v);
    if r.Err? {
      return;
    }
    r := w.EndArray();
    ArrayText(v);
  }

  lemma ArrayText(v: Json)
    requires Printable(v) && v.Array?
    ensures Text(v) == [OPEN_ARRAY] + ItemsText(v, 0, false) + [CLOSE_ARRAY]
  {
  }

  lemma ItemsPrintable(v: Json)
    requires v.Array?
    ensures Printable(v) <==> forall i :: 0 <= i < |v.items| ==> Printable(v.items[i])
  {
    if forall i :: 0 <= i < |v.items| ==> Printable(v.items[i]) {
      assert forall x :: x in v.items ==> Printable(x);
    }
    if Printable(v) {
      assert forall i :: 0 <= i < |v.items| ==> v.items[i] in v.items;
    }
  }

  lemma NoItems(v: Json, body: bool)
    requires v.Array?
    ensures Printable(v) ==> ItemsText(v, |v.items|, body) == []
  {
  }

  /** The loop over the items. */
  method WriteItems(w: Writer, v: Json) returns (r: Result<()>)
    requires w.state == START_ARRAY && v.Array?
    modifies w
    ensures r.Ok? <==> Printable(v)
    ensures r.Ok? ==> w.stream == old(w.stream) + ItemsText(v, 0, false) && w.statePath == old(w.statePath)
    ensures r.Ok? ==> w.state == START_ARRAY || w.state == ARRAY_BODY
    decreases v, 1
  {
    hide Text, ItemsText, Printable, Separator;
    ItemsPrintable(v);
    for i := 0 to |v.items|
      invariant w.statePath == old(w.statePath) && (w.state == START_ARRAY || w.state == ARRAY_BODY)
      invariant forall j :: 0 <= j < i ==> Printable(v.items[j])
      invariant Printable(v) ==>
        w.stream + ItemsText(v, i, w.state == ARRAY_BODY) == old(w.stream) + ItemsText(v, 0, false)
    {
      if Printable(v) {
        ItemsStep(v, i, w.state == ARRAY_BODY, w.stream);
      }
      r := WriteValue(w, v.items[i]);
      if r.Err? {
        return;
      }
    }
    NoItems(v, w.state == ARRAY_BODY);
    assert w.stream + [] == w.stream;
    r := Ok(());
  }

  lemma ItemsStep(v: Json, i: nat, body: bool, before: seq<Byte>)
    requires Printable(v) && v.Array? && i < |v.items|
    ensures before + ItemsText(v, i, body)
         == before + Separator(v.items[i], body) + Text(v.items[i]) + ItemsText(v, i + 1, body || !v.items[i].Array?)
  {
  }

  /** json_value::str: an error for a bare primitive and for ill-formed UTF-8, the text otherwise. */
  method Str(v: Json) returns (r: Result<seq<Byte>>)
    ensures r.Ok? <==> Printable(v) && !v.Primitive?
    ensures r.Ok? ==> r.value == Text(v)
  {
    var w := new Writer();
    if v.Primitive? {
      var p := w.WriteStringValue(v.value);
      return Err("Invalid json_writer state");
    }
    var s := WriteValue(w, v);
    if s.Err? {
      return Err(s.message);
    }
    r := Ok(w.stream);
  }
}
