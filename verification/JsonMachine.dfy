/**
  The character machine of kernel/vds_parser/json_parser.cpp on values: its states, its two
  stacks, and the invariant that makes every top, pop and cast safe.
 */
module JsonMachine {
  import opened Bytes
  import opened JsonTree
  import opened Wrappers

  datatype Options = Options(inlineComments: bool, multiRootObjects: bool)

  datatype St =
    | BOF
    | AFTER_SLESH
    | INLINE_COMMENT
    | ARRAY
    | ARRAY_ITEM
    | OBJECT
    | OBJECT_ITEM
    | NUMBER
    | PROPERTY_NAME
    | PROPERTY_VALUE
    | STRING
    | STRING_BACKSLESH
    | STRING_SYMBOL_1
    | STRING_SYMBOL_2
    | STRING_SYMBOL_3
    | STRING_SYMBOL_4
    | EOF

  /** A node under construction; a container that is the value of a property knows its name. */
  datatype Frame =
    | ObjectFrame(properties: seq<Property>, inside: Option<seq<Byte>>)
    | ArrayFrame(items: seq<Json>, inside: Option<seq<Byte>>)
    | PropertyFrame(name: seq<Byte>)

  datatype Parser = Parser(
    state: St,
    savedStates: seq<St>,
    currentPath: seq<Frame>,
    currentObject: Option<Frame>,
    buffer: seq<Byte>,
    /** The hex digits of an escape; 0 while none is being read. */
    numBuffer: nat,
    /** The root objects handed to the callback. */
    results: seq<Json>)

  const Start := Parser(BOF, [], [], None, [], 0, [])

  function Top<T>(s: seq<T>): T
    requires |s| > 0
  {
    s[|s| - 1]
  }

  function Pop<T>(s: seq<T>): seq<T>
    requires |s| > 0
  {
    s[..|s| - 1]
  }

  // ----- The invariant -----

  predicate IsContainer(f: Frame) {
    f.ObjectFrame? || f.ArrayFrame?
  }

  /** The state to return to when a child of the container is complete. */
  function ItemState(f: Frame): St {
    if f.ArrayFrame? then ARRAY_ITEM else OBJECT_ITEM
  }

  /** The saved states below an open container with the given path. */
  function SavedFor(path: seq<Frame>): (s: seq<St>)
    ensures |s| == |path| + 1
  {
    [BOF] + seq(|path|, i requires 0 <= i < |path| => ItemState(path[i]))
  }

  /** A chain of open containers; those below an object are values of its properties. */
  ghost predicate Chain(path: seq<Frame>) {
    && (forall i :: 0 <= i < |path| ==> IsContainer(path[i]))
    && (|path| > 0 ==> path[0].inside.None?)
    && (forall i :: 0 < i < |path| ==> (path[i].inside.Some? <==> path[i - 1].ObjectFrame?))
  }

  ghost predicate InContainer(p: Parser, extra: seq<St>) {
    && p.currentObject.Some?
    && Chain(p.currentPath + [p.currentObject.value])
    && p.savedStates == SavedFor(p.currentPath) + extra
  }

  ghost predicate InArray(p: Parser, extra: seq<St>) {
    InContainer(p, extra) && p.currentObject.value.ArrayFrame?
  }

  ghost predicate InObject(p: Parser, extra: seq<St>) {
    InContainer(p, extra) && p.currentObject.value.ObjectFrame?
  }

  ghost predicate InProperty(p: Parser) {
    && p.currentObject.Some? && p.currentObject.value.PropertyFrame?
    && Chain(p.currentPath) && |p.currentPath| > 0 && Top(p.currentPath).ObjectFrame?
    && p.savedStates == SavedFor(p.currentPath)
  }

  ghost predicate Outside(p: Parser, extra: seq<St>) {
    p.savedStates == extra && p.currentPath == [] && p.currentObject.None?
  }

  ghost predicate InString(p: Parser) {
    InProperty(p) || InArray(p, [ARRAY_ITEM]) || InObject(p, [OBJECT_ITEM, PROPERTY_NAME])
  }

  /** Between tokens. */
  ghost predicate Idle(p: Parser) {
    p.buffer == [] && p.numBuffer == 0
  }

  /** How deep the stacks are and what the current object is, in every state. */
  ghost predicate Inv(p: Parser) {
    match p.state
    case BOF => Outside(p, []) && Idle(p)
    case EOF => Outside(p, []) && Idle(p) && |p.results| > 0
    case AFTER_SLESH => (Outside(p, [BOF]) || InArray(p, [ARRAY])) && Idle(p)
    case INLINE_COMMENT => (Outside(p, [BOF]) || InArray(p, [ARRAY])) && Idle(p)
    case ARRAY => InArray(p, []) && Idle(p)
    case ARRAY_ITEM => InArray(p, []) && Idle(p)
    case OBJECT => InObject(p, []) && Idle(p)
    case OBJECT_ITEM => InObject(p, []) && Idle(p)
    case PROPERTY_NAME => InProperty(p) && Idle(p)
    case PROPERTY_VALUE => InProperty(p) && Idle(p)
    case NUMBER => (InProperty(p) || InArray(p, [ARRAY_ITEM])) && p.numBuffer == 0
    case STRING => InString(p) && p.numBuffer == 0
    case STRING_BACKSLESH => InString(p) && p.numBuffer == 0
    case STRING_SYMBOL_1 => InString(p) && p.numBuffer == 0
    case STRING_SYMBOL_2 => InString(p) && p.numBuffer < 0x10
    case STRING_SYMBOL_3 => InString(p) && p.numBuffer < 0x100
    case STRING_SYMBOL_4 => InString(p) && p.numBuffer < 0x1000
  }

  // ----- Adding to the tree -----

  function AddItem(f: Frame, x: Json): Frame
    requires f.ArrayFrame?
  {
    f.(items := f.items + [x])
  }

  function AddProperty(f: Frame, name: seq<Byte>, x: Json): Frame
    requires f.ObjectFrame?
  {
    f.(properties := f.properties + [Property(name, Some(x))])
  }

  function Built(f: Frame): Json
    requires IsContainer(f)
  {
    if f.ObjectFrame? then Object(f.properties) else Array(f.items)
  }

  function NewFrame(isArray: bool, inside: Option<seq<Byte>>): Frame {
    if isArray then ArrayFrame([], inside) else ObjectFrame([], inside)
  }

  /** start_array and start_object. */
  function StartContainer(p: Parser, isArray: bool): Parser
    requires Inv(p) && (p.state == PROPERTY_VALUE || p.state == BOF || p.state == ARRAY)
  {
    var inner := if isArray then ARRAY else OBJECT;
    if p.state == PROPERTY_VALUE then
      p.(currentObject := Some(NewFrame(isArray, Some(p.currentObject.value.name))), state := inner)
    else if p.state == BOF then
      p.(savedStates := p.savedStates + [BOF], currentObject := Some(NewFrame(isArray, None)), state := inner)
    else
      p.(savedStates := p.savedStates + [ARRAY_ITEM],
         currentPath := p.currentPath + [p.currentObject.value],
         currentObject := Some(NewFrame(isArray, None)), state := inner)
  }

  /** final_array and final_object. */
  function FinalContainer(o: Options, p: Parser): Parser
    requires InContainer(p, [])
  {
    var f := p.currentObject.value;
    assert f == (p.currentPath + [f])[|p.currentPath|];
    var saved := Top(p.savedStates);
    var popped := Pop(p.savedStates);
    if saved == BOF then
      p.(state := if o.multiRootObjects then BOF else EOF, savedStates := popped, currentObject := None,
         results := p.results + [Built(f)])
    else
      ParentKnown(p);
      var parent := Top(p.currentPath);
      p.(state := saved, savedStates := popped, currentPath := Pop(p.currentPath),
         currentObject := Some(if f.inside.Some? then AddProperty(parent, f.inside.value, Built(f))
                               else AddItem(parent, Built(f))))
  }

  lemma ParentKnown(p: Parser)
    requires InContainer(p, [])
    ensures |p.savedStates| == |p.currentPath| + 1
    ensures Top(p.savedStates) == BOF <==> p.currentPath == []
    ensures p.currentPath != [] ==>
      && Top(p.savedStates) == ItemState(Top(p.currentPath))
      && IsContainer(Top(p.currentPath)) && IsContainer(p.currentObject.value)
      && (p.currentObject.value.inside.Some? <==> Top(p.currentPath).ObjectFrame?)
  {
    var chain, n := p.currentPath + [p.currentObject.value], |p.currentPath|;
    assert chain[n] == p.currentObject.value;
    if n > 0 {
      assert chain[n - 1] == Top(p.currentPath);
    }
  }

  /** The pushes and pops of one level keep the invariant's shape. */
  lemma SavedSnoc(path: seq<Frame>, f: Frame)
    ensures SavedFor(path + [f]) == SavedFor(path) + [ItemState(f)]
  {
  }

  lemma StartInv(p: Parser, isArray: bool)
    requires Inv(p) && (p.state == PROPERTY_VALUE || p.state == BOF || p.state == ARRAY)
    ensures Inv(StartContainer(p, isArray))
  {
    var q := StartContainer(p, isArray);
    if p.state == ARRAY {
      SavedSnoc(p.currentPath, p.currentObject.value);
    }
    assert q.savedStates == SavedFor(q.currentPath) + [];
    assert Chain(q.currentPath + [q.currentObject.value]);
  }

  lemma FinalInv(o: Options, p: Parser)
    requires InContainer(p, []) && Idle(p)
    ensures Inv(FinalContainer(o, p))
  {
    ParentKnown(p);
    var q := FinalContainer(o, p);
    if p.currentPath != [] {
      var n := |p.currentPath| - 1;
      var path, parent := p.currentPath[..n], p.currentPath[n];
      assert path + [parent] == p.currentPath;
      SavedSnoc(path, parent);
      assert q.savedStates == SavedFor(path) + [];
      var chain := p.currentPath + [p.currentObject.value];
      assert forall i :: 0 <= i <= n ==> chain[i] == p.currentPath[i];
      var after := path + [q.currentObject.value];
      assert forall i :: 0 <= i < n ==> after[i] == chain[i];
      assert after[n].inside == chain[n].inside;
      assert Chain(after);
    } else {
      assert q.savedStates == [];
    }
  }

  // ----- Strings and numbers -----

  /** A primitive becomes the value of the current property. */
  function FinalProperty(p: Parser, isInteger: bool): Parser
    requires InProperty(p)
  {
    p.(state := OBJECT_ITEM, savedStates := Pop(p.savedStates), currentPath := Pop(p.currentPath),
       currentObject := Some(AddProperty(Top(p.currentPath), p.currentObject.value.name, Primitive(p.buffer, isInteger))),
       buffer := [])
  }

  /** A primitive becomes an item of the current array. */
  function FinalItem(p: Parser, isInteger: bool): Parser
    requires InArray(p, [ARRAY_ITEM])
  {
    p.(state := ARRAY_ITEM, savedStates := Pop(p.savedStates),
       currentObject := Some(AddItem(p.currentObject.value, Primitive(p.buffer, isInteger))), buffer := [])
  }

  /** start_property. */
  function StartProperty(p: Parser): Parser
    requires InObject(p, [OBJECT_ITEM, PROPERTY_NAME])
  {
    p.(state := PROPERTY_NAME, savedStates := Pop(p.savedStates),
       currentPath := p.currentPath + [p.currentObject.value],
       currentObject := Some(PropertyFrame(p.buffer)), buffer := [])
  }

  /** The saved state tells what kind of node the current object is. */
  lemma SavedTells(p: Parser)
    requires InString(p)
    ensures |p.savedStates| > 0
    ensures Top(p.savedStates) == OBJECT_ITEM <==> InProperty(p)
    ensures Top(p.savedStates) == ARRAY_ITEM <==> InArray(p, [ARRAY_ITEM])
    ensures Top(p.savedStates) == PROPERTY_NAME <==> InObject(p, [OBJECT_ITEM, PROPERTY_NAME])
  {
    if InProperty(p) {
      assert Top(p.savedStates) == ItemState(Top(p.currentPath));
    }
  }

  /** The closing quote. */
  function EndString(p: Parser): Parser
    requires InString(p)
  {
    SavedTells(p);
    if Top(p.savedStates) == PROPERTY_NAME then StartProperty(p)
    else if Top(p.savedStates) == OBJECT_ITEM then FinalProperty(p, false)
    else FinalItem(p, false)
  }

  /** The first character that is not part of the number. */
  function EndNumber(p: Parser): Parser
    requires InProperty(p) || InArray(p, [ARRAY_ITEM])
  {
    SavedTells(p);
    if Top(p.savedStates) == OBJECT_ITEM then FinalProperty(p, true) else FinalItem(p, true)
  }

  lemma FinalPropertyInv(p: Parser, isInteger: bool)
    requires InProperty(p) && p.numBuffer == 0
    ensures Inv(FinalProperty(p, isInteger))
  {
    var q := FinalProperty(p, isInteger);
    var n := |p.currentPath| - 1;
    var path, parent := p.currentPath[..n], p.currentPath[n];
    assert path + [parent] == p.currentPath;
    SavedSnoc(path, parent);
    assert q.savedStates == SavedFor(path) + [];
    var after := path + [q.currentObject.value];
    assert forall i :: 0 <= i < n ==> after[i] == p.currentPath[i];
    assert after[n].inside == p.currentPath[n].inside;
  }

  lemma FinalItemInv(p: Parser, isInteger: bool)
    requires InArray(p, [ARRAY_ITEM]) && p.numBuffer == 0
    ensures Inv(FinalItem(p, isInteger))
  {
    var q := FinalItem(p, isInteger);
    var n := |p.currentPath|;
    assert q.savedStates == SavedFor(q.currentPath) + [];
    var before, after := p.currentPath + [p.currentObject.value], q.currentPath + [q.currentObject.value];
    assert forall i :: 0 <= i < n ==> after[i] == before[i];
    assert after[n].inside == before[n].inside;
  }

  lemma StartPropertyInv(p: Parser)
    requires InObject(p, [OBJECT_ITEM, PROPERTY_NAME]) && p.numBuffer == 0
    ensures Inv(StartProperty(p))
  {
    var q := StartProperty(p);
    SavedSnoc(p.currentPath, p.currentObject.value);
    assert q.savedStates == SavedFor(p.currentPath) + [OBJECT_ITEM];
  }

  lemma EndStringInv(p: Parser)
    requires InString(p) && p.numBuffer == 0
    ensures Inv(EndString(p))
  {
    SavedTells(p);
    hide Inv, InProperty, InArray, InObject, FinalProperty, FinalItem, StartProperty;
    if Top(p.savedStates) == PROPERTY_NAME {
      StartPropertyInv(p);
    } else if Top(p.savedStates) == OBJECT_ITEM {
      FinalPropertyInv(p, false);
    } else {
      FinalItemInv(p, false);
    }
  }

  lemma EndNumberInv(p: Parser)
    requires (InProperty(p) || InArray(p, [ARRAY_ITEM])) && p.numBuffer == 0
    ensures Inv(EndNumber(p))
    ensures EndNumber(p).state == OBJECT_ITEM || EndNumber(p).state == ARRAY_ITEM
  {
    SavedTells(p);
    if InProperty(p) {
      FinalPropertyInv(p, true);
    } else {
      FinalItemInv(p, true);
    }
  }
}
