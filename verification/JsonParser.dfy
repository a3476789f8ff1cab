/**
  The class json_parser of kernel/vds_parser/json_parser.cpp, without line and column numbers.
  Every write is proved equal to the run of the machine over its bytes.
 */
module JsonParser {
  import opened Bytes
  import opened Utf8
  import opened JsonTree
  import opened JsonMachine
  import opened JsonSteps
  import opened Wrappers

  datatype Act = READ | STEP_BACK | FAIL

  class Reader {
    const options: Options
    var state: St
    var savedStates: seq<St>
    var currentPath: seq<Frame>
    var currentObject: Option<Frame>
    var buffer: seq<Byte>
    var numBuffer: nat
    /** The root objects handed to the callback. */
    var results: seq<Json>

    ghost function Abs(): Parser
      reads this
    {
      Parser(state, savedStates, currentPath, currentObject, buffer,
             if state == STRING_SYMBOL_2 || state == STRING_SYMBOL_3 || state == STRING_SYMBOL_4 then numBuffer else 0,
             results)
    }

    ghost predicate Valid()
      reads this
    {
      Inv(Abs())
    }

    constructor (options: Options)
      ensures this.options == options && Abs() == Start && Valid()
    {
      this.options := options;
      state, savedStates, currentPath, currentObject := BOF, [], [], None;
      buffer, numBuffer, results := [], 0, [];
    }

    /** start_array and start_object. */
    method Open(isArray: bool)
      requires Valid() && (state == PROPERTY_VALUE || state == BOF || state == ARRAY)
      modifies this
      ensures Abs() == StartContainer(old(Abs()), isArray)
    {
      var inside := None;
      if state == PROPERTY_VALUE {
        inside := Some(currentObject.value.name);
      } else if state == BOF {
        savedStates := savedStates + [BOF];
      } else {
        savedStates := savedStates + [ARRAY_ITEM];
        currentPath := currentPath + [currentObject.value];
      }
      currentObject := Some(NewFrame(isArray, inside));
      state := if isArray then ARRAY else OBJECT;
    }

    /** final_array and final_object. */
    method Close()
      requires InContainer(Abs(), []) && Idle(Abs())
      modifies this
      ensures Abs() == FinalContainer(options, old(Abs()))
    {
      ParentKnown(Abs());
      var f := currentObject.value;
      assert f == (currentPath + [f])[|currentPath|];
      state := Top(savedStates);
      savedStates := Pop(savedStates);
      if BOF == state {
        if !options.multiRootObjects {
          state := EOF;
        }
        results := results + [Built(f)];
        currentObject := None;
      } else {
        var parent := Top(currentPath);
        currentPath := Pop(currentPath);
        currentObject := Some(if f.inside.Some? then AddProperty(parent, f.inside.value, Built(f))
                              else AddItem(parent, Built(f)));
      }
    }

    /** after_slesh. */
    method Slesh() returns (r: Act)
      requires Idle(Abs())
      modifies this
      ensures r != STEP_BACK
      ensures AfterSlesh(options, old(Abs())) == if r == READ then More(Abs()) else Failed
    {
      if !options.inlineComments {
        return FAIL;
      }
      savedStates := savedStates + [state];
      state := AFTER_SLESH;
      r := READ;
    }

    /** What a character does, in terms of the machine. */
    twostate predicate Does(c: Byte, r: Act)
      requires old(Valid())
      reads this
    {
      match Step(options, old(Abs()), c)
      case More(q) => r == READ && Abs() == q
      case Again(q) => r == STEP_BACK && Abs() == q
      case Failed => r == FAIL
    }

    static function Blank(c: Byte): Act {
      if IsSpace(c) then READ else FAIL
    }

    /** The states between documents and inside comments. */
    method OutsideCharacter(c: Byte) returns (r: Act)
      requires Valid() && (state == BOF || state == AFTER_SLESH || state == INLINE_COMMENT)
      modifies this
      ensures Does(c, r)
    {
      if state == BOF {
        if c == SLASH {
          r := Slesh();
        } else if c == OPEN_ARRAY {
          Open(true);
          r := READ;
        } else if c == OPEN_OBJECT {
          Open(false);
          r := READ;
        } else {
          r := Blank(c);
        }
      } else if state == AFTER_SLESH {
        if c != SLASH {
          return FAIL;
        }
        state := INLINE_COMMENT;
        r := READ;
      } else {
        if c == NEWLINE {
          CommentGood(Abs(), c);
          state := Top(savedStates);
          savedStates := Pop(savedStates);
        }
        r := READ;
      }
    }

    method ArrayCharacter(c: Byte) returns (r: Act)
      requires Valid() && (state == ARRAY || state == ARRAY_ITEM)
      modifies this
      ensures Does(c, r)
    {
      hide FinalContainer, StartContainer, Chain, SavedFor;
      r := READ;
      if c == CLOSE_ARRAY {
        FinalInv(options, Abs());
        Close();
      } else if state == ARRAY_ITEM {
        if c == COMMA {
          state := ARRAY;
        } else {
          r := Blank(c);
        }
      } else if c == OPEN_ARRAY {
        Open(true);
      } else if c == OPEN_OBJECT {
        Open(false);
      } else if c == SLASH {
        r := Slesh();
      } else if c == QUOTE {
        savedStates := savedStates + [ARRAY_ITEM];
        state := STRING;
      } else if IsDigit(c) {
        buffer := [c];
        savedStates := savedStates + [ARRAY_ITEM];
        state := NUMBER;
      } else {
        r := Blank(c);
      }
    }

    method ObjectCharacter(c: Byte) returns (r: Act)
      requires Valid() && (state == OBJECT || state == OBJECT_ITEM)
      modifies this
      ensures Does(c, r)
    {
      hide FinalContainer, Chain, SavedFor;
      r := READ;
      if c == CLOSE_OBJECT {
        FinalInv(options, Abs());
        Close();
      } else if state == OBJECT && c == QUOTE {
        savedStates := savedStates + [OBJECT_ITEM];
        savedStates := savedStates + [PROPERTY_NAME];
        state := STRING;
      } else if state == OBJECT_ITEM && c == COMMA {
        state := OBJECT;
      } else {
        r := Blank(c);
      }
    }

    method PropertyCharacter(c: Byte) returns (r: Act)
      requires Valid() && (state == PROPERTY_NAME || state == PROPERTY_VALUE)
      modifies this
      ensures Does(c, r)
    {
      hide StartContainer;
      r := READ;
      if state == PROPERTY_NAME {
        if c == COLON {
          state := PROPERTY_VALUE;
        } else {
          r := Blank(c);
        }
      } else if c == QUOTE {
        state := STRING;
      } else if c == OPEN_OBJECT {
        Open(false);
      } else if c == OPEN_ARRAY {
        Open(true);
      } else if c == 0x2B || c == 0x2D || IsDigit(c) {
        state := NUMBER;
        buffer := buffer + [c];
      } else {
        r := Blank(c);
      }
    }

    /** The end of a string or a number: the saved state tells where it belongs. */
    method Finish(isInteger: bool)
      requires Valid() && ((state == STRING && !isInteger) || (state == NUMBER && isInteger))
      modifies this
      ensures Abs() == if isInteger then EndNumber(old(Abs())) else EndString(old(Abs()))
    {
      SavedTells(Abs());
      state := Top(savedStates);
      savedStates := Pop(savedStates);
      if state == PROPERTY_NAME {
        currentPath := currentPath + [currentObject.value];
        currentObject := Some(PropertyFrame(buffer));
      } else if state == OBJECT_ITEM {
        currentObject := Some(AddProperty(Top(currentPath), currentObject.value.name, Primitive(buffer, isInteger)));
        currentPath := Pop(currentPath);
      } else {
        currentObject := Some(AddItem(currentObject.value, Primitive(buffer, isInteger)));
      }
      buffer := [];
    }

    method TextCharacter(c: Byte) returns (r: Act)
      requires Valid() && (state == NUMBER || state == STRING || state == STRING_BACKSLESH)
      modifies this
      ensures Does(c, r)
    {
      hide EndNumber, EndString, Chain, SavedFor;
      r := READ;
      if state == NUMBER {
        if IsDigit(c) || c == 0x2E {
          buffer := buffer + [c];
        } else {
          Finish(true);
          r := STEP_BACK;
        }
      } else if state == STRING {
        if c == BACKSLASH {
          state := STRING_BACKSLESH;
        } else if c == QUOTE {
          Finish(false);
        } else {
          buffer := buffer + [c];
        }
      } else {
        var plain := Unescape(c);
        if plain.Some? {
          buffer := buffer + [plain.value];
          state := STRING;
        } else if c == LETTER_U {
          state := STRING_SYMBOL_1;
        } else {
          r := FAIL;
        }
      }
    }

    method SymbolCharacter(c: Byte) returns (r: Act)
      requires Valid()
      requires state == STRING_SYMBOL_1 || state == STRING_SYMBOL_2 || state == STRING_SYMBOL_3 || state == STRING_SYMBOL_4
      modifies this
      ensures Does(c, r)
    {
      hide Add, InString, HexValue;
      var digit := HexValue(c);
      if digit.None? {
        return FAIL;
      }
      AddDigit(digit.value);
      r := READ;
    }

    method AddDigit(d: nat)
      requires Valid() && d < 16
      requires state == STRING_SYMBOL_1 || state == STRING_SYMBOL_2 || state == STRING_SYMBOL_3 || state == STRING_SYMBOL_4
      modifies this
      ensures Abs() == AfterDigit(old(Abs()), d)
    {
      hide Add, InString;
      if state == STRING_SYMBOL_1 {
        numBuffer := d;
        state := STRING_SYMBOL_2;
      } else {
        numBuffer := 0x10 * numBuffer + d;
        if state == STRING_SYMBOL_2 {
          state := STRING_SYMBOL_3;
        } else if state == STRING_SYMBOL_3 {
          state := STRING_SYMBOL_4;
        } else {
          state := STRING;
          buffer := buffer + Add(numBuffer);
        }
      }
    }

    method Character(c: Byte) returns (r: Act)
      requires Valid()
      modifies this
      ensures Does(c, r)
    {
      match state {
        case BOF => r := OutsideCharacter(c);
        case AFTER_SLESH => r := OutsideCharacter(c);
        case INLINE_COMMENT => r := OutsideCharacter(c);
        case ARRAY => r := ArrayCharacter(c);
        case ARRAY_ITEM => r := ArrayCharacter(c);
        case OBJECT => r := ObjectCharacter(c);
        case OBJECT_ITEM => r := ObjectCharacter(c);
        case NUMBER => r := TextCharacter(c);
        case PROPERTY_NAME => r := PropertyCharacter(c);
        case PROPERTY_VALUE => r := PropertyCharacter(c);
        case STRING => r := TextCharacter(c);
        case STRING_BACKSLESH => r := TextCharacter(c);
        case STRING_SYMBOL_1 => r := SymbolCharacter(c);
        case STRING_SYMBOL_2 => r := SymbolCharacter(c);
        case STRING_SYMBOL_3 => r := SymbolCharacter(c);
        case STRING_SYMBOL_4 => r := SymbolCharacter(c);
        case EOF => r := FAIL;
      }
    }

    /** write: without data it is the end of the input; a step back reads a character twice. */
    method Write(data: seq<Byte>) returns (r: Result<()>)
      requires Valid()
      modifies this
      ensures |data| == 0 ==> Abs() == old(Abs()) && (r.Ok? <==> MayEnd(options, Abs()))
      ensures |data| > 0 ==> Run(options, old(Abs()), data) == (if r.Ok? then Ok(Abs()) else Err("Unexpected char"))
      ensures r.Ok? ==> Valid()
    {
      if 0 == |data| {
        return if state == EOF || (state == BOF && options.multiRootObjects) then Ok(()) else Err("Unexpected end of data");
      }
      var pos := 0;
      assert data[0..] == data;
      while pos < |data|
        invariant pos <= |data| && Valid()
        invariant Run(options, old(Abs()), data) == Run(options, Abs(), data[pos..])
        decreases |data| - pos, if state == NUMBER then 1 else 0
      {
        StepGood(options, Abs(), data[pos]);
        OnlyNumbersStepBack(options, Abs(), data[pos]);
        hide Step, Inv;
        assert data[pos..][1..] == data[pos + 1..];
        var act := Character(data[pos]);
        if act == FAIL {
          return Err("Unexpected char");
        }
        if act == READ {
          pos := pos + 1;
        }
      }
      r := Ok(());
    }
  }

  /** json_parser::parse. */
  method ParseDocument(data: seq<Byte>) returns (r: Result<Json>)
    ensures match Parse(data) case Ok(v) => r == Ok(v) case Err(_) => r.Err?
  {
    var parser := new Reader(DefaultOptions);
    var w := parser.Write(data);
    if w.Err? {
      return Err(w.message);
    }
    w := parser.Write([]);
    if w.Err? {
      return Err(w.message);
    }
    r := Ok(Top(parser.results));
  }
}
