/**
  json_parser::write on values: one step for every character, the step back after a number,
  and the run over a stretch of input. The invariant holds whatever the input.
 */
module JsonSteps {
  import opened Bytes
  import opened Utf8
  import opened JsonTree
  import opened JsonMachine
  import opened Wrappers

  datatype Outcome =
    | More(next: Parser)
    /** The character is read once more. */
    | Again(next: Parser)
    | Failed

  function AfterSlesh(o: Options, p: Parser): Outcome {
    if o.inlineComments then More(p.(savedStates := p.savedStates + [p.state], state := AFTER_SLESH)) else Failed
  }

  function SkipSpace(p: Parser, c: Byte): Outcome {
    if IsSpace(c) then More(p) else Failed
  }

  function StepBof(o: Options, p: Parser, c: Byte): Outcome
    requires Inv(p) && p.state == BOF
  {
    if c == SLASH then AfterSlesh(o, p)
    else if c == OPEN_ARRAY then More(StartContainer(p, true))
    else if c == OPEN_OBJECT then More(StartContainer(p, false))
    else SkipSpace(p, c)
  }

  function StepAfterSlesh(p: Parser, c: Byte): Outcome {
    if c == SLASH then More(p.(state := INLINE_COMMENT)) else Failed
  }

  function StepInlineComment(p: Parser, c: Byte): Outcome
    requires Inv(p) && p.state == INLINE_COMMENT
  {
    if c == NEWLINE then More(p.(state := Top(p.savedStates), savedStates := Pop(p.savedStates))) else More(p)
  }

  function StepArray(o: Options, p: Parser, c: Byte): Outcome
    requires Inv(p) && p.state == ARRAY
  {
    if c == CLOSE_ARRAY then More(FinalContainer(o, p))
    else if c == OPEN_ARRAY then More(StartContainer(p, true))
    else if c == OPEN_OBJECT then More(StartContainer(p, false))
    else if c == SLASH then AfterSlesh(o, p)
    else if c == QUOTE then More(p.(savedStates := p.savedStates + [ARRAY_ITEM], state := STRING))
    else if IsDigit(c) then More(p.(buffer := [c], savedStates := p.savedStates + [ARRAY_ITEM], state := NUMBER))
    else SkipSpace(p, c)
  }

  function StepArrayItem(o: Options, p: Parser, c: Byte): Outcome
    requires Inv(p) && p.state == ARRAY_ITEM
  {
    if c == CLOSE_ARRAY then More(FinalContainer(o, p))
    else if c == COMMA then More(p.(state := ARRAY))
    else SkipSpace(p, c)
  }

  function StepObject(o: Options, p: Parser, c: Byte): Outcome
    requires Inv(p) && p.state == OBJECT
  {
    if c == QUOTE then More(p.(savedStates := p.savedStates + [OBJECT_ITEM, PROPERTY_NAME], state := STRING))
    else if c == CLOSE_OBJECT then More(FinalContainer(o, p))
    else SkipSpace(p, c)
  }

  function StepObjectItem(o: Options, p: Parser, c: Byte): Outcome
    requires Inv(p) && p.state == OBJECT_ITEM
  {
    if c == CLOSE_OBJECT then More(FinalContainer(o, p))
    else if c == COMMA then More(p.(state := OBJECT))
    else SkipSpace(p, c)
  }

  function StepNumber(p: Parser, c: Byte): Outcome
    requires Inv(p) && p.state == NUMBER
  {
    if IsDigit(c) || c == 0x2E then More(p.(buffer := p.buffer + [c])) else Again(EndNumber(p))
  }

  function StepString(p: Parser, c: Byte): Outcome
    requires Inv(p) && p.state == STRING
  {
    if c == BACKSLASH then More(p.(state := STRING_BACKSLESH))
    else if c == QUOTE then More(EndString(p))
    else More(p.(buffer := p.buffer + [c]))
  }

  /** The character that a short escape stands for. */
  function Unescape(c: Byte): Option<Byte> {
    match c
    case 0x22 => Some(QUOTE)
    case 0x5C => Some(BACKSLASH)
    case 0x6E => Some(0x0A)
    case 0x72 => Some(0x0D)
    case 0x62 => Some(0x08)
    case 0x74 => Some(0x09)
    case 0x66 => Some(0x0C)
    case _ => None
  }

  function StepBackslesh(p: Parser, c: Byte): Outcome {
    if Unescape(c).Some? then More(p.(buffer := p.buffer + [Unescape(c).value], state := STRING))
    else if c == LETTER_U then More(p.(state := STRING_SYMBOL_1))
    else Failed
  }

  function HexValue(c: Byte): (d: Option<nat>)
    ensures d.Some? ==> d.value < 16
  {
    if 0x30 <= c <= 0x39 then Some(c - 0x30)
    else if 0x61 <= c <= 0x66 then Some(c - 0x61 + 10)
    else if 0x41 <= c <= 0x46 then Some(c - 0x41 + 10)
    else None
  }

  predicate ReadsDigit(p: Parser) {
    p.state == STRING_SYMBOL_1 || (p.state == STRING_SYMBOL_2 && p.numBuffer < 0x10)
    || (p.state == STRING_SYMBOL_3 && p.numBuffer < 0x100) || (p.state == STRING_SYMBOL_4 && p.numBuffer < 0x1000)
  }

  /** One hex digit of an escape; the last one adds the character. */
  function AfterDigit(p: Parser, d: nat): Parser
    requires ReadsDigit(p) && d < 16
  {
    if p.state == STRING_SYMBOL_1 then p.(numBuffer := d, state := STRING_SYMBOL_2)
    else if p.state == STRING_SYMBOL_2 then p.(numBuffer := 0x10 * p.numBuffer + d, state := STRING_SYMBOL_3)
    else if p.state == STRING_SYMBOL_3 then p.(numBuffer := 0x10 * p.numBuffer + d, state := STRING_SYMBOL_4)
    else p.(numBuffer := 0, state := STRING, buffer := p.buffer + Add(0x10 * p.numBuffer + d))
  }

  function StepSymbol(p: Parser, c: Byte): Outcome
    requires ReadsDigit(p)
  {
    match HexValue(c)
    case None => Failed
    case Some(d) => More(AfterDigit(p, d))
  }

  function StepPropertyName(p: Parser, c: Byte): Outcome {
    if c == COLON then More(p.(state := PROPERTY_VALUE)) else SkipSpace(p, c)
  }

  function StepPropertyValue(p: Parser, c: Byte): Outcome
    requires Inv(p) && p.state == PROPERTY_VALUE
  {
    if c == QUOTE then More(p.(state := STRING))
    else if c == OPEN_OBJECT then More(StartContainer(p, false))
    else if c == OPEN_ARRAY then More(StartContainer(p, true))
    else if c == 0x2B || c == 0x2D || IsDigit(c) then More(p.(state := NUMBER, buffer := p.buffer + [c]))
    else SkipSpace(p, c)
  }

  function Step(o: Options, p: Parser, c: Byte): Outcome
    requires Inv(p)
  {
    match p.state
    case BOF => StepBof(o, p, c)
    case AFTER_SLESH => StepAfterSlesh(p, c)
    case INLINE_COMMENT => StepInlineComment(p, c)
    case ARRAY => StepArray(o, p, c)
    case ARRAY_ITEM => StepArrayItem(o, p, c)
    case OBJECT => StepObject(o, p, c)
    case OBJECT_ITEM => StepObjectItem(o, p, c)
    case NUMBER => StepNumber(p, c)
    case PROPERTY_NAME => StepPropertyName(p, c)
    case PROPERTY_VALUE => StepPropertyValue(p, c)
    case STRING => StepString(p, c)
    case STRING_BACKSLESH => StepBackslesh(p, c)
    case STRING_SYMBOL_1 => StepSymbol(p, c)
    case STRING_SYMBOL_2 => StepSymbol(p, c)
    case STRING_SYMBOL_3 => StepSymbol(p, c)
    case STRING_SYMBOL_4 => StepSymbol(p, c)
    case EOF => Failed
  }

  // ----- Every step keeps the invariant -----

  /** The invariant after a step, and progress: after a step back the number is over. */
  ghost predicate Good(r: Outcome) {
    match r
    case More(q) => Inv(q)
    case Again(q) => Inv(q) && q.state != NUMBER
    case Failed => true
  }

  lemma PushedExtra(p: Parser, q: Parser, extra: seq<St>)
    requires InContainer(p, []) && q.currentObject == p.currentObject && q.currentPath == p.currentPath
    requires q.savedStates == p.savedStates + extra
    ensures InContainer(q, extra)
  {
    assert SavedFor(p.currentPath) + [] == SavedFor(p.currentPath);
  }

  lemma BofGood(o: Options, p: Parser, c: Byte)
    requires Inv(p) && p.state == BOF
    ensures Good(StepBof(o, p, c))
  {
    StartInv(p, true);
    StartInv(p, false);
    assert p.savedStates + [BOF] == [BOF];
  }

  lemma CommentGood(p: Parser, c: Byte)
    requires Inv(p) && p.state == INLINE_COMMENT
    ensures Good(StepInlineComment(p, c))
  {
    if InArray(p, [ARRAY]) {
      assert Pop(p.savedStates) == SavedFor(p.currentPath) + [];
    }
  }

  lemma ArrayGood(o: Options, p: Parser, c: Byte)
    requires Inv(p) && p.state == ARRAY
    ensures Good(StepArray(o, p, c))
  {
    StartInv(p, true);
    StartInv(p, false);
    FinalInv(o, p);
    PushedExtra(p, p.(savedStates := p.savedStates + [ARRAY]), [ARRAY]);
    PushedExtra(p, p.(savedStates := p.savedStates + [ARRAY_ITEM]), [ARRAY_ITEM]);
    hide StartContainer, FinalContainer, SavedFor, Chain;
  }

  lemma ItemGood(o: Options, p: Parser, c: Byte)
    requires Inv(p) && (p.state == ARRAY_ITEM || p.state == OBJECT || p.state == OBJECT_ITEM)
    ensures Good(Step(o, p, c))
  {
    FinalInv(o, p);
    PushedExtra(p, p.(savedStates := p.savedStates + [OBJECT_ITEM, PROPERTY_NAME]), [OBJECT_ITEM, PROPERTY_NAME]);
    hide FinalContainer, SavedFor, Chain;
  }

  lemma PropertyGood(o: Options, p: Parser, c: Byte)
    requires Inv(p) && (p.state == PROPERTY_NAME || p.state == PROPERTY_VALUE)
    ensures Good(Step(o, p, c))
  {
    if p.state == PROPERTY_VALUE {
      StartInv(p, true);
      StartInv(p, false);
    }
    hide StartContainer, SavedFor, Chain;
  }

  lemma NumberGood(p: Parser, c: Byte)
    requires Inv(p) && p.state == NUMBER
    ensures Good(StepNumber(p, c))
  {
    EndNumberInv(p);
    hide EndNumber, SavedFor, Chain;
  }

  lemma StringGood(o: Options, p: Parser, c: Byte)
    requires Inv(p) && (p.state == STRING || p.state == STRING_BACKSLESH)
    ensures Good(Step(o, p, c))
  {
    EndStringInv(p);
    hide EndString, SavedFor, Chain;
  }

  lemma SymbolGood(o: Options, p: Parser, c: Byte)
    requires Inv(p)
    requires p.state == STRING_SYMBOL_1 || p.state == STRING_SYMBOL_2 || p.state == STRING_SYMBOL_3
             || p.state == STRING_SYMBOL_4
    ensures Good(Step(o, p, c))
  {
    hide SavedFor, Chain, Add;
  }

  lemma StepGood(o: Options, p: Parser, c: Byte)
    requires Inv(p)
    ensures Good(Step(o, p, c))
  {
    match p.state {
      case BOF => BofGood(o, p, c);
      case AFTER_SLESH =>
      case INLINE_COMMENT => CommentGood(p, c);
      case ARRAY => ArrayGood(o, p, c);
      case ARRAY_ITEM => ItemGood(o, p, c);
      case OBJECT => ItemGood(o, p, c);
      case OBJECT_ITEM => ItemGood(o, p, c);
      case NUMBER => NumberGood(p, c);
      case PROPERTY_NAME => PropertyGood(o, p, c);
      case PROPERTY_VALUE => PropertyGood(o, p, c);
      case STRING => StringGood(o, p, c);
      case STRING_BACKSLESH => StringGood(o, p, c);
      case STRING_SYMBOL_1 => SymbolGood(o, p, c);
      case STRING_SYMBOL_2 => SymbolGood(o, p, c);
      case STRING_SYMBOL_3 => SymbolGood(o, p, c);
      case STRING_SYMBOL_4 => SymbolGood(o, p, c);
      case EOF =>
    }
  }

  // ----- Runs -----

  /** The loop of write. */
  ghost function Run(o: Options, p: Parser, data: seq<Byte>): Result<Parser>
    requires Inv(p)
    decreases |data|, if p.state == NUMBER then 1 else 0
  {
    if |data| == 0 then Ok(p)
    else
      StepGood(o, p, data[0]);
      match Step(o, p, data[0])
      case Failed => Err("Unexpected char")
      case More(q) => Run(o, q, data[1..])
      case Again(q) =>
        OnlyNumbersStepBack(o, p, data[0]);
        Run(o, q, data)
  }

  lemma OnlyNumbersStepBack(o: Options, p: Parser, c: Byte)
    requires Inv(p)
    ensures Step(o, p, c).Again? ==> p.state == NUMBER
  {
  }

  /** Whatever the input: until the first error every top, pop and cast of the parser is safe. */
  lemma {:induction false} RunInv(o: Options, p: Parser, data: seq<Byte>)
    requires Inv(p)
    ensures Run(o, p, data).Ok? ==> Inv(Run(o, p, data).value)
    decreases |data|, if p.state == NUMBER then 1 else 0
  {
    if |data| > 0 {
      StepGood(o, p, data[0]);
      OnlyNumbersStepBack(o, p, data[0]);
      hide Inv, Step;
      match Step(o, p, data[0])
      case Failed =>
      case More(q) => RunInv(o, q, data[1..]);
      case Again(q) => RunInv(o, q, data);
    }
  }

  /** The result does not depend on where the input is cut into writes. */
  lemma {:induction false} RunConcat(o: Options, p: Parser, a: seq<Byte>, b: seq<Byte>)
    requires Inv(p)
    ensures Run(o, p, a).Ok? ==> Inv(Run(o, p, a).value)
    ensures Run(o, p, a + b) == match Run(o, p, a) case Ok(q) => Run(o, q, b) case Err(e) => Err(e)
    decreases |a|, if p.state == NUMBER then 1 else 0
  {
    if |a| == 0 {
      assert a + b == b;
    } else {
      assert (a + b)[1..] == a[1..] + b;
      StepGood(o, p, a[0]);
      OnlyNumbersStepBack(o, p, a[0]);
      hide Inv, Step;
      match Step(o, p, a[0])
      case Failed =>
      case More(q) => RunConcat(o, q, a[1..], b);
      case Again(q) => RunConcat(o, q, a, b);
    }
  }

  /** The depths of the two stacks between tokens, and the kind of the current object. */
  lemma Depths(p: Parser)
    requires Inv(p)
    ensures p.state == ARRAY || p.state == ARRAY_ITEM ==>
              |p.savedStates| == |p.currentPath| + 1 && p.currentObject.Some? && p.currentObject.value.ArrayFrame?
    ensures p.state == OBJECT || p.state == OBJECT_ITEM ==>
              |p.savedStates| == |p.currentPath| + 1 && p.currentObject.Some? && p.currentObject.value.ObjectFrame?
    ensures p.state == PROPERTY_NAME || p.state == PROPERTY_VALUE ==>
              |p.savedStates| == |p.currentPath| + 1 >= 2 && p.currentObject.Some? && p.currentObject.value.PropertyFrame?
    ensures p.state == BOF || p.state == EOF ==> p.savedStates == [] && p.currentPath == []
    ensures p.state == STRING || p.state == NUMBER ==>
              |p.currentPath| + 1 <= |p.savedStates| <= |p.currentPath| + 3 && p.currentObject.Some?
  {
  }

  // ----- Documents -----

  /** final_data, for the end of the input. */
  predicate MayEnd(o: Options, p: Parser) {
    p.state == EOF || (p.state == BOF && o.multiRootObjects)
  }

  const DefaultOptions := Options(false, false)

  /** json_parser::parse: the document, the end of data, and the root object. */
  ghost function Parse(data: seq<Byte>): Result<Json> {
    match Run(DefaultOptions, Start, data)
    case Err(e) => Err(e)
    case Ok(p) =>
      RunInv(DefaultOptions, Start, data);
      if MayEnd(DefaultOptions, p) then Ok(Top(p.results)) else Err("Unexpected end of data")
  }
}
