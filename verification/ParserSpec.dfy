/**
 The parser as a function of one character at a time. Every entry of the state machine,
 with its error codes and events, under the default error handler, which recovers from
 illegal_comment alone.
 */
module ParserSpec {
  import opened JsonText

  /** The parser's states, by the part of the text they belong to. */
  datatype State =
    | Root | InObject | InArray | MemberName
    | Structure(at: StructureState)
    | InString(str: StringState)
    | InNumber(num: NumberState)
    | InLiteral(lit: LiteralState)
    | InComment(com: CommentState)
    | Cr | Lf | Done

  datatype StructureState =
    Start | ExpectCommaOrEnd | ExpectMemberNameOrEnd | ExpectMemberName | ExpectColon | ExpectValueOrEnd | ExpectValue

  datatype StringState =
    | StringU1 | Escape | EscapeU1 | EscapeU2 | EscapeU3 | EscapeU4
    | SurrogatePair1 | SurrogatePair2 | EscapeU6 | EscapeU7 | EscapeU8 | EscapeU9

  datatype NumberState = Minus | Zero | Digits | Fraction1 | Fraction2 | Exp1 | Exp2 | Exp3

  datatype LiteralState = N | Nu | Nul | T | Tr | Tru | F | Fa | Fal | Fals

  datatype CommentState = Slash | SlashSlash | SlashStar | SlashStarStar

  datatype Errc =
    | UnexpectedEof | MaxDepthExceeded | UnexpectedRightBrace | UnexpectedRightBracket
    | ExpectedCommaOrRightBrace | ExpectedCommaOrRightBracket | IllegalControlCharacter
    | IllegalCharacterInString | IllegalEscapedCharacter | ExpectedCodepointSurrogatePair
    | SingleQuote | ExpectedName | ExpectedColon | ExpectedValue | ExtraComma
    | InvalidJsonText | InvalidValue | InvalidNumber | LeadingZero
    | AssertionFailed

  /** The parser's fields. The buffers and code points are empty outside the states that use them. */
  datatype Parser = Parser(
    state: State, stack: seq<State>, depth: nat, maxDepth: nat,
    sbuf: string, nbuf: string, cp: nat, cp2: nat, events: seq<Event>)

  datatype Outcome = Running(p: Parser) | Failed(code: Errc, events: seq<Event>)

  function Initial(maxDepth: nat): Parser {
    Parser(Structure(Start), [Root], 0, maxDepth, "", "", 0, 0, [])
  }

  function Fail(p: Parser, code: Errc): Outcome {
    Failed(code, p.events)
  }

  function Emit(p: Parser, e: Event): Parser {
    p.(events := p.events + [e])
  }

  /** Repeated begin_document events count once. */
  function BeginDoc(p: Parser): Parser {
    if p.events != [] && p.events[|p.events| - 1] == BeginDocument then p else Emit(p, BeginDocument)
  }

  function Push(p: Parser, pushed: State, next: State): Parser {
    p.(stack := p.stack + [pushed], state := next)
  }

  /** Suspends the current state, to be resumed when next is over. */
  function Suspend(p: Parser, next: State): Outcome {
    Running(Push(p, p.state, next))
  }

  function Parent(p: Parser): State
    requires p.stack != []
  {
    p.stack[|p.stack| - 1]
  }

  /** Resumes the state on top of the stack. */
  function Resume(p: Parser): Parser
    requires p.stack != []
  {
    p.(state := Parent(p), stack := p.stack[..|p.stack| - 1])
  }

  predicate IsControl(c: char) {
    c < ' ' && c != '\t' && c != '\n' && c != '\r'
  }

  predicate IsDigit(c: char) {
    '0' <= c <= '9'
  }

  /** The value of a hexadecimal digit, or -1. */
  function Hex(c: char): int {
    if '0' <= c <= '9' then c as int - '0' as int
    else if 'a' <= c <= 'f' then c as int - 'a' as int + 10
    else if 'A' <= c <= 'F' then c as int - 'A' as int + 10
    else -1
  }

  // ---- Values and structures --------------------------------------------------

  function OpenObject(p: Parser): Outcome {
    if p.depth + 1 > p.maxDepth then Fail(p, MaxDepthExceeded)
    else Running(Emit(Push(p, InObject, Structure(ExpectMemberNameOrEnd)).(depth := p.depth + 1), BeginObject))
  }

  function OpenArray(p: Parser): Outcome {
    if p.depth + 1 > p.maxDepth then Fail(p, MaxDepthExceeded)
    else Running(Emit(Push(p, InArray, Structure(ExpectValueOrEnd)).(depth := p.depth + 1), BeginArray))
  }

  /** Where a finished literal or structure leaves the parser. */
  function AfterStructure(p: Parser): Outcome {
    if p.stack == [] then Fail(p, AssertionFailed)
    else if Parent(p) == Root then Running(Emit(p, EndDocument).(state := Done))
    else Running(p.(state := Structure(ExpectCommaOrEnd)))
  }

  function CloseObject(p: Parser): Outcome {
    if p.depth < 1 then Fail(p, UnexpectedRightBrace)
    else if p.stack == [] then Fail(p, AssertionFailed)
    else
      var q := Resume(p).(depth := p.depth - 1);
      match q.state
      case InObject => AfterStructure(Emit(q, EndObject))
      case InArray => Fail(q, ExpectedCommaOrRightBracket)
      case _ => Fail(q, UnexpectedRightBrace)
  }

  function CloseArray(p: Parser): Outcome {
    if p.depth < 1 then Fail(p, UnexpectedRightBracket)
    else if p.stack == [] then Fail(p, AssertionFailed)
    else
      var q := Resume(p).(depth := p.depth - 1);
      match q.state
      case InArray => AfterStructure(Emit(q, EndArray))
      case InObject => Fail(q, ExpectedCommaOrRightBrace)
      case _ => Fail(q, UnexpectedRightBracket)
  }

  /** after_value, the end of a number. */
  function AfterValue(p: Parser): Outcome {
    if p.stack == [] then Fail(p, AssertionFailed)
    else match Parent(p)
      case InArray => Running(p.(state := Structure(ExpectCommaOrEnd)))
      case InObject => Running(p.(state := Structure(ExpectCommaOrEnd)))
      case Root => Running(Emit(p, EndDocument).(state := Done))
      case _ => Fail(p, InvalidJsonText)
  }

  function EndNumber(p: Parser, kind: NumberKind): Outcome {
    AfterValue(Emit(p, NumberValue(kind, p.nbuf)).(nbuf := ""))
  }

  function EndString(p: Parser): Outcome {
    var q := p.(sbuf := "");
    if p.stack == [] then Fail(q, AssertionFailed)
    else match Parent(p)
      case MemberName => Running(Resume(Emit(q, Name(p.sbuf))).(state := Structure(ExpectColon)))
      case InObject => Running(Emit(q, StringValue(p.sbuf)).(state := Structure(ExpectCommaOrEnd)))
      case InArray => Running(Emit(q, StringValue(p.sbuf)).(state := Structure(ExpectCommaOrEnd)))
      case Root => Running(Emit(Emit(q, StringValue(p.sbuf)), EndDocument).(state := Done))
      case _ => Fail(q, InvalidJsonText)
  }

  function NextMemberOrElement(p: Parser): Outcome {
    if p.stack == [] then Fail(p, AssertionFailed)
    else match Parent(p)
      case InObject => Running(p.(state := Structure(ExpectMemberName)))
      case InArray => Running(p.(state := Structure(ExpectValue)))
      case Root => Running(p)
      case _ => Fail(p, InvalidJsonText)
  }

  // ---- White space and comments -------------------------------------------------

  predicate IsBlank(c: char) {
    c == '\r' || c == '\n' || c == ' ' || c == '\t' || c == '/'
  }

  /** Line ends, spaces and the start of a comment, the same in every structural state. */
  function Blank(p: Parser, c: char): Outcome
    requires IsBlank(c)
  {
    if c == '\r' then Suspend(p, Cr)
    else if c == '\n' then Suspend(p, Lf)
    else if c == '/' then Suspend(p, InComment(Slash))
    else Running(p)
  }

  function CommentStep(p: Parser, c: char): Outcome
    requires p.state.InComment?
  {
    match p.state.com
    case Slash =>
      if c == '*' then Running(p.(state := InComment(SlashStar)))
      else if c == '/' then Running(p.(state := InComment(SlashSlash)))
      else Fail(p, InvalidJsonText)
    case SlashStar =>
      if c == '\r' then Suspend(p, Cr)
      else if c == '\n' then Suspend(p, Lf)
      else if c == '*' then Running(p.(state := InComment(SlashStarStar)))
      else Running(p)
    case SlashSlash => Running(p)
    case SlashStarStar =>
      if c != '/' then Running(p.(state := InComment(SlashStar)))
      else if p.stack == [] then Fail(p, AssertionFailed)
      else Running(Resume(p))
  }

  // ---- Structural states ----------------------------------------------------------

  predicate StartsValue(c: char) {
    c == '{' || c == '[' || c == '"' || c == '-' || IsDigit(c) || c == 'n' || c == 't' || c == 'f'
  }

  function BeginValue(p: Parser, c: char): Outcome
    requires StartsValue(c)
  {
    if c == '{' then OpenObject(p)
    else if c == '[' then OpenArray(p)
    else if c == '"' then Running(p.(state := InString(StringU1), sbuf := ""))
    else if c == '-' then Running(p.(state := InNumber(Minus), nbuf := "-"))
    else if c == '0' then Running(p.(state := InNumber(Zero), nbuf := "0"))
    else if c == 'n' then Running(p.(state := InLiteral(N)))
    else if c == 't' then Running(p.(state := InLiteral(T)))
    else if c == 'f' then Running(p.(state := InLiteral(F)))
    else Running(p.(state := InNumber(Digits), nbuf := [c]))
  }

  function StructuralStep(p0: Parser, c: char): Outcome
    requires p0.state.Structure?
  {
    var p := if p0.state.at.Start? then BeginDoc(p0) else p0;
    if IsControl(c) then Fail(p, IllegalControlCharacter)
    else if IsBlank(c) then Blank(p, c)
    else
      match p.state.at
      case Start =>
        if StartsValue(c) then BeginValue(p, c)
        else if c == '}' then Fail(p, UnexpectedRightBrace)
        else if c == ']' then Fail(p, UnexpectedRightBracket)
        else Fail(p, InvalidJsonText)
      case ExpectCommaOrEnd =>
        if c == '}' then CloseObject(p)
        else if c == ']' then CloseArray(p)
        else if c == ',' then NextMemberOrElement(p)
        else if p.stack == [] then Fail(p, AssertionFailed)
        else if Parent(p) == InArray then Fail(p, ExpectedCommaOrRightBracket)
        else if Parent(p) == InObject then Fail(p, ExpectedCommaOrRightBrace)
        else Running(p)
      case ExpectMemberNameOrEnd =>
        if c == '}' then CloseObject(p)
        else if c == '"' then Running(Push(p, MemberName, InString(StringU1)).(sbuf := ""))
        else if c == '\'' then Fail(p, SingleQuote)
        else Fail(p, ExpectedName)
      case ExpectMemberName =>
        if c == '"' then Running(Push(p, MemberName, InString(StringU1)).(sbuf := ""))
        else if c == '}' then Fail(p, ExtraComma)
        else if c == '\'' then Fail(p, SingleQuote)
        else Fail(p, ExpectedName)
      case ExpectColon =>
        if c == ':' then Running(p.(state := Structure(ExpectValue))) else Fail(p, ExpectedColon)
      case ExpectValue =>
        if StartsValue(c) then BeginValue(p, c)
        else if c == ']' then
          if p.stack == [] then Fail(p, AssertionFailed)
          else Fail(p, if Parent(p) == InArray then ExtraComma else ExpectedValue)
        else if c == '\'' then Fail(p, SingleQuote)
        else Fail(p, ExpectedValue)
      case ExpectValueOrEnd =>
        if StartsValue(c) then BeginValue(p, c)
        else if c == ']' then CloseArray(p)
        else if c == '\'' then Fail(p, SingleQuote)
        else Fail(p, ExpectedValue)
  }

  // ---- Strings --------------------------------------------------------------------

  predicate IsSurrogate(cp: int) {
    0xD800 <= cp < 0xE000
  }

  /** A code point converted to text; what is no scalar value converts to nothing. */
  function Convert(cp: int): string {
    if 0 <= cp < 0x11_0000 && !IsSurrogate(cp) then [cp as char] else ""
  }

  function SurrogatePair(cp: nat, cp2: nat): int {
    0x1_0000 + (cp % 0x400) * 0x400 + cp2 % 0x400
  }

  function Unescaped(c: char): string {
    if c == '"' || c == '\\' || c == '/' then [c]
    else if c == 'b' then "\U{8}"
    else if c == 'f' then "\U{C}"
    else if c == 'n' then "\n"
    else if c == 'r' then "\r"
    else if c == 't' then "\t"
    else ""
  }

  function StringStep(p: Parser, c: char): Outcome
    requires p.state.InString?
  {
    if InHex(p.state.str) then HexStep(p, c)
    else match p.state.str
    case StringU1 =>
      if IsControl(c) then Fail(p, IllegalControlCharacter)
      else if c == '\r' || c == '\n' || c == '\t' then Fail(p, IllegalCharacterInString)
      else if c == '\\' then Running(p.(state := InString(Escape)))
      else if c == '"' then EndString(p)
      else Running(p.(sbuf := p.sbuf + [c]))
    case Escape =>
      if c == 'u' then Running(p.(state := InString(EscapeU1), cp := 0))
      else if Unescaped(c) == "" then Fail(p, IllegalEscapedCharacter)
      else Running(p.(state := InString(StringU1), sbuf := p.sbuf + Unescaped(c)))
    case SurrogatePair1 =>
      if c == '\\' then Running(p.(state := InString(SurrogatePair2), cp2 := 0)) else Fail(p, ExpectedCodepointSurrogatePair)
    case SurrogatePair2 =>
      if c == 'u' then Running(p.(state := InString(EscapeU6))) else Fail(p, ExpectedCodepointSurrogatePair)
  }

  predicate InHex(s: StringState) {
    s.EscapeU1? || s.EscapeU2? || s.EscapeU3? || s.EscapeU4? ||
    s.EscapeU6? || s.EscapeU7? || s.EscapeU8? || s.EscapeU9?
  }

  /** One of the four hexadecimal digits of an escape. */
  function HexStep(p: Parser, c: char): Outcome
    requires p.state.InString? && InHex(p.state.str)
  {
    if Hex(c) < 0 then Fail(p, ExpectedValue)
    else if p.state.str.EscapeU4? then Running(EndCodepoint(p, p.cp * 16 + Hex(c)))
    else if p.state.str.EscapeU9? then
      Running(p.(state := InString(StringU1), cp := 0, cp2 := 0,
                 sbuf := p.sbuf + Convert(SurrogatePair(p.cp, p.cp2 * 16 + Hex(c)))))
    else if InSecond(p.state.str) then
      Running(p.(state := InString(NextHex(p.state.str)), cp2 := p.cp2 * 16 + Hex(c)))
    else Running(p.(state := InString(NextHex(p.state.str)), cp := p.cp * 16 + Hex(c)))
  }

  predicate InSecond(s: StringState) {
    s.EscapeU6? || s.EscapeU7? || s.EscapeU8? || s.EscapeU9?
  }

  function NextHex(s: StringState): StringState {
    match s
    case EscapeU1 => EscapeU2
    case EscapeU2 => EscapeU3
    case EscapeU3 => EscapeU4
    case EscapeU6 => EscapeU7
    case EscapeU7 => EscapeU8
    case EscapeU8 => EscapeU9
    case _ => StringU1
  }

  /** A first code point is text by itself, or waits for the other half of a surrogate pair. */
  function EndCodepoint(p: Parser, cp: nat): Parser {
    if 0xD800 <= cp < 0xDC00 then p.(state := InString(SurrogatePair1), cp := cp)
    else p.(state := InString(StringU1), sbuf := p.sbuf + Convert(cp), cp := 0)
  }

  // ---- Numbers --------------------------------------------------------------------

  /** States in which the digits so far are a whole number, and its kind. */
  predicate EndsNumber(s: NumberState) {
    s.Zero? || s.Digits? || s.Fraction2? || s.Exp3?
  }

  function KindOf(s: NumberState): NumberKind
    requires EndsNumber(s)
  {
    if s.Fraction2? then Fixed else if s.Exp3? then Scientific else Integer
  }

  predicate IsDelimiter(c: char) {
    IsBlank(c) || c == '}' || c == ']' || c == ','
  }

  /** What a delimiter does once the number before it is over. */
  function Delimit(p: Parser, c: char): Outcome
    requires IsDelimiter(c)
  {
    if c == '}' then CloseObject(p)
    else if c == ']' then CloseArray(p)
    else if c == ',' then NextMemberOrElement(p)
    else Blank(p, c)
  }

  function Shift(p: Parser, next: NumberState, text: string): Outcome {
    Running(p.(state := InNumber(next), nbuf := p.nbuf + text))
  }

  function NumberStep(p: Parser, c: char): Outcome
    requires p.state.InNumber?
  {
    if EndsNumber(p.state.num) && IsDelimiter(c) then
      var q := EndNumber(p, KindOf(p.state.num));
      if q.Failed? then q else Delimit(q.p, c)
    else
      match p.state.num
      case Minus =>
        if c == '0' then Shift(p, Zero, "0")
        else if IsDigit(c) then Shift(p, Digits, [c])
        else Fail(p, ExpectedValue)
      case Zero =>
        if c == '.' then Shift(p, Fraction1, ".")
        else if c == 'e' || c == 'E' then Shift(p, Exp1, [c])
        else Fail(p, if IsDigit(c) then LeadingZero else InvalidNumber)
      case Digits =>
        if IsDigit(c) then Shift(p, Digits, [c])
        else if c == '.' then Shift(p, Fraction1, ".")
        else if c == 'e' || c == 'E' then Shift(p, Exp1, [c])
        else Fail(p, InvalidNumber)
      case Fraction1 =>
        if IsDigit(c) then Shift(p, Fraction2, [c]) else Fail(p, InvalidNumber)
      case Fraction2 =>
        if IsDigit(c) then Shift(p, Fraction2, [c])
        else if c == 'e' || c == 'E' then Shift(p, Exp1, [c])
        else Fail(p, InvalidNumber)
      case Exp1 =>
        if c == '+' then Shift(p, Exp2, "")
        else if c == '-' then Shift(p, Exp2, "-")
        else if IsDigit(c) then Shift(p, Exp3, [c])
        else Fail(p, ExpectedValue)
      case Exp2 =>
        if IsDigit(c) then Shift(p, Exp3, [c]) else Fail(p, ExpectedValue)
      case Exp3 =>
        if IsDigit(c) then Shift(p, Exp3, [c]) else Fail(p, InvalidNumber)
  }

  // ---- Literals -------------------------------------------------------------------

  function LiteralStep(p: Parser, c: char): Outcome
    requires p.state.InLiteral?
  {
    match p.state.lit
    case N => if c == 'u' then Running(p.(state := InLiteral(Nu))) else Fail(p, InvalidValue)
    case Nu => if c == 'l' then Running(p.(state := InLiteral(Nul))) else Fail(p, InvalidValue)
    case Nul => if c == 'l' then AfterStructure(Emit(p, NullValue)) else Fail(p, InvalidValue)
    case T => if c == 'r' then Running(p.(state := InLiteral(Tr))) else Fail(p, InvalidValue)
    case Tr => if c == 'u' then Running(p.(state := InLiteral(Tru))) else Fail(p, InvalidValue)
    case Tru => if c == 'e' then AfterStructure(Emit(p, BoolValue(true))) else Fail(p, InvalidValue)
    case F => if c == 'a' then Running(p.(state := InLiteral(Fa))) else Fail(p, InvalidValue)
    case Fa => if c == 'l' then Running(p.(state := InLiteral(Fal))) else Fail(p, InvalidValue)
    case Fal => if c == 's' then Running(p.(state := InLiteral(Fals))) else Fail(p, InvalidValue)
    case Fals => if c == 'e' then AfterStructure(Emit(p, BoolValue(false))) else Fail(p, InvalidValue)
  }

  // ---- The whole machine ----------------------------------------------------------

  /** States that can give way to the one below without taking the character. */
  predicate GivesWay(s: State, c: char) {
    s.Lf? || (s.Cr? && c != '\n') || (s == InComment(SlashSlash) && (c == '\r' || c == '\n'))
  }

  /** A character in a state that takes it. */
  function Take(p: Parser, c: char): Outcome
    requires !GivesWay(p.state, c)
  {
    match p.state
    case Structure(_) => StructuralStep(p, c)
    case InString(_) => StringStep(p, c)
    case InNumber(_) => NumberStep(p, c)
    case InLiteral(_) => LiteralStep(p, c)
    case InComment(_) => CommentStep(p, c)
    case Done => Running(p)
    case Cr => if p.stack == [] then Fail(p, AssertionFailed) else Running(Resume(p))
    case _ => Fail(p, AssertionFailed)
  }

  /** One character of input. Once the document is done, further characters are left unread. */
  function Step(p: Parser, c: char): Outcome
    decreases |p.stack|
  {
    if GivesWay(p.state, c) then
      if p.stack == [] then Fail(p, AssertionFailed) else Step(Resume(p), c)
    else Take(p, c)
  }

  function Run(o: Outcome, s: string): Outcome
    decreases |s|
  {
    if s == [] || o.Failed? then o else Run(Step(o.p, s[0]), s[1..])
  }

  /** end_parse. */
  function Finish(p: Parser): Outcome {
    if p.stack == [] then Fail(p, AssertionFailed)
    else
      var o := if Parent(p) == Root && p.state.InNumber? && EndsNumber(p.state.num) then EndNumber(p, KindOf(p.state.num)) else Running(p);
      if o.Failed? then o
      else if (o.p.state.Lf? || o.p.state.Cr?) && o.p.stack == [] then Fail(o.p, AssertionFailed)
      else
        var q := if o.p.state.Lf? || o.p.state.Cr? then Resume(o.p) else o.p;
        if q.state.Done? || q.state == Structure(Start) then Running(q) else Fail(q, UnexpectedEof)
  }

  function FinishOutcome(o: Outcome): Outcome {
    if o.Failed? then o else Finish(o.p)
  }

  /** Parsing a whole text. */
  function Parse(maxDepth: nat, s: string): Outcome {
    FinishOutcome(Run(Running(Initial(maxDepth)), s))
  }

  lemma {:induction false} RunAppend(o: Outcome, s: string, t: string)
    ensures Run(o, s + t) == Run(Run(o, s), t)
    decreases |s|
  {
    if s == [] {
      assert s + t == t;
    } else if o.Running? {
      assert (s + t)[1..] == s[1..] + t;
      RunAppend(Step(o.p, s[0]), s[1..], t);
    }
  }

  lemma RunStep(p: Parser, s: string)
    requires s != []
    ensures Run(Running(p), s) == Run(Step(p, s[0]), s[1..])
  {
  }

  /** What is left of a literal, and the event it ends in. */
  function Suffix(s: LiteralState): string
  {
    match s
    case N => "ull" case Nu => "ll" case Nul => "l"
    case T => "rue" case Tr => "ue" case Tru => "e"
    case F => "alse" case Fa => "lse" case Fal => "se" case Fals => "e"
  }

  function LiteralEvent(s: LiteralState): Event
  {
    if s.N? || s.Nu? || s.Nul? then NullValue else BoolValue(s.T? || s.Tr? || s.Tru?)
  }

  /** The state after the next character of a literal. */
  function NextOf(s: LiteralState): (n: LiteralState)
    requires |Suffix(s)| > 1
    ensures Suffix(n) == Suffix(s)[1..] && LiteralEvent(n) == LiteralEvent(s)
  {
    match s
    case N => Nu case Nu => Nul case T => Tr case Tr => Tru
    case F => Fa case Fa => Fal case Fal => Fals
  }

  lemma LiteralStepIs(p: Parser, c: char)
    requires p.state.InLiteral?
    ensures var w := Suffix(p.state.lit);
            Step(p, c) ==
              if c != w[0] then Fail(p, InvalidValue)
              else if |w| > 1 then Running(p.(state := InLiteral(NextOf(p.state.lit))))
              else AfterStructure(Emit(p, LiteralEvent(p.state.lit)))
  {
  }

  /** Comparing a whole literal at once decides as its states do one character at a time. */
  lemma {:induction false} LiteralAhead(p: Parser, s: string, w: string)
    requires p.state.InLiteral? && w == Suffix(p.state.lit) && |s| >= |w|
    ensures Run(Running(p), s) ==
              if s[..|w|] == w then Run(AfterStructure(Emit(p, LiteralEvent(p.state.lit))), s[|w|..])
              else Fail(p, InvalidValue)
    decreases |w|
  {
    RunStep(p, s);
    LiteralStepIs(p, s[0]);
    if s[0] != w[0] {
      assert s[..|w|][0] != w[0];
    } else if |w| == 1 {
      assert s[..1] == w;
    } else {
      var q := p.(state := InLiteral(NextOf(p.state.lit)));
      LiteralAhead(q, s[1..], w[1..]);
      assert s[..|w|] == [s[0]] + s[1..][..|w| - 1];
      assert w == [w[0]] + w[1..];
      assert s[1..][|w| - 1..] == s[|w|..];
    }
  }

  /** In a string, a number or a structural state the character is taken there. */
  lemma StringStepIs(p: Parser, c: char)
    requires p.state.InString?
    ensures Step(p, c) == StringStep(p, c)
  {
    hide StringStep;
  }

  lemma NumberStepIs(p: Parser, c: char)
    requires p.state.InNumber?
    ensures Step(p, c) == NumberStep(p, c)
  {
    hide NumberStep;
  }

  lemma RunNothing(o: Outcome)
    ensures Run(o, "") == o
  {
  }
}
