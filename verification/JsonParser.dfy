/** The resumable parser as a class, and its agreement with the one-character machine. */
module JsonParsing {
  import opened JsonText
  import opened ParserSpec
  import opened ParserInvariant

  datatype Status = Ok | Error(code: Errc)

  /** Events with repeated begin_document calls counted once. */
  function Collapse(es: seq<Event>): (r: seq<Event>)
    ensures es == [] <==> r == []
    ensures es != [] ==> r[|r| - 1] == es[|es| - 1]
  {
    if es == [] then []
    else
      var init, last := es[..|es| - 1], es[|es| - 1];
      if last == BeginDocument && init != [] && init[|init| - 1] == BeginDocument then Collapse(init)
      else Collapse(init) + [last]
  }

  predicate Suspendable(stack: seq<State>) {
    forall i :: 0 <= i < |stack| ==> !stack[i].InString? && !stack[i].InNumber?
  }

  /** States in which a code point is being collected. */
  predicate UsesCp(s: State) {
    s.InString? && !s.str.StringU1? && !s.str.Escape?
  }

  predicate UsesCp2(s: State) {
    s.InString? && (s.str.SurrogatePair2? || s.str.EscapeU6? || s.str.EscapeU7? || s.str.EscapeU8? || s.str.EscapeU9?)
  }

  lemma RunFailed(o: Outcome, s: string)
    requires o.Failed?
    ensures Run(o, s) == o
  {
  }

  lemma {:induction false} RunDone(p: Parser, s: string)
    requires p.state.Done?
    ensures Run(Running(p), s) == Running(p)
  {
    if s != [] {
      RunDone(p, s[1..]);
    }
  }

  /** States in which spaces and tabs change nothing. */
  predicate IgnoresSpaces(p: Parser) {
    p.state.Done? || (p.state.Structure? && (p.state.at.Start? ==> BeginDoc(p) == p))
  }

  lemma SpaceSkipped(p: Parser, s: string)
    requires IgnoresSpaces(p) && s != [] && (s[0] == ' ' || s[0] == '\t')
    ensures Run(Running(p), s) == Run(Running(p), s[1..])
  {
    assert Take(p, s[0]) == Running(p);
  }

  /** The characters a string takes as they are. */
  predicate IsPlain(c: char) {
    !IsControl(c) && c != '\r' && c != '\n' && c != '\t' && c != '\\' && c != '"'
  }

  lemma PlainChar(p: Parser, s: string)
    requires p.state == InString(StringU1) && s != [] && IsPlain(s[0])
    ensures Run(Running(p), s) == Run(Running(p.(sbuf := p.sbuf + [s[0]])), s[1..])
  {
    RunStep(p, s);
  }

  lemma NumberEnds(p: Parser, c: char, rest: string)
    requires p.state.InNumber? && EndsNumber(p.state.num) && IsDelimiter(c)
    ensures var o := EndNumber(p, KindOf(p.state.num));
            Run(Step(p, c), rest) == if o.Failed? then o else Run(Delimit(o.p, c), rest)
  {
  }

  /** begin_document makes no difference to what a character does, once it is logged. */
  lemma BeginsOnce(p: Parser, c: char)
    requires p.state.Structure?
    ensures Step(p, c) == StructuralStep(if p.state.at.Start? then BeginDoc(p) else p, c)
  {
  }

  lemma BlanksAnywhere(p: Parser, c: char)
    requires p.state.Structure? && (p.state.at.Start? ==> BeginDoc(p) == p)
    ensures IsControl(c) ==> StructuralStep(p, c) == Fail(p, IllegalControlCharacter)
    ensures IsBlank(c) ==> StructuralStep(p, c) == Blank(p, c) && !IsControl(c)
  {
  }

  /** What follows a value does not depend on the state its last character was read in. */
  lemma AnyStateAfter(p: Parser)
    ensures AfterValue(p) == AfterValue(p.(state := Done))
    ensures AfterStructure(p) == AfterStructure(p.(state := Done))
  {
  }

  lemma SameAfter(p: Parser, q: Parser)
    requires p.(state := Done) == q.(state := Done)
    ensures AfterStructure(p) == AfterStructure(q)
  {
    AnyStateAfter(p);
    AnyStateAfter(q);
  }

  lemma HexOrFail(p: Parser, c: char)
    requires p.state.InString? && InHex(p.state.str)
    ensures Hex(c) < 0 ==> HexStep(p, c) == Fail(p, ExpectedValue)
  {
  }

  lemma MarkerFails(p: Parser, s: string)
    requires s != [] && (p.state.Root? || p.state.InObject? || p.state.InArray? || p.state.MemberName?)
    ensures Run(Running(p), s) == Fail(p, AssertionFailed)
  {
    RunStep(p, s);
  }

  lemma GiveWay(p: Parser, s: string)
    requires s != [] && GivesWay(p.state, s[0])
    ensures Run(Running(p), s) ==
              if p.stack == [] then Fail(p, AssertionFailed) else Run(Running(Resume(p)), s)
  {
    hide Take;
    RunStep(p, s);
    if p.stack != [] {
      RunStep(Resume(p), s);
    }
  }

  class JsonParser {
    var state: State
    var stack: seq<State>
    var depth: nat
    var maxDepth: nat
    var sbuf: string
    var nbuf: string
    var cp: nat
    var cp2: nat
    var input: string
    var ptr: nat
    /** What the content handler has received. */
    var events: seq<Event>

    /** The string buffer is empty between strings; no string or number is ever suspended. */
    ghost predicate Valid()
      reads this
    {
      ptr <= |input| && (!state.InString? ==> sbuf == "") && Suspendable(stack)
    }

    ghost function ViewIn(s: State): Parser
      reads this
    {
      Parser(s, stack, depth, maxDepth, sbuf, if s.InNumber? then nbuf else "",
             if UsesCp(s) then cp else 0, if UsesCp2(s) then cp2 else 0, Collapse(events))
    }

    /** The machine state the fields stand for. */
    ghost function View(): Parser
      reads this
    {
      ViewIn(state)
    }

    /** What the machine will make of the unread input. */
    ghost function Future(): Outcome
      requires ptr <= |input|
      reads this
    {
      Run(Running(View()), input[ptr..])
    }

    /** The fields and the error code are those of a machine outcome. */
    ghost predicate Yields(o: Outcome, ec: Status)
      reads this
    {
      match o
      case Running(q) => ec == Ok && View() == q
      case Failed(code, es) => ec == Error(code) && Collapse(events) == es
    }

    /** An outcome of the machine is the one still to come, or the error just found. */
    ghost predicate Continues(o: Outcome, ec: Status)
      reads this
    {
      if ec == Ok then Valid() && o == Future() else o == Failed(ec.code, Collapse(events))
    }

    constructor (maxNestingDepth: nat)
      ensures Valid() && View() == Initial(maxNestingDepth) && input == ""
    {
      state, stack, depth, maxDepth := Structure(Start), [Root], 0, maxNestingDepth;
      sbuf, nbuf, cp, cp2 := "", "", 0, 0;
      input, ptr, events := "", 0, [];
    }

    method Update(data: string)
      requires Valid()
      modifies this`input, this`ptr
      ensures Valid() && input == data && ptr == 0
    {
      input, ptr := data, 0;
    }

    method Notify(e: Event)
      modifies this`events
      ensures View() == if e == BeginDocument then BeginDoc(old(View())) else Emit(old(View()), e)
      ensures e != BeginDocument ==> Collapse(events) == old(Collapse(events)) + [e]
    {
      events := events + [e];
      assert events[..|events| - 1] == old(events);
    }

    // ---- Structures ---------------------------------------------------------------

    method BeginObject() returns (ec: Status)
      requires Valid() && state.Structure?
      modifies this`state, this`stack, this`depth, this`events
      ensures Yields(OpenObject(old(View())), ec) && Valid()
    {
      depth := depth + 1;
      if depth > maxDepth {
        return Error(MaxDepthExceeded);
      }
      stack := stack + [InObject];
      state := Structure(ExpectMemberNameOrEnd);
      Notify(Event.BeginObject);
      ec := Ok;
    }

    method BeginArray() returns (ec: Status)
      requires Valid() && state.Structure?
      modifies this`state, this`stack, this`depth, this`events
      ensures Yields(OpenArray(old(View())), ec) && Valid()
    {
      depth := depth + 1;
      if depth > maxDepth {
        return Error(MaxDepthExceeded);
      }
      stack := stack + [InArray];
      state := Structure(ExpectValueOrEnd);
      Notify(Event.BeginArray);
      ec := Ok;
    }

    /** The parent decides whether the document is over; there must be one. */
    method LeaveValue() returns (ec: Status)
      requires Valid() && !state.InNumber? && !state.InString?
      modifies this`state, this`events
      ensures Yields(AfterStructure(old(View())), ec) && Valid()
    {
      if |stack| == 0 {
        return Error(AssertionFailed);
      }
      if stack[|stack| - 1] == Root {
        state := Done;
        Notify(EndDocument);
      } else {
        state := Structure(ExpectCommaOrEnd);
      }
      ec := Ok;
    }

    method EndObject() returns (ec: Status)
      requires Valid() && (state.Structure? || state.Done?)
      modifies this`state, this`stack, this`depth, this`events
      ensures Yields(CloseObject(old(View())), ec)
      ensures ec == Ok ==> Valid()
    {
      hide Collapse;
      hide AfterStructure;
      ghost var p := View();
      if depth < 1 {
        return Error(UnexpectedRightBrace);
      }
      depth := depth - 1;
      if |stack| == 0 {
        return Error(AssertionFailed);
      }
      state, stack := stack[|stack| - 1], stack[..|stack| - 1];
      if state == InObject {
        assert View() == Resume(p).(depth := p.depth - 1);
        Notify(Event.EndObject);
      } else if state == InArray {
        return Error(ExpectedCommaOrRightBracket);
      } else {
        return Error(UnexpectedRightBrace);
      }
      ec := LeaveValue();
    }

    method EndArray() returns (ec: Status)
      requires Valid() && (state.Structure? || state.Done?)
      modifies this`state, this`stack, this`depth, this`events
      ensures Yields(CloseArray(old(View())), ec)
      ensures ec == Ok ==> Valid()
    {
      hide Collapse;
      hide AfterStructure;
      ghost var p := View();
      if depth < 1 {
        return Error(UnexpectedRightBracket);
      }
      depth := depth - 1;
      if |stack| == 0 {
        return Error(AssertionFailed);
      }
      state, stack := stack[|stack| - 1], stack[..|stack| - 1];
      if state == InArray {
        assert View() == Resume(p).(depth := p.depth - 1);
        Notify(Event.EndArray);
      } else if state == InObject {
        return Error(ExpectedCommaOrRightBrace);
      } else {
        return Error(UnexpectedRightBracket);
      }
      ec := LeaveValue();
    }

    method BeginMemberOrElement() returns (ec: Status)
      requires Valid() && (state.Structure? || state.Done?)
      modifies this`state
      ensures Yields(NextMemberOrElement(old(View())), ec) && Valid()
    {
      if |stack| == 0 {
        return Error(AssertionFailed);
      }
      ec := Ok;
      match stack[|stack| - 1]
      case InObject => state := Structure(ExpectMemberName);
      case InArray => state := Structure(ExpectValue);
      case Root =>
      case _ => ec := Error(InvalidJsonText);
    }

    // ---- White space ----------------------------------------------------------------

    method SkipWhitespace()
      requires Valid() && IgnoresSpaces(View())
      modifies this`ptr
      ensures Valid() && Future() == old(Future()) && old(ptr) <= ptr
      ensures old(ptr) < |input| && (input[old(ptr)] == ' ' || input[old(ptr)] == '\t') ==> old(ptr) < ptr
    {
      while ptr < |input| && (input[ptr] == ' ' || input[ptr] == '\t')
        invariant Valid() && Future() == old(Future()) && old(ptr) <= ptr
        invariant View() == old(View()) && input == old(input)
        invariant ptr == old(ptr) || old(ptr) < ptr
      {
        SpaceSkipped(View(), input[ptr..]);
        assert input[ptr..][1..] == input[ptr + 1..];
        ptr := ptr + 1;
      }
    }

    /** A blank character, in a structural state or after the root value. */
    method BlankChar()
      requires Valid() && ptr < |input| && IsBlank(input[ptr]) && IgnoresSpaces(View())
      modifies this`state, this`stack, this`ptr
      ensures Valid() && Future() == Run(Blank(old(View()), input[old(ptr)]), input[old(ptr) + 1..]) && old(ptr) < ptr
    {
      var c := input[ptr];
      if c == ' ' || c == '\t' {
        SpaceSkipped(View(), input[ptr..]);
        assert input[ptr..][1..] == input[ptr + 1..];
        SkipWhitespace();
      } else {
        stack := stack + [state];
        state := if c == '\r' then Cr else if c == '\n' then Lf else InComment(Slash);
        ptr := ptr + 1;
      }
    }

    // ---- Strings --------------------------------------------------------------------

    method EndStringValue(s: string) returns (ec: Status)
      requires sbuf == "" && Suspendable(stack)
      modifies this`state, this`stack, this`events
      ensures Yields(EndString(old(ViewIn(InString(StringU1))).(sbuf := s)), ec)
      ensures ec == Ok ==> !state.InString? && Suspendable(stack)
    {
      hide Collapse;
      if |stack| == 0 {
        return Error(AssertionFailed);
      }
      ec := Ok;
      match stack[|stack| - 1]
      case MemberName => EndName(s);
      case InObject => EndText(s);
      case InArray => EndText(s);
      case Root => EndText(s);
      case _ => ec := Error(InvalidJsonText);
    }

    /** A member name: back to the object, where a colon is next. */
    method EndName(s: string)
      requires sbuf == "" && Suspendable(stack) && stack != [] && stack[|stack| - 1] == MemberName
      modifies this`state, this`stack, this`events
      ensures View() == Resume(Emit(old(ViewIn(InString(StringU1))), Name(s))).(state := Structure(ExpectColon))
      ensures !state.InString? && Suspendable(stack)
    {
      hide Collapse;
      Notify(Name(s));
      stack := stack[..|stack| - 1];
      state := Structure(ExpectColon);
    }

    /** A string as a value: the next comma, or the end of the document. */
    method EndText(s: string)
      requires sbuf == "" && Suspendable(stack) && stack != []
      modifies this`state, this`events
      ensures var q := Emit(old(ViewIn(InString(StringU1))), StringValue(s));
              View() == if stack[|stack| - 1] == Root then Emit(q, EndDocument).(state := Done)
                        else q.(state := Structure(ExpectCommaOrEnd))
      ensures !state.InString?
    {
      hide Collapse;
      Notify(StringValue(s));
      if stack[|stack| - 1] == Root {
        state := Done;
        Notify(EndDocument);
      } else {
        state := Structure(ExpectCommaOrEnd);
      }
    }

    /** One character of an escape sequence, in the state part. */
    method EscapeChar(part: StringState) returns (ec: Status, next: StringState)
      requires state.InString? && ptr < |input| && part != StringU1
      modifies this`sbuf, this`cp, this`cp2, this`ptr
      ensures match Step(old(ViewIn(InString(part))), input[old(ptr)])
              case Running(q) => ec == Ok && ViewIn(InString(next)) == q && ptr == old(ptr) + 1
              case Failed(code, es) => ec == Error(code) && Collapse(events) == es
    {
      hide Collapse;
      hide Step;
      hide EndString;
      hide HexStep;
      StringStepIs(ViewIn(InString(part)), input[ptr]);
      var c := input[ptr];
      ec, next := Ok, part;
      if InHex(part) {
        HexOrFail(ViewIn(InString(part)), c);
        if Hex(c) < 0 {
          return Error(ExpectedValue), part;
        }
        next := HexDigit(part, c);
      } else {
        match part
        case Escape =>
          if c == 'u' {
            cp := 0;
            next := EscapeU1;
          } else {
            var t := Unescaped(c);
            if t == "" {
              return Error(IllegalEscapedCharacter), part;
            }
            sbuf := sbuf + t;
            next := StringU1;
          }
        case SurrogatePair1 =>
          if c != '\\' {
            return Error(ExpectedCodepointSurrogatePair), part;
          }
          cp2 := 0;
          next := SurrogatePair2;
        case SurrogatePair2 =>
          if c != 'u' {
            return Error(ExpectedCodepointSurrogatePair), part;
          }
          next := EscapeU6;
      }
      ptr := ptr + 1;
    }

    /** A hexadecimal digit of the first or the second code point. */
    method HexDigit(part: StringState, c: char) returns (next: StringState)
      requires InHex(part) && Hex(c) >= 0
      modifies this`sbuf, this`cp, this`cp2
      ensures Running(ViewIn(InString(next))) == HexStep(old(ViewIn(InString(part))), c)
    {
      hide Collapse;
      hide Convert;
      hide SurrogatePair;
      next := NextHex(part);
      if InSecond(part) {
        cp2 := cp2 * 16 + Hex(c);
        if part == EscapeU9 {
          sbuf := sbuf + Convert(SurrogatePair(cp, cp2));
        }
      } else {
        cp := cp * 16 + Hex(c);
        if part == EscapeU4 && 0xD800 <= cp < 0xDC00 {
          next := SurrogatePair1;
        } else if part == EscapeU4 {
          sbuf := sbuf + Convert(cp);
        }
      }
    }

    /** Plain characters are taken in one piece, up to a quote, an escape or the end of the input. */
    method ScanPlain() returns (sb: nat)
      requires Valid() && state.InString?
      modifies this`ptr
      ensures sb == old(ptr) <= ptr <= |input|
      ensures ptr < |input| ==> !IsPlain(input[ptr])
      ensures Run(Running(ViewIn(InString(StringU1))), input[sb..])
           == Run(Running(ViewIn(InString(StringU1)).(sbuf := sbuf + input[sb..ptr])), input[ptr..])
    {
      hide Step;
      hide Run;
      hide Collapse;
      sb := ptr;
      ghost var p := ViewIn(InString(StringU1));
      ghost var whole := input[sb..];
      assert p.sbuf + input[sb..ptr] == p.sbuf;
      while ptr < |input| && IsPlain(input[ptr])
        invariant sb <= ptr <= |input| && ViewIn(InString(StringU1)) == p
        invariant Run(Running(p), whole) == Run(Running(p.(sbuf := p.sbuf + input[sb..ptr])), input[ptr..])
      {
        ghost var q := p.(sbuf := p.sbuf + input[sb..ptr]);
        PlainChar(q, input[ptr..]);
        assert input[ptr..][1..] == input[ptr + 1..];
        assert q.sbuf + [input[ptr]] == p.sbuf + input[sb..ptr + 1];
        ptr := ptr + 1;
      }
    }

    /** The text of a string up to an escape, its end, or the end of the input. */
    method StringText() returns (ec: Status, escaped: bool)
      requires Valid() && state.InString?
      modifies this`state, this`stack, this`sbuf, this`ptr, this`events
      ensures escaped ==> ec == Ok && state == old(state) && old(ptr) < ptr <= |input| && Suspendable(stack)
      ensures escaped ==>
        (Run(Running(ViewIn(InString(Escape))), input[ptr..])
         == Run(Running(old(ViewIn(InString(StringU1)))), old(input[ptr..])))
      ensures !escaped ==> Continues(Run(Running(old(ViewIn(InString(StringU1)))), old(input[ptr..])), ec)
      ensures old(ptr) <= ptr && (ec == Ok && old(ptr) < |input| ==> old(ptr) < ptr)
    {
      hide Run;
      hide Collapse;
      hide EndString;
      ghost var p := ViewIn(InString(StringU1));
      var sb := ScanPlain();
      var piece := input[sb..ptr];
      sbuf := sbuf + piece;
      ghost var q := p.(sbuf := sbuf);
      ec, escaped := Ok, false;
      if ptr == |input| {
        state := InString(StringU1);
        return;
      }
      var c := input[ptr];
      RunStep(q, input[ptr..]);
      assert input[ptr..][1..] == input[ptr + 1..];
      ghost var o := Step(q, c);
      if o.Failed? { RunFailed(o, input[ptr + 1..]); }
      if IsControl(c) {
        ec := Error(IllegalControlCharacter);
      } else if c == '\r' || c == '\n' || c == '\t' {
        ec := Error(IllegalCharacterInString);
      } else if c == '\\' {
        ptr := ptr + 1;
        escaped := true;
      } else {
        var text := sbuf;
        sbuf := "";
        assert Step(q, c) == EndString(q);
        ec := EndStringValue(text);
        if ec == Ok {
          ptr := ptr + 1;
        }
      }
    }

    method ParseString() returns (ec: Status)
      requires Valid() && state.InString? && ptr < |input|
      modifies this`state, this`stack, this`sbuf, this`cp, this`cp2, this`ptr, this`events
      ensures Continues(old(Future()), ec) && (ec == Ok ==> old(ptr) < ptr)
    {
      hide Step;
      hide Run;
      hide Collapse;
      var part := state.str;
      while true
        invariant ptr <= |input| && state.InString? && Suspendable(stack)
        invariant old(ptr) < ptr || (ptr == old(ptr) && part == state.str)
        invariant Run(Running(ViewIn(InString(part))), input[ptr..]) == old(Future())
        decreases |input| - ptr
      {
        if part == StringU1 {
          var escaped;
          ec, escaped := StringText();
          if !escaped {
            return;
          }
          part := Escape;
        } else if ptr == |input| {
          state := InString(part);
          return Ok;
        } else {
          RunStep(ViewIn(InString(part)), input[ptr..]);
          assert input[ptr..][1..] == input[ptr + 1..];
          ghost var o, rest := Step(ViewIn(InString(part)), input[ptr]), input[ptr + 1..];
          var next;
          ec, next := EscapeChar(part);
          if o.Failed? { RunFailed(o, rest); }
          if ec != Ok {
            return;
          }
          if part == EscapeU4 && next == StringU1 {
            state := InString(StringU1);
            return Ok;
          }
          part := next;
        }
      }
    }

    // ---- Numbers --------------------------------------------------------------------

    /** after_value: on to the next comma, or the end of the document. */
    method AfterNumber() returns (ec: Status)
      requires Valid() && state.InNumber?
      modifies this`state, this`events
      ensures Yields(AfterValue(old(ViewIn(Done))), ec)
      ensures ec == Ok ==> Valid() && (state.Done? || state == Structure(ExpectCommaOrEnd))
    {
      hide Collapse;
      if |stack| == 0 {
        return Error(AssertionFailed);
      }
      ec := Ok;
      match stack[|stack| - 1]
      case InArray => state := Structure(ExpectCommaOrEnd);
      case InObject => state := Structure(ExpectCommaOrEnd);
      case Root =>
        state := Done;
        Notify(EndDocument);
      case _ => ec := Error(InvalidJsonText);
    }

    /** end_integer_value and end_fraction_value: the event, then after_value. */
    method EndNumberValue(part: NumberState) returns (ec: Status)
      requires Valid() && state.InNumber? && EndsNumber(part)
      modifies this`state, this`events
      ensures Yields(EndNumber(old(ViewIn(InNumber(part))), KindOf(part)), ec)
      ensures ec == Ok ==> Valid() && (state.Done? || state == Structure(ExpectCommaOrEnd))
    {
      hide Collapse;
      hide AfterValue;
      ghost var q := Emit(ViewIn(InNumber(part)), NumberValue(KindOf(part), nbuf)).(nbuf := "");
      Notify(NumberValue(KindOf(part), nbuf));
      assert ViewIn(Done) == q.(state := Done);
      AnyStateAfter(q);
      ec := AfterNumber();
    }

    /** A character that continues a number, in the state part. */
    method NumberChar(part: NumberState) returns (ec: Status, next: NumberState)
      requires ptr < |input| && !(EndsNumber(part) && IsDelimiter(input[ptr]))
      modifies this`nbuf, this`ptr
      ensures old(ptr) <= ptr
      ensures match Step(old(ViewIn(InNumber(part))), input[old(ptr)])
              case Running(q) => ec == Ok && ViewIn(InNumber(next)) == q && ptr == old(ptr) + 1
              case Failed(code, es) => ec == Error(code) && Collapse(events) == es
    {
      hide Collapse;
      hide Step;
      hide EndNumber;
      hide Delimit;
      NumberStepIs(ViewIn(InNumber(part)), input[ptr]);
      var c := input[ptr];
      ec, next := Ok, part;
      var digit, text := IsDigit(c), [c];
      match part {
        case Minus =>
          if !digit { return Error(ExpectedValue), part; }
          next := if c == '0' then Zero else Digits;
        case Zero =>
          if digit { return Error(LeadingZero), part; }
          if c != '.' && c != 'e' && c != 'E' { return Error(InvalidNumber), part; }
          next := if c == '.' then Fraction1 else Exp1;
        case Digits =>
          if !digit && c != '.' && c != 'e' && c != 'E' { return Error(InvalidNumber), part; }
          next := if digit then Digits else if c == '.' then Fraction1 else Exp1;
        case Fraction1 =>
          if !digit { return Error(InvalidNumber), part; }
          next := Fraction2;
        case Fraction2 =>
          if !digit && c != 'e' && c != 'E' { return Error(InvalidNumber), part; }
          next := if digit then Fraction2 else Exp1;
        case Exp1 =>
          if !digit && c != '+' && c != '-' { return Error(ExpectedValue), part; }
          next := if digit then Exp3 else Exp2;
          if c == '+' { text := ""; }
        case Exp2 =>
          if !digit { return Error(ExpectedValue), part; }
          next := Exp3;
        case Exp3 =>
          if !digit { return Error(InvalidNumber), part; }
      }
      nbuf := nbuf + text;
      ptr := ptr + 1;
    }

    /** A delimiter after a number that has just ended. */
    method DelimiterChar() returns (ec: Status)
      requires Valid() && ptr < |input| && IsDelimiter(input[ptr])
      requires state.Done? || state == Structure(ExpectCommaOrEnd)
      modifies this`state, this`stack, this`depth, this`ptr, this`events
      ensures Continues(Run(Delimit(old(View()), old(input[ptr])), old(input[ptr + 1..])), ec)
      ensures old(ptr) <= ptr && (ec == Ok ==> old(ptr) < ptr)
    {
      hide Run;
      hide Collapse;
      var c := input[ptr];
      ghost var o, rest := Delimit(View(), c), input[ptr + 1..];
      if o.Failed? { RunFailed(o, rest); }
      ec := Ok;
      if c == '}' {
        ec := EndObject();
      } else if c == ']' {
        ec := EndArray();
      } else if c == ',' {
        ec := BeginMemberOrElement();
      } else {
        BlankChar();
        return;
      }
      if ec == Ok {
        ptr := ptr + 1;
      }
    }

    method ParseNumber() returns (ec: Status)
      requires Valid() && state.InNumber?
      modifies this`state, this`stack, this`depth, this`nbuf, this`ptr, this`events
      ensures Continues(old(Future()), ec)
      ensures old(ptr) <= ptr && (ec == Ok && old(ptr) < |input| ==> old(ptr) < ptr)
    {
      hide Run;
      hide Step;
      hide Collapse;
      var part := state.num;
      ec := Ok;
      while ptr < |input|
        invariant old(ptr) <= ptr <= |input| && state == old(state) && sbuf == old(sbuf) && stack == old(stack) && ec == Ok
        invariant ptr == old(ptr) ==> part == state.num
        invariant Run(Running(ViewIn(InNumber(part))), input[ptr..]) == old(Future())
      {
        ghost var p, c, rest := ViewIn(InNumber(part)), input[ptr], input[ptr + 1..];
        RunStep(p, input[ptr..]);
        assert input[ptr..][1..] == rest;
        if EndsNumber(part) && IsDelimiter(input[ptr]) {
          NumberEnds(p, c, rest);
          ec := EndNumberValue(part);
          if ec == Ok {
            ec := DelimiterChar();
          }
          return;
        }
        ghost var o := Step(p, c);
        if o.Failed? { RunFailed(o, rest); }
        var next;
        ec, next := NumberChar(part);
        if ec != Ok {
          return;
        }
        part := next;
      }
      state := InNumber(part);
    }

    // ---- Literals -------------------------------------------------------------------

    /** true, null and false: at once when enough input is left, otherwise character by character. */
    method ParseLiteral(part: LiteralState) returns (ec: Status)
      requires Valid() && state.Structure? && ptr < |input|
      modifies this`state, this`ptr, this`events
      ensures Continues(old(Run(Running(ViewIn(InLiteral(part))), input[ptr + 1..])), ec)
      ensures ec == Ok ==> old(ptr) < ptr
    {
      hide *;
      if |input| - ptr >= |Suffix(part)| + 1 {
        ec := WholeLiteral(part);
      } else {
        ec := Ok;
        BeginLiteral(part);
      }
    }

    method BeginLiteral(part: LiteralState)
      requires Valid() && state.Structure? && ptr < |input|
      modifies this`state, this`ptr
      ensures Continues(old(Run(Running(ViewIn(InLiteral(part))), input[ptr + 1..])), Ok) && old(ptr) < ptr
    {
      hide Run;
      hide Collapse;
      ptr := ptr + 1;
      state := InLiteral(part);
    }

    /** The whole rest of the literal is in the buffer. */
    method WholeLiteral(part: LiteralState) returns (ec: Status)
      requires Valid() && state.Structure? && ptr + |Suffix(part)| < |input|
      modifies this`state, this`ptr, this`events
      ensures Continues(old(Run(Running(ViewIn(InLiteral(part))), input[ptr + 1..])), ec)
      ensures ec == Ok ==> old(ptr) < ptr
    {
      hide Run;
      hide Collapse;
      hide AfterStructure;
      hide Suffix;
      var w := Suffix(part);
      ghost var p, rest := ViewIn(InLiteral(part)), input[ptr + 1..];
      LiteralAhead(p, rest, w);
      assert rest[..|w|] == input[ptr + 1..ptr + 1 + |w|];
      if input[ptr + 1..ptr + 1 + |w|] != w {
        return Error(InvalidValue);
      }
      ghost var o := AfterStructure(Emit(p, LiteralEvent(part)));
      Notify(LiteralEvent(part));
      SameAfter(View(), Emit(p, LiteralEvent(part)));
      ec := LeaveValue();
      if ec == Ok {
        ptr := ptr + |w| + 1;
      } else {
        RunFailed(o, rest[|w|..]);
      }
    }

    /** One character of a literal that an earlier buffer began. */
    method LiteralChar() returns (ec: Status)
      requires Valid() && state.InLiteral? && ptr < |input|
      modifies this`state, this`ptr, this`events
      ensures Continues(old(Future()), ec)
      ensures ec == Ok ==> old(ptr) < ptr
    {
      hide Run;
      hide Collapse;
      var w := Suffix(state.lit);
      ghost var o, rest := Step(View(), input[ptr]), input[ptr + 1..];
      RunStep(View(), input[ptr..]);
      LiteralStepIs(View(), input[ptr]);
      assert input[ptr..][1..] == rest;
      if o.Failed? { RunFailed(o, rest); }
      if input[ptr] != w[0] {
        return Error(InvalidValue);
      }
      ec := Ok;
      if |w| > 1 {
        state := InLiteral(NextOf(state.lit));
      } else {
        Notify(LiteralEvent(state.lit));
        ec := LeaveValue();
      }
      if ec == Ok {
        ptr := ptr + 1;
      }
    }

    // ---- Comments and line ends ---------------------------------------------------

    /** Back to the state below, leaving the current character to it. */
    method PopState() returns (ec: Status)
      requires Valid() && !state.InNumber? && !state.InString?
      modifies this`state, this`stack
      ensures ec == Ok <==> old(stack) != []
      ensures ec == Ok ==> Valid() && View() == Resume(old(View())) && |stack| < old(|stack|)
      ensures ec.Error? ==> ec == Error(AssertionFailed) && Collapse(events) == old(View()).events
    {
      if |stack| == 0 {
        return Error(AssertionFailed);
      }
      state, stack := stack[|stack| - 1], stack[..|stack| - 1];
      ec := Ok;
    }

    /** A state that gives way to the one below. */
    method YieldState() returns (ec: Status)
      requires Valid() && ptr < |input| && GivesWay(state, input[ptr])
      modifies this`state, this`stack
      ensures Continues(old(Future()), ec)
      ensures ec == Ok ==> |stack| < old(|stack|)
    {
      hide Run;
      hide Take;
      hide Collapse;
      GiveWay(View(), input[ptr..]);
      ec := PopState();
    }

    /** A character in a comment, or at the end of a line. */
    method CommentChar() returns (ec: Status)
      requires Valid() && (state.InComment? || state.Cr? || state.Lf?) && ptr < |input|
      modifies this`state, this`stack, this`ptr
      ensures Continues(old(Future()), ec)
      ensures ec == Ok ==> old(ptr) < ptr || (ptr == old(ptr) && |stack| < old(|stack|))
    {
      hide Run;
      hide Collapse;
      var c := input[ptr];
      if GivesWay(state, c) {
        ec := YieldState();
        return;
      }
      ghost var o, rest := Take(View(), c), input[ptr + 1..];
      RunStep(View(), input[ptr..]);
      assert input[ptr..][1..] == rest;
      if o.Failed? { RunFailed(o, rest); }
      ec := Ok;
      if state.Cr? {
        ec := PopState();
      } else {
        match state.com
        case Slash =>
          if c == '*' {
            state := InComment(SlashStar);
          } else if c == '/' {
            state := InComment(SlashSlash);
          } else {
            return Error(InvalidJsonText);
          }
        case SlashSlash =>
        case SlashStar =>
          if c == '\r' || c == '\n' {
            stack := stack + [state];
            state := if c == '\r' then Cr else Lf;
          } else if c == '*' {
            state := InComment(SlashStarStar);
          }
        case SlashStarStar =>
          if c == '/' {
            ec := PopState();
          } else {
            state := InComment(SlashStar);
          }
      }
      if ec == Ok {
        ptr := ptr + 1;
      }
    }

    // ---- Structural characters ------------------------------------------------------

    /** The first character of a value. */
    method BeginValueChar() returns (ec: Status)
      requires Valid() && state.Structure? && ptr < |input| && StartsValue(input[ptr])
      modifies this`state, this`stack, this`depth, this`nbuf, this`ptr, this`events
      ensures Continues(Run(BeginValue(old(View()), old(input[ptr])), old(input[ptr + 1..])), ec)
      ensures ec == Ok ==> old(ptr) < ptr
    {
      hide Run;
      hide Collapse;
      var c := input[ptr];
      ghost var o, rest := BeginValue(View(), c), input[ptr + 1..];
      if o.Failed? { RunFailed(o, rest); }
      ec := Ok;
      if c == '{' {
        ec := BeginObject();
        if ec == Ok { ptr := ptr + 1; }
      } else if c == '[' {
        ec := BeginArray();
        if ec == Ok { ptr := ptr + 1; }
      } else if c == '"' {
        state := InString(StringU1);
        ptr := ptr + 1;
      } else if c == 'n' {
        ec := ParseLiteral(N);
      } else if c == 't' {
        ec := ParseLiteral(T);
      } else if c == 'f' {
        ec := ParseLiteral(F);
      } else {
        nbuf := [c];
        ptr := ptr + 1;
        state := InNumber(if c == '-' then Minus else if c == '0' then Zero else Digits);
        ec := ParseNumber();
      }
    }

    /** The quote that opens a member name; other is the error for anything but an apostrophe. */
    method NameChar(other: Errc) returns (ec: Status)
      requires Valid() && state.Structure? && ptr < |input|
      modifies this`state, this`stack, this`ptr
      ensures if old(input[ptr]) == '"' then
                ec == Ok && Valid() && ptr == old(ptr) + 1 &&
                View() == Push(old(View()), MemberName, InString(StringU1)).(sbuf := "")
              else ec == Error(if old(input[ptr]) == '\'' then SingleQuote else other)
    {
      if input[ptr] == '"' {
        ptr := ptr + 1;
        stack := stack + [MemberName];
        state := InString(StringU1);
        return Ok;
      }
      ec := Error(if input[ptr] == '\'' then SingleQuote else other);
    }

    /** A comma or the end of the structure. */
    method CommaOrEndChar() returns (ec: Status)
      requires Valid() && state == Structure(ExpectCommaOrEnd) && ptr < |input|
      requires !IsControl(input[ptr]) && !IsBlank(input[ptr])
      modifies this`state, this`stack, this`depth, this`ptr, this`events
      ensures Continues(Run(StructuralStep(old(View()), old(input[ptr])), old(input[ptr + 1..])), ec)
      ensures ec == Ok ==> old(ptr) < ptr
    {
      hide Run;
      hide Collapse;
      var c := input[ptr];
      ghost var o, rest := StructuralStep(View(), c), input[ptr + 1..];
      if o.Failed? { RunFailed(o, rest); }
      if IsDelimiter(c) {
        ec := DelimiterChar();
        return;
      }
      if |stack| == 0 {
        return Error(AssertionFailed);
      }
      if stack[|stack| - 1] == InArray {
        return Error(ExpectedCommaOrRightBracket);
      } else if stack[|stack| - 1] == InObject {
        return Error(ExpectedCommaOrRightBrace);
      }
      ptr := ptr + 1;
      ec := Ok;
    }

    /** The first character of the text. */
    method StartChar() returns (ec: Status)
      requires Valid() && state == Structure(Start) && ptr < |input| && BeginDoc(View()) == View()
      requires !IsControl(input[ptr]) && !IsBlank(input[ptr])
      modifies this`state, this`stack, this`depth, this`nbuf, this`ptr, this`events
      ensures Continues(Run(StructuralStep(old(View()), old(input[ptr])), old(input[ptr + 1..])), ec)
      ensures ec == Ok ==> old(ptr) < ptr
    {
      hide Run;
      hide Collapse;
      var c := input[ptr];
      ghost var o, rest := StructuralStep(View(), c), input[ptr + 1..];
      if o.Failed? { RunFailed(o, rest); }
      if StartsValue(c) {
        ec := BeginValueChar();
      } else {
        ec := Error(if c == '}' then UnexpectedRightBrace else if c == ']' then UnexpectedRightBracket else InvalidJsonText);
      }
    }

    /** A member name or the end of an object that has none. */
    method NameOrEndChar() returns (ec: Status)
      requires Valid() && state == Structure(ExpectMemberNameOrEnd) && ptr < |input|
      requires !IsControl(input[ptr]) && !IsBlank(input[ptr])
      modifies this`state, this`stack, this`depth, this`ptr, this`events
      ensures Continues(Run(StructuralStep(old(View()), old(input[ptr])), old(input[ptr + 1..])), ec)
      ensures ec == Ok ==> old(ptr) < ptr
    {
      hide Run;
      hide Collapse;
      var c := input[ptr];
      ghost var o, rest := StructuralStep(View(), c), input[ptr + 1..];
      if o.Failed? { RunFailed(o, rest); }
      if c == '}' {
        ec := EndObject();
        if ec == Ok { ptr := ptr + 1; }
      } else {
        ec := NameChar(ExpectedName);
      }
    }

    /** A member name after a comma. */
    method NextNameChar() returns (ec: Status)
      requires Valid() && state == Structure(ExpectMemberName) && ptr < |input|
      requires !IsControl(input[ptr]) && !IsBlank(input[ptr])
      modifies this`state, this`stack, this`ptr
      ensures Continues(Run(StructuralStep(old(View()), old(input[ptr])), old(input[ptr + 1..])), ec)
      ensures ec == Ok ==> old(ptr) < ptr
    {
      hide Run;
      hide Collapse;
      var c := input[ptr];
      ghost var o, rest := StructuralStep(View(), c), input[ptr + 1..];
      if o.Failed? { RunFailed(o, rest); }
      ec := NameChar(if c == '}' then ExtraComma else ExpectedName);
    }

    /** A value after a colon or a comma. */
    method ValueChar() returns (ec: Status)
      requires Valid() && state == Structure(ExpectValue) && ptr < |input|
      requires !IsControl(input[ptr]) && !IsBlank(input[ptr])
      modifies this`state, this`stack, this`depth, this`nbuf, this`ptr, this`events
      ensures Continues(Run(StructuralStep(old(View()), old(input[ptr])), old(input[ptr + 1..])), ec)
      ensures ec == Ok ==> old(ptr) < ptr
    {
      hide Run;
      hide Collapse;
      var c := input[ptr];
      ghost var o, rest := StructuralStep(View(), c), input[ptr + 1..];
      if o.Failed? { RunFailed(o, rest); }
      if StartsValue(c) {
        ec := BeginValueChar();
      } else if c == ']' {
        if |stack| == 0 {
          return Error(AssertionFailed);
        }
        ec := Error(if stack[|stack| - 1] == InArray then ExtraComma else ExpectedValue);
      } else {
        ec := Error(if c == '\'' then SingleQuote else ExpectedValue);
      }
    }

    /** A value or the end of an array that has none. */
    method ValueOrEndChar() returns (ec: Status)
      requires Valid() && state == Structure(ExpectValueOrEnd) && ptr < |input|
      requires !IsControl(input[ptr]) && !IsBlank(input[ptr])
      modifies this`state, this`stack, this`depth, this`nbuf, this`ptr, this`events
      ensures Continues(Run(StructuralStep(old(View()), old(input[ptr])), old(input[ptr + 1..])), ec)
      ensures ec == Ok ==> old(ptr) < ptr
    {
      hide Run;
      hide Collapse;
      var c := input[ptr];
      ghost var o, rest := StructuralStep(View(), c), input[ptr + 1..];
      if o.Failed? { RunFailed(o, rest); }
      if StartsValue(c) {
        ec := BeginValueChar();
      } else if c == ']' {
        ec := EndArray();
        if ec == Ok { ptr := ptr + 1; }
      } else {
        ec := Error(if c == '\'' then SingleQuote else ExpectedValue);
      }
    }

    /** A character where structure is expected. */
    method StructureChar() returns (ec: Status)
      requires Valid() && state.Structure? && ptr < |input|
      modifies this`state, this`stack, this`depth, this`nbuf, this`ptr, this`events
      ensures Continues(old(Future()), ec)
      ensures ec == Ok ==> old(ptr) < ptr
    {
      hide Run;
      hide Collapse;
      hide StructuralStep;
      var c := input[ptr];
      RunStep(View(), input[ptr..]);
      assert input[ptr..][1..] == input[ptr + 1..];
      BeginsOnce(View(), c);
      if state.at.Start? {
        Notify(BeginDocument);
      }
      BlanksAnywhere(View(), c);
      if IsControl(c) {
        RunFailed(Fail(View(), IllegalControlCharacter), input[ptr + 1..]);
        return Error(IllegalControlCharacter);
      }
      if IsBlank(c) {
        BlankChar();
        return Ok;
      }
      match state.at
      case Start => ec := StartChar();
      case ExpectCommaOrEnd => ec := CommaOrEndChar();
      case ExpectMemberNameOrEnd => ec := NameOrEndChar();
      case ExpectMemberName => ec := NextNameChar();
      case ExpectValue => ec := ValueChar();
      case ExpectValueOrEnd => ec := ValueOrEndChar();
      case ExpectColon => ec := ColonChar();
    }

    /** The colon after a member name. */
    method ColonChar() returns (ec: Status)
      requires Valid() && state == Structure(ExpectColon) && ptr < |input|
      requires !IsControl(input[ptr]) && !IsBlank(input[ptr])
      modifies this`state, this`ptr
      ensures Continues(Run(StructuralStep(old(View()), old(input[ptr])), old(input[ptr + 1..])), ec)
      ensures ec == Ok ==> old(ptr) < ptr
    {
      hide Run;
      hide Collapse;
      var c := input[ptr];
      ghost var o, rest := StructuralStep(View(), c), input[ptr + 1..];
      if o.Failed? { RunFailed(o, rest); }
      if c != ':' {
        return Error(ExpectedColon);
      }
      state := Structure(ExpectValue);
      ptr := ptr + 1;
      ec := Ok;
    }

    // ---- The resumable loop ---------------------------------------------------------

    /** parse_some: reads the whole buffer, or up to the end of the document or an error. */
    method ParseSome() returns (ec: Status)
      requires Valid()
      modifies this`state, this`stack, this`depth, this`sbuf, this`nbuf, this`cp, this`cp2, this`ptr, this`events
      ensures old(Future()) == if ec == Ok then Running(View()) else Failed(ec.code, Collapse(events))
      ensures ec == Ok ==> Valid()
    {
      hide Run;
      hide Step;
      hide Collapse;
      ec := Ok;
      while ptr < |input| && !state.Done?
        invariant Continues(old(Future()), ec) && ec == Ok
        decreases |input| - ptr, |stack|
      {
        if state.Structure? {
          ec := StructureChar();
        } else if state.InString? {
          ec := ParseString();
        } else if state.InNumber? {
          ec := ParseNumber();
        } else if state.InLiteral? {
          ec := LiteralChar();
        } else if state.InComment? || state.Cr? || state.Lf? {
          ec := CommentChar();
        } else {
          MarkerFails(View(), input[ptr..]);
          ec := Error(AssertionFailed);
        }
        if ec != Ok {
          return;
        }
      }
      if state.Done? {
        RunDone(View(), input[ptr..]);
      } else {
        RunNothing(Running(View()));
        assert input[ptr..] == "";
      }
    }

    /** end_parse: a number at the end of the text, an open line end, or an unexpected end. */
    method EndParse() returns (ec: Status)
      requires Valid()
      modifies this`state, this`stack, this`events
      ensures Yields(Finish(old(View())), ec)
    {
      hide Collapse;
      if |stack| == 0 {
        return Error(AssertionFailed);
      }
      if stack[|stack| - 1] == Root && state.InNumber? && EndsNumber(state.num) {
        ec := EndNumberValue(state.num);
        if ec != Ok {
          return;
        }
      }
      if state.Lf? || state.Cr? {
        ec := PopState();
        if ec != Ok {
          return;
        }
      }
      ec := if state.Done? || state == Structure(Start) then Ok else Error(UnexpectedEof);
    }
  }

  function Concat(chunks: seq<string>): string {
    if chunks == [] then "" else Concat(chunks[..|chunks| - 1]) + chunks[|chunks| - 1]
  }

  /**
   Chunk independence. Fed in any pieces, the parser gives the outcome of the machine on the
   whole text: the same error code, and the same events up to repeated begin_document.
   */
  method ParseChunks(chunks: seq<string>, maxDepth: nat) returns (ec: Status, parser: JsonParser)
    ensures match Parse(maxDepth, Concat(chunks))
            case Running(p) => ec == Ok && Collapse(parser.events) == p.events
            case Failed(code, es) => ec == Error(code) && Collapse(parser.events) == es
    ensures ec != Error(AssertionFailed)
  {
    NeverAsserts(maxDepth, Concat(chunks));
    ParseIs(maxDepth, Concat(chunks));
    hide Parse;
    hide Run;
    hide Finish;
    hide Collapse;
    hide Concat;
    parser := new JsonParser(maxDepth);
    ghost var start := Running(Initial(maxDepth));
    RunNothing(start);
    NoChunks(start);
    var i := 0;
    while i < |chunks|
      invariant i <= |chunks| && fresh(parser) && parser.Valid()
      invariant Run(start, Concat(chunks[..i])) == Running(parser.View())
    {
      parser.Update(chunks[i]);
      NextChunk(start, chunks, i);
      ec := parser.ParseSome();
      if ec != Ok {
        FailureLasts(start, chunks, i + 1);
        return;
      }
      i := i + 1;
    }
    assert chunks[..i] == chunks;
    ec := parser.EndParse();
  }

  lemma ParseIs(maxDepth: nat, s: string)
    ensures Parse(maxDepth, s) == FinishOutcome(Run(Running(Initial(maxDepth)), s))
  {
  }

  lemma NoChunks(o: Outcome)
    ensures Run(o, Concat([])) == o
  {
    RunNothing(o);
  }

  /** The text so far and the next chunk are read one after the other. */
  lemma NextChunk(o: Outcome, chunks: seq<string>, i: nat)
    requires i < |chunks|
    ensures Run(o, Concat(chunks[..i + 1])) == Run(Run(o, Concat(chunks[..i])), chunks[i][0..])
  {
    hide Run;
    assert chunks[..i + 1][..i] == chunks[..i];
    assert chunks[i][0..] == chunks[i];
    RunAppend(o, Concat(chunks[..i]), chunks[i]);
  }

  lemma NeverAsserts(maxDepth: nat, s: string)
    ensures match Parse(maxDepth, s)
            case Running(p) => true
            case Failed(code, es) => code != AssertionFailed
  {
    ParseSound(maxDepth, s);
  }

  /** Once the text so far has failed, the rest of it changes nothing. */
  lemma {:induction false} FailureLasts(o: Outcome, chunks: seq<string>, i: nat)
    requires i <= |chunks| && Run(o, Concat(chunks[..i])).Failed?
    ensures Run(o, Concat(chunks)) == Run(o, Concat(chunks[..i]))
    decreases |chunks| - i
  {
    if i == |chunks| {
      assert chunks[..i] == chunks;
    } else {
      assert chunks[..i + 1][..i] == chunks[..i];
      RunAppend(o, Concat(chunks[..i]), chunks[i]);
      RunFailed(Run(o, Concat(chunks[..i])), chunks[i]);
      FailureLasts(o, chunks, i + 1);
    }
  }
}
