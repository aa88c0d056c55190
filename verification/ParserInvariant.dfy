/** What every reachable parser state looks like, and what its events look like. */
module ParserInvariant {
  import opened JsonText
  import opened ParserSpec

  // ---- Well-formed event streams ------------------------------------------------

  /** An open structure; in an object, whether a member name still waits for its value. */
  datatype Frame = ObjectFrame(named: bool) | ArrayFrame

  datatype Phase = NotBegun | Open(frames: seq<Frame>) | Complete | Finished | Bad

  predicate ValueAllowed(frames: seq<Frame>) {
    frames == [] || frames[|frames| - 1] != ObjectFrame(false)
  }

  /** A value has ended inside the given structures. */
  function ValueEnded(frames: seq<Frame>): Phase {
    if frames == [] then Complete
    else if frames[|frames| - 1].ObjectFrame? then Open(frames[..|frames| - 1] + [ObjectFrame(false)])
    else Open(frames)
  }

  function EventStep(t: Phase, e: Event): Phase {
    match e
    case BeginDocument => if t.NotBegun? then Open([]) else Bad
    case EndDocument => if t.Complete? then Finished else Bad
    case Name(_) =>
      if t.Open? && t.frames != [] && t.frames[|t.frames| - 1] == ObjectFrame(false)
      then Open(t.frames[..|t.frames| - 1] + [ObjectFrame(true)]) else Bad
    case BeginObject => if t.Open? && ValueAllowed(t.frames) then Open(t.frames + [ObjectFrame(false)]) else Bad
    case BeginArray => if t.Open? && ValueAllowed(t.frames) then Open(t.frames + [ArrayFrame]) else Bad
    case EndObject =>
      if t.Open? && t.frames != [] && t.frames[|t.frames| - 1] == ObjectFrame(false)
      then ValueEnded(t.frames[..|t.frames| - 1]) else Bad
    case EndArray =>
      if t.Open? && t.frames != [] && t.frames[|t.frames| - 1] == ArrayFrame
      then ValueEnded(t.frames[..|t.frames| - 1]) else Bad
    case _ => if t.Open? && ValueAllowed(t.frames) then ValueEnded(t.frames) else Bad
  }

  /** Where a stream of events has got to; Bad if it is no prefix of a document. */
  function Trace(es: seq<Event>): Phase {
    if es == [] then NotBegun else EventStep(Trace(es[..|es| - 1]), es[|es| - 1])
  }

  lemma TraceSnoc(es: seq<Event>, e: Event)
    ensures Trace(es + [e]) == EventStep(Trace(es), e)
  {
    assert (es + [e])[..|es|] == es;
  }

  // ---- The invariant ------------------------------------------------------------

  /** Root, then only objects and arrays. */
  predicate Containers(s: seq<State>) {
    s != [] && s[0] == Root && forall i :: 0 < i < |s| ==> s[i] == InObject || s[i] == InArray
  }

  /** The open structures of a stack; named says whether the innermost object has a name without value. */
  function FramesOf(base: seq<State>, named: bool): seq<Frame> {
    if |base| <= 1 then []
    else FramesOf(base[..|base| - 1], true) + [if base[|base| - 1] == InObject then ObjectFrame(named) else ArrayFrame]
  }

  predicate Nested(p: Parser) {
    Containers(p.stack) && p.depth == |p.stack| - 1 <= p.maxDepth
  }

  /** Inside the structures of the stack, and the events so far opened exactly these. */
  predicate Here(p: Parser, named: bool) {
    Nested(p) && Trace(p.events) == Open(FramesOf(p.stack, named))
  }

  /** A value has just ended inside the structures of the stack. */
  predicate Ended(p: Parser) {
    Nested(p) && Trace(p.events) == if |p.stack| == 1 then Complete else Open(FramesOf(p.stack, false))
  }

  /** The structures in which a structural state can be. */
  predicate Fits(at: StructureState, base: seq<State>)
    requires base != []
  {
    match at
    case Start => |base| == 1
    case ExpectCommaOrEnd => |base| > 1
    case ExpectMemberNameOrEnd => base[|base| - 1] == InObject
    case ExpectMemberName => base[|base| - 1] == InObject
    case ExpectColon => base[|base| - 1] == InObject
    case ExpectValueOrEnd => base[|base| - 1] == InArray
    case ExpectValue => |base| > 1
  }

  predicate StructureInv(p: Parser, at: StructureState) {
    && Nested(p) && Fits(at, p.stack)
    && if at.Start? then p.events == [] || p.events == [BeginDocument]
       else Here(p, at.ExpectColon? || at.ExpectValue?)
  }

  predicate DoneInv(p: Parser) {
    Nested(p) && |p.stack| == 1 && Trace(p.events) == Finished
  }

  /** What a comment or a line end can return to. */
  predicate ResumableInv(p: Parser) {
    match p.state
    case Structure(at) => StructureInv(p, at)
    case Done => DoneInv(p)
    case _ => false
  }

  predicate Inv(p: Parser) {
    p.stack != [] &&
    match p.state
    case Structure(at) => StructureInv(p, at)
    case InString(_) =>
      if Parent(p) == MemberName then Resume(p).stack != [] && Parent(Resume(p)) == InObject && Here(Resume(p), false)
      else Here(p, true)
    case InNumber(_) => Here(p, true)
    case InLiteral(_) => Here(p, true)
    case Done => DoneInv(p)
    case InComment(_) => ResumableInv(Resume(p))
    case Cr => LineEndInv(Resume(p))
    case Lf => LineEndInv(Resume(p))
    case _ => false
  }

  /** A line ends in a structural state, after the root value, or inside a comment. */
  predicate LineEndInv(p: Parser) {
    if p.state == InComment(SlashStar) then p.stack != [] && ResumableInv(Resume(p)) else ResumableInv(p)
  }

  /** An outcome that keeps the invariant, or an error that is no failed assertion. */
  predicate Sound(o: Outcome) {
    match o
    case Running(p) => Inv(p)
    case Failed(code, es) => code != AssertionFailed && Trace(es) != Bad
  }

  lemma InitialInv(maxDepth: nat)
    ensures Inv(Initial(maxDepth))
  {
  }

  lemma TraceStart()
    ensures Trace([BeginDocument]) == Open([])
  {
    TraceSnoc([], BeginDocument);
    assert [] + [BeginDocument] == [BeginDocument];
  }

  lemma StartHere(p: Parser)
    requires Nested(p) && |p.stack| == 1 && p.events == [BeginDocument]
    ensures Here(p, true)
  {
    TraceStart();
  }

  lemma EventsGood(p: Parser)
    requires Inv(p)
    ensures Trace(p.events) != Bad
  {
    TraceStart();
  }

  predicate IsScalar(e: Event) {
    e.StringValue? || e.NumberValue? || e.BoolValue? || e.NullValue?
  }

  lemma FramesEnded(base: seq<State>)
    requires Containers(base)
    ensures ValueAllowed(FramesOf(base, true))
    ensures ValueEnded(FramesOf(base, true)) == if |base| == 1 then Complete else Open(FramesOf(base, false))
  {
  }

  lemma ScalarEnds(p: Parser, e: Event)
    requires Here(p, true) && IsScalar(e)
    ensures Ended(Emit(p, e))
  {
    TraceSnoc(p.events, e);
    FramesEnded(p.stack);
  }

  lemma AfterSound(p: Parser)
    requires Ended(p)
    ensures Sound(AfterStructure(p)) && Sound(AfterValue(p)) && AfterStructure(p) == AfterValue(p)
  {
    TraceSnoc(p.events, EndDocument);
  }

  /** One more structure on the stack is one more frame. */
  lemma FramesPush(base: seq<State>, s: State, named: bool)
    requires Containers(base) && (s == InObject || s == InArray)
    ensures Containers(base + [s])
    ensures FramesOf(base + [s], named) == FramesOf(base, true) + [if s == InObject then ObjectFrame(named) else ArrayFrame]
  {
    assert (base + [s])[..|base|] == base;
  }

  lemma OpenSound(p: Parser)
    requires Here(p, true)
    ensures Sound(OpenObject(p)) && Sound(OpenArray(p))
  {
    hide Trace;
    hide FramesOf;
    TraceSnoc(p.events, BeginObject);
    TraceSnoc(p.events, BeginArray);
    FramesEnded(p.stack);
    FramesPush(p.stack, InObject, false);
    FramesPush(p.stack, InArray, false);
  }

  /** The phase after the end of the innermost structure. */
  lemma EndPhase(base: seq<State>, s: State)
    requires Containers(base) && (s == InObject || s == InArray)
    ensures EventStep(Open(FramesOf(base + [s], false)), if s == InObject then EndObject else EndArray)
         == if |base| == 1 then Complete else Open(FramesOf(base, false))
  {
    hide FramesOf;
    hide EventStep;
    hide ValueEnded;
    FramesPush(base, s, false);
    FramesEnded(base);
    FrameCloses(FramesOf(base, true), s == InObject);
  }

  lemma FrameCloses(fs: seq<Frame>, inObject: bool)
    ensures inObject ==> EventStep(Open(fs + [ObjectFrame(false)]), EndObject) == ValueEnded(fs)
    ensures !inObject ==> EventStep(Open(fs + [ArrayFrame]), EndArray) == ValueEnded(fs)
  {
    hide ValueEnded;
    assert (fs + [ObjectFrame(false)])[..|fs|] == fs && (fs + [ArrayFrame])[..|fs|] == fs;
  }

  /** The right end of a structure ends a value in the structure around it. */
  lemma EndEnds(p: Parser)
    requires Here(p, false) && |p.stack| > 1
    ensures var q := Resume(p).(depth := p.depth - 1);
            Ended(Emit(q, if q.state == InObject then EndObject else EndArray))
  {
    hide Trace;
    hide FramesOf;
    hide EventStep;
    var q := Resume(p).(depth := p.depth - 1);
    TraceSnoc(p.events, if q.state == InObject then EndObject else EndArray);
    assert q.stack + [q.state] == p.stack;
    EndPhase(q.stack, q.state);
  }

  lemma CloseSound(p: Parser)
    requires Here(p, false)
    ensures Sound(CloseObject(p)) && Sound(CloseArray(p))
  {
    hide Trace;
    hide FramesOf;
    if |p.stack| > 1 {
      var q := Resume(p).(depth := p.depth - 1);
      EndEnds(p);
      AfterSound(Emit(q, if q.state == InObject then EndObject else EndArray));
    }
  }

  /** Only the innermost object's flag depends on named. */
  lemma NamedInArray(base: seq<State>, named: bool)
    requires Containers(base) && (|base| == 1 || base[|base| - 1] == InArray)
    ensures FramesOf(base, named) == FramesOf(base, true)
  {
  }

  lemma SuspendSound(p: Parser, next: State)
    requires ResumableInv(p) && (next.Cr? || next.Lf? || next == InComment(Slash))
    ensures Sound(Suspend(p, next))
  {
    var q := Push(p, p.state, next);
    assert Resume(q) == p by { assert q.stack[..|p.stack|] == p.stack; }
  }

  lemma BlankSound(p: Parser, c: char)
    requires ResumableInv(p) && IsBlank(c)
    ensures Sound(Blank(p, c))
  {
    SuspendSound(p, Cr);
    SuspendSound(p, Lf);
    SuspendSound(p, InComment(Slash));
  }

  lemma BeginValueSound(p: Parser, c: char)
    requires Here(p, true) && StartsValue(c)
    ensures Sound(BeginValue(p, c))
  {
    OpenSound(p);
  }

  lemma NextSound(p: Parser)
    requires Here(p, false) && |p.stack| > 1
    ensures Sound(NextMemberOrElement(p))
  {
    if Parent(p) == InArray {
      NamedInArray(p.stack, false);
    }
  }

  lemma NameSound(p: Parser)
    requires Here(p, false) && Parent(p) == InObject
    ensures Inv(Push(p, MemberName, InString(StringU1)).(sbuf := ""))
  {
    var q := Push(p, MemberName, InString(StringU1)).(sbuf := "");
    assert q.stack[..|p.stack|] == p.stack;
  }

  lemma StructureSound(p0: Parser, c: char)
    requires Inv(p0) && p0.state.Structure?
    ensures Sound(StructuralStep(p0, c))
  {
    hide Trace;
    hide EventStep;
    hide FramesOf;
    hide CloseObject;
    hide CloseArray;
    hide OpenObject;
    hide OpenArray;
    hide BeginValue;
    hide Blank;
    hide NextMemberOrElement;
    var p := if p0.state.at.Start? then BeginDoc(p0) else p0;
    if p.state.at.Start? {
      StartHere(p);
    }
    if IsControl(c) {
    } else if IsBlank(c) {
      BlankSound(p, c);
    } else if StartsValue(c) && (p.state.at.Start? || p.state.at.ExpectValue? || p.state.at.ExpectValueOrEnd?) {
      if p.state.at.ExpectValueOrEnd? {
        NamedInArray(p.stack, false);
      }
      BeginValueSound(p, c);
    } else if !p.state.at.Start? {
      if Here(p, false) {
        CloseSound(p);
      }
      if p.state.at.ExpectCommaOrEnd? {
        NextSound(p);
      }
      if p.state.at.ExpectMemberName? || p.state.at.ExpectMemberNameOrEnd? {
        NameSound(p);
      }
    }
  }

  lemma EndNameSound(p: Parser)
    requires Inv(p) && p.state.InString? && Parent(p) == MemberName
    ensures Sound(EndString(p))
  {
    hide Trace;
    hide FramesOf;
    var q := Resume(p);
    TraceSnoc(p.events, Name(p.sbuf));
    var base := q.stack[..|q.stack| - 1];
    assert base + [InObject] == q.stack;
    FramesPush(base, InObject, false);
    FramesPush(base, InObject, true);
    var fs := FramesOf(q.stack, false);
    assert fs[..|fs| - 1] + [ObjectFrame(true)] == FramesOf(q.stack, true);
  }

  lemma EndStringSound(p: Parser)
    requires Inv(p) && p.state.InString?
    ensures Sound(EndString(p))
  {
    hide Trace;
    hide FramesOf;
    if Parent(p) == MemberName {
      EndNameSound(p);
    } else {
      var q := Emit(p, StringValue(p.sbuf));
      ScalarEnds(p, StringValue(p.sbuf));
      AfterSound(q.(sbuf := ""));
    }
  }

  /** Characters inside a string change neither the stack nor the events. */
  lemma InsideString(p: Parser, c: char)
    requires p.state.InString? && !(p.state.str.StringU1? && c == '"')
    ensures match StringStep(p, c)
            case Running(q) => q.state.InString? && q.stack == p.stack && q.events == p.events && q.depth == p.depth && q.maxDepth == p.maxDepth
            case Failed(code, es) => code != AssertionFailed && es == p.events
  {
  }

  lemma StringSound(p: Parser, c: char)
    requires Inv(p) && p.state.InString?
    ensures Sound(StringStep(p, c))
  {
    hide Trace;
    hide FramesOf;
    EventsGood(p);
    if p.state.str.StringU1? && c == '"' {
      hide EndString;
      EndStringSound(p);
    } else {
      hide StringStep;
      InsideString(p, c);
    }
  }

  lemma NumberSound(p: Parser, kind: NumberKind)
    requires Here(p, true)
    ensures var o := EndNumber(p, kind);
            o.Running? && ResumableInv(o.p) && (o.p.state.Done? || o.p.state == Structure(ExpectCommaOrEnd))
  {
    ScalarEnds(p, NumberValue(kind, p.nbuf));
    AfterSound(Emit(p, NumberValue(kind, p.nbuf)).(nbuf := ""));
  }

  lemma DoneSound(p: Parser, c: char)
    requires DoneInv(p) && p.state.Done? && IsDelimiter(c) && !IsBlank(c)
    ensures Sound(Delimit(p, c))
  {
  }

  lemma NumberStepSound(p: Parser, c: char)
    requires Inv(p) && p.state.InNumber?
    ensures Sound(NumberStep(p, c))
  {
    hide Trace;
    hide EventStep;
    hide FramesOf;
    hide CloseObject;
    hide CloseArray;
    hide EndNumber;
    hide Blank;
    hide NextMemberOrElement;
    EventsGood(p);
    if EndsNumber(p.state.num) && IsDelimiter(c) {
      NumberSound(p, KindOf(p.state.num));
      var q := EndNumber(p, KindOf(p.state.num)).p;
      if IsBlank(c) {
        BlankSound(q, c);
      } else if q.state.Done? {
        DoneSound(q, c);
      } else {
        CloseSound(q);
        NextSound(q);
      }
    }
  }

  lemma LiteralSound(p: Parser, c: char)
    requires Inv(p) && p.state.InLiteral?
    ensures Sound(LiteralStep(p, c))
  {
    hide Trace;
    hide EventStep;
    hide FramesOf;
    hide AfterStructure;
    EventsGood(p);
    forall e | IsScalar(e)
      ensures Sound(AfterStructure(Emit(p, e)))
    {
      ScalarEnds(p, e);
      AfterSound(Emit(p, e));
    }
  }

  lemma CommentSound(p: Parser, c: char)
    requires Inv(p) && p.state.InComment?
    ensures Sound(CommentStep(p, c))
  {
    hide Trace;
    hide FramesOf;
    EventsGood(p);
    if p.state.com.SlashStar? && (c == '\r' || c == '\n') {
      var q := Push(p, p.state, if c == '\r' then Cr else Lf);
      assert Resume(q) == p by { assert q.stack[..|p.stack|] == p.stack; }
    }
  }

  /** Every character keeps the invariant: no assertion of the source ever fails. */
  lemma {:induction false} StepSound(p: Parser, c: char)
    requires Inv(p)
    ensures Sound(Step(p, c))
    decreases |p.stack|
  {
    hide Trace;
    hide EventStep;
    hide FramesOf;
    hide StructuralStep;
    hide StringStep;
    hide NumberStep;
    hide LiteralStep;
    hide CommentStep;
    if GivesWay(p.state, c) {
      StepSound(Resume(p), c);
    } else {
      match p.state
      case Structure(_) => StructureSound(p, c);
      case InString(_) => StringSound(p, c);
      case InNumber(_) => NumberStepSound(p, c);
      case InLiteral(_) => LiteralSound(p, c);
      case InComment(_) => CommentSound(p, c);
      case Done =>
      case Cr =>
      case Lf =>
    }
  }

  lemma {:induction false} RunSound(o: Outcome, s: string)
    requires Sound(o)
    ensures Sound(Run(o, s))
    decreases |s|
  {
    if s != [] && o.Running? {
      StepSound(o.p, s[0]);
      RunSound(Step(o.p, s[0]), s[1..]);
    }
  }

  /** Nothing is open, and the events are a whole document, or there was none. */
  predicate Closed(p: Parser) {
    p.stack == [Root] && p.depth == 0 &&
    (p.events == [] || p.events == [BeginDocument] || Trace(p.events) == Finished)
  }

  /** A text that ends well was blank, or all its structures are closed and its one value is complete. */
  lemma FinishSound(p: Parser)
    requires Inv(p)
    ensures var o := Finish(p);
            Sound(o) && (o.Running? ==> Closed(o.p))
  {
    hide Trace;
    hide EventStep;
    hide FramesOf;
    hide EndNumber;
    EventsGood(p);
    if Parent(p) == Root && p.state.InNumber? && EndsNumber(p.state.num) {
      NumberSound(p, KindOf(p.state.num));
    }
    var o := if Parent(p) == Root && p.state.InNumber? && EndsNumber(p.state.num)
             then EndNumber(p, KindOf(p.state.num)) else Running(p);
    if o.Running? {
      EventsGood(o.p);
    }
  }

  /** The reachable-state invariant over every text, and what success and failure mean. */
  lemma ParseSound(maxDepth: nat, s: string)
    ensures var o := Run(Running(Initial(maxDepth)), s); o.Running? ==> Inv(o.p)
    ensures match Parse(maxDepth, s)
            case Running(p) => Closed(p)
            case Failed(code, es) => code != AssertionFailed && Trace(es) != Bad
  {
    InitialInv(maxDepth);
    RunSound(Running(Initial(maxDepth)), s);
    var o := Run(Running(Initial(maxDepth)), s);
    if o.Running? {
      FinishSound(o.p);
    }
  }

  /**
   A comma that ends a number does nothing more than end it if and only if the number is at
   the root, where a comma does not belong.
   */
  lemma CommaAfterNumber(p: Parser)
    requires p.state.InNumber? && EndsNumber(p.state.num) && p.stack != []
    ensures var o := EndNumber(p, KindOf(p.state.num)); o.Running? ==> (Step(p, ',') == o <==> Parent(p) == Root)
  {
    var o := EndNumber(p, KindOf(p.state.num));
    assert Step(p, ',') == NumberStep(p, ',');
    hide Step;
    assert o.Running? ==> NumberStep(p, ',') == NextMemberOrElement(o.p);
    hide NumberStep;
  }

  /** So a comma after a number at the root is swallowed. */
  lemma CommaSwallowed(maxDepth: nat)
    ensures Parse(maxDepth, "1,") == Parse(maxDepth, "1") && Parse(maxDepth, "1").Running?
  {
    var s := "1,";
    assert s == ['1', ','] && s[1..] == [','] && s[1..][1..] == [] && "1"[1..] == [];
    var o1 := Step(Initial(maxDepth), '1');
    var o2 := Step(o1.p, ',');
    assert Run(Running(Initial(maxDepth)), s) == Run(o1, s[1..]) == Run(o2, s[1..][1..]);
    assert Run(Running(Initial(maxDepth)), "1") == Run(o1, "1"[1..]);
  }

  /** A line ends inside a block comment. */
  predicate InBlockLineEnd(p: Parser)
    requires p.stack != []
  {
    (p.state.Cr? || p.state.Lf?) && Parent(p) == InComment(SlashStar)
  }

  /**
   How many entries of the stack lie above the containers: one while a member name is read,
   and one for every comment and line end that has to be returned from.
   */
  function Markers(p: Parser): nat
    requires p.stack != []
  {
    match p.state
    case InString(_) => if Parent(p) == MemberName then 1 else 0
    case InComment(_) => 1
    case Cr => if InBlockLineEnd(p) then 2 else 1
    case Lf => if InBlockLineEnd(p) then 2 else 1
    case _ => 0
  }

  /** What the entries above the containers are: what was suspended, from the outside in. */
  predicate AreMarkers(p: Parser, above: seq<State>)
    requires p.stack != []
  {
    match p.state
    case InString(_) => above == if Parent(p) == MemberName then [MemberName] else []
    case InComment(_) => |above| == 1 && IsSuspended(above[0])
    case Cr => AreSuspended(p, above)
    case Lf => AreSuspended(p, above)
    case _ => above == []
  }

  predicate AreSuspended(p: Parser, above: seq<State>)
    requires p.stack != []
  {
    above != [] && IsSuspended(above[0]) && above[1..] == if InBlockLineEnd(p) then [InComment(SlashStar)] else []
  }

  /** A comment or a line end can begin in a structural state, or after the root value. */
  predicate IsSuspended(s: State) {
    s.Structure? || s.Done?
  }

  /**
   Root and the containers below, which the depth counts, and above them exactly the markers
   of the state. So a stack has more than one marker if and only if a line ends inside a
   block comment, and then it has two.
   */
  lemma StackShape(p: Parser)
    requires Inv(p)
    ensures |p.stack| == p.depth + 1 + Markers(p) && p.depth <= p.maxDepth
    ensures Containers(p.stack[..p.depth + 1]) && AreMarkers(p, p.stack[p.depth + 1..])
    ensures |p.stack| > p.depth + 2 <==> InBlockLineEnd(p)
  {
    hide Trace;
    hide FramesOf;
    if p.state.Cr? || p.state.Lf? || p.state.InComment? {
      var q := Resume(p);
      if InBlockLineEnd(p) {
        assert Resume(q).stack == p.stack[..p.depth + 1];
      } else {
        assert q.stack == p.stack[..p.depth + 1];
      }
    } else if Markers(p) == 1 {
      assert Resume(p).stack == p.stack[..p.depth + 1];
    } else {
      assert p.stack == p.stack[..p.depth + 1];
    }
  }

  /** The shape of the stack after any text. */
  lemma ReachedShape(maxDepth: nat, s: string)
    requires Run(Running(Initial(maxDepth)), s).Running?
    ensures var p := Run(Running(Initial(maxDepth)), s).p;
            p.stack != [] && |p.stack| == p.depth + 1 + Markers(p) && Containers(p.stack[..p.depth + 1])
    ensures var p := Run(Running(Initial(maxDepth)), s).p; |p.stack| > p.depth + 2 <==> InBlockLineEnd(p)
  {
    ParseSound(maxDepth, s);
    StackShape(Run(Running(Initial(maxDepth)), s).p);
  }

  /** Two markers are reached: after the line end in this text both Start and the comment wait. */
  lemma TwoMarkers(maxDepth: nat)
    ensures var o := Run(Running(Initial(maxDepth)), "/*\n");
            o.Running? && o.p.state == Lf && o.p.stack == [Root, Structure(Start), InComment(SlashStar)] && o.p.depth == 0
    ensures InBlockLineEnd(Run(Running(Initial(maxDepth)), "/*\n").p)
  {
    var s := "/*\n";
    assert s == ['/', '*', '\n'] && s[1..] == ['*', '\n'] && s[1..][1..] == ['\n'] && s[1..][1..][1..] == [];
    var o1 := Step(Initial(maxDepth), '/');
    var o2 := Step(o1.p, '*');
    var o3 := Step(o2.p, '\n');
    assert Run(Running(Initial(maxDepth)), s) == Run(o1, s[1..]) == Run(o2, s[1..][1..]) == Run(o3, s[1..][1..][1..]);
  }
}
