/** Printing and then parsing any value gives exactly the events of that value. */
module RoundTrip {
  import opened JsonText
  import opened ParserSpec
  import opened JsonPrinting
  import opened RoundTripText

  /** Number texts are those of the grammar; strings and names may be anything. */
  predicate Valid(v: Json)
    decreases v, 0
  {
    match v
    case Number(kind, text) => ValidNumber(kind, text)
    case Array(items) => ValidItems(items)
    case Object(members) => ValidMembers(members)
    case _ => true
  }

  predicate ValidItems(items: seq<Json>)
    decreases items, 1
  {
    items == [] || (Valid(items[0]) && ValidItems(items[1..]))
  }

  predicate ValidMembers(members: seq<Member>)
    decreases members, 1
  {
    members == [] || (Valid(members[0].value) && ValidMembers(members[1..]))
  }

  /** The deepest nesting of objects and arrays. */
  function Height(v: Json): nat
    decreases v, 0
  {
    match v
    case Array(items) => 1 + ItemsHeight(items)
    case Object(members) => 1 + MembersHeight(members)
    case _ => 0
  }

  function Max(a: nat, b: nat): nat {
    if a < b then b else a
  }

  function ItemsHeight(items: seq<Json>): nat
    decreases items, 1
  {
    if items == [] then 0 else Max(Height(items[0]), ItemsHeight(items[1..]))
  }

  function MembersHeight(members: seq<Member>): nat
    decreases members, 1
  {
    if members == [] then 0 else Max(Height(members[0].value), MembersHeight(members[1..]))
  }

  /** A place for a value, inside the root, an object or an array. */
  predicate Ready(p: Parser) {
    AtValue(p) && p.stack != [] && (Parent(p).Root? || Parent(p).InArray? || Parent(p).InObject?)
  }

  /** The parser once the events of a value have been sent and its structure goes on, or the document is over. */
  function After(p: Parser, es: seq<Event>): Parser
    requires Ready(p)
  {
    var q := Begun(p).(events := Begun(p).events + es);
    if Parent(p).Root? then Emit(q, EndDocument).(state := Done) else q.(state := Structure(ExpectCommaOrEnd))
  }

  lemma AfterInside(p: Parser, es: seq<Event>)
    requires Ready(p) && !Parent(p).Root? && !p.state.at.Start?
    ensures After(p, es) == p.(state := Structure(ExpectCommaOrEnd), events := p.events + es)
  {
  }

  /** q is a, or is still inside a number whose end leads to a. */
  predicate Settles(q: Parser, a: Parser) {
    q == a || (q.state.InNumber? && EndsNumber(q.state.num) && EndNumber(q, KindOf(q.state.num)) == Running(a))
  }

  /** Where a number has ended, a delimiter does what it does after any value. */
  lemma SettledStep(q: Parser, a: Parser, c: char)
    requires Settles(q, a) && a.state == Structure(ExpectCommaOrEnd) && (c == ',' || c == ']' || c == '}')
    ensures Step(q, c) == Step(a, c)
  {
  }

  lemma SettledFinish(q: Parser, a: Parser)
    requires Settles(q, a) && a.state.Done? && a.stack == q.stack != [] && Parent(a).Root?
    ensures Finish(q) == Running(a)
  {
  }

  /** Text that is empty or begins with a delimiter is read alike from q and from a. */
  lemma SettledRun(q: Parser, a: Parser, s: string)
    requires Settles(q, a) && a.state == Structure(ExpectCommaOrEnd) && s != [] && (s[0] == ',' || s[0] == ']' || s[0] == '}')
    ensures Run(Running(q), s) == Run(Running(a), s)
  {
    hide Step;
    hide EndNumber;
    SettledStep(q, a, s[0]);
  }

  /** A literal, from its first character to the event it stands for. */
  lemma Spell(p: Parser, c: char, lit: LiteralState, w: string, e: Event)
    requires Ready(p) && (c == 'n' || c == 't' || c == 'f')
    requires BeginValue(Begun(p), c) == Running(Begun(p).(state := InLiteral(lit)))
    requires w == Suffix(lit) && e == LiteralEvent(lit)
    ensures Run(Running(p), [c] + w) == Running(After(p, [e]))
  {
    var q := Begun(p).(state := InLiteral(lit));
    ValueBegins(p, c);
    hide Step;
    hide Run;
    RunOne(p, c);
    RunThen(p, [c], q, w);
    LiteralAhead(q, w, w);
    assert w[..|w|] == w && w[|w|..] == "";
    RunEnds(AfterStructure(Emit(q, e)));
  }

  lemma RunEnds(o: Outcome)
    ensures Run(o, "") == o
  {
  }

  lemma NullBack(p: Parser)
    requires Ready(p)
    ensures Run(Running(p), "null") == Running(After(p, [NullValue]))
  {
    Spell(p, 'n', N, "ull", NullValue);
  }

  lemma BoolBack(p: Parser, b: bool)
    requires Ready(p)
    ensures Run(Running(p), if b then "true" else "false") == Running(After(p, [BoolValue(b)]))
  {
    hide Run;
    if b {
      Spell(p, 't', T, "rue", BoolValue(true));
      assert ['t'] + "rue" == "true";
    } else {
      Spell(p, 'f', F, "alse", BoolValue(false));
      assert ['f'] + "alse" == "false";
    }
  }

  lemma StringValueBack(p: Parser, s: string, opts: Options)
    requires Ready(p)
    ensures Run(Running(p), Quoted(s, opts)) == Running(After(p, [StringValue(s)]))
  {
    var q := Begun(p).(state := InString(StringU1));
    assert Step(p, '"') == Running(q);
    assert EndString(q.(sbuf := s)) == Running(After(p, [StringValue(s)]));
    hide Step;
    hide Run;
    hide EndString;
    RunOne(p, '"');
    QuotedBack(q, s, opts);
    RunThen(p, "\"", q, Escaped(s, opts) + "\"");
    assert Quoted(s, opts) == "\"" + (Escaped(s, opts) + "\"");
  }

  lemma NumberBack(p: Parser, kind: NumberKind, text: string) returns (q: Parser)
    requires Ready(p) && ValidNumber(kind, text)
    ensures Run(Running(p), text) == Running(q) && q.stack == p.stack && Settles(q, After(p, [NumberValue(kind, text)]))
  {
    hide Run;
    hide ValidNumber;
    var st := NumberRun(p, kind, text);
    q := Begun(p).(state := InNumber(st), nbuf := text);
  }

  lemma NameOpens(p: Parser)
    requires p.state.Structure? && (p.state.at.ExpectMemberName? || p.state.at.ExpectMemberNameOrEnd?)
    ensures Step(p, '"') == Running(Push(p, MemberName, InString(StringU1)).(sbuf := ""))
  {
  }

  lemma NameEnds(p: Parser, name: string)
    requires p.sbuf == ""
    ensures EndString(Push(p, MemberName, InString(StringU1)).(sbuf := name))
         == Running(Emit(p, Name(name)).(state := Structure(ExpectColon)))
  {
    var q := Push(p, MemberName, InString(StringU1)).(sbuf := name);
    assert q.stack[..|p.stack|] == p.stack;
  }

  lemma ColonStep(p: Parser)
    requires p.state == Structure(ExpectColon)
    ensures Step(p, ':') == Running(p.(state := Structure(ExpectValue)))
  {
  }

  /** A member name in quotes, and the colon after it. */
  lemma NameBack(p: Parser, name: string, opts: Options)
    requires p.state.Structure? && (p.state.at.ExpectMemberName? || p.state.at.ExpectMemberNameOrEnd?)
    requires p.stack != [] && p.nbuf == "" && p.sbuf == "" && p.cp == 0 && p.cp2 == 0
    ensures Run(Running(p), Quoted(name, opts) + ":")
         == Running(Emit(p, Name(name)).(state := Structure(ExpectValue)))
  {
    var q := Push(p, MemberName, InString(StringU1)).(sbuf := "");
    var named := Emit(p, Name(name)).(state := Structure(ExpectColon));
    hide Step;
    hide Run;
    hide EndString;
    NameOpens(p);
    NameEnds(p, name);
    ColonStep(named);
    RunOne(p, '"');
    QuotedBack(q, name, opts);
    RunThen(p, "\"", q, Escaped(name, opts) + "\"");
    assert Quoted(name, opts) == "\"" + (Escaped(name, opts) + "\"");
    RunThen(p, Quoted(name, opts), named, ":");
    RunOne(named, ':');
  }

  // ---- Structures -----------------------------------------------------------------

  /** No buffer or code point is in use. */
  predicate Clean(p: Parser) {
    p.nbuf == "" && p.sbuf == "" && p.cp == 0 && p.cp2 == 0
  }

  /** The parser just inside a new array or object. */
  function Inside(p: Parser, inObject: bool): Parser
    requires Ready(p)
  {
    var q := Begun(p).(depth := p.depth + 1);
    if inObject then Emit(Push(q, InObject, Structure(ExpectMemberNameOrEnd)), BeginObject)
    else Emit(Push(q, InArray, Structure(ExpectValueOrEnd)), BeginArray)
  }

  /** In a place for a value, a character that can begin one does. */
  lemma ValueBegins(p: Parser, c: char)
    requires Ready(p) && StartsValue(c)
    ensures Step(p, c) == BeginValue(Begun(p), c)
  {
    hide BeginValue;
  }

  lemma OpenStep(p: Parser, inObject: bool)
    requires Ready(p) && p.depth + 1 <= p.maxDepth
    ensures Step(p, if inObject then '{' else '[') == Running(Inside(p, inObject))
  {
    hide Step;
    hide Begun;
    var b := Begun(p);
    ValueBegins(p, if inObject then '{' else '[');
    BegunKeeps(p);
    Opens(b, inObject);
  }

  lemma BegunKeeps(p: Parser)
    requires Ready(p)
    ensures var b := Begun(p); b.stack == p.stack && b.depth == p.depth && b.maxDepth == p.maxDepth && Clean(b)
  {
  }

  lemma Opens(b: Parser, inObject: bool)
    requires b.depth + 1 <= b.maxDepth
    ensures BeginValue(b, if inObject then '{' else '[')
         == Running(if inObject then
                      Emit(Push(b.(depth := b.depth + 1), InObject, Structure(ExpectMemberNameOrEnd)), BeginObject)
                    else
                      Emit(Push(b.(depth := b.depth + 1), InArray, Structure(ExpectValueOrEnd)), BeginArray))
  {
  }

  /** The parser after the events of some of a structure's contents. */
  function Advance(p: Parser, es: seq<Event>): Parser {
    if es == [] then p else p.(state := Structure(ExpectCommaOrEnd), events := p.events + es)
  }

  /** Where its structure may end, a closing delimiter closes it. */
  lemma CloserStep(a: Parser, inObject: bool)
    requires a.state == Structure(ExpectCommaOrEnd) ||
             a.state == Structure(if inObject then ExpectMemberNameOrEnd else ExpectValueOrEnd)
    ensures Step(a, if inObject then '}' else ']') == if inObject then CloseObject(a) else CloseArray(a)
  {
    hide CloseObject;
    hide CloseArray;
  }

  lemma CloseStep(p: Parser, inObject: bool, es: seq<Event>)
    requires Ready(p) && p.depth + 1 <= p.maxDepth
    ensures var a := Advance(Inside(p, inObject), es);
            Step(a, if inObject then '}' else ']')
              == Running(After(p, [if inObject then BeginObject else BeginArray] + es + [if inObject then EndObject else EndArray]))
  {
    hide Step;
    var a := Advance(Inside(p, inObject), es);
    CloserStep(a, inObject);
    var e := if inObject then EndObject else EndArray;
    var whole := [if inObject then BeginObject else BeginArray] + es + [e];
    assert a.events + [e] == Begun(p).events + whole;
    var q := Resume(a).(depth := p.depth);
    assert q.stack == p.stack;
    assert (if inObject then CloseObject(a) else CloseArray(a)) == AfterStructure(Emit(q, e));
  }

  lemma EventsNotEmpty(v: Json)
    ensures Events(v) != []
  {
  }

  /** Closing delimiter after the contents of a structure, read to q or to its settled form. */
  lemma ContentsClose(p: Parser, inObject: bool, es: seq<Event>, q: Parser)
    requires Ready(p) && p.depth + 1 <= p.maxDepth
    requires Settles(q, Advance(Inside(p, inObject), es)) && (es == [] ==> q == Inside(p, inObject))
    ensures Step(q, if inObject then '}' else ']')
         == Running(After(p, [if inObject then BeginObject else BeginArray] + es + [if inObject then EndObject else EndArray]))
  {
    hide Step;
    hide Inside;
    hide After;
    hide EndNumber;
    CloseStep(p, inObject, es);
    if es != [] {
      SettledStep(q, Advance(Inside(p, inObject), es), if inObject then '}' else ']');
    }
  }

  /** Any printed value is read back to its events; a number may still await its end. */
  lemma {:induction false} ValueBack(p: Parser, v: Json, opts: Options) returns (q: Parser)
    requires Ready(p) && Valid(v) && p.depth + Height(v) <= p.maxDepth
    ensures Run(Running(p), Print(v, opts)) == Running(q) && q.stack == p.stack && Settles(q, After(p, Events(v)))
    decreases v, 0
  {
    hide Step;
    hide Run;
    hide Settles;
    match v
    case Null => NullBack(p); q := After(p, Events(v)); SettlesItself(q);
    case Bool(b) => BoolBack(p, b); q := After(p, Events(v)); SettlesItself(q);
    case String(s) => StringValueBack(p, s, opts); q := After(p, Events(v)); SettlesItself(q);
    case Number(kind, text) => q := NumberBack(p, kind, text);
    case Array(items) =>
      q := After(p, Events(v));
      SettlesItself(q);
      ArrayBack(p, items, opts);
    case Object(members) =>
      q := After(p, Events(v));
      SettlesItself(q);
      ObjectBack(p, members, opts);
  }

  lemma SettlesItself(a: Parser)
    ensures Settles(a, a)
  {
  }

  lemma ArrayBack(p: Parser, items: seq<Json>, opts: Options)
    requires Ready(p) && ValidItems(items) && p.depth + 1 + ItemsHeight(items) <= p.maxDepth
    ensures Run(Running(p), "[" + PrintItems(items, false, opts) + "]")
         == Running(After(p, [BeginArray] + ItemEvents(items) + [EndArray]))
    decreases items, 3
  {
    OpenStep(p, false);
    var inside := Inside(p, false);
    hide Step;
    hide Run;
    hide Settles;
    var q := ItemsBack(inside, items, false, opts);
    ContentsClose(p, false, ItemEvents(items), q);
    RunOne(p, '[');
    RunThen(p, "[", inside, PrintItems(items, false, opts));
    RunThen(p, "[" + PrintItems(items, false, opts), q, "]");
    RunOne(q, ']');
  }

  lemma {:induction false} ItemsBack(p: Parser, items: seq<Json>, more: bool, opts: Options) returns (q: Parser)
    requires p.state == Structure(if more then ExpectCommaOrEnd else ExpectValueOrEnd)
    requires Clean(p) && p.stack != [] && Parent(p).InArray?
    requires ValidItems(items) && p.depth + ItemsHeight(items) <= p.maxDepth
    ensures Run(Running(p), PrintItems(items, more, opts)) == Running(q)
    ensures q.stack == p.stack && Settles(q, Advance(p, ItemEvents(items)))
    ensures items == [] ==> q == p
    ensures ItemEvents(items) == [] <==> items == []
    decreases items, 2
  {
    if items == [] {
      q := p;
      return;
    }
    EventsNotEmpty(items[0]);
    var r := if more then p.(state := Structure(ExpectValue)) else p;
    CommaStep(p, more);
    hide Step;
    hide Run;
    hide Settles;
    hide After;
    hide Begun;
    AfterInside(r, Events(items[0]));
    var q1 := ValueBack(r, items[0], opts);
    var a1 := After(r, Events(items[0]));
    var rest := PrintItems(items[1..], true, opts);
    var q2 := ItemsBack(a1, items[1..], true, opts);
    RunThen(p, Comma(more), r, Print(items[0], opts));
    RunThen(p, Comma(more) + Print(items[0], opts), q1, rest);
    AdvanceTwice(p, Events(items[0]), ItemEvents(items[1..]));
    q := Follow(q1, a1, q2, items[1..] == [], rest);
  }

  lemma ObjectBack(p: Parser, members: seq<Member>, opts: Options)
    requires Ready(p) && ValidMembers(members) && p.depth + 1 + MembersHeight(members) <= p.maxDepth
    ensures Run(Running(p), "{" + PrintMembers(members, false, opts) + "}")
         == Running(After(p, [BeginObject] + MemberEvents(members) + [EndObject]))
    decreases members, 4
  {
    OpenStep(p, true);
    var inside := Inside(p, true);
    hide Step;
    hide Run;
    hide Settles;
    var q := MembersBack(inside, members, false, opts);
    ContentsClose(p, true, MemberEvents(members), q);
    RunOne(p, '{');
    RunThen(p, "{", inside, PrintMembers(members, false, opts));
    RunThen(p, "{" + PrintMembers(members, false, opts), q, "}");
    RunOne(q, '}');
  }

  /** One printed member, from the state its name is expected in. */
  lemma MemberBack(p: Parser, m: Member, opts: Options) returns (q: Parser)
    requires p.state.Structure? && (p.state.at.ExpectMemberName? || p.state.at.ExpectMemberNameOrEnd?)
    requires Clean(p) && p.stack != [] && Parent(p).InObject?
    requires Valid(m.value) && p.depth + Height(m.value) <= p.maxDepth
    ensures Run(Running(p), PrintMember(m, opts)) == Running(q) && q.stack == p.stack
    ensures Settles(q, Advance(p, [Name(m.name)] + Events(m.value)))
    decreases m, 2
  {
    hide Step;
    hide Run;
    hide Settles;
    var named := Emit(p, Name(m.name)).(state := Structure(ExpectValue));
    NameBack(p, m.name, opts);
    q := ValueBack(named, m.value, opts);
    RunThen(p, Quoted(m.name, opts) + ":", named, Print(m.value, opts));
    assert p.events + [Name(m.name)] + Events(m.value) == p.events + ([Name(m.name)] + Events(m.value));
  }

  lemma {:induction false} MembersBack(p: Parser, members: seq<Member>, more: bool, opts: Options) returns (q: Parser)
    requires p.state == Structure(if more then ExpectCommaOrEnd else ExpectMemberNameOrEnd)
    requires Clean(p) && p.stack != [] && Parent(p).InObject?
    requires ValidMembers(members) && p.depth + MembersHeight(members) <= p.maxDepth
    ensures Run(Running(p), PrintMembers(members, more, opts)) == Running(q)
    ensures q.stack == p.stack && Settles(q, Advance(p, MemberEvents(members)))
    ensures members == [] ==> q == p
    ensures MemberEvents(members) == [] <==> members == []
    decreases members, 3
  {
    if members == [] {
      q := p;
      return;
    }
    var es := [Name(members[0].name)] + Events(members[0].value);
    var r := if more then p.(state := Structure(ExpectMemberName)) else p;
    CommaStep(p, more);
    hide Step;
    hide Run;
    hide Settles;
    var q1 := MemberBack(r, members[0], opts);
    var a1 := Advance(r, es);
    var rest := PrintMembers(members[1..], true, opts);
    var q2 := MembersBack(a1, members[1..], true, opts);
    RunThen(p, Comma(more), r, PrintMember(members[0], opts));
    RunThen(p, Comma(more) + PrintMember(members[0], opts), q1, rest);
    AdvanceTwice(p, es, MemberEvents(members[1..]));
    q := Follow(q1, a1, q2, members[1..] == [], rest);
  }

  /** What was read after a settled value, from its unsettled form. */
  lemma Follow(q1: Parser, a1: Parser, q2: Parser, last: bool, rest: string) returns (q: Parser)
    requires Settles(q1, a1) && a1.state == Structure(ExpectCommaOrEnd) && q1.stack == a1.stack
    requires Run(Running(a1), rest) == Running(q2) && q2.stack == a1.stack
    requires last ==> rest == "" && q2 == a1
    requires !last ==> rest != "" && rest[0] == ','
    ensures Run(Running(q1), rest) == Running(q) && q.stack == q1.stack
    ensures q == if last then q1 else q2
  {
    if last {
      q := q1;
    } else {
      q := q2;
      SettledRun(q1, a1, rest);
    }
  }

  lemma CommaStep(p: Parser, more: bool)
    requires p.state.Structure? && p.stack != [] && (more ==> p.state.at.ExpectCommaOrEnd?)
    requires Parent(p).InArray? || Parent(p).InObject?
    ensures Run(Running(p), Comma(more)) ==
              Running(if more then p.(state := Structure(if Parent(p).InArray? then ExpectValue else ExpectMemberName)) else p)
  {
    if more {
      RunOne(p, ',');
    }
  }

  lemma AdvanceTwice(p: Parser, es: seq<Event>, fs: seq<Event>)
    requires es != []
    ensures Advance(Advance(p, es), fs) == Advance(p, es + fs)
  {
    assert p.events + es + fs == p.events + (es + fs);
    if fs == [] {
      assert es + fs == es;
    }
  }

  /**
   Round trip through text: for every value with well-formed numbers, under either escaping
   option and any depth limit it fits, parsing its compact text succeeds and yields exactly
   the events of the value.
   */
  lemma PrintThenParse(v: Json, opts: Options, maxDepth: nat)
    requires Valid(v) && Height(v) <= maxDepth
    ensures var o := Parse(maxDepth, Print(v, opts));
            o.Running? && o.p.events == Document(v)
  {
    var p := Initial(maxDepth);
    var q := ValueBack(p, v, opts);
    var a := After(p, Events(v));
    SettledFinish(q, a);
    assert Begun(p).events == [BeginDocument];
    assert a.events == Document(v);
  }
}
