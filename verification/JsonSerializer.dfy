/** Compact printing: string escapes, separators, and the serializer that follows events. */
module JsonPrinting {
  import opened JsonText

  datatype Options = Options(escapeAllNonAscii: bool, escapeSolidus: bool)

  function HexChar(d: int): char
    requires 0 <= d < 16
  {
    if d < 10 then ('0' as int + d) as char else ('A' as int - 10 + d) as char
  }

  /** The four hexadecimal digits of a 16-bit unit. */
  function HexText(u: int): string
    requires 0 <= u < 0x1_0000
  {
    [HexChar(u / 0x1000), HexChar(u / 0x100 % 0x10), HexChar(u / 0x10 % 0x10), HexChar(u % 0x10)]
  }

  /** A code point as one escape, or as two for a surrogate pair. */
  function UnicodeEscape(cp: int): string
    requires 0 <= cp < 0x11_0000
  {
    if cp > 0xFFFF then
      var v := cp - 0x1_0000;
      "\\u" + HexText(v / 0x400 + 0xD800) + "\\u" + HexText(v % 0x400 + 0xDC00)
    else "\\u" + HexText(cp)
  }

  predicate IsControlCharacter(c: char) {
    c as int <= 0x1F || c as int == 0x7F
  }

  function EscapedChar(c: char, opts: Options): string {
    if c == '\\' then "\\\\"
    else if c == '"' then "\\\""
    else if c == '\U{8}' then "\\b"
    else if c == '\U{C}' then "\\f"
    else if c == '\n' then "\\n"
    else if c == '\r' then "\\r"
    else if c == '\t' then "\\t"
    else if opts.escapeSolidus && c == '/' then "\\/"
    else if IsControlCharacter(c) || (opts.escapeAllNonAscii && c as int >= 0x80) then UnicodeEscape(c as int)
    else [c]
  }

  function Escaped(s: string, opts: Options): string {
    if s == [] then "" else Escaped(s[..|s| - 1], opts) + EscapedChar(s[|s| - 1], opts)
  }

  function Quoted(s: string, opts: Options): string {
    "\"" + Escaped(s, opts) + "\""
  }

  /** The compact text of a value. */
  function Print(v: Json, opts: Options): string
    decreases v, 0
  {
    match v
    case Null => "null"
    case Bool(b) => if b then "true" else "false"
    case Number(_, text) => text
    case String(s) => Quoted(s, opts)
    case Array(items) => "[" + PrintItems(items, false, opts) + "]"
    case Object(members) => "{" + PrintMembers(members, false, opts) + "}"
  }

  /** The items of an array, with a comma before each that is not the first. */
  function PrintItems(items: seq<Json>, more: bool, opts: Options): string
    decreases items, 1
  {
    if items == [] then ""
    else (if more then "," else "") + Print(items[0], opts) + PrintItems(items[1..], true, opts)
  }

  function PrintMember(m: Member, opts: Options): string
    decreases m, 0
  {
    Quoted(m.name, opts) + ":" + Print(m.value, opts)
  }

  function PrintMembers(members: seq<Member>, more: bool, opts: Options): string
    decreases members, 1
  {
    if members == [] then ""
    else (if more then "," else "") + PrintMember(members[0], opts) + PrintMembers(members[1..], true, opts)
  }

  /** One entry of the serializer's stack: the kind of structure, and the values in it so far. */
  datatype Context = Context(inObject: bool, count: nat)

  /** The serializer's state, as a value. */
  datatype Sink = Sink(stack: seq<Context>, out: string)

  predicate InArrayAfterValue(stack: seq<Context>) {
    stack != [] && !stack[|stack| - 1].inObject && stack[|stack| - 1].count > 0
  }

  function Comma(b: bool): string {
    if b then "," else ""
  }

  function Bumped(stack: seq<Context>): seq<Context> {
    if stack == [] then [] else
      var top := stack[|stack| - 1];
      stack[..|stack| - 1] + [top.(count := top.count + 1)]
  }

  /** The text of a scalar event. */
  function ScalarText(e: Event, opts: Options): string
    requires e.NullValue? || e.BoolValue? || e.NumberValue? || e.StringValue?
  {
    match e
    case NullValue => "null"
    case BoolValue(b) => if b then "true" else "false"
    case NumberValue(_, text) => text
    case StringValue(s) => Quoted(s, opts)
  }

  datatype Writing = Written(sink: Sink) | Broken

  /** One event; ending a structure when none is open fails an assertion. */
  function Write(k: Sink, e: Event, opts: Options): Writing {
    match e
    case BeginDocument => Written(k)
    case EndDocument => Written(k)
    case BeginObject =>
      Written(Sink(k.stack + [Context(true, 0)], k.out + Comma(InArrayAfterValue(k.stack)) + "{"))
    case BeginArray =>
      Written(Sink(k.stack + [Context(false, 0)], k.out + Comma(InArrayAfterValue(k.stack)) + "["))
    case EndObject =>
      if k.stack == [] then Broken else Written(Sink(Bumped(k.stack[..|k.stack| - 1]), k.out + "}"))
    case EndArray =>
      if k.stack == [] then Broken else Written(Sink(Bumped(k.stack[..|k.stack| - 1]), k.out + "]"))
    case Name(s) =>
      Written(k.(out := k.out + Comma(k.stack != [] && k.stack[|k.stack| - 1].count > 0) + Quoted(s, opts) + ":"))
    case _ =>
      Written(Sink(Bumped(k.stack), k.out + Comma(InArrayAfterValue(k.stack)) + ScalarText(e, opts)))
  }

  function WriteAll(w: Writing, es: seq<Event>, opts: Options): Writing
    decreases |es|
  {
    if es == [] || w.Broken? then w else WriteAll(Write(w.sink, es[0], opts), es[1..], opts)
  }

  lemma {:induction false} WriteAppend(w: Writing, es: seq<Event>, fs: seq<Event>, opts: Options)
    ensures WriteAll(w, es + fs, opts) == WriteAll(WriteAll(w, es, opts), fs, opts)
    decreases |es|
  {
    if es == [] {
      assert es + fs == fs;
    } else if w.Written? {
      assert (es + fs)[1..] == es[1..] + fs;
      WriteAppend(Write(w.sink, es[0], opts), es[1..], fs, opts);
    }
  }

  lemma WriteOne(k: Sink, e: Event, opts: Options)
    ensures WriteAll(Written(k), [e], opts) == Write(k, e, opts)
  {
    assert [e][1..] == [];
  }

  /** Two event sequences one after the other. */
  lemma WriteThen(k: Sink, es: seq<Event>, mid: Sink, fs: seq<Event>, end: Writing, opts: Options)
    requires WriteAll(Written(k), es, opts) == Written(mid) && WriteAll(Written(mid), fs, opts) == end
    ensures WriteAll(Written(k), es + fs, opts) == end
  {
    WriteAppend(Written(k), es, fs, opts);
  }

  /** Where the serializer is after a whole value: a separator if needed, its text, one more value counted. */
  function AfterValue(k: Sink, v: Json, opts: Options): Sink {
    Sink(Bumped(k.stack), k.out + Comma(InArrayAfterValue(k.stack)) + Print(v, opts))
  }

  /** n more values in the open structure, and their text. */
  function Counted(k: Sink, n: nat, text: string): Sink
    requires k.stack != []
  {
    var top := k.stack[|k.stack| - 1];
    Sink(k.stack[..|k.stack| - 1] + [top.(count := top.count + n)], k.out + text)
  }

  function OpenedSink(k: Sink, inObject: bool): Sink {
    Sink(k.stack + [Context(inObject, 0)], k.out + Comma(InArrayAfterValue(k.stack)) + if inObject then "{" else "[")
  }

  /** Opening, writing n values and closing again amounts to one value. */
  lemma ClosedSink(k: Sink, inObject: bool, n: nat, text: string, opts: Options)
    ensures var last := Counted(OpenedSink(k, inObject), n, text);
            var whole := (if inObject then "{" else "[") + text + (if inObject then "}" else "]");
            Write(last, if inObject then EndObject else EndArray, opts)
              == Written(Sink(Bumped(k.stack), k.out + Comma(InArrayAfterValue(k.stack)) + whole))
  {
    hide Bumped;
    var last := Counted(OpenedSink(k, inObject), n, text);
    assert last.stack[..|last.stack| - 1] == k.stack;
  }

  /** Following the events of any value, in any context, writes its compact text. */
  lemma {:induction false} WriteValue(k: Sink, v: Json, opts: Options)
    ensures WriteAll(Written(k), Events(v), opts) == Written(AfterValue(k, v, opts))
    decreases v, 0
  {
    hide WriteAll;
    match v
    case Null => WriteOne(k, NullValue, opts);
    case Bool(b) => WriteOne(k, BoolValue(b), opts);
    case Number(kind, text) => WriteOne(k, NumberValue(kind, text), opts);
    case String(s) => WriteOne(k, StringValue(s), opts);
    case Array(items) =>
      var inside := OpenedSink(k, false);
      var last := Counted(inside, |items|, PrintItems(items, false, opts));
      WriteOne(k, BeginArray, opts);
      WriteItems(inside, items, opts);
      WriteThen(k, [BeginArray], inside, ItemEvents(items), Written(last), opts);
      WriteOne(last, EndArray, opts);
      ClosedSink(k, false, |items|, PrintItems(items, false, opts), opts);
      WriteThen(k, [BeginArray] + ItemEvents(items), last, [EndArray], Written(AfterValue(k, v, opts)), opts);
    case Object(members) =>
      var inside := OpenedSink(k, true);
      var last := Counted(inside, |members|, PrintMembers(members, false, opts));
      WriteOne(k, BeginObject, opts);
      WriteMembers(inside, members, opts);
      WriteThen(k, [BeginObject], inside, MemberEvents(members), Written(last), opts);
      WriteOne(last, EndObject, opts);
      ClosedSink(k, true, |members|, PrintMembers(members, false, opts), opts);
      WriteThen(k, [BeginObject] + MemberEvents(members), last, [EndObject], Written(AfterValue(k, v, opts)), opts);
  }

  /** One value and then n more are n + 1 values. */
  lemma CountedNext(k: Sink, next: Sink, n: nat, first: string, rest: string)
    requires k.stack != [] && next == Sink(Bumped(k.stack), k.out + first)
    ensures next.stack != [] && Counted(next, n, rest) == Counted(k, n + 1, first + rest)
    ensures next.stack[|next.stack| - 1].inObject == k.stack[|k.stack| - 1].inObject
    ensures next.stack[|next.stack| - 1].count > 0
  {
    assert k.out + first + rest == k.out + (first + rest);
  }

  lemma {:induction false} WriteItems(k: Sink, items: seq<Json>, opts: Options)
    requires k.stack != [] && !k.stack[|k.stack| - 1].inObject
    ensures WriteAll(Written(k), ItemEvents(items), opts)
         == Written(Counted(k, |items|, PrintItems(items, k.stack[|k.stack| - 1].count > 0, opts)))
    decreases items, 1
  {
    var more := k.stack[|k.stack| - 1].count > 0;
    if items == [] {
      assert Counted(k, 0, "") == k;
    } else {
      hide WriteAll;
      var next := AfterValue(k, items[0], opts);
      var first := Comma(more) + Print(items[0], opts);
      assert k.out + Comma(more) + Print(items[0], opts) == k.out + first;
      WriteValue(k, items[0], opts);
      CountedNext(k, next, |items| - 1, first, PrintItems(items[1..], true, opts));
      WriteItems(next, items[1..], opts);
      WriteThen(k, Events(items[0]), next, ItemEvents(items[1..]),
                Written(Counted(k, |items|, first + PrintItems(items[1..], true, opts))), opts);
    }
  }

  lemma MemberText(out: string, comma: string, quoted: string, value: string)
    ensures out + comma + quoted + ":" + "" + value == out + (comma + (quoted + ":" + value))
  {
  }

  lemma WriteMember(k: Sink, m: Member, opts: Options)
    requires k.stack != [] && k.stack[|k.stack| - 1].inObject
    ensures WriteAll(Written(k), [Name(m.name)] + Events(m.value), opts)
         == Written(Sink(Bumped(k.stack), k.out + (Comma(k.stack[|k.stack| - 1].count > 0) + PrintMember(m, opts))))
    decreases m, 1
  {
    hide WriteAll;
    hide Bumped;
    hide Quoted;
    hide Events;
    hide Print;
    var comma := Comma(k.stack[|k.stack| - 1].count > 0);
    var named := k.(out := k.out + comma + Quoted(m.name, opts) + ":");
    WriteOne(k, Name(m.name), opts);
    WriteValue(named, m.value, opts);
    MemberText(k.out, comma, Quoted(m.name, opts), Print(m.value, opts));
    WriteThen(k, [Name(m.name)], named, Events(m.value), Written(AfterValue(named, m.value, opts)), opts);
  }

  lemma {:induction false} WriteMembers(k: Sink, members: seq<Member>, opts: Options)
    requires k.stack != [] && k.stack[|k.stack| - 1].inObject
    ensures WriteAll(Written(k), MemberEvents(members), opts)
         == Written(Counted(k, |members|, PrintMembers(members, k.stack[|k.stack| - 1].count > 0, opts)))
    decreases members, 1
  {
    var more := k.stack[|k.stack| - 1].count > 0;
    if members == [] {
      assert Counted(k, 0, "") == k;
    } else {
      hide WriteAll;
      var first := Comma(more) + PrintMember(members[0], opts);
      var next := Sink(Bumped(k.stack), k.out + first);
      WriteMember(k, members[0], opts);
      CountedNext(k, next, |members| - 1, first, PrintMembers(members[1..], true, opts));
      WriteMembers(next, members[1..], opts);
      WriteThen(k, [Name(members[0].name)] + Events(members[0].value), next, MemberEvents(members[1..]),
                Written(Counted(k, |members|, first + PrintMembers(members[1..], true, opts))), opts);
    }
  }

  lemma {:induction false} ItemEventsSnoc(items: seq<Json>, i: nat)
    requires i < |items|
    ensures ItemEvents(items[..i + 1]) == ItemEvents(items[..i]) + Events(items[i])
  {
    if i > 0 {
      ItemEventsSnoc(items[1..], i - 1);
      assert items[..i + 1][1..] == items[1..][..i] && items[..i][1..] == items[1..][..i - 1];
    } else {
      assert items[..1][1..] == [];
    }
  }

  lemma {:induction false} MemberEventsSnoc(members: seq<Member>, i: nat)
    requires i < |members|
    ensures MemberEvents(members[..i + 1])
         == MemberEvents(members[..i]) + ([Name(members[i].name)] + Events(members[i].value))
  {
    if i > 0 {
      MemberEventsSnoc(members[1..], i - 1);
      assert members[..i + 1][1..] == members[1..][..i] && members[..i][1..] == members[1..][..i - 1];
    } else {
      assert members[..1][1..] == [];
    }
  }

  class JsonSerializer {
    var stack: seq<Context>
    var out: string
    const opts: Options

    ghost function State(): Sink
      reads this
    {
      Sink(stack, out)
    }

    constructor (opts: Options)
      ensures State() == Sink([], "") && this.opts == opts
    {
      this.opts := opts;
      stack, out := [], "";
    }

    method Put(text: string)
      modifies this`out
      ensures out == old(out) + text
    {
      out := out + text;
    }

    /** escape_string, one character of the text at a time. */
    method EscapeString(s: string)
      modifies this`out
      ensures out == old(out) + Escaped(s, opts)
    {
      hide EscapedChar;
      var i := 0;
      while i < |s|
        invariant i <= |s| && out == old(out) + Escaped(s[..i], opts)
      {
        assert s[..i + 1][..i] == s[..i];
        var c := s[i];
        PutEscaped(c);
        i := i + 1;
      }
      assert s[..i] == s;
    }

    method PutEscaped(c: char)
      modifies this`out
      ensures out == old(out) + EscapedChar(c, opts)
    {
      match c
      case '\\' => Put("\\\\");
      case '"' => Put("\\\"");
      case '\n' => Put("\\n");
      case '\r' => Put("\\r");
      case '\t' => Put("\\t");
      case _ =>
        if c == '\U{8}' {
          Put("\\b");
        } else if c == '\U{C}' {
          Put("\\f");
        } else if opts.escapeSolidus && c == '/' {
          Put("\\/");
        } else if IsControlCharacter(c) || opts.escapeAllNonAscii {
          var cp := c as int;
          if cp >= 0x80 || IsControlCharacter(c) {
            if cp > 0xFFFF {
              var v := cp - 0x1_0000;
              var first, second := v / 0x400 + 0xD800, v % 0x400 + 0xDC00;
              Put("\\u" + HexText(first) + "\\u" + HexText(second));
            } else {
              Put("\\u" + HexText(cp));
            }
          } else {
            Put([c]);
          }
        } else {
          Put([c]);
        }
    }

    method PutQuoted(s: string)
      modifies this`out
      ensures out == old(out) + Quoted(s, opts)
    {
      Put("\"");
      EscapeString(s);
      Put("\"");
    }

    /** The comma before a value of an array that is not the first. */
    method Separate()
      modifies this`out
      ensures out == old(out) + Comma(InArrayAfterValue(stack))
    {
      if |stack| > 0 && !stack[|stack| - 1].inObject {
        if stack[|stack| - 1].count > 0 {
          Put(",");
        }
      }
    }

    method EndValue()
      modifies this`stack
      ensures stack == Bumped(old(stack))
    {
      if |stack| > 0 {
        var top := stack[|stack| - 1];
        stack := stack[..|stack| - 1] + [top.(count := top.count + 1)];
      }
    }

    method BeginObject()
      modifies this
      ensures Written(State()) == Write(old(State()), Event.BeginObject, opts)
    {
      Separate();
      stack := stack + [Context(true, 0)];
      Put("{");
    }

    method BeginArray()
      modifies this
      ensures Written(State()) == Write(old(State()), Event.BeginArray, opts)
    {
      Separate();
      stack := stack + [Context(false, 0)];
      Put("[");
    }

    /** Fails when no structure is open. */
    method EndObject() returns (ok: bool)
      modifies this
      ensures (if ok then Written(State()) else Broken) == Write(old(State()), Event.EndObject, opts)
    {
      if |stack| == 0 {
        return false;
      }
      stack := stack[..|stack| - 1];
      Put("}");
      EndValue();
      ok := true;
    }

    method EndArray() returns (ok: bool)
      modifies this
      ensures (if ok then Written(State()) else Broken) == Write(old(State()), Event.EndArray, opts)
    {
      if |stack| == 0 {
        return false;
      }
      stack := stack[..|stack| - 1];
      Put("]");
      EndValue();
      ok := true;
    }

    method WriteName(name: string)
      modifies this
      ensures Written(State()) == Write(old(State()), Name(name), opts)
    {
      if |stack| > 0 && stack[|stack| - 1].count > 0 {
        Put(",");
      }
      PutQuoted(name);
      Put(":");
    }

    /** null, booleans, numbers and strings. */
    method WriteScalar(e: Event)
      requires e.NullValue? || e.BoolValue? || e.NumberValue? || e.StringValue?
      modifies this
      ensures Written(State()) == Write(old(State()), e, opts)
    {
      Separate();
      match e {
        case NullValue => Put("null");
        case BoolValue(b) => Put(if b then "true" else "false");
        case NumberValue(_, text) => Put(text);
        case StringValue(s) => PutQuoted(s);
      }
      EndValue();
    }

    /** dump_fragment of a value into this serializer. */
    method DumpFragment(v: Json) returns (ok: bool)
      modifies this
      ensures ok && State() == AfterValue(old(State()), v, opts)
      decreases v, 0
    {
      ok := true;
      match v
      case Null => WriteScalar(NullValue);
      case Bool(b) => WriteScalar(BoolValue(b));
      case Number(kind, text) => WriteScalar(NumberValue(kind, text));
      case String(s) => WriteScalar(StringValue(s));
      case Array(items) => ok := DumpItems(items, v);
      case Object(members) => ok := DumpMembers(members, v);
    }

    method DumpItems(items: seq<Json>, ghost v: Json) returns (ok: bool)
      requires v == Array(items)
      modifies this
      ensures ok && State() == AfterValue(old(State()), v, opts)
      decreases items, 1
    {
      hide WriteAll;
      ghost var k, inside := State(), OpenedSink(State(), false);
      BeginArray();
      var i := 0;
      WriteNone(inside, opts);
      while i < |items|
        invariant i <= |items|
        invariant WriteAll(Written(inside), ItemEvents(items[..i]), opts) == Written(State())
      {
        ghost var before := State();
        var done := DumpFragment(items[i]);
        WriteValue(before, items[i], opts);
        ItemEventsSnoc(items, i);
        WriteThen(inside, ItemEvents(items[..i]), before, Events(items[i]), Written(State()), opts);
        i := i + 1;
      }
      assert items[..i] == items;
      WriteItems(inside, items, opts);
      ClosedSink(k, false, |items|, PrintItems(items, false, opts), opts);
      ok := EndArray();
    }

    method DumpMembers(members: seq<Member>, ghost v: Json) returns (ok: bool)
      requires v == Object(members)
      modifies this
      ensures ok && State() == AfterValue(old(State()), v, opts)
      decreases members, 1
    {
      hide WriteAll;
      ghost var k, inside := State(), OpenedSink(State(), true);
      BeginObject();
      var i := 0;
      WriteNone(inside, opts);
      while i < |members|
        invariant i <= |members|
        invariant WriteAll(Written(inside), MemberEvents(members[..i]), opts) == Written(State())
      {
        ghost var before := State();
        ghost var m := members[i];
        WriteName(members[i].name);
        ghost var named := State();
        var done := DumpFragment(members[i].value);
        WriteOne(before, Name(m.name), opts);
        WriteValue(named, m.value, opts);
        WriteThen(before, [Name(m.name)], named, Events(m.value), Written(State()), opts);
        MemberEventsSnoc(members, i);
        WriteThen(inside, MemberEvents(members[..i]), before, [Name(m.name)] + Events(m.value), Written(State()), opts);
        i := i + 1;
      }
      assert members[..i] == members;
      WriteMembers(inside, members, opts);
      ClosedSink(k, true, |members|, PrintMembers(members, false, opts), opts);
      ok := EndObject();
    }
  }

  lemma WriteNone(k: Sink, opts: Options)
    ensures WriteAll(Written(k), [], opts) == Written(k)
  {
  }

  /** A whole value printed by a new serializer. */
  method Dump(v: Json, opts: Options) returns (text: string)
    ensures text == Print(v, opts)
  {
    var serializer := new JsonSerializer(opts);
    var ok := serializer.DumpFragment(v);
    text := serializer.out;
  }
}
