/** The stack machine that rebuilds a value from its events. */
module JsonDecoding {
  import opened JsonText
  import opened ObjectStorage

  datatype Item = Item(name: string, value: Json)
  datatype Offset = Offset(index: nat, isObject: bool)

  /** The decoder's fields, as a value. */
  datatype Decoder = Decoder(stack: seq<Item>, offsets: seq<Offset>, result: Json, valid: bool)

  /** A step reaches a state, or something the source asserts or assumes does not hold. */
  datatype Decoding = Decoded(d: Decoder) | Undefined

  /** A value that has not been given yet is an empty object. */
  function Blank(): Json {
    Object([])
  }

  function Fresh(): Decoder {
    Decoder([], [], Blank(), false)
  }

  function Last<T>(s: seq<T>): T
    requires s != []
  {
    s[|s| - 1]
  }

  function Init<T>(s: seq<T>): seq<T>
    requires s != []
  {
    s[..|s| - 1]
  }

  /** Whether a value has a place: a structure is open, and in an object a name waits for it. */
  predicate HasPlace(d: Decoder) {
    d.offsets != [] && (Last(d.offsets).isObject ==> d.stack != [])
  }

  /** A value as the value of the last name, or as one more item. */
  function Place(d: Decoder, v: Json): Decoder
    requires HasPlace(d)
  {
    if Last(d.offsets).isObject then d.(stack := Init(d.stack) + [Item(Last(d.stack).name, v)])
    else d.(stack := d.stack + [Item("", v)])
  }

  function OpenStructure(d: Decoder, isObject: bool): Decoding {
    if !HasPlace(d) then Undefined
    else
      var p := Place(d, if isObject then Object([]) else Array([]));
      Decoded(p.(offsets := p.offsets + [Offset(|p.stack| - 1, isObject)]))
  }

  function Values(items: seq<Item>): seq<Json> {
    if items == [] then [] else Values(Init(items)) + [Last(items).value]
  }

  function Members(items: seq<Item>): seq<Member> {
    if items == [] then [] else Members(Init(items)) + [Member(Last(items).name, Last(items).value)]
  }

  /** The items above a structure go into it. */
  function Filled(v: Json, isObject: bool, items: seq<Item>): Json
    requires if isObject then v.Object? else v.Array?
  {
    if isObject then Object(Inserted(v.members + Members(items))) else Array(v.items + Values(items))
  }

  /** end_structure and pop_object or pop_array. */
  function CloseStructure(d: Decoder): Decoding {
    if d.offsets == [] || |d.stack| <= Last(d.offsets).index then Undefined
    else
      var top := Last(d.offsets);
      var v := d.stack[top.index].value;
      if (if top.isObject then v.Object? else v.Array?) then
        Decoded(d.(offsets := Init(d.offsets),
                   stack := d.stack[..top.index] +
                            [d.stack[top.index].(value := Filled(v, top.isObject, d.stack[top.index + 1..]))]))
      else Undefined
  }

  function ScalarValue(e: Event): Json
    requires e.NullValue? || e.BoolValue? || e.NumberValue? || e.StringValue?
  {
    match e
    case NullValue => Null
    case BoolValue(b) => Bool(b)
    case NumberValue(k, t) => Number(k, t)
    case StringValue(s) => String(s)
  }

  function Decode(d: Decoder, e: Event): Decoding {
    match e
    case BeginDocument => Decoded(d.(stack := [], offsets := [Offset(0, false)], valid := false))
    case EndDocument =>
      Decoded(if |d.stack| == 1 then d.(result := d.stack[0].value, stack := [], valid := true) else d)
    case BeginObject => OpenStructure(d, true)
    case BeginArray => OpenStructure(d, false)
    case EndObject => CloseStructure(d)
    case EndArray => CloseStructure(d)
    case Name(s) => Decoded(d.(stack := d.stack + [Item(s, Blank())]))
    case _ => if HasPlace(d) then Decoded(Place(d, ScalarValue(e))) else Undefined
  }

  function DecodeAll(o: Decoding, es: seq<Event>): Decoding
    decreases |es|
  {
    if es == [] || o.Undefined? then o else DecodeAll(Decode(o.d, es[0]), es[1..])
  }

  lemma {:induction false} DecodeAppend(o: Decoding, es: seq<Event>, fs: seq<Event>)
    ensures DecodeAll(o, es + fs) == DecodeAll(DecodeAll(o, es), fs)
    decreases |es|
  {
    if es == [] {
      assert es + fs == fs;
    } else if o.Decoded? {
      assert (es + fs)[1..] == es[1..] + fs;
      DecodeAppend(Decode(o.d, es[0]), es[1..], fs);
    }
  }

  lemma DecodeOne(d: Decoder, e: Event)
    ensures DecodeAll(Decoded(d), [e]) == Decode(d, e)
  {
    assert [e][1..] == [];
  }

  lemma DecodeThen(d: Decoder, es: seq<Event>, mid: Decoder, fs: seq<Event>, end: Decoding)
    requires DecodeAll(Decoded(d), es) == Decoded(mid) && DecodeAll(Decoded(mid), fs) == end
    ensures DecodeAll(Decoded(d), es + fs) == end
  {
    DecodeAppend(Decoded(d), es, fs);
  }

  // ---- The value that is rebuilt ------------------------------------------------------

  /** A value as the sorted storage keeps it: in every object, the last of each name, sorted. */
  function Normal(v: Json): Json
    decreases v, 0
  {
    match v
    case Array(items) => Array(NormalItems(items))
    case Object(members) => Object(Inserted(NormalMembers(members)))
    case _ => v
  }

  function NormalItems(items: seq<Json>): seq<Json>
    decreases items, 1
  {
    if items == [] then [] else [Normal(items[0])] + NormalItems(items[1..])
  }

  function NormalMembers(members: seq<Member>): seq<Member>
    decreases members, 1
  {
    if members == [] then []
    else [Member(members[0].name, Normal(members[0].value))] + NormalMembers(members[1..])
  }

  /** Every object in the value has strictly increasing names. */
  predicate IsNormal(v: Json)
    decreases v, 0
  {
    match v
    case Array(items) => NormalIn(items)
    case Object(members) => Sorted(members) && NormalInMembers(members)
    case _ => true
  }

  predicate NormalIn(items: seq<Json>)
    decreases items, 1
  {
    items == [] || (IsNormal(items[0]) && NormalIn(items[1..]))
  }

  predicate NormalInMembers(members: seq<Member>)
    decreases members, 1
  {
    members == [] || (IsNormal(members[0].value) && NormalInMembers(members[1..]))
  }

  /** A value that is as the storage keeps it stays as it is. */
  lemma {:induction false} NormalStays(v: Json)
    requires IsNormal(v)
    ensures Normal(v) == v
    decreases v, 0
  {
    match v
    case Array(items) => ItemsStay(items);
    case Object(members) =>
      MembersStay(members);
      InsertedSorted(members);
    case _ =>
  }

  lemma {:induction false} ItemsStay(items: seq<Json>)
    requires NormalIn(items)
    ensures NormalItems(items) == items
    decreases items, 1
  {
    if items != [] {
      NormalStays(items[0]);
      ItemsStay(items[1..]);
    }
  }

  lemma {:induction false} MembersStay(members: seq<Member>)
    requires NormalInMembers(members)
    ensures NormalMembers(members) == members
    decreases members, 1
  {
    if members != [] {
      NormalStays(members[0].value);
      MembersStay(members[1..]);
    }
  }

  // ---- Replaying a value --------------------------------------------------------------

  function ItemsOf(values: seq<Json>): seq<Item> {
    if values == [] then [] else [Item("", values[0])] + ItemsOf(values[1..])
  }

  function NamedItems(members: seq<Member>): seq<Item> {
    if members == [] then [] else [Item(members[0].name, members[0].value)] + NamedItems(members[1..])
  }

  lemma {:induction false} ValuesCons(i: Item, items: seq<Item>)
    ensures Values([i] + items) == [i.value] + Values(items)
    ensures Members([i] + items) == [Member(i.name, i.value)] + Members(items)
  {
    if items != [] {
      ValuesCons(i, Init(items));
      assert Init([i] + items) == [i] + Init(items);
    }
  }

  lemma {:induction false} ValuesBack(values: seq<Json>)
    ensures Values(ItemsOf(values)) == values
  {
    if values != [] {
      ValuesBack(values[1..]);
      ValuesCons(Item("", values[0]), ItemsOf(values[1..]));
    }
  }

  lemma {:induction false} MembersBack(members: seq<Member>)
    ensures Members(NamedItems(members)) == members
  {
    if members != [] {
      MembersBack(members[1..]);
      ValuesCons(Item(members[0].name, members[0].value), NamedItems(members[1..]));
    }
  }

  /** The decoder just inside a new structure. */
  function Opened(d: Decoder, isObject: bool): Decoder
    requires HasPlace(d)
  {
    OpenStructure(d, isObject).d
  }

  /** A structure that was opened, got its items and is closed is one value placed. */
  lemma FillAndClose(d: Decoder, isObject: bool, items: seq<Item>)
    requires HasPlace(d)
    ensures var o := Opened(d, isObject);
            var v := if isObject then Object(Inserted(Members(items))) else Array(Values(items));
            CloseStructure(o.(stack := o.stack + items)) == Decoded(Place(d, v))
  {
    hide Inserted;
    hide Members;
    hide Values;
    var o := Opened(d, isObject);
    var full := o.stack + items;
    var index := |o.stack| - 1;
    assert full[index + 1..] == items && full[index] == o.stack[index] && full[..index] == Init(o.stack);
    assert Init(o.offsets) == d.offsets;
    assert [] + Members(items) == Members(items) && [] + Values(items) == Values(items);
  }

  /**
   From any state in which a value has a place, replaying the events of v places exactly
   the normal form of v, and leaves everything else, the offsets included, as it was.
   */
  lemma {:induction false} Replay(d: Decoder, v: Json)
    requires HasPlace(d)
    ensures DecodeAll(Decoded(d), Events(v)) == Decoded(Place(d, Normal(v)))
    decreases v, 0
  {
    hide DecodeAll;
    match v
    case Null => DecodeOne(d, NullValue);
    case Bool(b) => DecodeOne(d, BoolValue(b));
    case Number(kind, text) => DecodeOne(d, NumberValue(kind, text));
    case String(s) => DecodeOne(d, StringValue(s));
    case Array(items) => ReplayArray(d, items);
    case Object(members) => ReplayObject(d, members);
  }

  /** The events that open and close a structure. */
  lemma OpenAndClose(d: Decoder, isObject: bool)
    requires HasPlace(d)
    ensures Decode(d, if isObject then BeginObject else BeginArray) == Decoded(Opened(d, isObject))
    ensures Decode(d, if isObject then EndObject else EndArray) == CloseStructure(d)
  {
    hide CloseStructure;
  }

  lemma ReplayArray(d: Decoder, items: seq<Json>)
    requires HasPlace(d)
    ensures DecodeAll(Decoded(d), [BeginArray] + ItemEvents(items) + [EndArray])
         == Decoded(Place(d, Array(NormalItems(items))))
    decreases items, 2
  {
    hide DecodeAll;
    hide Decode;
    hide CloseStructure;
    var o := Opened(d, false);
    var added := ItemsOf(NormalItems(items));
    var full := o.(stack := o.stack + added);
    OpenAndClose(d, false);
    OpenAndClose(full, false);
    DecodeOne(d, BeginArray);
    ReplayItems(o, items);
    DecodeThen(d, [BeginArray], o, ItemEvents(items), Decoded(full));
    DecodeOne(full, EndArray);
    FillAndClose(d, false, added);
    ValuesBack(NormalItems(items));
    DecodeThen(d, [BeginArray] + ItemEvents(items), full, [EndArray], Decoded(Place(d, Array(NormalItems(items)))));
  }

  lemma ReplayObject(d: Decoder, members: seq<Member>)
    requires HasPlace(d)
    ensures DecodeAll(Decoded(d), [BeginObject] + MemberEvents(members) + [EndObject])
         == Decoded(Place(d, Object(Inserted(NormalMembers(members)))))
    decreases members, 2
  {
    hide DecodeAll;
    hide Decode;
    hide CloseStructure;
    hide Inserted;
    var o := Opened(d, true);
    var added := NamedItems(NormalMembers(members));
    var full := o.(stack := o.stack + added);
    var v := Object(Inserted(NormalMembers(members)));
    OpenAndClose(d, true);
    OpenAndClose(full, true);
    DecodeOne(d, BeginObject);
    ReplayMembers(o, members);
    DecodeThen(d, [BeginObject], o, MemberEvents(members), Decoded(full));
    DecodeOne(full, EndObject);
    FillAndClose(d, true, added);
    MembersBack(NormalMembers(members));
    DecodeThen(d, [BeginObject] + MemberEvents(members), full, [EndObject], Decoded(Place(d, v)));
  }

  lemma {:induction false} ReplayItems(d: Decoder, items: seq<Json>)
    requires d.offsets != [] && !Last(d.offsets).isObject
    ensures DecodeAll(Decoded(d), ItemEvents(items)) == Decoded(d.(stack := d.stack + ItemsOf(NormalItems(items))))
    decreases items, 1
  {
    if items == [] {
      assert d.stack + [] == d.stack;
    } else {
      hide DecodeAll;
      var next := Place(d, Normal(items[0]));
      Replay(d, items[0]);
      ReplayItems(next, items[1..]);
      var rest := ItemsOf(NormalItems(items[1..]));
      assert d.stack + [Item("", Normal(items[0]))] + rest == d.stack + ([Item("", Normal(items[0]))] + rest);
      DecodeThen(d, Events(items[0]), next, ItemEvents(items[1..]), Decoded(next.(stack := next.stack + rest)));
    }
  }

  lemma ReplayMember(d: Decoder, m: Member)
    requires d.offsets != [] && Last(d.offsets).isObject
    ensures DecodeAll(Decoded(d), [Name(m.name)] + Events(m.value))
         == Decoded(d.(stack := d.stack + [Item(m.name, Normal(m.value))]))
    decreases m, 1
  {
    hide DecodeAll;
    var named := d.(stack := d.stack + [Item(m.name, Blank())]);
    DecodeOne(d, Name(m.name));
    Replay(named, m.value);
    assert Init(named.stack) == d.stack;
    DecodeThen(d, [Name(m.name)], named, Events(m.value), Decoded(Place(named, Normal(m.value))));
  }

  lemma {:induction false} ReplayMembers(d: Decoder, members: seq<Member>)
    requires d.offsets != [] && Last(d.offsets).isObject
    ensures DecodeAll(Decoded(d), MemberEvents(members))
         == Decoded(d.(stack := d.stack + NamedItems(NormalMembers(members))))
    decreases members, 1
  {
    if members == [] {
      assert d.stack + [] == d.stack;
    } else {
      hide DecodeAll;
      var m := members[0];
      var item := Item(m.name, Normal(m.value));
      var next := d.(stack := d.stack + [item]);
      ReplayMember(d, m);
      ReplayMembers(next, members[1..]);
      var rest := NamedItems(NormalMembers(members[1..]));
      assert d.stack + [item] + rest == d.stack + ([item] + rest);
      DecodeThen(d, [Name(m.name)] + Events(m.value), next, MemberEvents(members[1..]),
                 Decoded(next.(stack := next.stack + rest)));
    }
  }

  /** A whole document decodes to its value, from any earlier state of the decoder. */
  lemma DecodeDocument(d: Decoder, v: Json)
    ensures var o := DecodeAll(Decoded(d), Document(v));
            o.Decoded? && o.d.valid && o.d.result == Normal(v) && (IsNormal(v) ==> o.d.result == v)
  {
    var begun := d.(stack := [], offsets := [Offset(0, false)], valid := false);
    DecodeOne(d, BeginDocument);
    Replay(begun, v);
    DecodeThen(d, [BeginDocument], begun, Events(v), Decoded(Place(begun, Normal(v))));
    DecodeOne(Place(begun, Normal(v)), EndDocument);
    DecodeThen(d, [BeginDocument] + Events(v), Place(begun, Normal(v)), [EndDocument],
               Decode(Place(begun, Normal(v)), EndDocument));
    if IsNormal(v) {
      NormalStays(v);
    }
  }

  // ---- The decoder --------------------------------------------------------------------

  class JsonDecoder {
    var stack: seq<Item>
    var offsets: seq<Offset>
    var result: Json
    var isValid: bool

    ghost function State(): Decoder
      reads this
    {
      Decoder(stack, offsets, result, isValid)
    }

    constructor ()
      ensures State() == Fresh()
    {
      stack, offsets, result, isValid := [], [], Blank(), false;
    }

    method BeginDocument()
      modifies this
      ensures Decoded(State()) == Decode(old(State()), Event.BeginDocument)
    {
      offsets, stack := [], [];
      offsets := offsets + [Offset(0, false)];
      isValid := false;
    }

    method EndDocument()
      modifies this
      ensures Decoded(State()) == Decode(old(State()), Event.EndDocument)
    {
      if |stack| == 1 {
        result := stack[0].value;
        stack := stack[..|stack| - 1];
        isValid := true;
      }
    }

    /** A scalar, or the empty value of a new structure, where a value has a place. */
    method PutValue(v: Json)
      requires HasPlace(State())
      modifies this`stack
      ensures State() == Place(old(State()), v)
    {
      if offsets[|offsets| - 1].isObject {
        stack := stack[..|stack| - 1] + [Item(stack[|stack| - 1].name, v)];
      } else {
        stack := stack + [Item("", v)];
      }
    }

    method PushObject()
      requires HasPlace(State())
      modifies this
      ensures Decoded(State()) == OpenStructure(old(State()), true)
    {
      PutValue(Object([]));
      offsets := offsets + [Offset(|stack| - 1, true)];
    }

    method PushArray()
      requires HasPlace(State())
      modifies this
      ensures Decoded(State()) == OpenStructure(old(State()), false)
    {
      PutValue(Array([]));
      offsets := offsets + [Offset(|stack| - 1, false)];
    }

    /** end_structure: the items above the open structure become its members or elements. */
    method EndStructure()
      requires CloseStructure(State()).Decoded?
      modifies this`stack
      ensures stack == CloseStructure(old(State())).d.stack + old(stack[offsets[|offsets| - 1].index + 1..])
    {
      var top := offsets[|offsets| - 1];
      var first, v := top.index + 1, stack[top.index].value;
      ghost var items := stack[first..];
      if top.isObject {
        var members := CollectMembers(first);
        var object_ := new SortedObject();
        object_.members := v.members;
        object_.Insert(members);
        v := Object(object_.members);
      } else {
        var k := first;
        while k < |stack|
          invariant first <= k <= |stack| && v.Array?
          invariant v.items == stack[top.index].value.items + Values(stack[first..k])
        {
          assert Init(stack[first..k + 1]) == stack[first..k];
          v := Array(v.items + [stack[k].value]);
          k := k + 1;
        }
        assert stack[first..k] == items;
      }
      stack := stack[top.index := stack[top.index].(value := v)];
    }

    method CollectMembers(first: nat) returns (members: seq<Member>)
      requires first <= |stack|
      ensures members == Members(stack[first..])
    {
      var k := first;
      members := [];
      while k < |stack|
        invariant first <= k <= |stack| && members == Members(stack[first..k])
      {
        assert Init(stack[first..k + 1]) == stack[first..k];
        members := members + [Member(stack[k].name, stack[k].value)];
        k := k + 1;
      }
      assert stack[first..k] == stack[first..];
    }

    /** end_object and end_array. */
    method PopStructure()
      requires CloseStructure(State()).Decoded?
      modifies this
      ensures Decoded(State()) == CloseStructure(old(State()))
    {
      var index := offsets[|offsets| - 1].index;
      ghost var closed := CloseStructure(State()).d.stack;
      EndStructure();
      assert stack[..index + 1] == closed;
      stack := stack[..index + 1];
      offsets := offsets[..|offsets| - 1];
    }

    /** Hands one event to its handler; what the source would leave undefined is reported instead. */
    method Handle(e: Event) returns (ok: bool)
      modifies this
      ensures ok <==> Decode(old(State()), e).Decoded?
      ensures ok ==> Decoded(State()) == Decode(old(State()), e)
    {
      ok := true;
      match e {
        case BeginDocument => BeginDocument();
        case EndDocument => EndDocument();
        case Name(s) => stack := stack + [Item(s, Blank())];
        case BeginObject =>
          ok := HasPlace(Decoder(stack, offsets, result, isValid));
          if ok { PushObject(); }
        case BeginArray =>
          ok := HasPlace(Decoder(stack, offsets, result, isValid));
          if ok { PushArray(); }
        case EndObject =>
          ok := CloseStructure(Decoder(stack, offsets, result, isValid)).Decoded?;
          if ok { PopStructure(); }
        case EndArray =>
          ok := CloseStructure(Decoder(stack, offsets, result, isValid)).Decoded?;
          if ok { PopStructure(); }
        case _ =>
          ok := HasPlace(Decoder(stack, offsets, result, isValid));
          if ok { PutValue(ScalarValue(e)); }
      }
    }

    /** A stream of events, up to the first that is not defined. */
    method HandleAll(es: seq<Event>) returns (ok: bool)
      modifies this
      ensures ok <==> DecodeAll(Decoded(old(State())), es).Decoded?
      ensures ok ==> Decoded(State()) == DecodeAll(Decoded(old(State())), es)
    {
      hide Decode;
      ok := true;
      var i := 0;
      assert es[0..] == es;
      while i < |es|
        invariant i <= |es|
        invariant DecodeAll(Decoded(State()), es[i..]) == DecodeAll(Decoded(old(State())), es)
      {
        assert es[i..][1..] == es[i + 1..];
        ok := Handle(es[i]);
        if !ok {
          return;
        }
        i := i + 1;
      }
    }
  }
}
