/** JSON values, and the events that stand for them between parser, decoder and serializer. */
module JsonText {

  /** How a number was written; the conversion of its text to a machine number is not modelled. */
  datatype NumberKind = Integer | Fixed | Scientific

  datatype Json =
    | Null
    | Bool(b: bool)
    | Number(kind: NumberKind, text: string)
    | String(s: string)
    | Array(items: seq<Json>)
    | Object(members: seq<Member>)

  datatype Member = Member(name: string, value: Json)

  datatype Event =
    | BeginDocument
    | EndDocument
    | BeginObject
    | EndObject
    | BeginArray
    | EndArray
    | Name(name: string)
    | StringValue(s: string)
    | NumberValue(kind: NumberKind, text: string)
    | BoolValue(b: bool)
    | NullValue

  /** dump_fragment: the events of a value. */
  function Events(v: Json): seq<Event>
    decreases v, 0
  {
    match v
    case Null => [NullValue]
    case Bool(b) => [BoolValue(b)]
    case Number(k, t) => [NumberValue(k, t)]
    case String(s) => [StringValue(s)]
    case Array(items) => [BeginArray] + ItemEvents(items) + [EndArray]
    case Object(members) => [BeginObject] + MemberEvents(members) + [EndObject]
  }

  function ItemEvents(items: seq<Json>): seq<Event>
    decreases items, 1
  {
    if items == [] then [] else Events(items[0]) + ItemEvents(items[1..])
  }

  function MemberEvents(members: seq<Member>): seq<Event>
    decreases members, 1
  {
    if members == [] then []
    else [Name(members[0].name)] + Events(members[0].value) + MemberEvents(members[1..])
  }

  /** A whole document. */
  function Document(v: Json): seq<Event> {
    [BeginDocument] + Events(v) + [EndDocument]
  }
}
