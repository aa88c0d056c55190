/** Paths as they are built up, and the loader that writes a tree record by record. */
module StoreLoad {
  import opened JsonText
  import opened ObjectStorage
  import opened StoreKeys
  import opened StoreLayout

  /** The key of a path: every component's key behind a slash. */
  function KeyOf(cs: seq<Component>): string {
    if cs == [] then "" else KeyOf(cs[..|cs| - 1]) + "/" + cs[|cs| - 1].key
  }

  predicate SlashFree(cs: seq<Component>) {
    forall i :: 0 <= i < |cs| ==> '/' !in cs[i].key
  }

  class Path {
    var components: seq<Component>
    var keyStr: string

    ghost predicate Valid()
      reads this
    {
      SlashFree(components) && keyStr == KeyOf(components)
    }

    constructor ()
      ensures Valid() && components == [] && keyStr == ""
    {
      components, keyStr := [], "";
    }

    /** The key is put together again; a slash inside a component is an illegal path. */
    method Rebuild() returns (ok: bool)
      modifies this`keyStr
      ensures ok <==> SlashFree(components)
      ensures ok ==> Valid()
    {
      keyStr := "";
      var it := 0;
      while it < |components|
        invariant it <= |components| && SlashFree(components[..it]) && keyStr == KeyOf(components[..it])
      {
        assert components[..it + 1][..it] == components[..it];
        if '/' in components[it].key {
          assert !SlashFree(components);
          return false;
        }
        keyStr := keyStr + "/" + components[it].key;
        it := it + 1;
      }
      assert components[..it] == components;
      ok := true;
    }

    method Push(c: string) returns (ok: bool)
      requires Valid()
      modifies this
      ensures ok <==> MakeComponent(c).Made? && '/' !in MakeComponent(c).c.key
      ensures ok ==> Valid() && components == old(components) + [MakeComponent(c).c]
      ensures ok ==> keyStr == old(keyStr) + "/" + MakeComponent(c).c.key
    {
      var made := MakeComponent(c);
      if made.Illegal? {
        return false;
      }
      ghost var before := components;
      components := components + [made.c];
      assert components[..|components| - 1] == before;
      assert components[|components| - 1] == made.c;
      assert forall i :: 0 <= i < |before| ==> components[i] == before[i];
      ok := Rebuild();
    }

    method Pop() returns (ok: bool)
      requires Valid() && components != []
      modifies this
      ensures ok && Valid() && components == old(components)[..|old(components)| - 1]
    {
      components := components[..|components| - 1];
      ok := Rebuild();
    }

    /** Reads a path from text: split at slashes, each part made a component. */
    method Update(p: string) returns (ok: bool)
      modifies this
      ensures ok <==> Readable(p)
      ensures ok ==> Valid() && components == ComponentsOf(p)
    {
      if p == "" {
        components, keyStr := [], "";
        return true;
      }
      if p[0] != '/' || ' ' in p {
        return false;
      }
      var tokens := Tokenize(p);
      assert tokens == [""] + Split(p[1..]);
      components := [];
      var it := 1;
      while it < |tokens|
        invariant 1 <= it <= |tokens| && LegalParts(tokens[1..it]) && components == Parts(tokens[1..it])
      {
        assert Prefix(tokens[1..it + 1]) == tokens[1..it];
        if tokens[it] == "" || MakeComponent(tokens[it]).Illegal? {
          PartIllegal(tokens[1..], it - 1);
          assert tokens[1..] == Split(p[1..]);
          return false;
        }
        components := components + [MakeComponent(tokens[it]).c];
        it := it + 1;
      }
      assert tokens[1..it] == Split(p[1..]);
      SplitSlashFree(p[1..]);
      PartsSlashFree(Split(p[1..]));
      ok := Rebuild();
    }
  }

  function Prefix<T>(s: seq<T>): seq<T>
    requires s != []
  {
    s[..|s| - 1]
  }

  // ---- Reading paths ----------------------------------------------------------------

  /** The parts of a text between its slashes. */
  function Split(s: string): (r: seq<string>)
    ensures r != []
  {
    if s == "" then [""]
    else if s[0] == '/' then [""] + Split(s[1..])
    else
      var r := Split(s[1..]);
      [[s[0]] + r[0]] + r[1..]
  }

  /** One text in front of the first part. */
  function Behind(t: string, parts: seq<string>): seq<string>
    requires parts != []
  {
    [t + parts[0]] + parts[1..]
  }

  method Tokenize(s: string) returns (r: seq<string>)
    ensures r == Split(s)
  {
    r := [];
    var temporary := "";
    var i := 0;
    assert s[0..] == s && "" + Split(s)[0] == Split(s)[0];
    while i < |s|
      invariant i <= |s| && r + Behind(temporary, Split(s[i..])) == Split(s)
    {
      TokenStep(r, temporary, s[i..]);
      assert s[i..][1..] == s[i + 1..];
      if s[i] != '/' {
        temporary := temporary + [s[i]];
      } else {
        r := r + [temporary];
        temporary := "";
      }
      i := i + 1;
    }
    assert temporary + "" == temporary;
    r := r + [temporary];
  }

  /** The next character goes to the part under way, or begins a new one. */
  lemma TokenStep(r: seq<string>, t: string, s: string)
    requires s != ""
    ensures r + Behind(t, Split(s)) ==
              if s[0] != '/' then r + Behind(t + [s[0]], Split(s[1..]))
              else r + [t] + Behind("", Split(s[1..]))
  {
    var rest := Split(s[1..]);
    if s[0] != '/' {
      assert t + ([s[0]] + rest[0]) == t + [s[0]] + rest[0];
    } else {
      assert t + "" == t && "" + rest[0] == rest[0];
      assert [rest[0]] + rest[1..] == rest;
      assert r + ([t] + rest) == r + [t] + rest;
    }
  }

  predicate LegalParts(tokens: seq<string>)
  {
    tokens == [] || (LegalParts(Prefix(tokens)) && tokens[|tokens| - 1] != "" && MakeComponent(tokens[|tokens| - 1]).Made?)
  }

  function Parts(tokens: seq<string>): seq<Component>
    requires LegalParts(tokens)
  {
    if tokens == [] then [] else Parts(Prefix(tokens)) + [MakeComponent(tokens[|tokens| - 1]).c]
  }

  /** The texts that update accepts as paths. */
  predicate Readable(p: string) {
    p == "" || (p[0] == '/' && ' ' !in p && LegalParts(Split(p[1..])))
  }

  function ComponentsOf(p: string): seq<Component>
    requires Readable(p)
  {
    if p == "" then [] else Parts(Split(p[1..]))
  }

  lemma {:induction false} PartIllegal(tokens: seq<string>, i: nat)
    requires i < |tokens| && (tokens[i] == "" || MakeComponent(tokens[i]).Illegal?)
    ensures !LegalParts(tokens)
  {
    if i < |tokens| - 1 {
      PartIllegal(Prefix(tokens), i);
    }
  }

  lemma {:induction false} SplitSlashFree(s: string)
    ensures forall i :: 0 <= i < |Split(s)| ==> '/' !in Split(s)[i]
  {
    if s != "" {
      SplitSlashFree(s[1..]);
    }
  }

  lemma ComponentSlashFree(c: string)
    requires '/' !in c && MakeComponent(c).Made?
    ensures '/' !in MakeComponent(c).c.key
  {
    if c != "" && c[0] == '$' {
      assert forall x :: x in "$" + c[1..] ==> x in c;
    }
  }

  lemma {:induction false} PartsSlashFree(tokens: seq<string>)
    requires LegalParts(tokens) && forall i :: 0 <= i < |tokens| ==> '/' !in tokens[i]
    ensures SlashFree(Parts(tokens))
  {
    if tokens != [] {
      PartsSlashFree(Prefix(tokens));
      ComponentSlashFree(tokens[|tokens| - 1]);
    }
  }

  /** Components as the constructor makes them. */
  predicate Genuine(c: Component) {
    c.key != "" && '/' !in c.key && MakeComponent(c.key).Made? && MakeComponent(c.key).c.key == c.key
  }

  lemma {:induction false} SplitPlain(t: string)
    requires '/' !in t
    ensures Split(t) == [t]
  {
    if t != "" {
      assert t[0] in t && forall x :: x in t[1..] ==> x in t;
      SplitPlain(t[1..]);
      assert [t[0]] + t[1..] == t;
    }
  }

  lemma {:induction false} SplitEnd(s: string, t: string)
    requires '/' !in t
    ensures Split(s + "/" + t) == Split(s) + [t]
  {
    if s == "" {
      SplitPlain(t);
      assert ("" + "/" + t)[1..] == t;
    } else {
      SplitEnd(s[1..], t);
      assert (s + "/" + t)[1..] == s[1..] + "/" + t;
    }
  }

  function Keys(cs: seq<Component>): seq<string> {
    if cs == [] then [] else Keys(Prefix(cs)) + [cs[|cs| - 1].key]
  }

  /** The parts of a path's key are the keys of its components. */
  lemma {:induction false} SplitKey(cs: seq<Component>)
    requires cs != [] && SlashFree(cs)
    ensures KeyOf(cs) != "" && KeyOf(cs)[0] == '/' && Split(KeyOf(cs)[1..]) == Keys(cs)
  {
    var init, last := Prefix(cs), cs[|cs| - 1].key;
    if init == [] {
      SplitPlain(last);
      assert ("" + "/" + last)[1..] == last;
    } else {
      SplitKey(init);
      SplitEnd(KeyOf(init)[1..], last);
      assert (KeyOf(init) + "/" + last)[1..] == KeyOf(init)[1..] + "/" + last;
    }
  }

  lemma {:induction false} KeysLegal(cs: seq<Component>)
    requires forall i :: 0 <= i < |cs| ==> Genuine(cs[i])
    ensures LegalParts(Keys(cs)) && KeyOf(Parts(Keys(cs))) == KeyOf(cs)
  {
    if cs != [] {
      KeysLegal(Prefix(cs));
      assert Prefix(Keys(cs)) == Keys(Prefix(cs));
    }
  }

  /** The key of the path that a text is read as. */
  function PathKey(p: string): string
    requires Readable(p)
  {
    KeyOf(ComponentsOf(p))
  }

  /** A key that reading a text as a path can give. */
  predicate IsPath(k: string) {
    Readable(k) && PathKey(k) == k
  }

  /**
   A path's own key, as a cursor gives it for a record, can be read back if and only if
   there is no space in it, and then the path has that key again.
   */
  lemma PathFromKey(cs: seq<Component>)
    requires forall i :: 0 <= i < |cs| ==> Genuine(cs[i])
    ensures Readable(KeyOf(cs)) <==> ' ' !in KeyOf(cs)
    ensures Readable(KeyOf(cs)) ==> PathKey(KeyOf(cs)) == KeyOf(cs)
  {
    if cs != [] {
      SplitKey(cs);
      KeysLegal(cs);
    }
  }

  lemma OnePart(comp: string)
    ensures LegalParts([comp]) <==> comp != "" && MakeComponent(comp).Made?
    ensures LegalParts([comp]) ==> KeyOf(Parts([comp])) == "/" + MakeComponent(comp).c.key
  {
    assert Prefix([comp]) == [];
    if LegalParts([comp]) {
      var c := MakeComponent(comp).c;
      assert Parts([comp]) == [c];
      assert [c][..0] == [] && KeyOf([c]) == KeyOf([]) + "/" + c.key;
    }
  }

  /** The key of a child can be read if and only if its directory's and its own component can. */
  lemma ReadChild(base: string, comp: string)
    requires '/' !in comp
    ensures Readable(base + "/" + comp) <==>
              Readable(base) && comp != "" && ' ' !in comp && MakeComponent(comp).Made?
    ensures Readable(base + "/" + comp) ==>
              PathKey(base + "/" + comp) == PathKey(base) + "/" + MakeComponent(comp).c.key
  {
    hide MakeComponent;
    var k := base + "/" + comp;
    assert ' ' in k <==> ' ' in base || ' ' in comp by {
      assert forall i :: 0 <= i < |base| ==> k[i] == base[i];
      assert forall i :: 0 <= i < |comp| ==> k[|base| + 1 + i] == comp[i];
    }
    if base == "" {
      SplitPlain(comp);
      assert k[1..] == comp;
      OnePart(comp);
    } else {
      assert k[0] == base[0] && k[1..] == base[1..] + "/" + comp;
      SplitEnd(base[1..], comp);
      assert Prefix(Split(base[1..]) + [comp]) == Split(base[1..]);
    }
  }

  lemma {:induction false} SplitSpaceFree(s: string)
    requires ' ' !in s
    ensures forall i :: 0 <= i < |Split(s)| ==> ' ' !in Split(s)[i]
  {
    if s != "" {
      assert s[0] in s && forall x :: x in s[1..] ==> x in s;
      SplitSpaceFree(s[1..]);
    }
  }

  lemma PartGenuine(t: string)
    requires t != "" && '/' !in t && ' ' !in t && MakeComponent(t).Made?
    ensures Genuine(MakeComponent(t).c) && ' ' !in MakeComponent(t).c.key
  {
    ComponentSlashFree(t);
    KeyStays(t);
  }

  lemma {:induction false} PartsGenuine(tokens: seq<string>)
    requires LegalParts(tokens) && forall i :: 0 <= i < |tokens| ==> '/' !in tokens[i] && ' ' !in tokens[i]
    ensures |Parts(tokens)| == |tokens| && ' ' !in KeyOf(Parts(tokens))
    ensures forall i :: 0 <= i < |tokens| ==> Genuine(Parts(tokens)[i])
  {
    hide Genuine;
    hide MakeComponent;
    if tokens != [] {
      PartsGenuine(Prefix(tokens));
      PartGenuine(tokens[|tokens| - 1]);
      assert Prefix(Parts(tokens)) == Parts(Prefix(tokens));
    }
  }

  /** What a text is read as is a path's key, and reads as itself. */
  lemma ReadTwice(p: string)
    requires Readable(p)
    ensures IsPath(PathKey(p))
  {
    if p != "" {
      assert forall x :: x in p[1..] ==> x in p;
      SplitSlashFree(p[1..]);
      SplitSpaceFree(p[1..]);
      PartsGenuine(Split(p[1..]));
      PathFromKey(ComponentsOf(p));
    }
  }

  // ---- The loader ---------------------------------------------------------------------

  /** The tree of records that a value is loaded as; null leaves no record. */
  function ToNode(v: Json): Node
    decreases v, 0
  {
    match v
    case Null => Nothing
    case Bool(b) => Leaf(if b then "b1" else "b0")
    case Number(_, text) => Leaf("n" + text)
    case String(s) => Leaf("s" + s)
    case Array(items) => Dir('A', ItemKids(items, 0))
    case Object(members) => Dir('O', MemberKids(members))
  }

  function ItemKids(items: seq<Json>, from: nat): (r: seq<Kid>)
    ensures |r| == |items|
    decreases items, 1
  {
    if items == [] then [] else [Kid("$" + EncodeIndex(from), ToNode(items[0]))] + ItemKids(items[1..], from + 1)
  }

  function MemberKids(members: seq<Member>): (r: seq<Kid>)
    ensures |r| == |members|
    decreases members, 1
  {
    if members == [] then []
    else [Kid(members[0].name, ToNode(members[0].value))] + MemberKids(members[1..])
  }

  /** Names without slash whose first character is above ! and is none of the four with a meaning. */
  predicate OrdinaryName(name: string) {
    PlainComponent(name) && name[0] != '.' && name[0] != '#' && name[0] != '$' && name[0] != '*'
  }

  /** No nulls, ordinary names, no name twice in an object, arrays whose indexes fit an int. */
  predicate Loadable(v: Json)
    decreases v, 0
  {
    match v
    case Null => false
    case Array(items) => |items| <= 0x7FFF_FFFF && LoadableItems(items)
    case Object(members) =>
      (forall i, j :: 0 <= i < j < |members| ==> members[i].name != members[j].name) && LoadableMembers(members)
    case _ => true
  }

  predicate LoadableItems(items: seq<Json>)
    decreases items, 1
  {
    items == [] || (Loadable(items[0]) && LoadableItems(items[1..]))
  }

  predicate LoadableMembers(members: seq<Member>)
    decreases members, 1
  {
    members == [] || (OrdinaryName(members[0].name) && Loadable(members[0].value) && LoadableMembers(members[1..]))
  }

  lemma {:induction false} ItemComps(items: seq<Json>, from: nat, i: nat)
    requires i < |items|
    ensures ItemKids(items, from)[i].comp == "$" + EncodeIndex(from + i)
    decreases items
  {
    hide EncodeIndex;
    hide ToNode;
    if i > 0 {
      ItemComps(items[1..], from + 1, i - 1);
    }
  }

  lemma {:induction false} MemberComps(members: seq<Member>, i: nat)
    requires i < |members|
    ensures MemberKids(members)[i].comp == members[i].name
    decreases members
  {
    if i > 0 {
      MemberComps(members[1..], i - 1);
    }
  }

  lemma IndexPlain(i: nat)
    ensures PlainComponent("$" + EncodeIndex(i))
  {
    var s := EncodeIndex(i);
    assert forall x :: x in "$" + s ==> x == '$' || x == '0' || x == '1';
  }

  /** A loadable value is an ordinary tree. */
  lemma {:induction false} LoadableOrdinary(v: Json)
    requires Loadable(v)
    ensures Ordinary(ToNode(v))
    decreases v, 0
  {
    match v
    case Array(items) =>
      LoadableItemsOrdinary(items, 0);
      ItemKidsDistinct(items);
    case Object(members) =>
      LoadableMembersOrdinary(members);
      MemberKidsDistinct(members);
    case _ =>
  }

  lemma ItemKidsDistinct(items: seq<Json>)
    requires |items| <= 0x7FFF_FFFF
    ensures DistinctKids(ItemKids(items, 0))
  {
    hide Less;
    hide EncodeIndex;
    hide ItemKids;
    var kids := ItemKids(items, 0);
    forall i, j | 0 <= i < j < |kids|
      ensures kids[i].comp != kids[j].comp
    {
      ItemComps(items, 0, i);
      ItemComps(items, 0, j);
      IndexOrder(i, j);
      LessAsymmetric(kids[i].comp, kids[j].comp);
    }
  }

  lemma MemberKidsDistinct(members: seq<Member>)
    requires forall i, j :: 0 <= i < j < |members| ==> members[i].name != members[j].name
    ensures DistinctKids(MemberKids(members))
  {
    var kids := MemberKids(members);
    forall i, j | 0 <= i < j < |kids|
      ensures kids[i].comp != kids[j].comp
    {
      MemberComps(members, i);
      MemberComps(members, j);
    }
  }

  lemma {:induction false} LoadableItemsOrdinary(items: seq<Json>, from: nat)
    requires LoadableItems(items)
    ensures OrdinaryKids(ItemKids(items, from))
    decreases items, 1
  {
    if items != [] {
      IndexPlain(from);
      LoadableOrdinary(items[0]);
      LoadableItemsOrdinary(items[1..], from + 1);
    }
  }

  lemma {:induction false} LoadableMembersOrdinary(members: seq<Member>)
    requires LoadableMembers(members)
    ensures OrdinaryKids(MemberKids(members))
    decreases members, 1
  {
    if members != [] {
      LoadableOrdinary(members[0].value);
      LoadableMembersOrdinary(members[1..]);
    }
  }

  // ---- Which records can be read again ------------------------------------------------

  /** No member name has a space. */
  predicate SpaceFree(v: Json)
    decreases v, 0
  {
    match v
    case Array(items) => SpaceFreeItems(items)
    case Object(members) => SpaceFreeMembers(members)
    case _ => true
  }

  predicate SpaceFreeItems(items: seq<Json>)
    decreases items, 1
  {
    items == [] || (SpaceFree(items[0]) && SpaceFreeItems(items[1..]))
  }

  predicate SpaceFreeMembers(members: seq<Member>)
    decreases members, 1
  {
    members == [] || (' ' !in members[0].name && SpaceFree(members[0].value) && SpaceFreeMembers(members[1..]))
  }

  lemma DirectoryReads(base: string)
    ensures Readable(base + "/!") <==> Readable(base)
    ensures Readable(base) ==> PathKey(base + "/!") == PathKey(base) + "/!"
  {
    hide Readable;
    ReadChild(base, "!");
    assert base + "/" + "!" == base + "/!";
    assert MakeComponent("!") == Made(Component("!", ".")) && ' ' !in "!";
  }

  ghost predicate AllReadable(es: seq<Entry>) {
    forall e :: e in es ==> Readable(e.key)
  }

  /** Under a place that cannot be read, nothing can. */
  lemma {:induction false} NoneReadable(n: Node, base: string)
    requires Ordinary(n) && !Readable(base)
    ensures Entries(n, base) != [] && forall e :: e in Entries(n, base) ==> !Readable(e.key)
    decreases n, 0
  {
    hide Readable;
    match n
    case Nothing =>
    case Leaf(text) => assert Entries(n, base) == [Entry(base, text)];
    case Dir(kind, kids) =>
      hide KidEntries;
      DirectoryReads(base);
      NoKidReadable(kids, base);
  }

  lemma {:induction false} NoKidReadable(kids: seq<Kid>, base: string)
    requires OrdinaryKids(kids) && !Readable(base)
    ensures forall e :: e in KidEntries(kids, base) ==> !Readable(e.key)
    decreases kids, 1
  {
    hide Readable;
    if kids != [] {
      ReadChild(base, kids[0].comp);
      NoneReadable(kids[0].node, base + "/" + kids[0].comp);
      NoKidReadable(kids[1..], base);
    }
  }

  /** The records of a loaded value can all be read again if and only if no name in it has a space. */
  lemma {:induction false} LoadedReadable(v: Json, base: string)
    requires Loadable(v) && Readable(base)
    ensures AllReadable(Entries(ToNode(v), base)) <==> SpaceFree(v)
    decreases v, 0
  {
    hide Readable;
    hide Entries;
    hide ToNode;
    hide AllReadable;
    match v
    case Array(items) =>
      assert ToNode(v) == Dir('A', ItemKids(items, 0)) by { ArrayNode(items); }
      DirReadable('A', ItemKids(items, 0), base);
      ItemsReadable(items, 0, base);
    case Object(members) =>
      assert ToNode(v) == Dir('O', MemberKids(members)) by { ObjectNode(members); }
      DirReadable('O', MemberKids(members), base);
      MembersReadable(members, base);
    case _ => LeafReadable(v, base);
  }

  lemma ArrayNode(items: seq<Json>)
    ensures ToNode(Array(items)) == Dir('A', ItemKids(items, 0))
  {
  }

  lemma ObjectNode(members: seq<Member>)
    ensures ToNode(Object(members)) == Dir('O', MemberKids(members))
  {
  }

  lemma LeafReadable(v: Json, base: string)
    requires Loadable(v) && !v.Array? && !v.Object? && Readable(base)
    ensures AllReadable(Entries(ToNode(v), base))
  {
    hide Readable;
  }

  lemma DirReadable(kind: char, kids: seq<Kid>, base: string)
    requires Readable(base)
    ensures AllReadable(Entries(Dir(kind, kids), base)) <==> AllReadable(KidEntries(kids, base))
  {
    hide Readable;
    hide KidEntries;
    DirectoryReads(base);
    EntriesSplit([Entry(base + "/!", [kind] + Decimal.Digits(|kids|))], KidEntries(kids, base));
  }

  lemma EntriesSplit(es: seq<Entry>, fs: seq<Entry>)
    ensures AllReadable(es + fs) <==> AllReadable(es) && AllReadable(fs)
  {
    hide Readable;
    if AllReadable(es + fs) {
      assert forall e :: e in es || e in fs ==> e in es + fs;
    }
  }

  lemma {:induction false} ItemsReadable(items: seq<Json>, from: nat, base: string)
    requires LoadableItems(items) && Readable(base)
    ensures AllReadable(KidEntries(ItemKids(items, from), base)) <==> SpaceFreeItems(items)
    decreases items, 1
  {
    hide Readable;
    hide EncodeIndex;
    if items != [] {
      var comp := "$" + EncodeIndex(from);
      IndexReadable(from);
      ReadChild(base, comp);
      LoadedReadable(items[0], base + "/" + comp);
      ItemsReadable(items[1..], from + 1, base);
      EntriesSplit(Entries(ToNode(items[0]), base + "/" + comp), KidEntries(ItemKids(items[1..], from + 1), base));
    }
  }

  lemma IndexReadable(i: nat)
    ensures var c := "$" + EncodeIndex(i);
            '/' !in c && ' ' !in c && MakeComponent(c).Made? && MakeComponent(c).c.key == c
  {
    var s := EncodeIndex(i);
    assert forall x :: x in "$" + s ==> x == '$' || x == '0' || x == '1';
    assert ("$" + s)[1..] == s;
  }

  lemma {:induction false} MembersReadable(members: seq<Member>, base: string)
    requires LoadableMembers(members) && Readable(base)
    ensures AllReadable(KidEntries(MemberKids(members), base)) <==> SpaceFreeMembers(members)
    decreases members, 1
  {
    hide Readable;
    if members != [] {
      var name, v := members[0].name, members[0].value;
      ReadChild(base, name);
      if ' ' in name {
        LoadableOrdinary(v);
        NoneReadable(ToNode(v), base + "/" + name);
        assert Entries(ToNode(v), base + "/" + name)[0] in Entries(ToNode(v), base + "/" + name);
      } else {
        LoadedReadable(v, base + "/" + name);
      }
      MembersReadable(members[1..], base);
      EntriesSplit(Entries(ToNode(v), base + "/" + name), KidEntries(MemberKids(members[1..]), base));
    }
  }

  class Database {
    var records: Records

    method Set(path: Path, value: string)
      modifies this
      ensures records == old(records)[path.keyStr := value]
    {
      records := records[path.keyStr := value];
    }
  }

  class Loader {
    const db: Database

    constructor (db: Database)
      ensures this.db == db
    {
      this.db := db;
    }

    /**
     load: the value's records at the path, which is pushed and popped on the way and comes
     back as it was. A name that makes no component, or one with a slash, is an error.
     */
    method Load(v: Json, path: Path) returns (ok: bool)
      requires path.Valid()
      modifies path, db
      ensures Loadable(v) ==> ok
      ensures ok ==> path.Valid() && path.components == old(path.components)
      ensures Loadable(v) ==> db.records == Written(old(db.records), Entries(ToNode(v), old(path.keyStr)))
      decreases v, 0
    {
      ok := true;
      match v
      case Null =>
      case Bool(b) => db.Set(path, if b then "b1" else "b0"); OneWritten(old(db.records), path.keyStr, if b then "b1" else "b0");
      case Number(_, text) => db.Set(path, "n" + text); OneWritten(old(db.records), path.keyStr, "n" + text);
      case String(s) => db.Set(path, "s" + s); OneWritten(old(db.records), path.keyStr, "s" + s);
      case Array(items) => ok := LoadArray(items, path);
      case Object(members) => ok := LoadObject(members, path);
    }

    /** The directory record, written under a component that is pushed for it and popped again. */
    method LoadDirectory(kind: char, size: nat, path: Path) returns (ok: bool)
      requires path.Valid()
      modifies path, db
      ensures ok && path.Valid() && path.components == old(path.components) && path.keyStr == old(path.keyStr)
      ensures db.records == old(db.records)[path.keyStr + "/!" := [kind] + Decimal.Digits(size)]
    {
      ghost var base := path.keyStr;
      ok := path.Push(".");
      assert path.keyStr == base + "/!";
      db.Set(path, [kind] + Decimal.Digits(size));
      ok := path.Pop();
    }

    method LoadObject(members: seq<Member>, path: Path) returns (ok: bool)
      requires path.Valid()
      modifies path, db
      ensures ok ==> path.Valid() && path.components == old(path.components)
      ensures Loadable(Object(members)) ==>
        ok && db.records == Written(old(db.records), Entries(Dir('O', MemberKids(members)), old(path.keyStr)))
      decreases members, 1
    {
      hide Written;
      hide KidEntries;
      hide MakeComponent;
      hide ToNode;
      hide MemberKids;
      hide ItemKids;
      hide KeyOf;
      ghost var before, base, cs := db.records, path.keyStr, path.components;
      ok := LoadDirectory('O', |members|, path);
      ghost var dir, kids := db.records, MemberKids(members);
      DirWritten(before, base, 'O', kids);
      var i := 0;
      while i < |members|
        invariant i <= |members| && path.Valid() && path.components == cs && path.keyStr == base && ok
        invariant Loadable(Object(members)) ==> Written(db.records, KidEntries(kids[i..], base)) == Written(dir, KidEntries(kids, base))
      {
        MemberKid(members, i);
        NextKid(kids, i, base, db.records);
        ok := path.Push(members[i].name);
        if !ok {
          return;
        }
        ok := Load(members[i].value, path);
        if !ok {
          return;
        }
        ok := path.Pop();
        assert path.components == cs;
        i := i + 1;
      }
      NoKids(base, db.records);
      assert kids[i..] == [];
    }

    method LoadArray(items: seq<Json>, path: Path) returns (ok: bool)
      requires path.Valid()
      modifies path, db
      ensures ok ==> path.Valid() && path.components == old(path.components)
      ensures Loadable(Array(items)) ==>
        ok && db.records == Written(old(db.records), Entries(Dir('A', ItemKids(items, 0)), old(path.keyStr)))
      decreases items, 1
    {
      hide Written;
      hide KidEntries;
      hide MakeComponent;
      hide ToNode;
      hide MemberKids;
      hide ItemKids;
      hide KeyOf;
      ghost var before, base, cs := db.records, path.keyStr, path.components;
      ok := LoadDirectory('A', |items|, path);
      ghost var dir, kids := db.records, ItemKids(items, 0);
      DirWritten(before, base, 'A', kids);
      var i := 0;
      while i < |items|
        invariant i <= |items| && path.Valid() && path.components == cs && path.keyStr == base && ok
        invariant Loadable(Array(items)) ==> Written(db.records, KidEntries(kids[i..], base)) == Written(dir, KidEntries(kids, base))
      {
        ItemKid(items, i);
        NextKid(kids, i, base, db.records);
        ok := path.Push("#" + Decimal.Digits(i));
        if !ok {
          return;
        }
        ok := Load(items[i], path);
        if !ok {
          return;
        }
        ok := path.Pop();
        assert path.components == cs;
        i := i + 1;
      }
      NoKids(base, db.records);
      assert kids[i..] == [];
    }
  }

  lemma OneWritten(db: Records, key: string, value: string)
    ensures Written(db, [Entry(key, value)]) == db[key := value]
  {
    assert [Entry(key, value)][1..] == [];
  }

  lemma DirWritten(db: Records, base: string, kind: char, kids: seq<Kid>)
    ensures Written(db, Entries(Dir(kind, kids), base))
         == Written(db[base + "/!" := [kind] + Decimal.Digits(|kids|)], KidEntries(kids, base))
  {
    var text := [kind] + Decimal.Digits(|kids|);
    WrittenAppend(db, [Entry(base + "/!", text)], KidEntries(kids, base));
    OneWritten(db, base + "/!", text);
  }

  lemma NextKid(kids: seq<Kid>, i: nat, base: string, db: Records)
    requires i < |kids|
    ensures Written(db, KidEntries(kids[i..], base))
         == Written(Written(db, Entries(kids[i].node, base + "/" + kids[i].comp)), KidEntries(kids[i + 1..], base))
  {
    assert kids[i..][0] == kids[i] && kids[i..][1..] == kids[i + 1..];
    WrittenAppend(db, Entries(kids[i].node, base + "/" + kids[i].comp), KidEntries(kids[i + 1..], base));
  }

  lemma NoKids(base: string, db: Records)
    ensures Written(db, KidEntries([], base)) == db
  {
  }

  /** A member's component, and its tree, if the object can be loaded. */
  lemma {:induction false} MemberKid(members: seq<Member>, i: nat)
    requires i < |members|
    ensures MemberKids(members)[i] == Kid(members[i].name, ToNode(members[i].value))
    ensures LoadableMembers(members) ==>
      Loadable(members[i].value) && MakeComponent(members[i].name) == Made(Component(members[i].name, members[i].name)) &&
      '/' !in members[i].name
    decreases members
  {
    if i > 0 {
      MemberKid(members[1..], i - 1);
    }
  }

  lemma ItemKid(items: seq<Json>, i: nat)
    requires i < |items|
    ensures ItemKids(items, 0)[i] == Kid("$" + EncodeIndex(i), ToNode(items[i]))
    ensures |items| <= 0x7FFF_FFFF && LoadableItems(items) ==>
      Loadable(items[i]) && '/' !in "$" + EncodeIndex(i) &&
      MakeComponent("#" + Decimal.Digits(i)) == Made(Component("$" + EncodeIndex(i), "#" + Decimal.Digits(i)))
  {
    hide EncodeIndex;
    hide ItemKids;
    hide MakeComponent;
    ItemKidFrom(items, 0, i);
    IndexPlain(i);
    if |items| <= 0x7FFF_FFFF {
      IndexComponent(i);
    }
  }

  lemma {:induction false} ItemKidFrom(items: seq<Json>, from: nat, i: nat)
    requires i < |items|
    ensures ItemKids(items, from)[i] == Kid("$" + EncodeIndex(from + i), ToNode(items[i]))
    ensures LoadableItems(items) ==> Loadable(items[i])
    decreases items
  {
    hide EncodeIndex;
    hide ToNode;
    if i > 0 {
      ItemKidFrom(items[1..], from + 1, i - 1);
    }
  }

  /**
   Loading a value into a store that has nothing there: afterwards the store holds its tree,
   laid out as described, and nothing outside it has changed.
   */
  method LoadInto(v: Json, path: Path, db: Database) returns (ok: bool)
    requires path.Valid() && Loadable(v)
    requires forall k :: k in db.records ==> !InSubtree(k, path.keyStr)
    modifies path, db
    ensures ok && LaidOut(ToNode(v), old(path.keyStr), db.records)
    ensures forall k :: !InSubtree(k, old(path.keyStr)) ==>
      (k in db.records <==> k in old(db.records)) && (k in old(db.records) ==> db.records[k] == old(db.records)[k])
  {
    ghost var base, before := path.keyStr, db.records;
    var loader := new Loader(db);
    LoadableOrdinary(v);
    WriteLaysOut(ToNode(v), base, before);
    ok := loader.Load(v, path);
    forall k | !InSubtree(k, base)
      ensures (k in db.records <==> k in before) && (k in before ==> db.records[k] == before[k])
    {
      WriteOutside(ToNode(v), base, before, k);
    }
  }
}
