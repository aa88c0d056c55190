/** Trees flattened to records of an ordered key space, and what a loaded tree looks like there. */
module StoreLayout {
  import opened ObjectStorage
  import opened StoreKeys

  datatype Kid = Kid(comp: string, node: Node)

  /** A tree as the store sees it: a value's text, or a directory of its kind with its children. */
  datatype Node = Nothing | Leaf(text: string) | Dir(kind: char, kids: seq<Kid>)

  datatype Entry = Entry(key: string, value: string)

  type Records = map<string, string>

  /** The records a tree is written as, in the order of writing. */
  function Entries(n: Node, base: string): seq<Entry>
    decreases n, 0
  {
    match n
    case Nothing => []
    case Leaf(text) => [Entry(base, text)]
    case Dir(kind, kids) => [Entry(base + "/!", [kind] + Decimal.Digits(|kids|))] + KidEntries(kids, base)
  }

  function KidEntries(kids: seq<Kid>, base: string): seq<Entry>
    decreases kids, 1
  {
    if kids == [] then []
    else Entries(kids[0].node, base + "/" + kids[0].comp) + KidEntries(kids[1..], base)
  }

  /** Records set one after the other. */
  function Written(db: Records, es: seq<Entry>): Records
    decreases |es|
  {
    if es == [] then db else Written(db[es[0].key := es[0].value], es[1..])
  }

  lemma {:induction false} WrittenAppend(db: Records, es: seq<Entry>, fs: seq<Entry>)
    ensures Written(db, es + fs) == Written(Written(db, es), fs)
    decreases |es|
  {
    if es == [] {
      assert es + fs == fs;
    } else {
      assert (es + fs)[1..] == es[1..] + fs;
      WrittenAppend(db[es[0].key := es[0].value], es[1..], fs);
    }
  }

  // ---- Subtrees ---------------------------------------------------------------------

  /** The record of a path, or a record under it. */
  predicate InSubtree(k: string, base: string) {
    k == base || StartsWith(k, base + "/")
  }

  /** The text before the first slash. */
  function FirstPart(s: string): string {
    if s == "" || s[0] == '/' then "" else [s[0]] + FirstPart(s[1..])
  }

  lemma {:induction false} FirstPartIs(c: string, rest: string)
    requires '/' !in c && (rest == "" || rest[0] == '/')
    ensures FirstPart(c + rest) == c
  {
    if c == "" {
      assert c + rest == rest;
    } else {
      assert c[0] in c && forall x :: x in c[1..] ==> x in c;
      FirstPartIs(c[1..], rest);
      assert (c + rest)[1..] == c[1..] + rest;
    }
  }

  /** A record under a child begins, after the parent, with the child's component. */
  lemma ChildPart(k: string, base: string, comp: string)
    requires InSubtree(k, base + "/" + comp) && '/' !in comp
    ensures StartsWith(k, base + "/") && FirstPart(k[|base| + 1..]) == comp && InSubtree(k, base)
  {
    var p := base + "/";
    if k == p + comp {
      FirstPartIs(comp, "");
      assert k[|p|..] == comp + "";
    } else {
      StartsIs(k, p + comp + "/");
      var rest := "/" + k[|p + comp| + 1..];
      assert k == p + (comp + rest);
      FirstPartIs(comp, rest);
      assert k[|p|..] == comp + rest;
    }
  }

  /** The subtrees of different children have no record in common. */
  lemma Disjoint(k: string, base: string, c: string, d: string)
    requires '/' !in c && '/' !in d && c != d
    ensures !(InSubtree(k, base + "/" + c) && InSubtree(k, base + "/" + d))
  {
    if InSubtree(k, base + "/" + c) && InSubtree(k, base + "/" + d) {
      ChildPart(k, base, c);
      ChildPart(k, base, d);
    }
  }

  /** A directory's own record comes before everything under its children. */
  lemma DirFirst(k: string, base: string, comp: string)
    requires InSubtree(k, base + "/" + comp) && comp != "" && comp[0] > '!'
    ensures Less(base + "/!", k)
  {
    var p := base + "/";
    var rest := k[|p|..];
    assert k == p + rest && rest[0] == comp[0];
    assert Less("!", rest);
    LessPrefix(p, "!", rest);
    assert p + "!" == base + "/!";
  }

  /** Everything under an array element comes before everything under a later one. */
  lemma ElementOrder(k: string, l: string, base: string, i: nat, j: nat)
    requires i < j < 0x1_0000_0000_0000_0000
    requires InSubtree(k, base + "/$" + EncodeIndex(i)) && InSubtree(l, base + "/$" + EncodeIndex(j))
    ensures Less(k, l)
  {
    IndexOrder(i, j);
    var p, ci, cj := base + "/", "$" + EncodeIndex(i), "$" + EncodeIndex(j);
    assert base + "/$" + EncodeIndex(i) == p + ci && base + "/$" + EncodeIndex(j) == p + cj;
    var x, y := k[|p + ci|..], l[|p + cj|..];
    assert k == p + (ci + x) && l == p + (cj + y);
    LessExtends(ci, cj, x, y);
    LessPrefix(p, ci + x, cj + y);
  }

  // ---- What it means to be laid out ---------------------------------------------------

  predicate PlainComponent(c: string) {
    c != "" && '/' !in c && c[0] > '!'
  }

  predicate DistinctKids(kids: seq<Kid>) {
    forall i, j :: 0 <= i < j < |kids| ==> kids[i].comp != kids[j].comp
  }

  /** No nulls; components without slash that sort after the directory mark; no two alike. */
  predicate Ordinary(n: Node)
    decreases n, 0
  {
    match n
    case Nothing => false
    case Leaf(_) => true
    case Dir(_, kids) => DistinctKids(kids) && OrdinaryKids(kids)
  }

  predicate OrdinaryKids(kids: seq<Kid>)
    decreases kids, 1
  {
    kids == [] || (PlainComponent(kids[0].comp) && Ordinary(kids[0].node) && OrdinaryKids(kids[1..]))
  }

  /** A record of a directory is its own, first of all, or belongs to one of its children. */
  predicate InDirectory(k: string, base: string, kids: seq<Kid>) {
    k == base + "/!" ||
    (Less(base + "/!", k) && exists i :: 0 <= i < |kids| && InSubtree(k, base + "/" + kids[i].comp))
  }

  /**
   The store holds the tree at base: a value is one record and nothing under it; a directory
   has a first record with its kind and the number of its children, no record in its place,
   nothing under it but its children, and these are laid out in the same way.
   */
  predicate LaidOut(n: Node, base: string, db: Records)
    decreases n, 0
  {
    match n
    case Nothing => forall k :: k in db ==> !InSubtree(k, base)
    case Leaf(text) => base in db && db[base] == text && forall k :: k in db && InSubtree(k, base) ==> k == base
    case Dir(kind, kids) =>
      && base !in db
      && base + "/!" in db && db[base + "/!"] == [kind] + Decimal.Digits(|kids|)
      && (forall k :: k in db && InSubtree(k, base) ==> InDirectory(k, base, kids))
      && KidsLaidOut(kids, base, db)
  }

  predicate KidsLaidOut(kids: seq<Kid>, base: string, db: Records)
    decreases kids, 1
  {
    kids == [] || (LaidOut(kids[0].node, base + "/" + kids[0].comp, db) && KidsLaidOut(kids[1..], base, db))
  }

  /** Only the records under base matter. */
  ghost predicate AgreeUnder(base: string, db: Records, db': Records) {
    forall k :: InSubtree(k, base) ==> (k in db <==> k in db') && (k in db && k in db' ==> db[k] == db'[k])
  }

  lemma UnderChild(k: string, base: string, comp: string)
    requires InSubtree(k, base + "/" + comp)
    ensures InSubtree(k, base)
  {
    assert k[..|base| + 1] == base + "/";
  }

  lemma {:induction false} LaidOutFrame(n: Node, base: string, db: Records, db': Records)
    requires LaidOut(n, base, db) && AgreeUnder(base, db, db')
    ensures LaidOut(n, base, db')
    decreases n, 0
  {
    if n.Dir? {
      assert InSubtree(base, base) && InSubtree(base + "/!", base);
      KidsLaidOutFrame(n.kids, base, db, db');
    } else {
      assert InSubtree(base, base);
    }
  }

  lemma {:induction false} KidsLaidOutFrame(kids: seq<Kid>, base: string, db: Records, db': Records)
    requires KidsLaidOut(kids, base, db) && AgreeUnder(base, db, db')
    ensures KidsLaidOut(kids, base, db')
    decreases kids, 1
  {
    if kids != [] {
      var b := base + "/" + kids[0].comp;
      forall k | InSubtree(k, b)
        ensures (k in db <==> k in db') && (k in db && k in db' ==> db[k] == db'[k])
      {
        UnderChild(k, base, kids[0].comp);
      }
      LaidOutFrame(kids[0].node, b, db, db');
      KidsLaidOutFrame(kids[1..], base, db, db');
    }
  }

  // ---- Writing lays out ---------------------------------------------------------------

  /** Writing a tree touches nothing outside its place. */
  lemma {:induction false} WriteOutside(n: Node, base: string, db: Records, k: string)
    requires !InSubtree(k, base)
    ensures var w := Written(db, Entries(n, base)); (k in w <==> k in db) && (k in db ==> w[k] == db[k])
    decreases n, 0
  {
    match n
    case Nothing =>
    case Leaf(text) => assert Entries(n, base)[1..] == [];
    case Dir(kind, kids) =>
      var e := Entry(base + "/!", [kind] + Decimal.Digits(|kids|));
      WrittenAppend(db, [e], KidEntries(kids, base));
      assert [e][1..] == [] && InSubtree(base + "/!", base);
      forall i | 0 <= i < |kids|
        ensures !InSubtree(k, base + "/" + kids[i].comp)
      {
        if InSubtree(k, base + "/" + kids[i].comp) {
          UnderChild(k, base, kids[i].comp);
        }
      }
      WriteKidsOutside(kids, base, db[e.key := e.value], k);
  }

  lemma {:induction false} WriteKidsOutside(kids: seq<Kid>, base: string, db: Records, k: string)
    requires forall i :: 0 <= i < |kids| ==> !InSubtree(k, base + "/" + kids[i].comp)
    ensures var w := Written(db, KidEntries(kids, base)); (k in w <==> k in db) && (k in db ==> w[k] == db[k])
    decreases kids, 1
  {
    if kids != [] {
      var b := base + "/" + kids[0].comp;
      WriteOutside(kids[0].node, b, db, k);
      WrittenAppend(db, Entries(kids[0].node, b), KidEntries(kids[1..], base));
      WriteKidsOutside(kids[1..], base, Written(db, Entries(kids[0].node, b)), k);
    }
  }

  lemma {:induction false} KidFacts(kids: seq<Kid>, i: nat)
    requires OrdinaryKids(kids) && i < |kids|
    ensures PlainComponent(kids[i].comp) && Ordinary(kids[i].node)
    decreases kids
  {
    if i > 0 {
      KidFacts(kids[1..], i - 1);
    }
  }

  /** Written where nothing was, an ordinary tree is laid out, and only its place has changed. */
  lemma {:induction false} WriteLaysOut(n: Node, base: string, db: Records)
    requires Ordinary(n) && forall k :: k in db ==> !InSubtree(k, base)
    ensures LaidOut(n, base, Written(db, Entries(n, base)))
    ensures forall k :: k in Written(db, Entries(n, base)) ==> k in db || InSubtree(k, base)
    decreases n, 0
  {
    match n
    case Nothing =>
    case Leaf(text) =>
      assert Entries(n, base)[1..] == [];
      assert Written(db, Entries(n, base)) == db[base := text];
    case Dir(kind, kids) =>
      var e := Entry(base + "/!", [kind] + Decimal.Digits(|kids|));
      WrittenAppend(db, [e], KidEntries(kids, base));
      assert [e][1..] == [];
      DirectoryLaysOut(kind, kids, base, db);
  }

  /** The directory case: its own record, then its children one after the other. */
  lemma DirectoryLaysOut(kind: char, kids: seq<Kid>, base: string, db: Records)
    requires DistinctKids(kids) && OrdinaryKids(kids) && forall k :: k in db ==> !InSubtree(k, base)
    ensures var text := [kind] + Decimal.Digits(|kids|);
            var w := Written(db[base + "/!" := text], KidEntries(kids, base));
            LaidOut(Dir(kind, kids), base, w) && forall k :: k in w ==> k in db || InSubtree(k, base)
    decreases kids, 2
  {
    var text := [kind] + Decimal.Digits(|kids|);
    var db1 := db[base + "/!" := text];
    var w := Written(db1, KidEntries(kids, base));
    forall k, i | k in db1 && 0 <= i < |kids|
      ensures !InSubtree(k, base + "/" + kids[i].comp)
    {
      KidFacts(kids, i);
      if InSubtree(k, base + "/" + kids[i].comp) {
        UnderChild(k, base, kids[i].comp);
        DirFirst(k, base, kids[i].comp);
        LessAsymmetric(base + "/!", k);
      }
    }
    WriteKidsLaysOut(kids, base, db1);
    assert InSubtree(base, base) && InSubtree(base + "/!", base);
    forall i | 0 <= i < |kids|
      ensures !InSubtree(base + "/!", base + "/" + kids[i].comp) && !InSubtree(base, base + "/" + kids[i].comp)
    {
      assert base + "/!" in db1;
      assert |base| < |base + "/" + kids[i].comp|;
    }
    WriteKidsOutside(kids, base, db1, base + "/!");
    WriteKidsOutside(kids, base, db1, base);
    forall k | k in w && InSubtree(k, base)
      ensures InDirectory(k, base, kids)
    {
      if k !in db1 {
        var i :| 0 <= i < |kids| && InSubtree(k, base + "/" + kids[i].comp);
        KidFacts(kids, i);
        DirFirst(k, base, kids[i].comp);
      }
    }
    forall k | k in w
      ensures k in db || InSubtree(k, base)
    {
      if k !in db1 {
        var i :| 0 <= i < |kids| && InSubtree(k, base + "/" + kids[i].comp);
        UnderChild(k, base, kids[i].comp);
      }
    }
  }

  lemma {:induction false} WriteKidsLaysOut(kids: seq<Kid>, base: string, db: Records)
    requires DistinctKids(kids) && OrdinaryKids(kids)
    requires forall k, i :: k in db && 0 <= i < |kids| ==> !InSubtree(k, base + "/" + kids[i].comp)
    ensures var w := Written(db, KidEntries(kids, base));
            KidsLaidOut(kids, base, w) &&
            forall k :: k in w ==> k in db || exists i :: 0 <= i < |kids| && InSubtree(k, base + "/" + kids[i].comp)
    decreases kids, 1
  {
    if kids != [] {
      var first, rest := kids[0], kids[1..];
      var b := base + "/" + first.comp;
      var db1 := Written(db, Entries(first.node, b));
      WrittenAppend(db, Entries(first.node, b), KidEntries(rest, base));
      assert forall k :: k in db ==> !InSubtree(k, b);
      WriteLaysOut(first.node, b, db);
      var w := Written(db1, KidEntries(rest, base));
      forall k, i | k in db1 && 0 <= i < |rest|
        ensures !InSubtree(k, base + "/" + rest[i].comp)
      {
        KidFacts(kids, i + 1);
        assert rest[i] == kids[i + 1] && kids[0].comp != kids[i + 1].comp;
        Disjoint(k, base, first.comp, rest[i].comp);
      }
      assert DistinctKids(rest) by {
        forall i, j | 0 <= i < j < |rest|
          ensures rest[i].comp != rest[j].comp
        {
          assert rest[i] == kids[i + 1] && rest[j] == kids[j + 1];
        }
      }
      WriteKidsLaysOut(rest, base, db1);
      FirstStays(first, rest, base, db1);
      forall k | k in w
        ensures k in db || exists i :: 0 <= i < |kids| && InSubtree(k, base + "/" + kids[i].comp)
      {
        if k in db1 && k !in db {
          assert InSubtree(k, base + "/" + kids[0].comp);
        } else if k !in db1 {
          var i :| 0 <= i < |rest| && InSubtree(k, base + "/" + rest[i].comp);
          assert kids[i + 1] == rest[i];
        }
      }
    }
  }

  /** Writing later children leaves an earlier one as it is. */
  lemma FirstStays(first: Kid, rest: seq<Kid>, base: string, db1: Records)
    requires PlainComponent(first.comp) && OrdinaryKids(rest)
    requires forall i :: 0 <= i < |rest| ==> rest[i].comp != first.comp
    requires LaidOut(first.node, base + "/" + first.comp, db1)
    ensures LaidOut(first.node, base + "/" + first.comp, Written(db1, KidEntries(rest, base)))
  {
    var b, w := base + "/" + first.comp, Written(db1, KidEntries(rest, base));
    forall k | InSubtree(k, b)
      ensures (k in db1 <==> k in w) && (k in db1 && k in w ==> db1[k] == w[k])
    {
      forall i | 0 <= i < |rest|
        ensures !InSubtree(k, base + "/" + rest[i].comp)
      {
        KidFacts(rest, i);
        Disjoint(k, base, first.comp, rest[i].comp);
      }
      WriteKidsOutside(rest, base, db1, k);
    }
    LaidOutFrame(first.node, b, db1, w);
  }

  // ---- What a laid-out tree guarantees --------------------------------------------------

  /** A tree without nothings has at least one record in its place. */
  lemma NotEmpty(n: Node, base: string, db: Records) returns (k: string)
    requires Ordinary(n) && LaidOut(n, base, db)
    ensures k in db && InSubtree(k, base)
  {
    k := if n.Leaf? then base else base + "/!";
  }

  /** The records of a laid-out subtree are neighbours: nothing else lies between two of them. */
  lemma Contiguous(n: Node, base: string, db: Records, k: string, m: string, l: string)
    requires Ordinary(n) && LaidOut(n, base, db)
    requires k in db && l in db && InSubtree(k, base) && InSubtree(l, base) && Less(k, m) && Less(m, l)
    ensures InSubtree(m, base)
  {
    if n.Leaf? {
      LessAsymmetric(k, m);
    } else {
      assert k != base && l != base;
      var p := base + "/";
      StartsIs(k, p);
      StartsIs(l, p);
      Between(p, k[|p|..], m, l[|p|..]);
    }
  }

  /** The components that have records under a directory. */
  function ChildParts(base: string, db: Records): set<string> {
    set k | k in db && StartsWith(k, base + "/") && k != base + "/!" :: FirstPart(k[|base| + 1..])
  }

  function Comps(kids: seq<Kid>): set<string> {
    set i | 0 <= i < |kids| :: kids[i].comp
  }

  lemma CompsSnoc(init: seq<Kid>, last: Kid)
    ensures Comps(init + [last]) == Comps(init) + {last.comp}
  {
    var kids := init + [last];
    forall c | c in Comps(kids)
      ensures c in Comps(init) + {last.comp}
    {
      var i :| 0 <= i < |kids| && kids[i].comp == c;
      if i < |init| {
        assert init[i].comp == c;
      }
    }
    forall c | c in Comps(init)
      ensures c in Comps(kids)
    {
      var i :| 0 <= i < |init| && init[i].comp == c;
      assert kids[i].comp == c;
    }
    assert kids[|init|].comp == last.comp;
  }

  lemma {:induction false} CompsCount(kids: seq<Kid>)
    requires DistinctKids(kids)
    ensures |Comps(kids)| == |kids|
  {
    if kids == [] {
      assert Comps(kids) == {};
    } else {
      var init, last := kids[..|kids| - 1], kids[|kids| - 1];
      CompsCount(init);
      CompsSnoc(init, last);
      assert init + [last] == kids;
      assert last.comp !in Comps(init);
    }
  }

  lemma {:induction false} KidLaidOut(kids: seq<Kid>, base: string, db: Records, i: nat)
    requires KidsLaidOut(kids, base, db) && i < |kids|
    ensures LaidOut(kids[i].node, base + "/" + kids[i].comp, db)
    decreases kids
  {
    if i > 0 {
      KidLaidOut(kids[1..], base, db, i - 1);
    }
  }

  /** The recorded size of a directory is the number of its immediate children in the store. */
  lemma SizeCounts(kind: char, kids: seq<Kid>, base: string, db: Records)
    requires Ordinary(Dir(kind, kids)) && LaidOut(Dir(kind, kids), base, db)
    ensures db[base + "/!"] == [kind] + Decimal.Digits(|ChildParts(base, db)|)
  {
    CompsCount(kids);
    assert ChildParts(base, db) == Comps(kids) by {
      forall c | c in ChildParts(base, db)
        ensures c in Comps(kids)
      {
        var k :| k in db && StartsWith(k, base + "/") && k != base + "/!" && FirstPart(k[|base| + 1..]) == c;
        assert InDirectory(k, base, kids);
        var i :| 0 <= i < |kids| && InSubtree(k, base + "/" + kids[i].comp);
        KidFacts(kids, i);
        ChildPart(k, base, kids[i].comp);
      }
      forall c | c in Comps(kids)
        ensures c in ChildParts(base, db)
      {
        var i :| 0 <= i < |kids| && kids[i].comp == c;
        KidFacts(kids, i);
        KidLaidOut(kids, base, db, i);
        var k := NotEmpty(kids[i].node, base + "/" + c, db);
        ChildPart(k, base, c);
        DirFirst(k, base, c);
        LessAsymmetric(base + "/!", k);
      }
    }
  }
}
