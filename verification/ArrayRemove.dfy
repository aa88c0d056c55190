/** Cursors over the store, and removing a value from an array, which closes the gap. */
module ArrayRemove {
  import opened JsonText
  import opened ObjectStorage
  import opened StoreKeys
  import opened StoreLayout
  import opened StoreLoad

  datatype Option<T> = None | Some(v: T)

  // ---- Keys as paths ------------------------------------------------------------------

  /** A path without its last component, and that component. */
  function BaseOf(k: string): string {
    if k == "" then "" else if k[|k| - 1] == '/' then k[..|k| - 1] else BaseOf(k[..|k| - 1])
  }

  function PartOf(k: string): string {
    if k == "" || k[|k| - 1] == '/' then "" else PartOf(k[..|k| - 1]) + [k[|k| - 1]]
  }

  predicate IsDirectory(k: string) {
    PartOf(k) == "!"
  }

  /** The directory record of the container a path is in. */
  function ParentOf(k: string): string {
    (if IsDirectory(k) then BaseOf(BaseOf(k)) else BaseOf(k)) + "/!"
  }

  /** The index in the last component of a path, if it has one. */
  function IndexOf(k: string): Option<nat> {
    var part := PartOf(k);
    if part != "" && part[0] == '$' && IsBits(part[1..]) then Some(DecodeIndex(part[1..])) else None
  }

  lemma {:induction false} ChildSplits(base: string, comp: string)
    requires '/' !in comp
    ensures BaseOf(base + "/" + comp) == base && PartOf(base + "/" + comp) == comp
  {
    var k := base + "/" + comp;
    if comp == "" {
      assert k[..|k| - 1] == base;
    } else {
      var init := comp[..|comp| - 1];
      assert comp[|comp| - 1] in comp && forall x :: x in init ==> x in comp;
      ChildSplits(base, init);
      assert k[..|k| - 1] == base + "/" + init && init + [comp[|comp| - 1]] == comp;
    }
  }

  function DirKey(base: string): string {
    base + "/!"
  }

  function ElementKey(base: string, i: nat): string {
    base + "/$" + EncodeIndex(i)
  }

  lemma KeyFacts(base: string, i: nat)
    requires i < 0x1_0000_0000_0000_0000
    ensures IsDirectory(DirKey(base)) && BaseOf(DirKey(base)) == base
    ensures !IsDirectory(ElementKey(base, i)) && ParentOf(ElementKey(base, i)) == DirKey(base)
    ensures PartOf(ElementKey(base, i)) != "*"
    ensures IndexOf(ElementKey(base, i)) == Some(i)
    ensures Less(DirKey(base), ElementKey(base, i))
    ensures StartsWith(ElementKey(base, i), base + "/")
  {
    hide EncodeIndex;
    hide Less;
    var comp := "$" + EncodeIndex(i);
    IndexSlashFree(i);
    ChildSplits(base, "!");
    ChildSplits(base, comp);
    assert ElementKey(base, i) == base + "/" + comp && DirKey(base) == base + "/" + "!";
    IndexInPart(i);
    DirFirst(ElementKey(base, i), base, comp);
  }

  lemma IndexInPart(i: nat)
    requires i < 0x1_0000_0000_0000_0000
    ensures var part := "$" + EncodeIndex(i); IsBits(part[1..]) && DecodeIndex(part[1..]) == i
  {
    hide EncodeIndex;
    assert ("$" + EncodeIndex(i))[1..] == EncodeIndex(i);
    IndexBack(i);
  }

  /** Elements are ordered, and so told apart, by their indexes. */
  lemma ElementsOrdered(base: string, i: nat, j: nat)
    requires i < j < 0x1_0000_0000_0000_0000
    ensures Less(ElementKey(base, i), ElementKey(base, j)) && ElementKey(base, i) != ElementKey(base, j)
  {
    ElementOrder(ElementKey(base, i), ElementKey(base, j), base, i, j);
    LessAsymmetric(ElementKey(base, i), ElementKey(base, j));
  }

  // ---- Records and cursors --------------------------------------------------------------

  datatype Position = At(key: string) | Nowhere

  /** A record object: its cursor, its path, the text it has read if any, and whether it was found. */
  datatype Record = Record(cursor: Position, path: string, text: Option<string>, exists_: bool)

  /** What reading a record's text gives: values must have a type tag. */
  function TextRead(path: string, text: string): Option<string> {
    if IsDirectory(path) || (text != "" && (text[0] == 'n' || text[0] == 'b' || text[0] == 's')) then Some(text) else None
  }

  /** The size in a directory's text, a size_t. */
  function SizeIn(text: string): Option<nat> {
    if text != "" && IsNumber(text[1..]) && 0 <= Decimal.Fold(text[1..]) < 0x1_0000_0000_0000_0000
    then Some(Decimal.Fold(text[1..])) else None
  }

  /** The text of a directory or range is a kind and a size; that of a value is not empty. */
  predicate TextLegal(path: string, text: string) {
    text != "" &&
    (PartOf(path) == "!" || PartOf(path) == "*" ==> (text[0] == 'A' || text[0] == 'O') && SizeIn(text).Some?)
  }

  predicate IsArrayText(text: string) {
    text != "" && text[0] == 'A'
  }

  function ArrayText(size: nat): string {
    "A" + Decimal.Digits(size)
  }

  lemma ArrayTextSize(size: nat)
    requires size < 0x1_0000_0000_0000_0000
    ensures SizeIn(ArrayText(size)) == Some(size) && IsArrayText(ArrayText(size))
  {
    Decimal.FoldDigits(size);
    Decimal.PlainDigits(size);
    assert ArrayText(size)[1..] == Decimal.Digits(size);
  }

  predicate Within(bound: string, strict: bool, k: string) {
    Less(bound, k) || (!strict && bound == k)
  }

  /** The first key after a bound, or from it on. */
  predicate IsFirst(db: Records, bound: string, strict: bool, pos: Position) {
    match pos
    case At(k) => k in db && Within(bound, strict, k) && forall m :: m in db && Within(bound, strict, m) ==> !Less(m, k)
    case Nowhere => forall m :: m in db ==> !Within(bound, strict, m)
  }

  lemma FirstUnique(db: Records, bound: string, strict: bool, p: Position, q: Position)
    requires IsFirst(db, bound, strict, p) && IsFirst(db, bound, strict, q)
    ensures p == q
  {
    if p.At? && q.At? {
      LessTotal(p.key, q.key);
    }
  }

  /** The key that a cursor lands on is read as a path, and that may fail; past the end nothing is read. */
  predicate Lands(pos: Position) {
    pos.At? ==> Readable(pos.key)
  }

  /** step reads path and text. */
  predicate Steps(db: Records, pos: Position) {
    pos.At? ==> Readable(pos.key) && (pos.key in db ==> TextLegal(PathKey(pos.key), db[pos.key]))
  }

  predicate Found(path: string, pos: Position) {
    pos.At? && Readable(pos.key) && PathKey(pos.key) == path
  }

  /**
   Jumping to a path reads the path it lands on, whichever it is, and the text if it is the
   one. At the root no path is read, and a text must be there.
   */
  predicate Fetches(db: Records, path: string, pos: Position) {
    if path == "/!" then pos.At? && pos.key in db && TextLegal(path, db[pos.key])
    else Lands(pos) && (Found(path, pos) && pos.key in db ==> TextLegal(path, db[pos.key]))
  }

  function Fetched(db: Records, path: string, pos: Position): Record {
    if pos.At? && pos.key in db && (path == "/!" || Found(path, pos))
    then Record(pos, path, TextRead(path, db[pos.key]), true)
    else Record(pos, path, None, false)
  }

  lemma FetchHere(db: Records, k: string, pos: Position)
    requires IsFirst(db, k, false, pos) && k in db && IsPath(k) && TextLegal(k, db[k])
    ensures Fetches(db, k, pos) && Fetched(db, k, pos) == Record(At(k), k, TextRead(k, db[k]), true)
  {
    assert Within(k, false, k);
  }

  /** The record of an array, under a path that can be read. */
  predicate IsArrayAt(db: Records, dir: string) {
    IsPath(dir) && IsDirectory(dir) && dir in db && IsArrayText(db[dir]) && SizeIn(db[dir]).Some?
  }

  function Resized(db: Records, dir: string, change: nat): Records
    requires dir in db && SizeIn(db[dir]).Some?
  {
    db[dir := ArrayText((SizeIn(db[dir]).v + change) % 0x1_0000_0000_0000_0000)]
  }

  /** A place in an array where no record is found. */
  ghost predicate InArray(db: Records, path: string) {
    && !IsDirectory(path) && IndexOf(path).Some? && IsArrayAt(db, ParentOf(path))
    && (forall pos :: IsFirst(db, path, false, pos) ==> !Found(path, pos))
  }

  /** A free place in an array, at most one past its end. */
  ghost predicate IsNewElement(db: Records, path: string) {
    InArray(db, path) && path !in db && IndexOf(path).v <= SizeIn(db[ParentOf(path)]).v
  }

  /** What set and add do with a new element of an array. */
  function ElementAdded(db: Records, path: string, text: string): Records
    requires ParentOf(path) in db && path != ParentOf(path) && SizeIn(db[ParentOf(path)]).Some?
  {
    Resized(db[path := text], ParentOf(path), 1)
  }

  /** A cursor sent to the path lands well. */
  ghost predicate LandsFrom(db: Records, path: string) {
    forall pos :: IsFirst(db, path, false, pos) ==> Lands(pos)
  }

  lemma LandsOne(db: Records, path: string, pos: Position)
    requires IsFirst(db, path, false, pos)
    ensures LandsFrom(db, path) <==> Lands(pos)
    ensures InArray(db, path) ==>
      !Found(path, pos) && Fetched(db, path, pos) == Record(pos, path, None, false) && (Fetches(db, path, pos) <==> Lands(pos))
  {
    forall other | IsFirst(db, path, false, other)
      ensures other == pos
    {
      FirstUnique(db, path, false, other, pos);
    }
    assert IsDirectory("/!");
  }

  class Janosh {
    var records: Records

    // ---- Cursor operations ------------------------------------------------------------

    /** The database's cursor jump or step: the least key that is within the bound. */
    method First(bound: string, strict: bool) returns (pos: Position)
      ensures IsFirst(records, bound, strict, pos)
    {
      pos := Nowhere;
      var rest := records.Keys;
      while rest != {}
        invariant rest <= records.Keys
        invariant pos.At? ==> pos.key in records && Within(bound, strict, pos.key)
        invariant forall m :: m in records && m !in rest && Within(bound, strict, m) ==> pos.At? && !Less(m, pos.key)
        decreases |rest|
      {
        var k :| k in rest;
        if Within(bound, strict, k) && (pos == Nowhere || Less(k, pos.key)) {
          Earlier(records, rest, bound, strict, pos, k);
          pos := At(k);
        }
        rest := rest - {k};
      }
    }

    /** fetch: jumps to the path and reads the record there, unless something has been read already. */
    method Fetch(r: Record) returns (ok: bool, f: Record)
      ensures r.text.Some? ==> ok && f == r
      ensures r.text.None? ==> IsFirst(records, r.path, false, f.cursor)
      ensures r.text.None? ==> f == Fetched(records, r.path, f.cursor) && (ok <==> Fetches(records, r.path, f.cursor))
      ensures r.text.None? && r.path in records && IsPath(r.path) && TextLegal(r.path, records[r.path]) ==>
        ok && f == Record(At(r.path), r.path, TextRead(r.path, records[r.path]), true)
    {
      if r.text.Some? {
        return true, r;
      }
      var pos := First(r.path, false);
      ok, f := Fetches(records, r.path, pos), Fetched(records, r.path, pos);
      if r.path in records && IsPath(r.path) && TextLegal(r.path, records[r.path]) {
        FetchHere(records, r.path, pos);
      }
    }

    /** step: on to the next record, which is read; past the last one the record stays as it is. */
    method Step(r: Record) returns (ok: bool, moved: bool, s: Record)
      requires r.cursor.At?
      ensures IsFirst(records, r.cursor.key, true, s.cursor) && moved == s.cursor.At?
      ensures ok <==> Steps(records, s.cursor)
      ensures ok ==> s == if moved then Record(s.cursor, PathKey(s.cursor.key),
                                               TextRead(PathKey(s.cursor.key), records[s.cursor.key]), r.exists_)
                          else r.(cursor := Nowhere)
    {
      var pos := First(r.cursor.key, true);
      ok, moved := Steps(records, pos), pos.At?;
      s := r.(cursor := pos);
      if ok && moved {
        var path := PathKey(pos.key);
        s := Record(pos, path, TextRead(path, records[pos.key]), r.exists_);
      }
    }

    /**
     remove: deletes the record under the cursor, which moves to the next. The path of that
     one is read, after the deletion.
     */
    method RemoveAt(r: Record) returns (ok: bool, s: Record)
      requires r.cursor.At?
      modifies this
      ensures records == old(records) - {r.cursor.key}
      ensures IsFirst(records, r.cursor.key, true, s.cursor)
      ensures ok <==> r.cursor.key in old(records) && Lands(s.cursor)
      ensures ok ==> s == Record(s.cursor, if s.cursor.At? then PathKey(s.cursor.key) else "", None, r.exists_)
    {
      ok := r.cursor.key in records;
      records := records - {r.cursor.key};
      var pos := First(r.cursor.key, true);
      ok := ok && Lands(pos);
      s := Record(pos, if ok && pos.At? then PathKey(pos.key) else "", None, r.exists_);
    }

    // ---- Container sizes --------------------------------------------------------------

    /** setContainerSize, through the cursor of a container that has been read. */
    method SetContainerSize(container: Record, size: nat) returns (ok: bool)
      requires container.cursor.At? && container.text.Some?
      modifies this
      ensures ok <==> container.text.v != "" && (container.text.v[0] == 'A' || container.text.v[0] == 'O')
      ensures records == if ok then old(records)[container.cursor.key := [container.text.v[0]] + Decimal.Digits(size)]
                         else old(records)
    {
      var t := container.text.v;
      ok := t != "" && (t[0] == 'A' || t[0] == 'O');
      if ok {
        records := records[container.cursor.key := [t[0]] + Decimal.Digits(size)];
      }
    }

    /** changeContainerSize; sizes are size_t, so a change of -1 is one of 2^64 - 1. */
    method ChangeContainerSize(container0: Record, change: nat) returns (ok: bool)
      requires container0.text.Some? ==> container0.cursor.At?
      modifies this
      ensures container0.text.None? && IsArrayAt(old(records), container0.path) ==>
        ok && records == Resized(old(records), container0.path, change)
      ensures container0.cursor == At(container0.path) && IsArrayAt(old(records), container0.path) &&
              container0.text == Some(old(records)[container0.path]) ==>
        ok && records == Resized(old(records), container0.path, change)
    {
      var container;
      ok, container := Fetch(container0);
      if !ok || container.text.None? || SizeIn(container.text.v).None? {
        return false;
      }
      ok := SetContainerSize(container, (SizeIn(container.text.v).v + change) % 0x1_0000_0000_0000_0000);
    }

    /** A place in an array must be at most one past its end. Looking it up lands on a record, which is read. */
    method BoundsCheck(p0: Record) returns (ok: bool)
      requires p0.text.Some? ==> p0.cursor.At?
      ensures p0.text.None? && InArray(records, p0.path) ==>
        (ok <==> LandsFrom(records, p0.path) && (ParentOf(p0.path) == "/!" || IndexOf(p0.path).v <= SizeIn(records[ParentOf(p0.path)]).v))
    {
      var p, parent;
      ok, p := Fetch(p0);
      if p0.text.None? {
        LandsOne(records, p0.path, p.cursor);
      }
      if !ok {
        return false;
      }
      ok, parent := Fetch(Record(Nowhere, ParentOf(p0.path), None, false));
      if !ok {
        return false;
      }
      if parent.path == "/!" {
        return true;
      }
      if parent.text.None? {
        return false;
      }
      if !IsArrayText(parent.text.v) {
        return true;
      }
      if IndexOf(p.path).None? || SizeIn(parent.text.v).None? {
        return false;
      }
      ok := IndexOf(p.path).v <= SizeIn(parent.text.v).v;
    }

    // ---- Writing values ---------------------------------------------------------------

    /** add: a new record, counted in its container. An existing one is left as it is. */
    method Add(dest: Record, text: string) returns (ok: bool)
      requires dest.text.Some? ==> dest.cursor.At?
      modifies this
      ensures dest.text.None? && !dest.exists_ && IsNewElement(old(records), dest.path) ==>
        (ok <==> LandsFrom(old(records), dest.path)) &&
        records == if ok then ElementAdded(old(records), dest.path, text) else old(records)
    {
      if IsDirectory(dest.path) || dest.exists_ {
        return false;
      }
      var inBounds := BoundsCheck(dest);
      if !inBounds {
        return false;
      }
      ok := true;
      if dest.path !in records {
        records := records[dest.path := text];
        ok := ChangeContainerSize(Record(Nowhere, ParentOf(dest.path), None, false), 1);
      }
    }

    /** set, for a record that is a value; one that exists is replaced. */
    method Set(rec0: Record, text: string) returns (ok: bool)
      requires rec0.text.Some? ==> rec0.cursor.At?
      modifies this
      ensures rec0.text.None? && IsNewElement(old(records), rec0.path) ==>
        (ok <==> LandsFrom(old(records), rec0.path)) &&
        records == if ok then ElementAdded(old(records), rec0.path, text) else old(records)
    {
      if IsDirectory(rec0.path) {
        return false;
      }
      var inBounds := BoundsCheck(rec0);
      if !inBounds {
        return false;
      }
      var rec;
      ok, rec := Fetch(rec0);
      if rec0.text.None? {
        LandsOne(records, rec0.path, rec.cursor);
      }
      if !ok {
        return false;
      }
      if rec.exists_ {
        records := records[rec.path := text];
        return true;
      }
      ok := Add(rec, text);
    }

    /** copy of a value to a path; the destination must not exist, and looking for it reads the record landed on. */
    method CopyValue(src0: Record, dest0: Record) returns (ok: bool)
      requires (src0.text.Some? ==> src0.cursor.At?) && dest0.text.None?
      modifies this
      ensures src0.text.Some? && src0.path != dest0.path && !IsDirectory(src0.path) && IsNewElement(old(records), dest0.path) ==>
        (ok <==> LandsFrom(old(records), dest0.path)) &&
        records == if ok then ElementAdded(old(records), dest0.path, src0.text.v) else old(records)
    {
      var src, dest;
      ok, src := Fetch(src0);
      if !ok {
        return false;
      }
      ok, dest := Fetch(dest0);
      LandsOne(records, dest0.path, dest.cursor);
      if !ok || dest.exists_ {
        return false;
      }
      if src.path == dest.path {
        return true;
      }
      if IsDirectory(src.path) || src.text.None? {
        return false;
      }
      ok := Set(dest, src.text.v);
    }

    // ---- Removing a value ---------------------------------------------------------------

    /**
     Removing one value of a dense array of values, named by a text. If it succeeds, the
     survivors keep their order in the indexes from 0 on, the recorded size is one less, and
     nothing else in the store changes. It fails before anything is done for a text that is no
     path and for a value whose own text is empty. And it fails after deleting, at the first
     record behind the array, when the key of that record cannot be read as a path: then the
     survivors are packed but the recorded size is too large, so the store holds no array there.
     For the only value of an array that record is stepped on and its text read as well, last of all.
     */
    method Remove(text: string, ghost base: string, ghost k: nat, ghost vs: seq<string>) returns (ok: bool, cnt: nat)
      requires |vs| < 0x8000_0000_0000_0000 && k < |vs| && (forall j :: 0 <= j < |vs| ==> Tagged(vs[j]))
      requires Readable(text) ==> PathKey(text) == ElementKey(base, k)
      requires LaidOut(ArrayTree(vs), base, records)
      modifies this
      ensures ok <==> Readable(text) && |vs[k]| > 1 && BehindLands(old(records), base, |vs|) &&
                      (|vs| == 1 ==> BehindSteps(old(records), base, |vs|))
      ensures ok ==> cnt == 1 && LaidOut(ArrayTree(Survivors(vs, k)), base, records)
      ensures !Readable(text) || |vs[k]| == 1 ==> records == old(records)
      ensures Readable(text) && |vs[k]| > 1 && !BehindLands(old(records), base, |vs|) ==>
                Holds(records, base, SizeLeft(|vs|, k), Full(Survivors(vs, k))) && !IsSomeArray(base, records)
      ensures Readable(text) && |vs[k]| > 1 && BehindLands(old(records), base, |vs|) && !ok ==>
                LaidOut(ArrayTree([]), base, records)
      ensures Outside(base, old(records), records)
    {
      hide *;
      cnt := 0;
      OutsideSame(base, records);
      if !Readable(text) {
        return false, 0;
      }
      ElementText(text, base, k);
      TreeHolds(vs, base, records);
      ok, cnt := RemoveRecord(Record(Nowhere, PathKey(text), None, false), base, k, vs);
      ghost var rest := Survivors(vs, k);
      SurvivorsLength(vs, k);
      if Holds(records, base, |rest|, Full(rest)) {
        TreeHolds(rest, base, records);
      }
      if Holds(records, base, SizeLeft(|vs|, k), Full(rest)) {
        SizeTooLarge(|vs|, k);
        NoArray(records, base, SizeLeft(|vs|, k), rest);
      }
    }

    /**
     remove with packing, for a record that is a value. In an array the values behind it move up by one,
     each copied to the free place and then deleted, and the size ends up one smaller.
     */
    method RemoveRecord(rec0: Record, ghost base: string, ghost k: nat, ghost vs: seq<string>)
      returns (ok: bool, cnt: nat)
      requires |vs| < 0x8000_0000_0000_0000 && k < |vs| && (forall j :: 0 <= j < |vs| ==> Tagged(vs[j]))
      requires IsPath(base) && Holds(records, base, |vs|, Full(vs))
      requires rec0.path == ElementKey(base, k) && rec0.text.None?
      modifies this
      ensures ok <==> |vs[k]| > 1 && BehindLands(old(records), base, |vs|) && (|vs| == 1 ==> BehindSteps(old(records), base, |vs|))
      ensures ok ==> cnt == 1 && Holds(records, base, |vs| - 1, Full(Survivors(vs, k)))
      ensures |vs[k]| == 1 ==> records == old(records)
      ensures |vs[k]| > 1 && !BehindLands(old(records), base, |vs|) ==>
                Holds(records, base, SizeLeft(|vs|, k), Full(Survivors(vs, k)))
      ensures |vs[k]| > 1 && BehindLands(old(records), base, |vs|) && !ok ==> Holds(records, base, 0, Full(Survivors(vs, k))) && |vs| == 1
      ensures Outside(base, old(records), records)
    {
      hide TextLegal;
      hide TextRead;
      hide Readable;
      hide PathKey;
      hide ElementKey;
      hide DirKey;
      hide Holds;
      hide Outside;
      hide ArrayText;
      hide SizeIn;
      hide IsFirst;
      hide BehindLands;
      hide BehindSteps;
      cnt := 0;
      KeyFacts(base, k);
      OutsideSame(base, records);
      ArrayFacts(records, base, |vs|, Full(vs), k);
      ElementReads(base, k, vs[k]);
      DirReads(base, |vs|);
      ghost var before := records;
      var rec, parent, target;
      ok, rec := Fetch(rec0);
      if !ok || rec.text.None? || |rec.text.v| == 1 {
        ok := false;
        return;
      }
      ok, parent := Fetch(Record(Nowhere, ParentOf(rec.path), None, false));
      if !ok {
        return;
      }
      ok, target := Fetch(Record(Nowhere, rec.path, None, false));
      if !ok {
        return;
      }
      ok, rec := Unlink(rec, base, k, vs);
      ghost var removed := records;
      if !ok {
        return;
      }
      cnt := 1;
      BehindSame(base, before, |vs|, Full(vs), removed, |vs|, SlotsAt(vs, k, k));
      DirStays(base, before, removed, |vs|, Full(vs), SlotsAt(vs, k, k));
      ok := Shrink(parent, base, k, vs);
      OutsideTwice(base, before, removed, records);
    }

    /** The container counts one less, and if it is an array it is packed. */
    method Shrink(parent: Record, ghost base: string, ghost k: nat, ghost vs: seq<string>) returns (ok: bool)
      requires |vs| < 0x8000_0000_0000_0000 && k < |vs| && (forall j :: 0 <= j < |vs| ==> Tagged(vs[j]))
      requires IsPath(base) && Holds(records, base, |vs|, SlotsAt(vs, k, k))
      requires parent.cursor == At(DirKey(base)) && parent.path == DirKey(base) && parent.text == Some(ArrayText(|vs|))
      modifies this
      ensures ok <==> if |vs| == 1 then BehindSteps(old(records), base, |vs|)
                      else k == |vs| - 1 || BehindLands(old(records), base, |vs|)
      ensures Holds(records, base, if ok then |vs| - 1 else 2 * |vs| - 2 - k, Full(Survivors(vs, k)))
      ensures Outside(base, old(records), records)
    {
      hide TextLegal;
      hide TextRead;
      hide Readable;
      hide PathKey;
      hide ElementKey;
      hide DirKey;
      hide Holds;
      hide Outside;
      hide ArrayText;
      hide SizeIn;
      hide IsFirst;
      hide BehindLands;
      hide BehindSteps;
      ghost var removed := records;
      SizeSet(records, base, |vs|, SlotsAt(vs, k, k), |vs| - 1);
      Wraps(|vs|);
      DirStays(base, records, records, |vs|, SlotsAt(vs, k, k), SlotsAt(vs, k, k));
      DirReads(base, |vs|);
      ok := ChangeContainerSize(parent, 0xFFFF_FFFF_FFFF_FFFF);
      ghost var resized := records;
      BehindSame(base, removed, |vs|, SlotsAt(vs, k, k), resized, |vs| - 1, SlotsAt(vs, k, k));
      if IsArrayText(parent.text.v) {
        ok := Pack(parent, base, k, vs);
        OutsideTwice(base, removed, resized, records);
      }
    }

    /** The value's own record is deleted; for the last value of the array the cursor leaves the array. */
    method Unlink(rec0: Record, ghost base: string, ghost k: nat, ghost vs: seq<string>) returns (ok: bool, rec: Record)
      requires k < |vs| < 0x8000_0000_0000_0000 && IsPath(base) && Holds(records, base, |vs|, Full(vs))
      requires rec0.cursor == At(ElementKey(base, k))
      modifies this
      ensures Holds(records, base, |vs|, SlotsAt(vs, k, k)) && Outside(base, old(records), records)
      ensures ok <==> k < |vs| - 1 || BehindLands(old(records), base, |vs|)
      ensures !ok ==> Holds(records, base, |vs|, Full(Survivors(vs, k)))
    {
      hide TextLegal;
      hide TextRead;
      hide Readable;
      hide PathKey;
      hide ElementKey;
      hide DirKey;
      hide Holds;
      hide Outside;
      hide IsFirst;
      hide BehindLands;
      ghost var before := records;
      SlotRemoved(records, base, |vs|, Full(vs), k);
      assert Full(vs)[k := None] == SlotsAt(vs, k, k);
      ArrayFacts(records, base, |vs|, Full(vs), k);
      ok, rec := RemoveAt(rec0);
      BehindSame(base, before, |vs|, Full(vs), records, |vs|, SlotsAt(vs, k, k));
      if k < |vs| - 1 {
        SlotAfter(records, base, |vs|, SlotsAt(vs, k, k), k, k + 1, rec.cursor);
        ElementIsPath(base, k + 1);
      } else {
        BehindOne(records, base, |vs|, rec.cursor);
        PackedUp(vs, k);
        HoleDropped(records, base, |vs|, Full(Survivors(vs, k)));
      }
    }

    /** The survivors move up, one after the other, into the free places. */
    method Pack(parent0: Record, ghost base: string, ghost k: nat, ghost vs: seq<string>) returns (ok: bool)
      requires |vs| < 0x8000_0000_0000_0000 && k < |vs| && (forall j :: 0 <= j < |vs| ==> Tagged(vs[j]))
      requires IsPath(base) && Holds(records, base, |vs| - 1, SlotsAt(vs, k, k))
      requires parent0.cursor == At(DirKey(base)) && parent0.path == DirKey(base)
      modifies this
      ensures ok <==> if |vs| == 1 then BehindSteps(old(records), base, |vs|)
                      else k == |vs| - 1 || BehindLands(old(records), base, |vs|)
      ensures Holds(records, base, if ok then |vs| - 1 else 2 * |vs| - 2 - k, Full(Survivors(vs, k)))
      ensures Outside(base, old(records), records)
    {
      hide TextLegal;
      hide TextRead;
      hide Readable;
      hide PathKey;
      hide ElementKey;
      hide DirKey;
      hide Holds;
      hide Outside;
      hide ArrayText;
      hide SizeIn;
      hide IsFirst;
      hide SlotsAt;
      hide BehindLands;
      hide BehindSteps;
      DirReads(base, |vs| - 1);
      ArrayFacts(records, base, |vs| - 1, SlotsAt(vs, k, k), k);
      OutsideSame(base, records);
      PackedUp(vs, k);
      ghost var before := records;
      var parent := Record(parent0.cursor, parent0.cursor.key, TextRead(parent0.cursor.key, records[parent0.cursor.key]), parent0.exists_);
      var child;
      ok, child := Fetch(Record(Nowhere, parent.path, None, false));
      var left := SizeIn(parent.text.v).v;
      ok, child := FirstChild(child, base, k, vs);
      if !ok {
        HoleDropped(records, base, 0, Full(Survivors(vs, k)));
        return;
      }
      var i := 0;
      while i < left
        invariant i <= left == |vs| - 1
        invariant Holds(records, base, left + Moved(i, k), SlotsAt(vs, k, Hole(i, k)))
        invariant i < left ==> OnSlot(child, base, Hole(i, k), i, vs)
        invariant i == left > 0 ==> k == left || BehindLands(before, base, |vs|)
        invariant Outside(base, before, records)
      {
        ghost var now := records;
        BehindSame(base, before, left, SlotsAt(vs, k, k), now, left + Moved(i, k), SlotsAt(vs, k, Hole(i, k)));
        ok, child := PackOne(parent, child, i, base, k, vs);
        OutsideTwice(base, before, now, records);
        if !ok {
          HoleDropped(records, base, left + Moved(left, k), Full(Survivors(vs, k)));
          return;
        }
        i := i + 1;
      }
      HoleDropped(records, base, left + Moved(left, k), Full(Survivors(vs, k)));
      SizeSet(records, base, left + Moved(left, k), Full(Survivors(vs, k)), left);
      ghost var packed := records;
      ok := SetContainerSize(parent, left);
      assert ['A'] + Decimal.Digits(left) == "A" + Decimal.Digits(left);
      TextIs(left);
      OutsideTwice(base, before, packed, records);
    }

    /** From the directory's own record to the first value that is there, or out of an array that has become empty. */
    method FirstChild(child0: Record, ghost base: string, ghost k: nat, ghost vs: seq<string>) returns (ok: bool, child: Record)
      requires k < |vs| < 0x8000_0000_0000_0000 && Holds(records, base, |vs| - 1, SlotsAt(vs, k, k))
      requires IsPath(base) && (forall j :: 0 <= j < |vs| ==> Tagged(vs[j]))
      requires child0.cursor == At(DirKey(base))
      ensures |vs| > 1 ==> ok && OnSlot(child, base, Hole(0, k), 0, vs)
      ensures |vs| == 1 ==> (ok <==> BehindSteps(records, base, |vs|))
    {
      hide TextLegal;
      hide TextRead;
      hide Readable;
      hide PathKey;
      hide ElementKey;
      hide DirKey;
      hide Holds;
      hide SlotsAt;
      hide BehindSteps;
      var moved;
      ok, moved, child := Step(child0);
      if |vs| > 1 {
        FirstSlot(records, base, |vs| - 1, vs, k, child.cursor);
        ArrayFacts(records, base, |vs| - 1, SlotsAt(vs, k, k), if k == 0 then 1 else 0);
        FirstValue(vs, k);
        ElementReads(base, if k == 0 then 1 else 0, vs[if k == 0 then 1 else 0]);
      } else {
        EmptyBehind(records, base, vs, child.cursor);
      }
    }

    /** One round of packing: the i-th survivor gets index i. */
    method PackOne(parent: Record, child0: Record, i: nat, ghost base: string, ghost k: nat, ghost vs: seq<string>)
      returns (ok: bool, child: Record)
      requires |vs| < 0x8000_0000_0000_0000 && k < |vs| && (forall j :: 0 <= j < |vs| ==> Tagged(vs[j]))
      requires i < |vs| - 1 && parent.path == DirKey(base) && IsPath(base)
      requires Holds(records, base, |vs| - 1 + Moved(i, k), SlotsAt(vs, k, Hole(i, k)))
      requires OnSlot(child0, base, Hole(i, k), i, vs)
      modifies this
      ensures ok <==> i + 1 < |vs| - 1 || i < k || BehindLands(old(records), base, |vs|)
      ensures Holds(records, base, |vs| - 1 + Moved(i + 1, k), SlotsAt(vs, k, Hole(i + 1, k)))
      ensures i + 1 < |vs| - 1 ==> OnSlot(child, base, Hole(i + 1, k), i + 1, vs)
      ensures Outside(base, old(records), records)
    {
      hide TextLegal;
      hide TextRead;
      hide Readable;
      hide PathKey;
      hide ElementKey;
      hide DirKey;
      hide Holds;
      hide Outside;
      hide ArrayText;
      hide SizeIn;
      hide IsFirst;
      hide BehindLands;
      var j := if i < Hole(i, k) then i else i + 1;
      KeyFacts(base, j);
      ElementReads(base, j, vs[j]);
      OutsideSame(base, records);
      SlotText(records, base, |vs| - 1 + Moved(i, k), vs, k, Hole(i, k), i);
      ok, child := Fetch(child0);
      if !ok || ParentOf(child.path) != parent.path {
        return false, child;
      }
      var idx := IndexOf(child.path);
      if idx.None? {
        return false, child;
      }
      if idx.v > i {
        ChildText(base, i);
        var text := BaseOf(parent.path) + "/#" + Decimal.Digits(i);
        if !Readable(text) {
          return false, child;
        }
        ok, child := MoveUp(child, PathKey(text), i, base, k, vs);
      } else {
        child := PassOver(child, i, base, k, vs);
      }
    }

    /** A value in front of the hole stays where it is. What goes wrong in moving on is ignored. */
    method PassOver(child0: Record, i: nat, ghost base: string, ghost k: nat, ghost vs: seq<string>) returns (child: Record)
      requires i < k < |vs| < 0x8000_0000_0000_0000 && i < |vs| - 1 && IsPath(base)
      requires Holds(records, base, |vs| - 1, SlotsAt(vs, k, k)) && child0.cursor == At(ElementKey(base, i))
      requires forall j :: 0 <= j < |vs| ==> Tagged(vs[j])
      ensures i + 1 < |vs| - 1 ==> OnSlot(child, base, Hole(i + 1, k), i + 1, vs)
    {
      hide TextLegal;
      hide TextRead;
      hide Readable;
      hide PathKey;
      hide ElementKey;
      hide DirKey;
      hide Holds;
      var ok, moved;
      ok, moved, child := Step(child0);
      if i + 1 < |vs| - 1 {
        ghost var j := if i + 1 < k then i + 1 else k + 1;
        SlotAfter(records, base, |vs| - 1, SlotsAt(vs, k, k), i, j, child.cursor);
        ArrayFacts(records, base, |vs| - 1, SlotsAt(vs, k, k), j);
        ElementReads(base, j, vs[j]);
      }
    }

    /** A value behind the hole is copied into it and deleted. */
    method MoveUp(child0: Record, indexKey: string, i: nat, ghost base: string, ghost k: nat, ghost vs: seq<string>)
      returns (ok: bool, child: Record)
      requires |vs| < 0x8000_0000_0000_0000 && k <= i < |vs| - 1 && IsPath(base)
      requires Holds(records, base, |vs| - 1 + (i - k), SlotsAt(vs, k, i))
      requires child0.path == ElementKey(base, i + 1) && child0.cursor == At(child0.path) && child0.text == Some(vs[i + 1])
      requires indexKey == ElementKey(base, i)
      modifies this
      ensures ok <==> i + 1 < |vs| - 1 || BehindLands(old(records), base, |vs|)
      ensures Holds(records, base, |vs| - 1 + (i + 1 - k), SlotsAt(vs, k, i + 1))
      ensures i + 1 < |vs| - 1 ==> OnSlot(child, base, i + 1, i + 1, vs)
      ensures Outside(base, old(records), records)
    {
      hide TextLegal;
      hide TextRead;
      hide Readable;
      hide PathKey;
      hide ElementKey;
      hide DirKey;
      hide Holds;
      hide Outside;
      hide ArrayText;
      hide SizeIn;
      hide IsFirst;
      hide BehindLands;
      KeyFacts(base, i + 1);
      ghost var size, before := |vs| - 1 + (i - k), records;
      ghost var filled := SlotsAt(vs, k, i)[i := Some(vs[i + 1])];
      ok := CopyUp(child0, indexKey, i, base, k, vs);
      ghost var copied := records;
      ArrayFacts(records, base, size + 1, filled, i + 1);
      SlotRemoved(records, base, size + 1, filled, i + 1);
      assert filled[i + 1 := None] == SlotsAt(vs, k, i + 1);
      ok, child := RemoveAt(child0);
      OutsideTwice(base, before, copied, records);
      BehindSame(base, before, size, SlotsAt(vs, k, i), records, size + 1, SlotsAt(vs, k, i + 1));
      if i + 1 < |vs| - 1 {
        SlotAfter(records, base, size + 1, SlotsAt(vs, k, i + 1), i + 1, i + 2, child.cursor);
        ElementIsPath(base, i + 2);
      } else {
        BehindOne(records, base, |vs|, child.cursor);
      }
    }

    /** The copy counts as one more element for the moment. */
    method CopyUp(child0: Record, indexKey: string, i: nat, ghost base: string, ghost k: nat, ghost vs: seq<string>)
      returns (ok: bool)
      requires |vs| < 0x8000_0000_0000_0000 && k <= i < |vs| - 1 && IsPath(base)
      requires Holds(records, base, |vs| - 1 + (i - k), SlotsAt(vs, k, i))
      requires child0.path == ElementKey(base, i + 1) && child0.cursor == At(child0.path) && child0.text == Some(vs[i + 1])
      requires indexKey == ElementKey(base, i)
      modifies this
      ensures ok && Holds(records, base, |vs| - 1 + (i - k) + 1, SlotsAt(vs, k, i)[i := Some(vs[i + 1])])
      ensures Outside(base, old(records), records)
    {
      hide ElementKey;
      hide DirKey;
      hide Holds;
      hide Outside;
      hide SlotsAt;
      hide IsNewElement;
      hide LandsFrom;
      hide ElementAdded;
      KeyFacts(base, i + 1);
      ElementsOrdered(base, i, i + 1);
      CopyFits(records, base, vs, k, i);
      ok := CopyValue(child0, Record(Nowhere, indexKey, None, false));
    }
  }

  /** The free place can be copied to, and what is there then. */
  lemma CopyFits(db: Records, base: string, vs: seq<string>, k: nat, i: nat)
    requires |vs| < 0x8000_0000_0000_0000 && k <= i < |vs| - 1 && IsPath(base)
    requires Holds(db, base, |vs| - 1 + (i - k), SlotsAt(vs, k, i))
    ensures IsNewElement(db, ElementKey(base, i)) && LandsFrom(db, ElementKey(base, i))
    ensures !IsDirectory(ElementKey(base, i))
    ensures var copied := ElementAdded(db, ElementKey(base, i), vs[i + 1]);
            Holds(copied, base, |vs| - 1 + (i - k) + 1, SlotsAt(vs, k, i)[i := Some(vs[i + 1])]) && Outside(base, db, copied)
  {
    hide ElementKey;
    hide DirKey;
    hide Holds;
    hide Outside;
    hide ArrayText;
    hide SizeIn;
    hide SlotsAt;
    hide IsNewElement;
    hide LandsFrom;
    hide ElementAdded;
    var size, slots := |vs| - 1 + (i - k), SlotsAt(vs, k, i);
    SlotAdded(db, base, size, slots, i, vs[i + 1]);
    var added := db[ElementKey(base, i) := vs[i + 1]];
    SizeSet(added, base, size, slots[i := Some(vs[i + 1])], size + 1);
    OutsideTwice(base, db, added, added[DirKey(base) := ArrayText(size + 1)]);
    FreeElement(db, base, size, vs, k, i, vs[i + 1]);
  }

  // ---- What is behind the array -----------------------------------------------------------

  /** The values without the one at k. */
  function Survivors(vs: seq<string>, k: nat): seq<string>
    requires k < |vs|
  {
    vs[..k] + vs[k + 1..]
  }

  lemma SurvivorsLength(vs: seq<string>, k: nat)
    requires k < |vs|
    ensures |Survivors(vs, k)| == |vs| - 1
  {
  }

  /** The size left behind when the removal of the value at k of n fails at the end of the array. */
  function SizeLeft(n: nat, k: nat): nat
    requires k < n
  {
    if k == n - 1 then n else 2 * n - 2 - k
  }

  lemma SizeTooLarge(n: nat, k: nat)
    requires k < n < 0x8000_0000_0000_0000
    ensures n - 1 < SizeLeft(n, k) < 0x1_0000_0000_0000_0000
  {
  }

  /** The first record behind an array of n places, if there is one, can be read as a path. */
  ghost predicate BehindLands(db: Records, base: string, n: nat)
    requires n > 0
  {
    forall pos :: IsFirst(db, ElementKey(base, n - 1), true, pos) ==> Lands(pos)
  }

  /** And so can its text. */
  ghost predicate BehindSteps(db: Records, base: string, n: nat)
    requires n > 0
  {
    forall pos :: IsFirst(db, ElementKey(base, n - 1), true, pos) ==> Steps(db, pos)
  }

  /** The store holds some array of values at base. */
  ghost predicate IsSomeArray(base: string, db: Records) {
    exists ws: seq<string> :: |ws| < 0x1_0000_0000_0000_0000 && LaidOut(ArrayTree(ws), base, db)
  }

  lemma BehindOne(db: Records, base: string, n: nat, pos: Position)
    requires n > 0 && IsFirst(db, ElementKey(base, n - 1), true, pos)
    ensures BehindLands(db, base, n) <==> Lands(pos)
    ensures BehindSteps(db, base, n) <==> Steps(db, pos)
  {
    var e := ElementKey(base, n - 1);
    hide ElementKey;
    forall other | IsFirst(db, e, true, other)
      ensures other == pos
    {
      FirstUnique(db, e, true, other, pos);
    }
  }

  /** Nothing of the array is behind its last place. */
  lemma BehindOutside(db: Records, base: string, size: nat, slots: seq<Option<string>>, m: string)
    requires Holds(db, base, size, slots) && slots != [] && m in db && Less(ElementKey(base, |slots| - 1), m)
    ensures !InSubtree(m, base)
  {
    hide ElementKey;
    hide DirKey;
    var n := |slots| - 1;
    if InSubtree(m, base) {
      KeyFacts(base, n);
      if m == DirKey(base) {
        LessAsymmetric(m, ElementKey(base, n));
      } else {
        var j :| 0 <= j < |slots| && m == ElementKey(base, j);
        if j < n {
          ElementsOrdered(base, j, n);
          LessAsymmetric(m, ElementKey(base, n));
        } else {
          NotBelowItself(m);
        }
      }
      assert false;
    }
  }

  /** What happens in the array does not change what is behind it. */
  lemma BehindSame(base: string, db: Records, size: nat, slots: seq<Option<string>>,
                   db': Records, size': nat, slots': seq<Option<string>>)
    requires Holds(db, base, size, slots) && Holds(db', base, size', slots') && |slots| == |slots'| > 0
    requires Outside(base, db, db')
    ensures BehindLands(db, base, |slots|) <==> BehindLands(db', base, |slots|)
    ensures BehindSteps(db, base, |slots|) <==> BehindSteps(db', base, |slots|)
  {
    hide ElementKey;
    hide Holds;
    hide Outside;
    hide Readable;
    hide TextLegal;
    var e := ElementKey(base, |slots| - 1);
    forall m | Less(e, m)
      ensures m in db <==> m in db'
      ensures m in db && m in db' ==> db[m] == db'[m]
    {
      BehindRecord(base, db, size, slots, db', size', slots', m);
    }
    assert forall pos :: IsFirst(db, e, true, pos) <==> IsFirst(db', e, true, pos);
    forall pos | IsFirst(db, e, true, pos)
      ensures Steps(db, pos) <==> Steps(db', pos)
    {
      if pos.At? {
        assert db[pos.key] == db'[pos.key];
      }
    }
  }

  lemma BehindRecord(base: string, db: Records, size: nat, slots: seq<Option<string>>,
                     db': Records, size': nat, slots': seq<Option<string>>, m: string)
    requires Holds(db, base, size, slots) && Holds(db', base, size', slots') && |slots| == |slots'| > 0
    requires Outside(base, db, db') && Less(ElementKey(base, |slots| - 1), m)
    ensures m in db <==> m in db'
    ensures m in db && m in db' ==> db[m] == db'[m]
  {
    hide ElementKey;
    hide Holds;
    if m in db {
      BehindOutside(db, base, size, slots, m);
    }
    if m in db' {
      BehindOutside(db', base, size', slots', m);
    }
  }

  /** Behind the directory record of an array without values is what is behind the array. */
  lemma EmptyBehind(db: Records, base: string, vs: seq<string>, pos: Position)
    requires |vs| == 1 && Holds(db, base, 0, SlotsAt(vs, 0, 0)) && IsFirst(db, DirKey(base), true, pos)
    ensures BehindSteps(db, base, |vs|) <==> Steps(db, pos)
  {
    KeyFacts(base, 0);
    var d, e := DirKey(base), ElementKey(base, 0);
    hide ElementKey;
    hide DirKey;
    forall m | m in db && Less(d, m)
      ensures Less(e, m)
    {
      EmptyGap(db, base, vs, m);
    }
    forall m | Less(e, m)
      ensures Less(d, m)
    {
      LessTransitive(d, e, m);
    }
    assert IsFirst(db, e, true, pos);
    BehindOne(db, base, 1, pos);
  }

  lemma EmptyGap(db: Records, base: string, vs: seq<string>, m: string)
    requires |vs| == 1 && Holds(db, base, 0, SlotsAt(vs, 0, 0)) && m in db && Less(DirKey(base), m)
    ensures Less(ElementKey(base, 0), m)
  {
    KeyFacts(base, 0);
    var e, p := ElementKey(base, 0), base + "/";
    assert DirKey(base) == p + "!";
    NotBelowItself(DirKey(base));
    hide ElementKey;
    LessTotal(e, m);
    if m == e || Less(m, e) {
      StartsIs(e, p);
      if Less(m, e) {
        Between(p, "!", m, e[|p|..]);
      }
      assert false;
    }
  }

  // ---- Paths in the array -----------------------------------------------------------------

  /** The keys of an array are paths if its own is. */
  lemma ElementIsPath(base: string, i: nat)
    requires IsPath(base)
    ensures IsPath(ElementKey(base, i)) && IsPath(DirKey(base))
  {
    hide Readable;
    hide EncodeIndex;
    hide MakeComponent;
    var comp := "$" + EncodeIndex(i);
    IndexReadable(i);
    ReadChild(base, comp);
    assert ElementKey(base, i) == base + "/" + comp;
    DirectoryReads(base);
  }

  /** And if one of its elements is a path, so is the array. */
  lemma ElementText(text: string, base: string, i: nat)
    requires Readable(text) && PathKey(text) == ElementKey(base, i)
    ensures IsPath(base)
  {
    hide Readable;
    hide PathKey;
    hide EncodeIndex;
    hide MakeComponent;
    ReadTwice(text);
    IndexReadable(i);
    ElementKeyIs(base, i);
    FrontIsPath(base, "$" + EncodeIndex(i));
  }

  lemma FrontIsPath(base: string, comp: string)
    requires '/' !in comp && MakeComponent(comp).Made? && MakeComponent(comp).c.key == comp && IsPath(base + "/" + comp)
    ensures IsPath(base)
  {
    hide Readable;
    hide PathKey;
    hide MakeComponent;
    ReadChild(base, comp);
    assert base + "/" + comp == base + ("/" + comp);
    assert PathKey(base) + "/" + comp == PathKey(base) + ("/" + comp);
    SameFront(PathKey(base), base, "/" + comp);
  }

  lemma SameFront(s: string, t: string, end: string)
    requires s + end == t + end
    ensures s == t
  {
    assert |s| == |t|;
    assert s == (s + end)[..|s|] && t == (t + end)[..|t|];
  }

  /** An element's path as packing spells it. */
  lemma ChildText(base: string, i: nat)
    requires IsPath(base) && i < 0x1_0000_0000_0000_0000
    ensures BaseOf(DirKey(base)) == base
    ensures var text := base + "/#" + Decimal.Digits(i); Readable(text) && PathKey(text) == ElementKey(base, i)
  {
    hide *;
    KeyFacts(base, i);
    IndexComponent(i);
    DigitsPlain(i);
    ChildReads(base, "#" + Decimal.Digits(i), "$" + EncodeIndex(i));
    ElementKeyIs(base, i);
    assert base + "/#" + Decimal.Digits(i) == base + "/" + ("#" + Decimal.Digits(i));
  }

  lemma ChildReads(base: string, comp: string, key: string)
    requires IsPath(base) && comp != "" && '/' !in comp && ' ' !in comp
    requires MakeComponent(comp).Made? && MakeComponent(comp).c.key == key
    ensures Readable(base + "/" + comp) && PathKey(base + "/" + comp) == base + "/" + key
  {
    hide Readable;
    hide PathKey;
    hide MakeComponent;
    ReadChild(base, comp);
  }

  lemma DigitsPlain(i: nat)
    ensures var comp := "#" + Decimal.Digits(i); comp != "" && '/' !in comp && ' ' !in comp
  {
    DecimalBack(i);
    assert forall x :: x in "#" + Decimal.Digits(i) ==> x == '#' || '0' <= x <= '9';
  }

  /** What is read at an element, and at the directory record. */
  lemma ElementReads(base: string, i: nat, text: string)
    requires IsPath(base) && Tagged(text) && i < 0x1_0000_0000_0000_0000
    ensures Readable(ElementKey(base, i)) && PathKey(ElementKey(base, i)) == ElementKey(base, i)
    ensures TextLegal(ElementKey(base, i), text) && TextRead(ElementKey(base, i), text) == Some(text)
  {
    hide ElementKey;
    KeyFacts(base, i);
    ElementIsPath(base, i);
  }

  lemma DirReads(base: string, size: nat)
    requires IsPath(base) && size < 0x1_0000_0000_0000_0000
    ensures Readable(DirKey(base)) && PathKey(DirKey(base)) == DirKey(base) && IsDirectory(DirKey(base))
    ensures TextLegal(DirKey(base), ArrayText(size)) && TextRead(DirKey(base), ArrayText(size)) == Some(ArrayText(size))
    ensures SizeIn(ArrayText(size)) == Some(size) && IsArrayText(ArrayText(size))
  {
    KeyFacts(base, 0);
    ElementIsPath(base, 0);
    ArrayTextSize(size);
    hide DirKey;
  }

  /** From the free place a cursor lands on the value behind it. */
  lemma FreeElement(db: Records, base: string, size: nat, vs: seq<string>, k: nat, i: nat, text: string)
    requires IsPath(base) && k <= i < |vs| - 1 && Holds(db, base, size, SlotsAt(vs, k, i))
    requires i <= size < 0xFFFF_FFFF_FFFF_FFFF && |vs| < 0x8000_0000_0000_0000
    ensures IsNewElement(db, ElementKey(base, i)) && LandsFrom(db, ElementKey(base, i))
    ensures !IsDirectory(ElementKey(base, i))
    ensures ElementAdded(db, ElementKey(base, i), text) == db[ElementKey(base, i) := text][DirKey(base) := ArrayText(size + 1)]
  {
    hide ElementKey;
    hide DirKey;
    hide Holds;
    hide ArrayText;
    hide SizeIn;
    hide Readable;
    hide PathKey;
    hide IsFirst;
    KeyFacts(base, i);
    DirReads(base, size);
    SlotKeys(base, SlotsAt(vs, k, i), i);
    ArrayFacts(db, base, size, SlotsAt(vs, k, i), i);
    SlotAdded(db, base, size, SlotsAt(vs, k, i), i, text);
    forall pos | IsFirst(db, ElementKey(base, i), false, pos)
      ensures Lands(pos) && !Found(ElementKey(base, i), pos)
    {
      LandsNext(db, base, size, vs, k, i, pos);
    }
  }

  lemma LandsNext(db: Records, base: string, size: nat, vs: seq<string>, k: nat, i: nat, pos: Position)
    requires IsPath(base) && k <= i < |vs| - 1 && Holds(db, base, size, SlotsAt(vs, k, i))
    requires |vs| < 0x8000_0000_0000_0000 && IsFirst(db, ElementKey(base, i), false, pos)
    ensures Lands(pos) && !Found(ElementKey(base, i), pos)
  {
    hide ElementKey;
    hide Holds;
    hide Readable;
    hide PathKey;
    SlotAdded(db, base, size, SlotsAt(vs, k, i), i, "");
    NotThere(db, ElementKey(base, i), pos);
    SlotAfter(db, base, size, SlotsAt(vs, k, i), i, i + 1, pos);
    ElementIsPath(base, i + 1);
    ElementsOrdered(base, i, i + 1);
  }

  lemma NotThere(db: Records, k: string, pos: Position)
    requires k !in db && IsFirst(db, k, false, pos)
    ensures IsFirst(db, k, true, pos)
  {
  }

  /** The directory record is the same when only values are deleted. */
  lemma DirStays(base: string, db: Records, db': Records, size: nat, slots: seq<Option<string>>, slots': seq<Option<string>>)
    requires Holds(db, base, size, slots) && Holds(db', base, size, slots') && IsPath(base) && size < 0x1_0000_0000_0000_0000
    ensures DirKey(base) in db && DirKey(base) in db' && db[DirKey(base)] == db'[DirKey(base)] == ArrayText(size)
    ensures IsArrayAt(db', DirKey(base)) && SizeIn(ArrayText(size)) == Some(size)
  {
    KeyFacts(base, 0);
    ElementIsPath(base, 0);
    ArrayTextSize(size);
  }

  /** A recorded size that is larger than the number of values makes no array. */
  lemma NoArray(db: Records, base: string, size: nat, rest: seq<string>)
    requires Holds(db, base, size, Full(rest)) && |rest| < size < 0x1_0000_0000_0000_0000
    ensures !IsSomeArray(base, db)
  {
    hide LaidOut;
    hide Holds;
    hide ArrayTree;
    forall ws: seq<string> | |ws| < 0x1_0000_0000_0000_0000
      ensures !LaidOut(ArrayTree(ws), base, db)
    {
      TreeHolds(ws, base, db);
      if Holds(db, base, |ws|, Full(ws)) {
        TwoSizes(db, base, size, rest, ws);
      }
    }
  }

  lemma TwoSizes(db: Records, base: string, size: nat, rest: seq<string>, ws: seq<string>)
    requires Holds(db, base, size, Full(rest)) && |rest| < size < 0x1_0000_0000_0000_0000
    requires |ws| < 0x1_0000_0000_0000_0000
    ensures !Holds(db, base, |ws|, Full(ws))
  {
    if Holds(db, base, |ws|, Full(ws)) {
      ArrayTextSize(size);
      ArrayTextSize(|ws|);
      hide ArrayText;
      hide ElementKey;
      hide DirKey;
      hide SizeIn;
      assert Full(ws)[size - 1].Some?;
      SlotKeys(base, Full(ws), size - 1);
      assert false;
    }
  }

  /** A value's text as the store keeps it: a type tag and the rest. */
  predicate Tagged(text: string) {
    text != "" && (text[0] == 'n' || text[0] == 'b' || text[0] == 's')
  }

  /** Slots of an array, each with a value or empty. */
  function Full(vs: seq<string>): seq<Option<string>> {
    seq(|vs|, i requires 0 <= i < |vs| => Some(vs[i]))
  }

  /** The store holds an array at base with a recorded size, these slots, and nothing else under it. */
  predicate Holds(db: Records, base: string, size: nat, slots: seq<Option<string>>) {
    && |slots| < 0x1_0000_0000_0000_0000
    && base !in db
    && DirKey(base) in db && db[DirKey(base)] == ArrayText(size)
    && (forall j :: 0 <= j < |slots| && slots[j].Some? ==> ElementKey(base, j) in db && db[ElementKey(base, j)] == slots[j].v)
    && (forall k :: k in db && InSubtree(k, base) ==> k == DirKey(base) || IsSlot(k, base, slots))
  }

  predicate IsSlot(k: string, base: string, slots: seq<Option<string>>) {
    exists j :: 0 <= j < |slots| && slots[j].Some? && k == ElementKey(base, j)
  }

  ghost predicate Outside(base: string, db: Records, db': Records) {
    forall k :: !InSubtree(k, base) ==> (k in db <==> k in db') && (k in db ==> db'[k] == db[k])
  }

  // ---- The slots while packing ----------------------------------------------------------

  /** The free place in round i, and how many values have been added so far. */
  function Hole(i: nat, k: nat): nat {
    if i < k then k else i
  }

  function Moved(i: nat, k: nat): nat {
    if i < k then 0 else i - k
  }

  /** The values behind k up to the hole at h have moved up by one. */
  function SlotsAt(vs: seq<string>, k: nat, h: nat): (r: seq<Option<string>>)
    requires k <= h < |vs|
    ensures |r| == |vs|
    ensures forall j :: 0 <= j < |vs| ==>
      r[j] == if j < k then Some(vs[j]) else if j < h then Some(vs[j + 1]) else if j == h then None else Some(vs[j])
  {
    seq(|vs|, j requires 0 <= j < |vs| =>
      if j < k then Some(vs[j]) else if j < h then Some(vs[j + 1]) else if j == h then None else Some(vs[j]))
  }

  /** The cursor is on the i-th value that is there, which lies behind the hole if i does. */
  predicate OnSlot(child: Record, base: string, h: nat, i: nat, vs: seq<string>) {
    var j := if i < h then i else i + 1;
    j < |vs| && child.path == ElementKey(base, j) && child.cursor == At(child.path) &&
    (child.text.Some? ==> child.text.v == vs[j])
  }

  /** What is read at the i-th value that is there. */
  lemma SlotText(db: Records, base: string, size: nat, vs: seq<string>, k: nat, h: nat, i: nat)
    requires k <= h < |vs| && i + 1 < |vs| && Holds(db, base, size, SlotsAt(vs, k, h)) && (h == k || h == i)
    requires (h > i ==> h == k) && forall j :: 0 <= j < |vs| ==> Tagged(vs[j])
    ensures var j := if i < h then i else i + 1;
            ElementKey(base, j) in db && db[ElementKey(base, j)] == vs[j]
  {
    var j := if i < h then i else i + 1;
    assert SlotsAt(vs, k, h)[j] == Some(vs[j]);
  }

  /** The facts of an array that its operations ask for. */
  lemma ArrayFacts(db: Records, base: string, size: nat, slots: seq<Option<string>>, j: nat)
    requires Holds(db, base, size, slots) && j < |slots| && size < 0x1_0000_0000_0000_0000
    ensures DirKey(base) in db && db[DirKey(base)] == ArrayText(size) && SizeIn(ArrayText(size)) == Some(size) && IsArrayText(ArrayText(size))
    ensures slots[j].Some? ==> ElementKey(base, j) in db && db[ElementKey(base, j)] == slots[j].v
  {
    ArrayTextSize(size);
  }

  lemma FirstValue(vs: seq<string>, k: nat)
    requires k < |vs| && |vs| > 1
    ensures var j := if k == 0 then 1 else 0; SlotsAt(vs, k, k)[j] == Some(vs[j])
  {
  }

  lemma TextIs(size: nat)
    ensures ArrayText(size) == "A" + Decimal.Digits(size) && ArrayText(size)[0] == 'A'
  {
  }

  lemma OutsideSame(base: string, a: Records)
    ensures Outside(base, a, a)
  {
  }

  lemma OutsideTwice(base: string, a: Records, b: Records, c: Records)
    requires Outside(base, a, b) && Outside(base, b, c)
    ensures Outside(base, a, c)
  {
  }

  lemma Wraps(n: nat)
    requires 0 < n < 0x1_0000_0000_0000_0000
    ensures (n + 0xFFFF_FFFF_FFFF_FFFF) % 0x1_0000_0000_0000_0000 == n - 1
  {
  }

  lemma SlotKeys(base: string, slots: seq<Option<string>>, j: nat)
    requires j < |slots| < 0x1_0000_0000_0000_0000
    ensures ElementKey(base, j) != DirKey(base) && InSubtree(ElementKey(base, j), base) && InSubtree(DirKey(base), base)
    ensures ElementKey(base, j) != base && DirKey(base) != base
    ensures forall i :: 0 <= i < |slots| && i != j ==> ElementKey(base, i) != ElementKey(base, j)
  {
    KeyFacts(base, j);
    LessAsymmetric(DirKey(base), ElementKey(base, j));
    forall i | 0 <= i < |slots| && i != j
      ensures ElementKey(base, i) != ElementKey(base, j)
    {
      if i < j { ElementsOrdered(base, i, j); } else { ElementsOrdered(base, j, i); }
    }
  }

  lemma SlotRemoved(db: Records, base: string, size: nat, slots: seq<Option<string>>, j: nat)
    requires Holds(db, base, size, slots) && j < |slots|
    ensures Holds(db - {ElementKey(base, j)}, base, size, slots[j := None])
    ensures Outside(base, db, db - {ElementKey(base, j)})
  {
    hide ElementKey;
    hide DirKey;
    SlotKeys(base, slots, j);
    var db', slots' := db - {ElementKey(base, j)}, slots[j := None];
    forall k | k in db' && InSubtree(k, base)
      ensures k == DirKey(base) || IsSlot(k, base, slots')
    {
      if k != DirKey(base) {
        var i :| 0 <= i < |slots| && slots[i].Some? && k == ElementKey(base, i);
        assert slots'[i].Some?;
      }
    }
  }

  lemma SlotAdded(db: Records, base: string, size: nat, slots: seq<Option<string>>, j: nat, t: string)
    requires Holds(db, base, size, slots) && j < |slots| && slots[j].None?
    ensures Holds(db[ElementKey(base, j) := t], base, size, slots[j := Some(t)])
    ensures Outside(base, db, db[ElementKey(base, j) := t]) && ElementKey(base, j) !in db
  {
    hide ElementKey;
    hide DirKey;
    SlotKeys(base, slots, j);
    var db', slots' := db[ElementKey(base, j) := t], slots[j := Some(t)];
    forall k | k in db' && InSubtree(k, base)
      ensures k == DirKey(base) || IsSlot(k, base, slots')
    {
      if k == ElementKey(base, j) {
        assert slots'[j].Some?;
      } else if k != DirKey(base) {
        var i :| 0 <= i < |slots| && slots[i].Some? && k == ElementKey(base, i);
        assert slots'[i].Some?;
      }
    }
  }

  lemma SizeSet(db: Records, base: string, size: nat, slots: seq<Option<string>>, size': nat)
    requires Holds(db, base, size, slots)
    ensures Holds(db[DirKey(base) := ArrayText(size')], base, size', slots)
    ensures Outside(base, db, db[DirKey(base) := ArrayText(size')])
  {
    hide ElementKey;
    hide ArrayText;
    var db' := db[DirKey(base) := ArrayText(size')];
    DirUnder(base);
    forall j | 0 <= j < |slots|
      ensures ElementKey(base, j) != DirKey(base)
    {
      SlotKeys(base, slots, j);
    }
  }

  lemma DirUnder(base: string)
    ensures InSubtree(DirKey(base), base) && DirKey(base) != base
  {
    assert DirKey(base)[..|base| + 1] == base + "/";
  }

  /** The next record behind a bound inside the array is the next slot that has a value. */
  lemma NextSlot(db: Records, base: string, size: nat, slots: seq<Option<string>>, bound: string, j: nat, pos: Position)
    requires Holds(db, base, size, slots) && j < |slots| && slots[j].Some?
    requires StartsWith(bound, base + "/") && Less(bound, ElementKey(base, j)) && !Less(bound, DirKey(base))
    requires forall i :: 0 <= i < j && slots[i].Some? ==> !Less(bound, ElementKey(base, i))
    requires IsFirst(db, bound, true, pos)
    ensures pos == At(ElementKey(base, j))
  {
    hide DirKey;
    KeyFacts(base, j);
    var e := ElementKey(base, j);
    hide ElementKey;
    assert Within(bound, true, e);
    var m := pos.key;
    LessTotal(m, e);
    if Less(m, e) {
      var p := base + "/";
      StartsIs(bound, p);
      StartsIs(e, p);
      Between(p, bound[|p|..], m, e[|p|..]);
      assert IsSlot(m, base, slots);
      var i :| 0 <= i < |slots| && slots[i].Some? && m == ElementKey(base, i);
      LessAsymmetric(m, e);
      if i > j {
        ElementsOrdered(base, j, i);
      }
    }
  }

  /** From the directory record the cursor steps to the first value that is there. */
  lemma FirstSlot(db: Records, base: string, size: nat, vs: seq<string>, k: nat, pos: Position)
    requires k < |vs| && |vs| > 1 && Holds(db, base, size, SlotsAt(vs, k, k))
    requires IsFirst(db, DirKey(base), true, pos)
    ensures pos == At(ElementKey(base, if k == 0 then 1 else 0))
  {
    var j := if k == 0 then 1 else 0;
    KeyFacts(base, j);
    KeyFacts(base, 0);
    assert DirKey(base)[..|base| + 1] == base + "/";
    NotBelowItself(DirKey(base));
    NextSlot(db, base, size, SlotsAt(vs, k, k), DirKey(base), j, pos);
  }

  /** From a value, or the place of one just deleted, the cursor goes to the next one there. */
  lemma SlotAfter(db: Records, base: string, size: nat, slots: seq<Option<string>>, i: nat, j: nat, pos: Position)
    requires Holds(db, base, size, slots) && i < j < |slots| && slots[j].Some?
    requires forall m :: i < m < j ==> slots[m].None?
    requires IsFirst(db, ElementKey(base, i), true, pos)
    ensures pos == At(ElementKey(base, j))
  {
    KeyFacts(base, i);
    ElementsOrdered(base, i, j);
    LessAsymmetric(DirKey(base), ElementKey(base, i));
    forall m | 0 <= m < j && slots[m].Some?
      ensures !Less(ElementKey(base, i), ElementKey(base, m))
    {
      if m < i {
        ElementsOrdered(base, m, i);
        LessAsymmetric(ElementKey(base, m), ElementKey(base, i));
      } else {
        NotBelowItself(ElementKey(base, i));
      }
    }
    NextSlot(db, base, size, slots, ElementKey(base, i), j, pos);
  }

  lemma NotBelowItself(s: string)
    ensures !Less(s, s)
  {
    if Less(s, s) {
      LessAsymmetric(s, s);
    }
  }

  /** At the end the survivors fill the slots, and only the last is free. */
  lemma PackedUp(vs: seq<string>, k: nat)
    requires k < |vs|
    ensures SlotsAt(vs, k, |vs| - 1) == Full(Survivors(vs, k)) + [None]
    ensures Hole(|vs| - 1, k) == |vs| - 1
  {
  }

  lemma HoleDropped(db: Records, base: string, size: nat, slots: seq<Option<string>>)
    requires Holds(db, base, size, slots + [None])
    ensures Holds(db, base, size, slots)
  {
    hide ElementKey;
    var all := slots + [None];
    forall j | 0 <= j < |slots| && slots[j].Some?
      ensures ElementKey(base, j) in db && db[ElementKey(base, j)] == slots[j].v
    {
      assert all[j] == slots[j];
    }
    forall k | k in db && InSubtree(k, base)
      ensures k == DirKey(base) || IsSlot(k, base, slots)
    {
      if k != DirKey(base) {
        var j :| 0 <= j < |all| && all[j].Some? && k == ElementKey(base, j);
        assert slots[j].Some?;
      }
    }
  }

  lemma Earlier(db: Records, rest: set<string>, bound: string, strict: bool, pos: Position, k: string)
    requires k in db && k in rest && Within(bound, strict, k) && (pos == Nowhere || Less(k, pos.key))
    requires forall m :: m in db && m !in rest && Within(bound, strict, m) ==> pos.At? && !Less(m, pos.key)
    ensures forall m :: m in db && (m !in rest || m == k) && Within(bound, strict, m) ==> !Less(m, k)
  {
    forall m | m in db && (m !in rest || m == k) && Within(bound, strict, m)
      ensures !Less(m, k)
    {
      if Less(m, k) {
        if m == k {
          LessAsymmetric(m, k);
        } else {
          LessTransitive(m, k, pos.key);
        }
      }
    }
  }

  // ---- In terms of trees ------------------------------------------------------------------

  /** An array of values as a tree. */
  function ValueKids(vs: seq<string>, from: nat): (r: seq<Kid>)
    ensures |r| == |vs|
    ensures forall i :: 0 <= i < |vs| ==> r[i] == Kid("$" + EncodeIndex(from + i), Leaf(vs[i]))
    decreases |vs|
  {
    if vs == [] then [] else [Kid("$" + EncodeIndex(from), Leaf(vs[0]))] + ValueKids(vs[1..], from + 1)
  }

  function ArrayTree(vs: seq<string>): Node {
    Dir('A', ValueKids(vs, 0))
  }

  /** A key under an element that is a value is the element's own. */
  lemma {:induction false} ValueKidsLaidOut(vs: seq<string>, from: nat, base: string, db: Records)
    requires forall j :: 0 <= j < |vs| ==>
      LaidOut(Leaf(vs[j]), base + "/" + ("$" + EncodeIndex(from + j)), db)
    ensures KidsLaidOut(ValueKids(vs, from), base, db)
    decreases |vs|
  {
    if vs != [] {
      hide EncodeIndex;
      var rest := vs[1..];
      forall j | 0 <= j < |rest|
        ensures LaidOut(Leaf(rest[j]), base + "/" + ("$" + EncodeIndex(from + 1 + j)), db)
      {
        assert rest[j] == vs[j + 1] && from + 1 + j == from + (j + 1);
      }
      assert LaidOut(Leaf(vs[0]), base + "/" + ("$" + EncodeIndex(from + 0)), db);
      ValueKidsLaidOut(rest, from + 1, base, db);
    }
  }

  lemma {:induction false} ValueKidAt(vs: seq<string>, from: nat, base: string, db: Records, j: nat)
    requires KidsLaidOut(ValueKids(vs, from), base, db) && j < |vs|
    ensures LaidOut(Leaf(vs[j]), base + "/" + ("$" + EncodeIndex(from + j)), db)
    decreases |vs|
  {
    hide EncodeIndex;
    if j > 0 {
      ValueKidAt(vs[1..], from + 1, base, db, j - 1);
      assert from + 1 + (j - 1) == from + j;
    }
  }

  lemma ElementKeyIs(base: string, i: nat)
    ensures base + "/" + ("$" + EncodeIndex(i)) == ElementKey(base, i)
  {
    hide EncodeIndex;
  }

  lemma ArrayTextIs(n: nat)
    ensures ['A'] + Decimal.Digits(n) == ArrayText(n)
  {
  }

  /** Being laid out as an array of values, in terms of its slots. */
  lemma TreeHolds(vs: seq<string>, base: string, db: Records)
    requires |vs| < 0x1_0000_0000_0000_0000
    ensures LaidOut(ArrayTree(vs), base, db) <==> Holds(db, base, |vs|, Full(vs))
  {
    if LaidOut(ArrayTree(vs), base, db) {
      TreeToSlots(vs, base, db);
    }
    if Holds(db, base, |vs|, Full(vs)) {
      SlotsToTree(vs, base, db);
    }
  }

  lemma TreeToSlots(vs: seq<string>, base: string, db: Records)
    requires |vs| < 0x1_0000_0000_0000_0000 && LaidOut(ArrayTree(vs), base, db)
    ensures Holds(db, base, |vs|, Full(vs))
  {
    hide EncodeIndex;
    var kids := ValueKids(vs, 0);
    ArrayTextIs(|vs|);
    forall j | 0 <= j < |vs|
      ensures ElementKey(base, j) in db && db[ElementKey(base, j)] == vs[j]
    {
      ElementLaid(vs, base, db, j);
    }
    forall k | k in db && InSubtree(k, base)
      ensures k == DirKey(base) || IsSlot(k, base, Full(vs))
    {
      OnlyElements(vs, base, db, k);
    }
  }

  lemma OnlyElements(vs: seq<string>, base: string, db: Records, k: string)
    requires LaidOut(ArrayTree(vs), base, db) && k in db && InSubtree(k, base)
    ensures k == DirKey(base) || IsSlot(k, base, Full(vs))
  {
    hide EncodeIndex;
    hide ElementKey;
    hide KidsLaidOut;
    hide Less;
    hide StartsWith;
    var kids := ValueKids(vs, 0);
    assert InDirectory(k, base, kids);
    if k != base + "/!" {
      var i :| 0 <= i < |kids| && InSubtree(k, base + "/" + kids[i].comp);
      KidComp(vs, i);
      ElementKeyIs(base, i);
      LeafOnly(vs, base, db, i, k, base + "/" + kids[i].comp);
      assert Full(vs)[i].Some?;
    }
  }

  lemma LeafAlone(text: string, b: string, db: Records, k: string)
    requires LaidOut(Leaf(text), b, db) && k in db
    ensures InSubtree(k, b) ==> k == b
  {
  }

  lemma KidComp(vs: seq<string>, i: nat)
    requires i < |vs|
    ensures ValueKids(vs, 0)[i].comp == "$" + EncodeIndex(i) == "$" + EncodeIndex(0 + i)
  {
    hide EncodeIndex;
  }

  lemma ElementLaid(vs: seq<string>, base: string, db: Records, i: nat)
    requires KidsLaidOut(ValueKids(vs, 0), base, db) && i < |vs|
    ensures LaidOut(Leaf(vs[i]), ElementKey(base, i), db)
  {
    hide EncodeIndex;
    hide KidsLaidOut;
    hide LaidOut;
    ValueKidAt(vs, 0, base, db, i);
    ElementKeyIs(base, i);
    assert 0 + i == i;
  }

  lemma LeafOnly(vs: seq<string>, base: string, db: Records, i: nat, k: string, b: string)
    requires KidsLaidOut(ValueKids(vs, 0), base, db) && i < |vs| && k in db
    requires b == ElementKey(base, i) && InSubtree(k, b)
    ensures k == ElementKey(base, i)
  {
    ElementLaid(vs, base, db, i);
    hide ElementKey;
    hide KidsLaidOut;
    hide InSubtree;
    LeafAlone(vs[i], b, db, k);
  }

  /** No other record of the array lies under an element. */
  lemma AloneUnder(vs: seq<string>, base: string, db: Records, j: nat, k: string)
    requires Holds(db, base, |vs|, Full(vs)) && j < |vs| && k in db && InSubtree(k, ElementKey(base, j))
    ensures k == ElementKey(base, j)
  {
    hide EncodeIndex;
    ElementKeyIs(base, j);
    IndexSlashFree(j);
    UnderChild(k, base, "$" + EncodeIndex(j));
    DirFirst(k, base, "$" + EncodeIndex(j));
    LessAsymmetric(DirKey(base), k);
    assert IsSlot(k, base, Full(vs));
    var i :| 0 <= i < |vs| && k == ElementKey(base, i);
    ElementKeyIs(base, i);
    IndexSlashFree(i);
    if i != j {
      IndexesDiffer(i, j);
      Disjoint(k, base, "$" + EncodeIndex(i), "$" + EncodeIndex(j));
    }
  }

  lemma IndexSlashFree(i: nat)
    ensures '/' !in "$" + EncodeIndex(i)
  {
    assert forall x :: x in "$" + EncodeIndex(i) ==> x == '$' || x == '0' || x == '1';
  }

  lemma IndexesDiffer(i: nat, j: nat)
    requires i != j && i < 0x1_0000_0000_0000_0000 && j < 0x1_0000_0000_0000_0000
    ensures "$" + EncodeIndex(i) != "$" + EncodeIndex(j)
  {
    IndexBack(i);
    IndexBack(j);
    assert ("$" + EncodeIndex(i))[1..] == EncodeIndex(i) && ("$" + EncodeIndex(j))[1..] == EncodeIndex(j);
  }

  lemma ElementAlone(vs: seq<string>, base: string, db: Records, j: nat)
    requires Holds(db, base, |vs|, Full(vs)) && j < |vs|
    ensures LaidOut(Leaf(vs[j]), ElementKey(base, j), db)
  {
    assert Full(vs)[j].Some?;
    hide ElementKey;
    forall k | k in db && InSubtree(k, ElementKey(base, j))
      ensures k == ElementKey(base, j)
    {
      AloneUnder(vs, base, db, j, k);
    }
  }

  lemma ElementInDirectory(vs: seq<string>, base: string, db: Records, k: string)
    requires Holds(db, base, |vs|, Full(vs)) && k in db && InSubtree(k, base)
    ensures InDirectory(k, base, ValueKids(vs, 0))
  {
    hide EncodeIndex;
    if k != DirKey(base) {
      var j :| 0 <= j < |vs| && k == ElementKey(base, j);
      ElementKeyIs(base, j);
      KeyFacts(base, j);
      assert InSubtree(k, base + "/" + ValueKids(vs, 0)[j].comp);
    }
  }

  lemma SlotsToTree(vs: seq<string>, base: string, db: Records)
    requires Holds(db, base, |vs|, Full(vs))
    ensures LaidOut(ArrayTree(vs), base, db)
  {
    hide EncodeIndex;
    hide ElementKey;
    hide InDirectory;
    ArrayTextIs(|vs|);
    forall j | 0 <= j < |vs|
      ensures LaidOut(Leaf(vs[j]), base + "/" + ("$" + EncodeIndex(0 + j)), db)
    {
      ElementKeyIs(base, j);
      ElementAlone(vs, base, db, j);
    }
    ValueKidsLaidOut(vs, 0, base, db);
    forall k | k in db && InSubtree(k, base)
      ensures InDirectory(k, base, ValueKids(vs, 0))
    {
      ElementInDirectory(vs, base, db, k);
    }
  }

  /** After loading a value without spaces in its names, nothing is in the way of any removal from a longer array. */
  lemma SpaceFreeLands(v: Json, base: string, n: nat)
    requires Loadable(v) && SpaceFree(v) && n > 0
    ensures BehindLands(Written(map[], Entries(ToNode(v), "")), base, n)
  {
    assert Readable("");
    hide Readable;
    hide ElementKey;
    LoadedReadable(v, "");
    WrittenKeys(map[], Entries(ToNode(v), ""));
  }

  lemma {:induction false} WrittenKeys(db: Records, es: seq<Entry>)
    ensures forall k :: k in Written(db, es) ==> k in db || exists e :: e in es && e.key == k
    decreases |es|
  {
    if es != [] {
      WrittenKeys(db[es[0].key := es[0].value], es[1..]);
      forall k | k in Written(db, es)
        ensures k in db || exists e :: e in es && e.key == k
      {
        if k !in db {
          assert k in Written(db[es[0].key := es[0].value], es[1..]);
          assert es[0] in es && forall e :: e in es[1..] ==> e in es;
        }
      }
    }
  }

  // ---- A removal that fails ---------------------------------------------------------------

  /** An array beside a member whose name has a space. */
  function SpacedNeighbour(): Json {
    Object([Member("a", Array([String("x"), String("y")])), Member("b c", String("z"))])
  }

  function SpacedKids(): seq<Kid> {
    [Kid("a", ArrayTree(["sx", "sy"])), Kid("b c", Leaf("sz"))]
  }

  lemma SpacedTree()
    ensures Loadable(SpacedNeighbour()) && ToNode(SpacedNeighbour()) == Dir('O', SpacedKids())
  {
    hide EncodeIndex;
    var x, y: Json := String("x"), String("y");
    var a, b := Member("a", Array([x, y])), Member("b c", String("z"));
    assert [x, y][1..] == [y] && [y][1..] == [] && [a, b][1..] == [b] && [b][1..] == [];
    assert ["sx", "sy"][1..] == ["sy"] && ["sy"][1..] == [];
    assert "s" + "x" == "sx" && "s" + "y" == "sy" && "s" + "z" == "sz";
    assert ItemKids([y], 1) == [Kid("$" + EncodeIndex(1), Leaf("sy"))] == ValueKids(["sy"], 1);
    assert ItemKids([x, y], 0) == ValueKids(["sx", "sy"], 0);
    assert MemberKids([b]) == [Kid("b c", Leaf("sz"))];
    assert LoadableItems([y]) && LoadableMembers([b]);
  }

  /**
   Loaded into an empty store, the array is there, but the record behind it cannot be read:
   removing either of its values deletes and then fails.
   */
  lemma RemovalFails()
    ensures Loadable(SpacedNeighbour())
    ensures var db := Written(map[], Entries(ToNode(SpacedNeighbour()), ""));
            LaidOut(ArrayTree(["sx", "sy"]), "/a", db) && !BehindLands(db, "/a", 2)
  {
    hide EncodeIndex;
    hide Readable;
    SpacedTree();
    var n := ToNode(SpacedNeighbour());
    var db := Written(map[], Entries(n, ""));
    LoadableOrdinary(SpacedNeighbour());
    WriteLaysOut(n, "", map[]);
    SpacedParts(db);
    forall m | m in db
      ensures InSubtree(m, "")
    {
      if !InSubtree(m, "") { WriteOutside(n, "", map[], m); }
    }
    SpacedBehind(db);
  }

  lemma SpacedParts(db: Records)
    requires LaidOut(Dir('O', SpacedKids()), "", db)
    ensures LaidOut(ArrayTree(["sx", "sy"]), "/a", db) && LaidOut(Leaf("sz"), "/b c", db) && "/b c" in db
  {
    hide ArrayTree;
    var kids := SpacedKids();
    assert kids[1..] == [Kid("b c", Leaf("sz"))];
    assert "" + "/" + "a" == "/a" && "" + "/" + "b c" == "/b c";
  }

  lemma SpacedBehind(db: Records)
    requires LaidOut(Dir('O', SpacedKids()), "", db) && forall m :: m in db ==> InSubtree(m, "")
    requires LaidOut(ArrayTree(["sx", "sy"]), "/a", db) && LaidOut(Leaf("sz"), "/b c", db) && "/b c" in db
    ensures !BehindLands(db, "/a", 2)
  {
    hide ElementKey;
    hide ArrayTree;
    hide Less;
    hide LaidOut;
    hide InSubtree;
    hide Readable;
    hide EncodeIndex;
    SpacedKey();
    SpacedOrder();
    forall m | m in db
      ensures m == "/!" || InSubtree(m, "/a") || m == "/b c"
    {
      SpacedPlaces(db, m);
      LeafAlone("sz", "/b c", db, m);
    }
    NeighbourBehind(db, "/a", ["sx", "sy"], "/!", "/b c");
  }

  /** A record that cannot be read, with only one other record outside the array, which lies before it. */
  lemma NeighbourBehind(db: Records, base: string, vs: seq<string>, first: string, k: string)
    requires LaidOut(ArrayTree(vs), base, db) && 0 < |vs| < 0x1_0000_0000_0000_0000
    requires k in db && !Readable(k) && Less(ElementKey(base, |vs| - 1), k) && Less(first, ElementKey(base, |vs| - 1))
    requires forall m :: m in db ==> m == first || InSubtree(m, base) || m == k
    ensures !BehindLands(db, base, |vs|)
  {
    var e, slots := ElementKey(base, |vs| - 1), Full(vs);
    TreeHolds(vs, base, db);
    NotBelowItself(k);
    hide ElementKey;
    hide ArrayTree;
    hide LaidOut;
    hide InSubtree;
    hide Readable;
    hide Less;
    hide Holds;
    forall m | m in db && Less(e, m)
      ensures m == k
    {
      BehindOutside(db, base, |vs|, slots, m);
      if m == first {
        LessAsymmetric(first, e);
        assert false;
      }
    }
    FirstUnreadable(db, base, |vs|, k);
  }

  lemma FirstUnreadable(db: Records, base: string, n: nat, k: string)
    requires n > 0 && k in db && Less(ElementKey(base, n - 1), k) && !Readable(k)
    requires forall m :: m in db && Less(ElementKey(base, n - 1), m) ==> !Less(m, k)
    ensures !BehindLands(db, base, n)
  {
    var e := ElementKey(base, n - 1);
    hide ElementKey;
    hide Less;
    hide Readable;
    assert IsFirst(db, e, true, At(k));
    assert !Lands(At(k));
  }

  lemma SpacedOrder()
    ensures var e := ElementKey("/a", |["sx", "sy"]| - 1); Less("/!", e) && Less(e, "/b c")
  {
    hide EncodeIndex;
    AfterA("$" + EncodeIndex(1));
    ElementKeyIs("/a", 1);
    assert "/a" + "/" + ("$" + EncodeIndex(1)) == "/a/" + ("$" + EncodeIndex(1));
  }

  lemma SpacedKey()
    ensures !Readable("/b c")
  {
    assert "/b c"[2] == ' ';
  }

  lemma AfterA(comp: string)
    ensures Less("/a/" + comp, "/b c") && Less("/!", "/a/" + comp)
  {
    var s := "a/" + comp;
    assert "/a/" + comp == "/" + s && s[0] == 'a';
    assert Less(s, "b c") && Less("!", s);
    LessPrefix("/", s, "b c");
    LessPrefix("/", "!", s);
    assert "/" + "b c" == "/b c" && "/" + "!" == "/!";
  }

  lemma SpacedPlaces(db: Records, m: string)
    requires LaidOut(Dir('O', SpacedKids()), "", db) && InSubtree(m, "") && m in db
    ensures m == "/!" || InSubtree(m, "/a") || InSubtree(m, "/b c")
  {
    hide ArrayTree;
    hide KidsLaidOut;
    var kids := SpacedKids();
    assert InDirectory(m, "", kids);
    hide LaidOut;
    hide Less;
    if m != "/!" {
      var i :| 0 <= i < 2 && InSubtree(m, "" + "/" + kids[i].comp);
      assert "" + "/" + "a" == "/a" && "" + "/" + "b c" == "/b c";
    }
  }
}
