/** Object members in a sorted vector, refining a map from names to values. */
module ObjectStorage {
  import opened JsonText

  // ---- The order of names ---------------------------------------------------------

  /** Lexicographic order by character, as compare() < 0. */
  predicate Less(s: string, t: string) {
    t != [] && (s == [] || s[0] < t[0] || (s[0] == t[0] && Less(s[1..], t[1..])))
  }

  lemma {:induction false} LessTotal(s: string, t: string)
    ensures Less(s, t) || s == t || Less(t, s)
  {
    if s != [] && t != [] && s[0] == t[0] {
      LessTotal(s[1..], t[1..]);
      if s[1..] == t[1..] {
        assert s == [s[0]] + s[1..] == [t[0]] + t[1..] == t;
      }
    }
  }

  lemma {:induction false} LessAsymmetric(s: string, t: string)
    requires Less(s, t)
    ensures !Less(t, s) && s != t
  {
    if s != [] && s[0] == t[0] {
      LessAsymmetric(s[1..], t[1..]);
    }
  }

  lemma {:induction false} LessTransitive(s: string, t: string, u: string)
    requires Less(s, t) && Less(t, u)
    ensures Less(s, u)
  {
    if s != [] && s[0] == t[0] == u[0] {
      LessTransitive(s[1..], t[1..], u[1..]);
    }
  }

  // ---- Members and the map they stand for ------------------------------------------

  predicate HasName(ms: seq<Member>, name: string) {
    exists i :: 0 <= i < |ms| && ms[i].name == name
  }

  /** The map of the members; of several with one name, the last counts. */
  function MapOf(ms: seq<Member>): map<string, Json> {
    if ms == [] then map[] else MapOf(ms[..|ms| - 1])[ms[|ms| - 1].name := ms[|ms| - 1].value]
  }

  /** Strictly increasing names. */
  predicate Sorted(ms: seq<Member>) {
    forall i, j :: 0 <= i < j < |ms| ==> Less(ms[i].name, ms[j].name)
  }

  lemma {:induction false} MapKeys(ms: seq<Member>, name: string)
    ensures name in MapOf(ms) <==> HasName(ms, name)
  {
    if ms != [] {
      var init, last := ms[..|ms| - 1], ms[|ms| - 1];
      MapKeys(init, name);
      if HasName(init, name) {
        var i :| 0 <= i < |init| && init[i].name == name;
        assert ms[i].name == name;
      }
      if name == last.name {
        assert ms[|ms| - 1].name == name;
      }
    }
  }

  /** A member whose name does not come again gives its value to the map. */
  lemma {:induction false} MapAt(ms: seq<Member>, i: nat)
    requires i < |ms| && !HasName(ms[i + 1..], ms[i].name)
    ensures ms[i].name in MapOf(ms) && MapOf(ms)[ms[i].name] == ms[i].value
  {
    if i < |ms| - 1 {
      var init := ms[..|ms| - 1];
      assert ms[i + 1..][|ms| - i - 2] == ms[|ms| - 1];
      var rest, tail := ms[i + 1..], init[i + 1..];
      forall j | 0 <= j < |tail|
        ensures tail[j].name != ms[i].name
      {
        assert tail[j] == rest[j];
      }
      MapAt(init, i);
    }
  }

  lemma SortedNames(ms: seq<Member>, i: nat)
    requires Sorted(ms) && i < |ms|
    ensures !HasName(ms[..i], ms[i].name) && !HasName(ms[i + 1..], ms[i].name)
  {
    var p, q := ms[..i], ms[i + 1..];
    forall j | 0 <= j < |p|
      ensures p[j].name != ms[i].name
    {
      LessAsymmetric(ms[j].name, ms[i].name);
    }
    forall j | 0 <= j < |q|
      ensures q[j].name != ms[i].name
    {
      LessAsymmetric(ms[i].name, ms[i + 1 + j].name);
    }
  }

  /** Sorted members are determined by their map, so storages with one map are equal member by member. */
  lemma {:induction false} SortedUnique(a: seq<Member>, b: seq<Member>)
    requires Sorted(a) && Sorted(b) && MapOf(a) == MapOf(b)
    ensures a == b
  {
    hide MapOf;
    hide Less;
    if a == [] || b == [] {
      SameNames(a, b);
      SameNames(b, a);
      assert a != [] ==> HasName(b, a[0].name);
      assert b != [] ==> HasName(a, b[0].name);
    } else {
      SameLast(a, b);
      WithoutLast(a);
      WithoutLast(b);
      SortedUnique(a[..|a| - 1], b[..|b| - 1]);
      assert a == a[..|a| - 1] + [a[|a| - 1]] && b == b[..|b| - 1] + [b[|b| - 1]];
    }
  }

  lemma SameNames(a: seq<Member>, b: seq<Member>)
    requires MapOf(a) == MapOf(b)
    ensures forall i :: 0 <= i < |a| ==> HasName(b, a[i].name)
  {
    forall i | 0 <= i < |a|
      ensures HasName(b, a[i].name)
    {
      MapKeys(a, a[i].name);
      MapKeys(b, a[i].name);
    }
  }

  lemma SameLast(a: seq<Member>, b: seq<Member>)
    requires Sorted(a) && Sorted(b) && MapOf(a) == MapOf(b) && a != [] && b != []
    ensures a[|a| - 1] == b[|b| - 1]
  {
    hide Less;
    SameNames(a, b);
    SameNames(b, a);
    var m, n := a[|a| - 1], b[|b| - 1];
    var j :| 0 <= j < |b| && b[j].name == m.name;
    var i :| 0 <= i < |a| && a[i].name == n.name;
    if j < |b| - 1 {
      assert Less(m.name, n.name);
      if i < |a| - 1 {
        LessAsymmetric(m.name, n.name);
      } else {
        LessAsymmetric(m.name, m.name);
      }
      assert false;
    }
    assert MapOf(a)[m.name] == m.value && MapOf(b)[n.name] == n.value;
  }

  lemma WithoutLast(a: seq<Member>)
    requires Sorted(a) && a != []
    ensures MapOf(a[..|a| - 1]) == MapOf(a) - {a[|a| - 1].name}
  {
    var n := a[|a| - 1].name;
    SortedNames(a, |a| - 1);
    hide Sorted;
    hide Less;
    hide HasName;
    MapKeys(a[..|a| - 1], n);
    Overwritten(MapOf(a[..|a| - 1]), n, a[|a| - 1].value);
  }

  lemma Overwritten(m: map<string, Json>, n: string, v: Json)
    requires n !in m
    ensures m == m[n := v] - {n}
  {
  }

  /** A member put in anywhere before members of other names sets one entry of the map. */
  lemma {:induction false} MapPut(p: seq<Member>, m: Member, q: seq<Member>)
    requires !HasName(q, m.name)
    ensures MapOf(p + [m] + q) == MapOf(p + q)[m.name := m.value]
  {
    if q == [] {
      assert (p + [m] + q)[..|p|] == p && p + q == p;
    } else {
      var init, last := q[..|q| - 1], q[|q| - 1];
      forall j | 0 <= j < |init|
        ensures init[j].name != m.name
      {
        assert q[j] == init[j];
      }
      MapPut(p, m, init);
      assert (p + [m] + q)[..|p| + |q|] == p + [m] + init;
      assert (p + q)[..|p| + |q| - 1] == p + init;
    }
  }

  /** An assigned value replaces the entry of its name. */
  lemma MapAssign(ms: seq<Member>, i: nat, v: Json)
    requires Sorted(ms) && i < |ms|
    ensures MapOf(ms[i := Member(ms[i].name, v)]) == MapOf(ms)[ms[i].name := v]
    ensures Sorted(ms[i := Member(ms[i].name, v)])
  {
    var p, q, name := ms[..i], ms[i + 1..], ms[i].name;
    SortedNames(ms, i);
    MapPut(p, Member(name, v), q);
    MapPut(p, ms[i], q);
    assert ms == p + [ms[i]] + q;
    assert ms[i := Member(name, v)] == p + [Member(name, v)] + q;
  }

  lemma HasNameAppend(p: seq<Member>, q: seq<Member>, name: string)
    ensures HasName(p + q, name) <==> HasName(p, name) || HasName(q, name)
  {
    if HasName(p + q, name) {
      var j :| 0 <= j < |p + q| && (p + q)[j].name == name;
      assert j < |p| ==> p[j].name == name;
      assert j >= |p| ==> q[j - |p|].name == name;
    }
    if HasName(p, name) {
      var j :| 0 <= j < |p| && p[j].name == name;
      assert (p + q)[j].name == name;
    }
    if HasName(q, name) {
      var j :| 0 <= j < |q| && q[j].name == name;
      assert (p + q)[|p| + j].name == name;
    }
  }

  lemma EraseSorted(ms: seq<Member>, i: nat)
    requires Sorted(ms) && i < |ms|
    ensures Sorted(ms[..i] + ms[i + 1..])
  {
    var r := ms[..i] + ms[i + 1..];
    forall j, k | 0 <= j < k < |r|
      ensures Less(r[j].name, r[k].name)
    {
      assert r[j] == ms[if j < i then j else j + 1] && r[k] == ms[if k < i then k else k + 1];
    }
  }

  lemma NowhereNamed(p: seq<Member>, q: seq<Member>, name: string)
    requires !HasName(p, name) && !HasName(q, name)
    ensures name !in MapOf(p + q)
  {
    hide HasName;
    HasNameAppend(p, q, name);
    MapKeys(p + q, name);
  }

  /** Taking out a member whose name is nowhere else takes the name out of the map. */
  lemma MapWithout(p: seq<Member>, m: Member, q: seq<Member>)
    requires !HasName(p, m.name) && !HasName(q, m.name)
    ensures MapOf(p + q) == MapOf(p + [m] + q) - {m.name}
  {
    hide MapOf;
    hide HasName;
    MapPut(p, m, q);
    NowhereNamed(p, q, m.name);
    MapMinus(MapOf(p + q), m.name, m.value);
  }

  /** An erased member takes its name out of the map. */
  lemma MapErase(ms: seq<Member>, i: nat)
    requires Sorted(ms) && i < |ms|
    ensures MapOf(ms[..i] + ms[i + 1..]) == MapOf(ms) - {ms[i].name}
    ensures Sorted(ms[..i] + ms[i + 1..])
  {
    hide Less;
    hide MapOf;
    hide HasName;
    EraseSorted(ms, i);
    SortedNames(ms, i);
    MapWithout(ms[..i], ms[i], ms[i + 1..]);
    assert ms == ms[..i] + [ms[i]] + ms[i + 1..];
  }

  lemma MapMinus(m: map<string, Json>, name: string, v: Json)
    requires name !in m
    ensures m[name := v] - {name} == m
  {
  }

  /** A lower bound: everything before pos is below name, everything from pos on is not. */
  predicate IsLowerBound(ms: seq<Member>, name: string, pos: nat) {
    pos <= |ms| && (forall i :: 0 <= i < pos ==> Less(ms[i].name, name)) &&
    forall i :: pos <= i < |ms| ==> !Less(ms[i].name, name)
  }

  /** The lower bound either holds the name, or shows that it is absent and where it belongs. */
  lemma LowerBoundFinds(ms: seq<Member>, name: string, pos: nat)
    requires Sorted(ms) && IsLowerBound(ms, name, pos)
    ensures pos < |ms| && ms[pos].name == name ==> name in MapOf(ms) && MapOf(ms)[name] == ms[pos].value
    ensures !(pos < |ms| && ms[pos].name == name) ==> name !in MapOf(ms) && Sorted(ms[..pos] + [Member(name, Null)] + ms[pos..])
  {
    MapKeys(ms, name);
    if pos < |ms| && ms[pos].name == name {
      SortedNames(ms, pos);
      MapAt(ms, pos);
    } else {
      forall i | 0 <= i < |ms|
        ensures ms[i].name != name && (i >= pos ==> Less(name, ms[i].name))
      {
        if i < pos {
          LessAsymmetric(ms[i].name, name);
        } else {
          LessTotal(ms[pos].name, name);
          if i > pos {
            LessTransitive(name, ms[pos].name, ms[i].name);
          }
          LessAsymmetric(name, ms[i].name);
        }
      }
      InsertSorted(ms, Member(name, Null), pos);
    }
  }

  lemma InsertSorted(ms: seq<Member>, m: Member, pos: nat)
    requires Sorted(ms) && pos <= |ms|
    requires forall i :: 0 <= i < pos ==> Less(ms[i].name, m.name)
    requires forall i :: pos <= i < |ms| ==> Less(m.name, ms[i].name)
    ensures Sorted(ms[..pos] + [m] + ms[pos..])
  {
    var r := ms[..pos] + [m] + ms[pos..];
    forall j, k | 0 <= j < k < |r|
      ensures Less(r[j].name, r[k].name)
    {
      assert j < pos ==> r[j] == ms[j];
      assert j > pos ==> r[j] == ms[j - 1];
      assert k < pos ==> r[k] == ms[k];
      assert k > pos ==> r[k] == ms[k - 1];
    }
  }

  // ---- Bulk insertion -----------------------------------------------------------------

  /** Increasing names, equal ones allowed. */
  predicate InOrder(ms: seq<Member>) {
    forall i, j :: 0 <= i < j < |ms| ==> !Less(ms[j].name, ms[i].name)
  }

  /** m after every member whose name is not above its own. */
  function PutInPlace(ms: seq<Member>, m: Member): (r: seq<Member>)
    ensures |r| == |ms| + 1
  {
    if ms == [] || !Less(m.name, ms[|ms| - 1].name) then ms + [m]
    else PutInPlace(ms[..|ms| - 1], m) + [ms[|ms| - 1]]
  }

  /** std::stable_sort by name: members of one name keep their order. */
  function StableSort(ms: seq<Member>): (r: seq<Member>)
    ensures |r| == |ms|
  {
    if ms == [] then [] else PutInPlace(StableSort(ms[..|ms| - 1]), ms[|ms| - 1])
  }

  /** std::unique from the back: of neighbours with one name only the last stays. */
  function UniqueLast(ms: seq<Member>): seq<Member> {
    if |ms| <= 1 then ms
    else if ms[0].name == ms[1].name then UniqueLast(ms[1..])
    else [ms[0]] + UniqueLast(ms[1..])
  }

  lemma {:induction false} PlaceSplits(ms: seq<Member>, m: Member) returns (k: nat)
    requires InOrder(ms)
    ensures k <= |ms| && PutInPlace(ms, m) == ms[..k] + [m] + ms[k..]
    ensures (forall i :: 0 <= i < k ==> !Less(m.name, ms[i].name)) && forall i :: k <= i < |ms| ==> Less(m.name, ms[i].name)
  {
    if ms == [] || !Less(m.name, ms[|ms| - 1].name) {
      k := |ms|;
      forall i | 0 <= i < k
        ensures !Less(m.name, ms[i].name)
      {
        if Less(m.name, ms[i].name) && i < |ms| - 1 {
          LessNotBelow(m.name, ms[i].name, ms[|ms| - 1].name);
        }
      }
      assert ms[..k] + [m] + ms[k..] == ms + [m];
    } else {
      var init := ms[..|ms| - 1];
      k := PlaceSplits(init, m);
      assert init[..k] == ms[..k] && init[k..] + [ms[|ms| - 1]] == ms[k..];
      forall i | k <= i < |ms|
        ensures Less(m.name, ms[i].name)
      {
        if i < |ms| - 1 {
          assert init[i] == ms[i];
        }
      }
    }
  }

  /** Below x, and x not above y, is below y. */
  lemma LessNotBelow(s: string, x: string, y: string)
    requires Less(s, x) && !Less(y, x)
    ensures Less(s, y)
  {
    LessTotal(x, y);
    if x != y {
      LessTransitive(s, x, y);
    }
  }

  lemma PutInOrder(ms: seq<Member>, m: Member, k: nat)
    requires InOrder(ms) && k <= |ms|
    requires forall i :: 0 <= i < k ==> !Less(m.name, ms[i].name)
    requires forall i :: k <= i < |ms| ==> Less(m.name, ms[i].name)
    ensures InOrder(ms[..k] + [m] + ms[k..])
  {
    var r := ms[..k] + [m] + ms[k..];
    forall i, j | 0 <= i < j < |r|
      ensures !Less(r[j].name, r[i].name)
    {
      assert r[i] == if i < k then ms[i] else if i == k then m else ms[i - 1];
      assert r[j] == if j < k then ms[j] else if j == k then m else ms[j - 1];
      if i == k {
        LessAsymmetric(m.name, ms[j - 1].name);
      }
    }
  }

  lemma MapSnoc(ms: seq<Member>, m: Member)
    ensures MapOf(ms + [m]) == MapOf(ms)[m.name := m.value]
  {
    assert (ms + [m])[..|ms|] == ms;
  }

  lemma AboveAll(q: seq<Member>, name: string)
    requires forall i :: 0 <= i < |q| ==> Less(name, q[i].name)
    ensures !HasName(q, name)
  {
    forall j | 0 <= j < |q|
      ensures q[j].name != name
    {
      LessAsymmetric(name, q[j].name);
    }
  }

  lemma PutKeepsMap(ms: seq<Member>, m: Member, k: nat)
    requires k <= |ms| && forall i :: k <= i < |ms| ==> Less(m.name, ms[i].name)
    ensures MapOf(ms[..k] + [m] + ms[k..]) == MapOf(ms + [m])
  {
    hide MapOf;
    hide Less;
    hide HasName;
    var p, q := ms[..k], ms[k..];
    AboveAll(q, m.name);
    MapPut(p, m, q);
    MapSnoc(ms, m);
    assert p + q == ms;
  }

  lemma PlaceInOrder(ms: seq<Member>, m: Member)
    requires InOrder(ms)
    ensures InOrder(PutInPlace(ms, m)) && MapOf(PutInPlace(ms, m)) == MapOf(ms + [m])
  {
    var k := PlaceSplits(ms, m);
    PutInOrder(ms, m, k);
    PutKeepsMap(ms, m, k);
  }

  /** Sorting keeps the map, because equal names keep their order. */
  lemma {:induction false} StableSortKeepsMap(ms: seq<Member>)
    ensures InOrder(StableSort(ms)) && MapOf(StableSort(ms)) == MapOf(ms)
  {
    if ms != [] {
      var init, m := ms[..|ms| - 1], ms[|ms| - 1];
      StableSortKeepsMap(init);
      PlaceInOrder(StableSort(init), m);
      var sorted := StableSort(init);
      assert (sorted + [m])[..|sorted|] == sorted;
    }
  }

  lemma MapCons(m: Member, ms: seq<Member>)
    ensures MapOf([m] + ms) == if HasName(ms, m.name) then MapOf(ms) else MapOf(ms)[m.name := m.value]
    decreases |ms|
  {
    if ms == [] {
      assert ([m] + ms)[..0] == [];
    } else {
      var init, last := ms[..|ms| - 1], ms[|ms| - 1];
      MapCons(m, init);
      assert ([m] + ms)[..|ms|] == [m] + init;
      assert ms == init + [last];
      HasNameAppend(init, [last], m.name);
      if last.name == m.name {
        assert [last][0].name == m.name;
      }
    }
  }

  /** Dropping neighbours of one name but the last leaves strictly increasing names and the same map. */
  lemma {:induction false} UniqueKeepsMap(ms: seq<Member>)
    requires InOrder(ms)
    ensures Sorted(UniqueLast(ms)) && MapOf(UniqueLast(ms)) == MapOf(ms)
    ensures ms != [] ==> UniqueLast(ms) != [] && UniqueLast(ms)[0].name == ms[0].name
  {
    if |ms| > 1 {
      var rest := ms[1..];
      forall i, j | 0 <= i < j < |rest|
        ensures !Less(rest[j].name, rest[i].name)
      {
        assert rest[i] == ms[i + 1] && rest[j] == ms[j + 1];
      }
      UniqueKeepsMap(rest);
      assert ms == [ms[0]] + rest;
      MapCons(ms[0], rest);
      var u := UniqueLast(rest);
      if ms[0].name == ms[1].name {
        assert rest[0].name == ms[0].name;
      } else {
        LessTotal(ms[0].name, ms[1].name);
        assert !Less(ms[1].name, ms[0].name);
        MapCons(ms[0], u);
        HeadBelow(ms[0], rest, u);
      }
    }
  }

  lemma HeadBelow(m: Member, rest: seq<Member>, u: seq<Member>)
    requires InOrder(rest) && rest != [] && Less(m.name, rest[0].name)
    requires Sorted(u) && u != [] && u[0].name == rest[0].name
    ensures Sorted([m] + u) && !HasName(rest, m.name) && !HasName(u, m.name)
  {
    forall i | 0 <= i < |rest|
      ensures rest[i].name != m.name
    {
      if i > 0 {
        LessNotBelow(m.name, rest[0].name, rest[i].name);
      }
      LessAsymmetric(m.name, rest[i].name);
    }
    forall i | 0 <= i < |u|
      ensures Less(m.name, u[i].name) && u[i].name != m.name
    {
      if i > 0 {
        LessTransitive(m.name, u[0].name, u[i].name);
      }
      LessAsymmetric(m.name, u[i].name);
    }
  }

  /** What bulk insertion leaves of all members together. */
  function Inserted(ms: seq<Member>): seq<Member> {
    UniqueLast(StableSort(ms))
  }

  lemma InsertedIs(ms: seq<Member>)
    ensures Sorted(Inserted(ms)) && MapOf(Inserted(ms)) == MapOf(ms)
  {
    StableSortKeepsMap(ms);
    UniqueKeepsMap(StableSort(ms));
  }

  /** Members that are already strictly sorted are left as they are. */
  lemma InsertedSorted(ms: seq<Member>)
    requires Sorted(ms)
    ensures Inserted(ms) == ms
  {
    StableSorted(ms);
    UniqueSorted(ms);
  }

  lemma {:induction false} StableSorted(ms: seq<Member>)
    requires Sorted(ms)
    ensures StableSort(ms) == ms
  {
    if ms != [] {
      var init, m := ms[..|ms| - 1], ms[|ms| - 1];
      StableSorted(init);
      if init != [] {
        assert init[|init| - 1] == ms[|ms| - 2];
        LessAsymmetric(init[|init| - 1].name, m.name);
      }
      assert init + [m] == ms;
    }
  }

  lemma {:induction false} UniqueSorted(ms: seq<Member>)
    requires Sorted(ms)
    ensures UniqueLast(ms) == ms
  {
    if |ms| > 1 {
      LessAsymmetric(ms[0].name, ms[1].name);
      UniqueSorted(ms[1..]);
    }
  }

  // ---- The sorted storage -----------------------------------------------------------

  class SortedObject {
    var members: seq<Member>

    ghost predicate Valid()
      reads this
    {
      Sorted(members)
    }

    ghost function Map(): map<string, Json>
      reads this
    {
      MapOf(members)
    }

    constructor ()
      ensures Valid() && Map() == map[]
    {
      members := [];
    }

    /** std::lower_bound from a position on, by halving. */
    method LowerBound(from: nat, name: string) returns (pos: nat)
      requires Valid() && from <= |members|
      requires forall i :: 0 <= i < from ==> Less(members[i].name, name)
      ensures from <= pos && IsLowerBound(members, name, pos)
    {
      var lo, hi := from, |members|;
      while lo < hi
        invariant from <= lo <= hi <= |members|
        invariant forall i :: 0 <= i < lo ==> Less(members[i].name, name)
        invariant forall i :: hi <= i < |members| ==> !Less(members[i].name, name)
      {
        var mid := (lo + hi) / 2;
        if Less(members[mid].name, name) {
          BelowBefore(members, name, mid);
          lo := mid + 1;
        } else {
          NotBelowAfter(members, name, mid);
          hi := mid;
        }
      }
      pos := lo;
    }

    /** The lower bound searched from a hint that is not past the name, else from the start. */
    method HintedLowerBound(hint: nat, name: string) returns (pos: nat)
      requires Valid() && hint <= |members|
      ensures IsLowerBound(members, name, pos)
    {
      if hint < |members| && !Less(name, members[hint].name) {
        HintBelow(members, name, hint);
        pos := LowerBound(hint, name);
      } else {
        pos := LowerBound(0, name);
      }
    }

    /** The position of a name, or the end. */
    method Find(name: string) returns (pos: nat)
      requires Valid()
      ensures pos <= |members| && (pos < |members| <==> name in Map())
      ensures pos < |members| ==> members[pos].name == name && members[pos].value == Map()[name]
    {
      var it := LowerBound(0, name);
      LowerBoundFinds(members, name, it);
      pos := if it < |members| && members[it].name == name then it else |members|;
    }

    method InsertAt(pos: nat, m: Member)
      requires Valid() && IsLowerBound(members, m.name, pos)
      requires pos < |members| ==> members[pos].name != m.name
      modifies this
      ensures Valid() && Map() == old(Map())[m.name := m.value]
      ensures m.name !in old(Map())
      ensures pos < |members| && members[pos] == m
    {
      LowerBoundFinds(members, m.name, pos);
      PutSorted(members, m, pos);
      members := members[..pos] + [m] + members[pos..];
    }

    /** insert_or_assign: afterwards the name has the value. */
    method InsertOrAssign(name: string, value: Json) returns (pos: nat, inserted: bool)
      requires Valid()
      modifies this
      ensures Valid() && Map() == old(Map())[name := value]
      ensures inserted <==> name !in old(Map())
      ensures !inserted ==> pos < |old(members)| && members == old(members)[pos := Member(name, value)]
      ensures pos < |members| && members[pos] == Member(name, value)
      ensures !inserted ==> old(members)[pos].name == name
    {
      pos := LowerBound(0, name);
      inserted := AssignOrInsertAt(pos, name, value);
    }

    /** The hinted form has the same effect for every valid hint. */
    method InsertOrAssignHinted(hint: nat, name: string, value: Json) returns (pos: nat)
      requires Valid() && hint <= |members|
      modifies this
      ensures Valid() && Map() == old(Map())[name := value]
      ensures pos < |members| && members[pos] == Member(name, value)
    {
      pos := HintedLowerBound(hint, name);
      var inserted := AssignOrInsertAt(pos, name, value);
    }

    method AssignOrInsertAt(pos: nat, name: string, value: Json) returns (inserted: bool)
      requires Valid() && IsLowerBound(members, name, pos)
      modifies this
      ensures Valid() && Map() == old(Map())[name := value]
      ensures inserted <==> name !in old(Map())
      ensures !inserted ==> pos < |old(members)| && members == old(members)[pos := Member(name, value)]
      ensures pos < |members| && members[pos] == Member(name, value)
      ensures !inserted ==> old(members)[pos].name == name
    {
      if pos < |members| && members[pos].name == name {
        LowerBoundFinds(members, name, pos);
        MapAssign(members, pos, value);
        members := members[pos := Member(members[pos].name, value)];
        inserted := false;
      } else {
        InsertAt(pos, Member(name, value));
        inserted := true;
      }
    }

    /** try_emplace: a name that is there keeps its value. */
    method TryEmplace(name: string, value: Json) returns (pos: nat, inserted: bool)
      requires Valid()
      modifies this
      ensures Valid() && Map() == if name in old(Map()) then old(Map()) else old(Map())[name := value]
      ensures inserted <==> name !in old(Map())
      ensures !inserted ==> members == old(members)
      ensures pos < |members| && members[pos].name == name
    {
      pos := LowerBound(0, name);
      inserted := EmplaceAt(pos, name, value);
    }

    method TryEmplaceHinted(hint: nat, name: string, value: Json) returns (pos: nat)
      requires Valid() && hint <= |members|
      modifies this
      ensures Valid() && Map() == if name in old(Map()) then old(Map()) else old(Map())[name := value]
      ensures name in old(Map()) ==> members == old(members)
      ensures pos < |members| && members[pos].name == name
    {
      pos := HintedLowerBound(hint, name);
      var inserted := EmplaceAt(pos, name, value);
    }

    method EmplaceAt(pos: nat, name: string, value: Json) returns (inserted: bool)
      requires Valid() && IsLowerBound(members, name, pos)
      modifies this
      ensures Valid() && Map() == if name in old(Map()) then old(Map()) else old(Map())[name := value]
      ensures inserted <==> name !in old(Map())
      ensures !inserted ==> members == old(members)
      ensures pos < |members| && members[pos].name == name
    {
      if pos < |members| && members[pos].name == name {
        LowerBoundFinds(members, name, pos);
        inserted := false;
      } else {
        InsertAt(pos, Member(name, value));
        inserted := true;
      }
    }

    /** The bulk insert: append, sort stably, keep the last of each name. */
    method Insert(items: seq<Member>)
      modifies this
      ensures Valid() && Map() == MapOf(old(members) + items) && members == Inserted(old(members) + items)
    {
      var s := 0;
      while s < |items|
        invariant s <= |items| && members == old(members) + items[..s]
      {
        members := members + [items[s]];
        s := s + 1;
      }
      assert items[..s] == items;
      InsertedIs(members);
      members := UniqueLast(StableSort(members));
    }

    /** erase by name. */
    method Erase(name: string)
      requires Valid()
      modifies this
      ensures Valid() && Map() == old(Map()) - {name}
    {
      var it := LowerBound(0, name);
      LowerBoundFinds(members, name, it);
      if it < |members| && members[it].name == name {
        MapErase(members, it);
        members := members[..it] + members[it + 1..];
      }
    }

    /** merge with a copy of another object: its entries come in where the name is new. */
    method Merge(source: SortedObject)
      requires Valid() && source.Valid()
      modifies this
      ensures Valid() && Map() == old(source.Map()) + old(Map())
    {
      hide MapOf;
      hide Sorted;
      NoMembers();
      ghost var ms := source.members;
      var it := 0;
      while it < |source.members|
        invariant it <= |source.members| && Valid()
        invariant source.members == ms && Map() == MapOf(ms[..it]) + old(Map())
      {
        MapStep(ms, it);
        var pos, inserted := TryEmplace(source.members[it].name, source.members[it].value);
        it := it + 1;
      }
      assert ms[..it] == ms;
    }

    /** merge from a hint that moves along with the insertions. */
    method MergeHinted(hint0: nat, source: SortedObject)
      requires Valid() && source.Valid() && hint0 <= |members|
      modifies this
      ensures Valid() && Map() == old(source.Map()) + old(Map())
    {
      hide MapOf;
      hide Sorted;
      NoMembers();
      ghost var ms := source.members;
      var it, hint := 0, hint0;
      while it < |source.members|
        invariant it <= |source.members| && Valid() && 0 <= hint <= |members|
        invariant source.members == ms && Map() == MapOf(ms[..it]) + old(Map())
      {
        MapStep(ms, it);
        hint := TryEmplaceHinted(hint, source.members[it].name, source.members[it].value);
        it := it + 1;
      }
      assert ms[..it] == ms;
    }

    /** merge_or_update with a copy of another object: its entries win. */
    method MergeOrUpdate(source: SortedObject)
      requires Valid() && source.Valid()
      modifies this
      ensures Valid() && Map() == old(Map()) + old(source.Map())
    {
      hide MapOf;
      hide Sorted;
      NoMembers();
      ghost var ms := source.members;
      var it := 0;
      while it < |source.members|
        invariant it <= |source.members| && Valid()
        invariant source.members == ms && Map() == old(Map()) + MapOf(ms[..it])
      {
        MapStep(ms, it);
        var pos, inserted := InsertOrAssign(source.members[it].name, source.members[it].value);
        it := it + 1;
      }
      assert ms[..it] == ms;
    }

    /**
     merge_or_update with an object to be moved from: the value goes to whatever member the
     lower bound hits, without a look at its name.
     */
    method MergeOrUpdateMoved(items: seq<Member>)
      requires Valid() && Sorted(items)
      modifies this
      ensures Valid() && members == MergedByMove(old(members), items)
      ensures Map() == old(Map()) + MapOf(items) <==> FitsAll(old(members), items)
    {
      var it := 0;
      ghost var ms := members;
      MovedNone(ms, items);
      while it < |items|
        invariant it <= |items| && Valid() && members == MergedByMove(ms, items[..it])
      {
        var m := items[it];
        var pos := LowerBound(0, m.name);
        MovedNext(ms, items, it, pos);
        members := if pos == |members| then members + [m] else members[pos := Member(members[pos].name, m.value)];
        it := it + 1;
      }
      assert items[..it] == items;
      MovedMap(ms, items);
    }

    /** From a hint that moves along, with the same effect. */
    method MergeOrUpdateMovedHinted(hint0: nat, items: seq<Member>)
      requires Valid() && Sorted(items) && hint0 <= |members|
      modifies this
      ensures Valid() && members == MergedByMove(old(members), items)
    {
      var it := 0;
      var hint: nat := hint0;
      ghost var ms := members;
      MovedNone(ms, items);
      while it < |items|
        invariant it <= |items| && Valid() && members == MergedByMove(ms, items[..it]) && hint <= |members|
      {
        var m := items[it];
        var pos := HintedLowerBound(hint, m.name);
        MovedNext(ms, items, it, pos);
        members := if pos == |members| then members + [m] else members[pos := Member(members[pos].name, m.value)];
        hint := pos;
        it := it + 1;
      }
      assert items[..it] == items;
    }
  }

  // ---- Merging by move ----------------------------------------------------------------

  /** How many members at the front have names below a given one. */
  function Below(ms: seq<Member>, name: string): (pos: nat)
    ensures pos <= |ms|
  {
    if ms == [] || !Less(ms[0].name, name) then 0 else 1 + Below(ms[1..], name)
  }

  /** In sorted members that is the lower bound, and there is no other. */
  lemma {:induction false} BelowIs(ms: seq<Member>, name: string, pos: nat)
    requires IsLowerBound(ms, name, pos)
    ensures Below(ms, name) == pos
  {
    if pos > 0 {
      BelowIs(ms[1..], name, pos - 1);
    }
  }

  function PutOver(ms: seq<Member>, m: Member): seq<Member> {
    var pos := Below(ms, m.name);
    if pos == |ms| then ms + [m] else ms[pos := Member(ms[pos].name, m.value)]
  }

  /** What merging by move leaves. */
  function MergedByMove(ms: seq<Member>, items: seq<Member>): seq<Member> {
    if items == [] then ms else PutOver(MergedByMove(ms, items[..|items| - 1]), items[|items| - 1])
  }

  predicate AllBelow(ms: seq<Member>, name: string) {
    forall i :: 0 <= i < |ms| ==> Less(ms[i].name, name)
  }

  /** A name that merging by move does right: it is there already, or above all that are. */
  predicate Fits(ms: seq<Member>, name: string) {
    HasName(ms, name) || AllBelow(ms, name)
  }

  predicate FitsAll(ms: seq<Member>, items: seq<Member>) {
    forall i :: 0 <= i < |items| ==> Fits(ms, items[i].name)
  }

  lemma MovedNone(ms: seq<Member>, items: seq<Member>)
    ensures MergedByMove(ms, items[..0]) == ms
  {
  }

  lemma MovedNext(ms: seq<Member>, items: seq<Member>, it: nat, pos: nat)
    requires Sorted(ms) && Sorted(items) && it < |items|
    requires IsLowerBound(MergedByMove(ms, items[..it]), items[it].name, pos)
    ensures var now, m := MergedByMove(ms, items[..it]), items[it];
            MergedByMove(ms, items[..it + 1]) == (if pos == |now| then now + [m] else now[pos := Member(now[pos].name, m.value)])
    ensures Sorted(MergedByMove(ms, items[..it + 1]))
  {
    BelowIs(MergedByMove(ms, items[..it]), items[it].name, pos);
    assert items[..it + 1][..it] == items[..it];
    MovedSorted(ms, items[..it + 1]);
  }

  /** Names stay sorted; those of the object stay, and those above all of them come behind. */
  lemma {:induction false} MovedSorted(ms: seq<Member>, items: seq<Member>)
    requires Sorted(ms) && Sorted(items)
    ensures Sorted(MergedByMove(ms, items))
    ensures forall x :: HasName(MergedByMove(ms, items), x) <==> HasName(ms, x) || (HasName(items, x) && AllBelow(ms, x))
    decreases |items|
  {
    hide Less;
    if items == [] {
      assert forall x :: !HasName(items, x);
    } else {
      var init, m := items[..|items| - 1], items[|items| - 1];
      MovedSorted(ms, init);
      PutOverNames(ms, init, m, MergedByMove(ms, init));
      assert items == init + [m];
    }
  }

  lemma PutOverNames(ms: seq<Member>, init: seq<Member>, m: Member, now: seq<Member>)
    requires Sorted(ms) && Sorted(init + [m]) && Sorted(now)
    requires forall x :: HasName(now, x) <==> HasName(ms, x) || (HasName(init, x) && AllBelow(ms, x))
    ensures Sorted(PutOver(now, m))
    ensures forall x :: HasName(PutOver(now, m), x) <==> HasName(ms, x) || (HasName(init + [m], x) && AllBelow(ms, x))
    ensures Below(now, m.name) == |now| <==> AllBelow(ms, m.name)
  {
    LowerBoundIs(now, m.name);
    EndIsAbove(ms, init, m, now);
    var pos := Below(now, m.name);
    forall x
      ensures HasName(PutOver(now, m), x) <==> HasName(ms, x) || (HasName(init + [m], x) && AllBelow(ms, x))
    {
      HasNameAppend(init, [m], x);
      OneName(m, x);
      if pos == |now| {
        HasNameAppend(now, [m], x);
      } else {
        SameNamesAt(now, pos, m.value, x);
      }
    }
  }

  lemma OneName(m: Member, x: string)
    ensures HasName([m], x) <==> m.name == x
  {
    assert [m][0] == m;
  }

  lemma SameNamesAt(ms: seq<Member>, pos: nat, v: Json, x: string)
    requires pos < |ms|
    ensures HasName(ms[pos := Member(ms[pos].name, v)], x) <==> HasName(ms, x)
  {
    var out := ms[pos := Member(ms[pos].name, v)];
    assert forall i :: 0 <= i < |ms| ==> out[i].name == ms[i].name;
    if HasName(ms, x) {
      var i :| 0 <= i < |ms| && ms[i].name == x;
      assert out[i].name == x;
    }
  }

  lemma {:induction false} LowerBoundIs(ms: seq<Member>, name: string)
    requires Sorted(ms)
    ensures IsLowerBound(ms, name, Below(ms, name))
  {
    if ms != [] {
      if Less(ms[0].name, name) {
        LowerBoundIs(ms[1..], name);
      } else {
        NotBelowAfter(ms, name, 0);
      }
    }
  }

  /** The lower bound is the end exactly for a name above all of the object's own. */
  lemma EndIsAbove(ms: seq<Member>, init: seq<Member>, m: Member, now: seq<Member>)
    requires Sorted(init + [m]) && IsLowerBound(now, m.name, Below(now, m.name))
    requires forall x :: HasName(now, x) <==> HasName(ms, x) || (HasName(init, x) && AllBelow(ms, x))
    ensures Below(now, m.name) == |now| <==> AllBelow(ms, m.name)
  {
    hide Less;
    if Below(now, m.name) == |now| {
      forall i | 0 <= i < |ms|
        ensures Less(ms[i].name, m.name)
      {
        assert HasName(now, ms[i].name);
        var j :| 0 <= j < |now| && now[j].name == ms[i].name;
      }
    } else if AllBelow(ms, m.name) {
      var x := now[Below(now, m.name)].name;
      assert HasName(now, x);
      NameBelow(ms, init, m, x);
      assert false;
    }
  }

  lemma NameBelow(ms: seq<Member>, init: seq<Member>, m: Member, x: string)
    requires Sorted(init + [m]) && AllBelow(ms, m.name) && (HasName(ms, x) || HasName(init, x))
    ensures Less(x, m.name)
  {
    hide Less;
    if HasName(ms, x) {
      var i :| 0 <= i < |ms| && ms[i].name == x;
    } else {
      var i :| 0 <= i < |init| && init[i].name == x;
      assert (init + [m])[i] == init[i] && (init + [m])[|init|] == m;
    }
  }

  /** Merging by move is the update of the map if and only if every name fits. */
  lemma MovedMap(ms: seq<Member>, items: seq<Member>)
    requires Sorted(ms) && Sorted(items)
    ensures MapOf(MergedByMove(ms, items)) == MapOf(ms) + MapOf(items) <==> FitsAll(ms, items)
  {
    hide Less;
    if FitsAll(ms, items) {
      MovedFits(ms, items);
    } else {
      var i :| 0 <= i < |items| && !Fits(ms, items[i].name);
      var x := items[i].name;
      MovedSorted(ms, items);
      MapKeys(MergedByMove(ms, items), x);
      MapKeys(items, x);
      assert HasName(items, x) && x in MapOf(ms) + MapOf(items);
    }
  }

  lemma {:induction false} MovedFits(ms: seq<Member>, items: seq<Member>)
    requires Sorted(ms) && Sorted(items) && FitsAll(ms, items)
    ensures MapOf(MergedByMove(ms, items)) == MapOf(ms) + MapOf(items)
    decreases |items|
  {
    hide Less;
    hide PutOver;
    if items == [] {
      NoMembers();
    } else {
      var init, m := items[..|items| - 1], items[|items| - 1];
      assert items == init + [m] && forall i :: 0 <= i < |init| ==> items[i] == init[i];
      assert Fits(ms, m.name);
      MovedFits(ms, init);
      hide MapOf;
      hide HasName;
      MovedFitsNext(ms, init, m);
    }
  }

  lemma MovedFitsNext(ms: seq<Member>, init: seq<Member>, m: Member)
    requires Sorted(ms) && Sorted(init) && Sorted(init + [m]) && Fits(ms, m.name)
    requires MapOf(MergedByMove(ms, init)) == MapOf(ms) + MapOf(init)
    ensures MapOf(PutOver(MergedByMove(ms, init), m)) == MapOf(ms) + MapOf(init + [m])
  {
    hide Less;
    hide PutOver;
    hide MapOf;
    hide MergedByMove;
    hide HasName;
    var now := MergedByMove(ms, init);
    MovedSorted(ms, init);
    PutOverNames(ms, init, m, now);
    LowerBoundIs(now, m.name);
    PutOverFits(ms, m, now);
    MapSnoc(init, m);
  }

  lemma PutOverFits(ms: seq<Member>, m: Member, now: seq<Member>)
    requires Sorted(now) && Fits(ms, m.name) && (HasName(ms, m.name) ==> HasName(now, m.name))
    requires IsLowerBound(now, m.name, Below(now, m.name))
    requires Below(now, m.name) == |now| <==> AllBelow(ms, m.name)
    ensures MapOf(PutOver(now, m)) == MapOf(now)[m.name := m.value]
  {
    hide Less;
    var pos := Below(now, m.name);
    LowerBoundFinds(now, m.name, pos);
    if pos == |now| {
      MapSnoc(now, m);
    } else {
      MapKeys(now, m.name);
      MapAssign(now, pos, m.value);
    }
  }

  /** Two members merged the wrong way: the value of a new name in front goes to the name behind it. */
  lemma MovedGoesWrong(v: Json, w: Json)
    ensures MergedByMove([Member("b", v)], [Member("a", w)]) == [Member("b", w)]
    ensures !FitsAll([Member("b", v)], [Member("a", w)])
  {
    var ms, m := [Member("b", v)], Member("a", w);
    assert !Less("b", "a");
    assert Below(ms, "a") == 0;
    assert [m][..0] == [] && MergedByMove(ms, []) == ms;
    assert ms[0].name != "a" && !HasName(ms, "a") && !AllBelow(ms, "a");
    assert [m][0].name == "a";
  }

  lemma NoMembers()
    ensures MapOf([]) == map[]
  {
  }

  lemma BelowBefore(ms: seq<Member>, name: string, mid: nat)
    requires Sorted(ms) && mid < |ms| && Less(ms[mid].name, name)
    ensures forall i :: 0 <= i <= mid ==> Less(ms[i].name, name)
  {
    forall i | 0 <= i < mid
      ensures Less(ms[i].name, name)
    {
      LessTransitive(ms[i].name, ms[mid].name, name);
    }
  }

  lemma NotBelowAfter(ms: seq<Member>, name: string, mid: nat)
    requires Sorted(ms) && mid < |ms| && !Less(ms[mid].name, name)
    ensures forall i :: mid <= i < |ms| ==> !Less(ms[i].name, name)
  {
    forall i | mid < i < |ms|
      ensures !Less(ms[i].name, name)
    {
      if Less(ms[i].name, name) {
        LessTransitive(ms[mid].name, ms[i].name, name);
      }
    }
  }

  lemma HintBelow(ms: seq<Member>, name: string, hint: nat)
    requires Sorted(ms) && hint < |ms| && !Less(name, ms[hint].name)
    ensures forall i :: 0 <= i < hint ==> Less(ms[i].name, name)
  {
    LessTotal(ms[hint].name, name);
    forall i | 0 <= i < hint
      ensures Less(ms[i].name, name)
    {
      if ms[hint].name != name {
        LessTransitive(ms[i].name, ms[hint].name, name);
      }
    }
  }

  lemma AllAbove(ms: seq<Member>, name: string, pos: nat)
    requires Sorted(ms) && IsLowerBound(ms, name, pos)
    requires pos < |ms| ==> ms[pos].name != name
    ensures forall i :: pos <= i < |ms| ==> Less(name, ms[i].name)
  {
    forall i | pos <= i < |ms|
      ensures Less(name, ms[i].name)
    {
      LessTotal(ms[pos].name, name);
      if i > pos {
        LessTransitive(name, ms[pos].name, ms[i].name);
      }
    }
  }

  lemma PutSorted(ms: seq<Member>, m: Member, pos: nat)
    requires Sorted(ms) && IsLowerBound(ms, m.name, pos)
    requires pos < |ms| ==> ms[pos].name != m.name
    ensures Sorted(ms[..pos] + [m] + ms[pos..])
    ensures MapOf(ms[..pos] + [m] + ms[pos..]) == MapOf(ms)[m.name := m.value]
  {
    hide Less;
    hide MapOf;
    AllAbove(ms, m.name, pos);
    InsertSorted(ms, m, pos);
    PutKeepsMap(ms, m, pos);
    MapSnoc(ms, m);
  }

  /** The next member of a sorted source has a name that its earlier members have not. */
  lemma MapStep(ms: seq<Member>, i: nat)
    requires Sorted(ms) && i < |ms|
    ensures MapOf(ms[..i + 1]) == MapOf(ms[..i])[ms[i].name := ms[i].value]
    ensures ms[i].name !in MapOf(ms[..i])
    ensures ms[i].name in MapOf(ms) && MapOf(ms)[ms[i].name] == ms[i].value
    ensures forall j :: 0 <= j < |ms| && ms[j].name == ms[i].name ==> j == i
  {
    assert ms[..i + 1][..i] == ms[..i];
    SortedNames(ms, i);
    MapKeys(ms[..i], ms[i].name);
    MapAt(ms, i);
    LessAsymmetricHere(ms, i);
  }

  lemma LessAsymmetricHere(ms: seq<Member>, i: nat)
    requires Sorted(ms) && i < |ms|
    ensures forall j :: 0 <= j < |ms| && ms[j].name == ms[i].name ==> j == i
  {
    forall j | 0 <= j < |ms| && j != i
      ensures ms[j].name != ms[i].name
    {
      if j < i {
        LessAsymmetric(ms[j].name, ms[i].name);
      } else {
        LessAsymmetric(ms[i].name, ms[j].name);
      }
    }
  }
}
