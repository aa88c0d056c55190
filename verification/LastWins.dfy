/** The in-place compaction that keeps the last member of every name, in order. */
module LastWins {
  import opened JsonText
  import opened ObjectStorage

  /** The members whose names do not come again. */
  function LastOnly(ms: seq<Member>): (r: seq<Member>)
    ensures |r| <= |ms|
  {
    if ms == [] then []
    else if HasName(ms[1..], ms[0].name) then LastOnly(ms[1..])
    else [ms[0]] + LastOnly(ms[1..])
  }

  predicate IsLast(ms: seq<Member>, i: nat) {
    i < |ms| && !HasName(ms[i + 1..], ms[i].name)
  }

  predicate Distinct(ms: seq<Member>) {
    forall i :: 0 <= i < |ms| ==> IsLast(ms, i)
  }

  function Count(ms: seq<Member>, name: string): nat {
    if ms == [] then 0 else (if ms[0].name == name then 1 else 0) + Count(ms[1..], name)
  }

  // ---- What the compaction means ----------------------------------------------------

  /** The positions from a place on whose members are last. */
  function Positions(ms: seq<Member>, from: nat): seq<nat>
    requires from <= |ms|
    decreases |ms| - from
  {
    if from == |ms| then [] else (if IsLast(ms, from) then [from] else []) + Positions(ms, from + 1)
  }

  /** These are exactly the last occurrences, in order. */
  lemma {:induction false} PositionsAre(ms: seq<Member>, from: nat)
    requires from <= |ms|
    ensures forall i: nat :: i in Positions(ms, from) <==> from <= i && IsLast(ms, i)
    ensures forall j, k :: 0 <= j < k < |Positions(ms, from)| ==> Positions(ms, from)[j] < Positions(ms, from)[k]
    decreases |ms| - from
  {
    if from < |ms| {
      PositionsAre(ms, from + 1);
      var rest := Positions(ms, from + 1);
      forall k | 0 <= k < |rest|
        ensures from < rest[k]
      {
        assert rest[k] in rest;
      }
    }
  }

  lemma {:induction false} LastOnlyAt(ms: seq<Member>, from: nat)
    requires from <= |ms|
    ensures var at := Positions(ms, from);
            |LastOnly(ms[from..])| == |at| &&
            forall j :: 0 <= j < |at| ==> at[j] < |ms| && LastOnly(ms[from..])[j] == ms[at[j]]
    decreases |ms| - from
  {
    if from < |ms| {
      LastOnlyAt(ms, from + 1);
      assert ms[from..][1..] == ms[from + 1..] && ms[from..][0] == ms[from];
      hide HasName;
    }
  }

  /** LastOnly picks exactly the last occurrences, which are at increasing positions, in their order. */
  lemma LastPositions(ms: seq<Member>, from: nat)
    requires from <= |ms|
    ensures var at := Positions(ms, from);
            |LastOnly(ms[from..])| == |at| &&
            (forall j :: 0 <= j < |at| ==> at[j] < |ms| && LastOnly(ms[from..])[j] == ms[at[j]]) &&
            (forall i: nat :: i in at <==> from <= i && IsLast(ms, i)) &&
            (forall j, k :: 0 <= j < k < |at| ==> at[j] < at[k])
  {
    hide *;
    LastOnlyAt(ms, from);
    PositionsAre(ms, from);
  }

  /** No name is repeated, and none is lost. */
  lemma {:induction false} LastOnlyNames(ms: seq<Member>, name: string)
    ensures HasName(LastOnly(ms), name) <==> HasName(ms, name)
    ensures Count(LastOnly(ms), name) <= 1
  {
    if ms != [] {
      var rest := ms[1..];
      LastOnlyNames(rest, name);
      assert ms == [ms[0]] + rest;
      HasNameAppend([ms[0]], rest, name);
      HasNameAppend([ms[0]], LastOnly(rest), name);
      assert HasName([ms[0]], name) <==> ms[0].name == name by { assert [ms[0]][0] == ms[0]; }
      CountHas(LastOnly(rest), name);
      assert ([ms[0]] + LastOnly(rest))[1..] == LastOnly(rest);
    }
  }

  /** The compaction keeps the map. */
  lemma {:induction false} LastOnlyKeepsMap(ms: seq<Member>)
    ensures MapOf(LastOnly(ms)) == MapOf(ms)
  {
    if ms != [] {
      var rest := ms[1..];
      LastOnlyKeepsMap(rest);
      assert ms == [ms[0]] + rest;
      MapCons(ms[0], rest);
      MapCons(ms[0], LastOnly(rest));
      LastOnlyNames(rest, ms[0].name);
    }
  }

  /** Bulk insertion into the sorted and into the order-preserving storage yields one map. */
  lemma StoragesAgree(ms: seq<Member>)
    ensures MapOf(LastOnly(ms)) == MapOf(Inserted(ms))
  {
    LastOnlyKeepsMap(ms);
    InsertedIs(ms);
  }

  // ---- Counting names -----------------------------------------------------------------

  lemma {:induction false} CountHas(ms: seq<Member>, name: string)
    ensures Count(ms, name) > 0 <==> HasName(ms, name)
  {
    if ms != [] {
      CountHas(ms[1..], name);
      assert ms == [ms[0]] + ms[1..];
      HasNameAppend([ms[0]], ms[1..], name);
      assert HasName([ms[0]], name) <==> ms[0].name == name by { assert [ms[0]][0] == ms[0]; }
    }
  }

  lemma {:induction false} CountAppend(p: seq<Member>, q: seq<Member>, name: string)
    ensures Count(p + q, name) == Count(p, name) + Count(q, name)
  {
    if p == [] {
      assert p + q == q;
    } else {
      CountAppend(p[1..], q, name);
      assert (p + q)[1..] == p[1..] + q;
    }
  }

  lemma CountOne(m: Member, name: string)
    ensures Count([m], name) == if m.name == name then 1 else 0
  {
    assert [m][1..] == [];
  }

  lemma {:induction false} CountSorted(ms: seq<Member>, name: string)
    ensures Count(StableSort(ms), name) == Count(ms, name)
  {
    if ms != [] {
      var init, m := ms[..|ms| - 1], ms[|ms| - 1];
      CountSorted(init, name);
      StableSortKeepsMap(init);
      var s := StableSort(init);
      var k := PlaceSplits(s, m);
      assert ms == init + [m] && s == s[..k] + s[k..];
      CountAppend(init, [m], name);
      CountAppend(s[..k], s[k..], name);
      CountAppend(s[..k] + [m], s[k..], name);
      CountAppend(s[..k], [m], name);
    }
  }

  /** One member for each pair of neighbours with one name. */
  function Repeats(v: seq<Member>): seq<Member> {
    if |v| <= 1 then []
    else Repeats(v[..|v| - 1]) + if v[|v| - 2].name == v[|v| - 1].name then [v[|v| - 2]] else []
  }

  /** dups holds what must go: one member fewer of each name than there are. */
  ghost predicate ToGo(dups: seq<Member>, ms: seq<Member>) {
    forall name :: Count(dups, name) == if Count(ms, name) == 0 then 0 else Count(ms, name) - 1
  }

  lemma {:induction false} RepeatsCount(v: seq<Member>, name: string)
    requires InOrder(v)
    ensures Count(Repeats(v), name) == if Count(v, name) == 0 then 0 else Count(v, name) - 1
  {
    if |v| == 1 {
      CountOne(v[0], name);
    } else if |v| > 1 {
      var init, m, n := v[..|v| - 1], v[|v| - 1], v[|v| - 2];
      RepeatsCount(init, name);
      assert v == init + [m];
      CountAppend(init, [m], name);
      CountOne(m, name);
      CountOne(n, name);
      CountAppend(Repeats(init), if n.name == m.name then [n] else [], name);
      CountHas(init, name);
      if name == m.name && HasName(init, name) {
        var i :| 0 <= i < |init| && init[i].name == name;
        assert v[i].name == name && !Less(n.name, v[i].name) && !Less(m.name, n.name) by {
          if i == |v| - 2 {
            LessIrreflexive(name);
          }
        }
        LessTotal(n.name, m.name);
      } else if name == m.name {
        assert init[|v| - 2] == n;
      }
    }
  }

  lemma LessIrreflexive(s: string)
    ensures !Less(s, s)
  {
    if Less(s, s) {
      LessAsymmetric(s, s);
    }
  }

  // ---- The algorithm ------------------------------------------------------------------

  /** The members to be dropped, found by sorting and comparing neighbours. */
  method FindDups(ms: seq<Member>) returns (dups: seq<Member>)
    ensures ToGo(dups, ms)
  {
    var v := StableSort(ms);
    dups := [];
    var begin := 1;
    while begin < |v|
      invariant |v| > 0 ==> 1 <= begin <= |v| && dups == Repeats(v[..begin])
      invariant |v| == 0 ==> dups == []
    {
      if v[begin - 1].name == v[begin].name {
        dups := dups + [v[begin - 1]];
      }
      assert v[..begin + 1][..begin] == v[..begin];
      begin := begin + 1;
    }
    assert |v| > 0 ==> v[..begin] == v;
    StableSortKeepsMap(ms);
    forall name
      ensures Count(dups, name) == if Count(ms, name) == 0 then 0 else Count(ms, name) - 1
    {
      RepeatsCount(v, name);
      CountSorted(ms, name);
    }
  }

  /** Takes one member of the given name out of dups, if there is one. */
  method TakeDup(dups: seq<Member>, name: string) returns (rest: seq<Member>, found: bool)
    ensures found <==> HasName(dups, name)
    ensures !found ==> rest == dups
    ensures found ==> forall k :: Count(rest, k) == Count(dups, k) - if k == name then 1 else 0
  {
    rest, found := dups, false;
    var q := 0;
    while q < |dups|
      invariant q <= |dups| && forall i :: 0 <= i < q ==> dups[i].name != name
    {
      if dups[q].name == name {
        rest, found := dups[..q] + dups[q + 1..], true;
        forall k
          ensures Count(rest, k) == Count(dups, k) - if k == name then 1 else 0
        {
          assert dups == dups[..q] + ([dups[q]] + dups[q + 1..]);
          CountAppend(dups[..q], [dups[q]] + dups[q + 1..], k);
          CountAppend([dups[q]], dups[q + 1..], k);
          CountAppend(dups[..q], dups[q + 1..], k);
          CountOne(dups[q], k);
        }
        return;
      }
      q := q + 1;
    }
  }

  /** Moves the members after p one place down. */
  method ShiftDown(a: array<Member>, p: nat, it: nat)
    requires p <= it < a.Length
    modifies a
    ensures a[..it] == old(a[..p] + a[p + 1..it + 1])
  {
    var r := p;
    while r < it
      invariant p <= r <= it
      invariant forall k :: 0 <= k < p ==> a[k] == old(a[k])
      invariant forall k :: p <= k < r ==> a[k] == old(a[k + 1])
      invariant forall k :: r <= k < a.Length ==> a[k] == old(a[k])
    {
      a[r] := a[r + 1];
      r := r + 1;
    }
  }

  /** Removing a member whose name comes again changes nothing of what is kept. */
  lemma {:induction false} RemoveEarlier(x: seq<Member>, m: Member, y: seq<Member>)
    requires HasName(y, m.name)
    ensures LastOnly(x + [m] + y) == LastOnly(x + y)
  {
    if x == [] {
      assert [] + [m] + y == [m] + y && ([m] + y)[1..] == y && [] + y == y;
    } else {
      RemoveEarlier(x[1..], m, y);
      var with, without := x + [m] + y, x + y;
      assert with[1..] == x[1..] + [m] + y && without[1..] == x[1..] + y;
      HasNameAppend(x[1..] + [m], y, x[0].name);
      HasNameAppend(x[1..], [m], x[0].name);
      HasNameAppend(x[1..], y, x[0].name);
      if HasName([m], x[0].name) {
        assert m.name == x[0].name;
      }
    }
  }

  lemma {:induction false} DistinctStays(ms: seq<Member>)
    requires Distinct(ms)
    ensures LastOnly(ms) == ms
  {
    if ms != [] {
      assert IsLast(ms, 0);
      forall i | 0 <= i < |ms[1..]|
        ensures IsLast(ms[1..], i)
      {
        assert IsLast(ms, i + 1) && ms[1..][i + 1..] == ms[i + 2..];
      }
      DistinctStays(ms[1..]);
    }
  }

  /** The first member of a stretch goes if and only if its name comes again in it. */
  lemma GoesOrStays(dups: seq<Member>, s: seq<Member>, rest: seq<Member>, dup: bool)
    requires ToGo(dups, s) && s != [] && (dup <==> HasName(dups, s[0].name))
    requires if dup then forall k :: Count(rest, k) == Count(dups, k) - (if k == s[0].name then 1 else 0) else rest == dups
    ensures dup <==> HasName(s[1..], s[0].name)
    ensures ToGo(rest, s[1..])
  {
    CountHas(dups, s[0].name);
    CountHas(s[1..], s[0].name);
    forall k
      ensures Count(rest, k) == if Count(s[1..], k) == 0 then 0 else Count(s[1..], k) - 1
    {
      assert Count(dups, k) == if Count(s, k) == 0 then 0 else Count(s, k) - 1;
    }
  }

  lemma NothingLeft(ms: seq<Member>)
    requires ms == []
    ensures LastOnly(ms) == []
  {
  }

  /** The members before p do not come again. */
  predicate LastTo(ms: seq<Member>, p: nat) {
    p <= |ms| && forall i :: 0 <= i < p ==> IsLast(ms, i)
  }

  lemma NoneYet(ms: seq<Member>)
    ensures LastTo(ms, 0)
  {
  }

  lemma OneMoreLast(ms: seq<Member>, p: nat)
    requires LastTo(ms, p) && p < |ms| && !HasName(ms[p + 1..], ms[p].name)
    ensures LastTo(ms, p + 1)
  {
  }

  lemma AllLast(ms: seq<Member>)
    requires LastTo(ms, |ms|)
    ensures Distinct(ms)
  {
  }

  /** last_wins_unique_sequence: the kept members at the front of the array, and their number. */
  method LastWinsUnique(a: array<Member>) returns (it: nat)
    modifies a
    ensures it <= a.Length && a[..it] == LastOnly(old(a[..]))
  {
    hide LastOnly;
    hide HasName;
    hide Count;
    hide Distinct;
    hide ToGo;
    hide LastTo;
    ghost var all := a[..];
    if a.Length == 0 {
      NothingLeft(all);
      return 0;
    }
    var dups := FindDups(a[..]);
    if |dups| == 0 {
      NoneToGo(all);
      return a.Length;
    }
    it := a.Length;
    var p := 0;
    assert a[..it] == all && a[p..it] == all;
    NoneYet(all);
    while p != a.Length && p != it
      invariant 0 <= p <= it <= a.Length
      invariant LastOnly(a[..it]) == LastOnly(all)
      invariant ToGo(dups, a[p..it])
      invariant LastTo(a[..it], p)
      decreases it - p
    {
      ghost var before := a[..it];
      Ahead(before, p);
      assert a[p..it] == before[p..] && before[p] == a[p];
      var rest, dup := TakeDup(dups, a[p].name);
      GoesOrStays(dups, before[p..], rest, dup);
      if dup {
        it := it - 1;
        ShiftDown(a, p, it);
        Dropped(before, p, a[..it]);
        assert a[p..it] == a[..it][p..];
        dups := rest;
      } else {
        OneMoreLast(before, p);
        p := p + 1;
        assert a[p..it] == before[p..];
      }
    }
    AllLast(a[..it]);
    DistinctStays(a[..it]);
  }

  lemma Ahead(ms: seq<Member>, p: nat)
    requires p < |ms|
    ensures ms[p..] != [] && ms[p..][0] == ms[p] && ms[p..][1..] == ms[p + 1..]
  {
  }

  /** A member that comes again makes no difference to what is last. */
  lemma Dropped(ms: seq<Member>, p: nat, after: seq<Member>)
    requires LastTo(ms, p) && p < |ms| && HasName(ms[p + 1..], ms[p].name) && after == ms[..p] + ms[p + 1..]
    ensures LastOnly(after) == LastOnly(ms) && LastTo(after, p) && after[p..] == ms[p + 1..]
  {
    hide LastOnly;
    hide HasName;
    assert ms == ms[..p] + [ms[p]] + ms[p + 1..];
    RemoveEarlier(ms[..p], ms[p], ms[p + 1..]);
    StillLast(ms, p, ms[p], ms[p + 1..]);
  }

  /** Members before p that are last stay last when the one at p goes. */
  lemma StillLast(ms: seq<Member>, p: nat, m: Member, y: seq<Member>)
    requires p < |ms| && ms == ms[..p] + [m] + y
    requires LastTo(ms, p)
    ensures LastTo(ms[..p] + y, p)
  {
    forall i | 0 <= i < p
      ensures IsLast(ms[..p] + y, i)
    {
      var r := ms[..p] + y;
      assert IsLast(ms, i) && r[i + 1..] == ms[i + 1..p] + y && ms[i + 1..] == ms[i + 1..p] + [m] + y;
      HasNameAppend(ms[i + 1..p], y, ms[i].name);
      HasNameAppend(ms[i + 1..p] + [m], y, ms[i].name);
      HasNameAppend(ms[i + 1..p], [m], ms[i].name);
    }
  }

  lemma NoneToGo(ms: seq<Member>)
    requires ToGo([], ms)
    ensures LastOnly(ms) == ms
  {
    forall i | 0 <= i < |ms|
      ensures IsLast(ms, i)
    {
      var name := ms[i].name;
      assert ms == ms[..i] + ([ms[i]] + ms[i + 1..]);
      CountAppend(ms[..i], [ms[i]] + ms[i + 1..], name);
      CountAppend([ms[i]], ms[i + 1..], name);
      CountOne(ms[i], name);
      CountHas(ms[i + 1..], name);
      assert Count([], name) == 0;
    }
    DistinctStays(ms);
  }

  /** The storage that keeps the order of its members. */
  class OrderedObject {
    var members: seq<Member>

    ghost predicate Valid()
      reads this
    {
      Distinct(members)
    }

    constructor ()
      ensures Valid() && members == []
    {
      members := [];
    }

    /** The position of a name, or the end. */
    method Find(name: string) returns (pos: nat)
      requires Valid()
      ensures pos <= |members| && (pos < |members| <==> name in MapOf(members))
      ensures pos < |members| ==> members[pos].name == name && members[pos].value == MapOf(members)[name]
    {
      MapKeys(members, name);
      pos := 0;
      while pos < |members|
        invariant pos <= |members| && forall i :: 0 <= i < pos ==> members[i].name != name
      {
        if members[pos].name == name {
          assert IsLast(members, pos);
          MapAt(members, pos);
          return;
        }
        pos := pos + 1;
      }
    }

    /** The bulk insert: append, and keep the last of each name. */
    method Insert(items: seq<Member>)
      modifies this
      ensures Valid() && members == LastOnly(old(members) + items)
    {
      var all := members + items;
      var a := new Member[|all|](i requires 0 <= i < |all| => all[i]);
      assert a[..] == all;
      var end := LastWinsUnique(a);
      members := a[..end];
      LastOnlyDistinct(all);
    }
  }

  lemma {:induction false} LastOnlyDistinct(ms: seq<Member>)
    ensures Distinct(LastOnly(ms))
  {
    if ms != [] {
      var rest := ms[1..];
      var r, t := LastOnly(ms), LastOnly(rest);
      LastOnlyDistinct(rest);
      LastOnlyNames(rest, ms[0].name);
      if !HasName(rest, ms[0].name) {
        forall i | 0 <= i < |r|
          ensures IsLast(r, i)
        {
          if i > 0 {
            assert IsLast(t, i - 1) && t[i..] == r[i + 1..];
          } else {
            assert r[1..] == t;
          }
        }
      }
    }
  }
}
