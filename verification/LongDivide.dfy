/** The main loop of the bignum's long division, for divisors of any length. */
module LongDivision {
  import opened Words
  import opened Divide

  /**
   The remainder of the dividend's words from place j on has the divisor's top word in the
   place of its own. l is the place of the divisor's top word.
   */
  predicate TieAt(m: nat, d: nat, l: nat, j: nat)
    requires d > 0
  {
    (Upper(m, j) % d) / Pow(l) == d / Pow(l)
  }

  /** What the words from place j on denote. */
  function Upper(m: nat, j: nat): nat {
    QuotientAtLeast(m, Pow(j), 0);
    m / Pow(j)
  }

  /** In some round of the division of m by d the top words tie. */
  ghost predicate Ties(m: nat, d: nat, l: nat)
    requires d > 0
  {
    exists j :: j > 0 && TieAt(m, d, l, j)
  }

  /** A divisor of one word never ties. */
  lemma OneWordNeverTies(m: nat, d: nat)
    requires d > 0
    ensures !Ties(m, d, 0)
  {
    forall j | j > 0
      ensures !TieAt(m, d, 0, j)
    {
      OneWordRemainder(Upper(m, j), d);
    }
  }

  lemma OneWordRemainder(m: nat, d: nat)
    requires d > 0
    ensures (m % d) / Pow(0) != d / Pow(0)
  {
    RemainderBelow(m, d);
    QuotientUnique(m % d, m % d, 0, 1);
    QuotientUnique(d, d, 0, 1);
  }

  lemma RemainderBelow(m: nat, d: nat)
    requires d > 0
    ensures m % d < d && m % d <= m
  {
  }

  /** The quotient by the top place is the top word, with only zeros above it. */
  lemma TopIs(s: seq<Word>, l: nat)
    requires l < |s| && forall i :: l < i < |s| ==> s[i] == 0
    ensures Mag(s) / Pow(l) == s[l]
  {
    var rest := s[l..];
    MagSplit(s, l);
    SplitZeros(rest, 1);
    assert rest[..1] == [s[l]];
    MagSingle(s[l]);
    MagBound(s[..l]);
    TopQuotient(Mag(s), s[l], Mag(s[..l]), Pow(l));
  }

  lemma TopQuotient(m: nat, top: nat, low: nat, p: nat)
    requires m == low + p * top && low < p
    ensures m / p == top
  {
    QuotientUnique(m, top, low, p);
  }

  function Times(a: int, b: int): int { a * b }

  /** No place above a given one ties. */
  ghost predicate TieFree(m: nat, d: nat, l: nat, above: int)
    requires d > 0
  {
    forall j: nat :: j > above ==> !TieAt(m, d, l, j)
  }

  /**
   Before the round at place k: all places above k of the remainder are zero, so are the
   quotient's below k - l, and what the places from k - l on hold is below the divisor.
   */
  ghost predicate InStep(rem: seq<Word>, quot: seq<Word>, denom: seq<Word>, k: nat, total: nat) {
    var l := |denom| - 1;
    && 0 <= l <= k < |rem| == |quot| + l + 1
    && (forall i :: k < i < |rem| ==> rem[i] == 0)
    && (forall i :: 0 <= i < k - l ==> quot[i] == 0)
    && Mag(rem) + Times(Mag(quot), Mag(denom)) == total
    && Mag(rem[k - l..]) < Mag(denom)
  }

  /** What the upper places of the remainder hold is the remainder of the dividend's upper places. */
  lemma UpperRemainder(rem: seq<Word>, quot: seq<Word>, denom: seq<Word>, k: nat, total: nat)
    requires InStep(rem, quot, denom, k, total)
    ensures var j := k - (|denom| - 1);
            Mag(denom) > 0 && Upper(total, j) % Mag(denom) == Mag(rem[j..])
  {
    var j := k - (|denom| - 1);
    hide Mag;
    hide Pow;
    hide Times;
    MagSplit(rem, j);
    MagSplit(quot, j);
    MagZeros(quot[..j]);
    MagBound(rem[..j]);
    UpperStep(total, Pow(j), Mag(rem[..j]), Mag(rem[j..]), Mag(rem), Mag(quot[j..]), Mag(quot), Mag(denom));
  }

  lemma UpperStep(m: nat, p: nat, low: nat, r: nat, rem: nat, q: nat, quot: nat, d: nat)
    requires low < p && r < d && rem == low + p * r && quot == p * q && rem + Times(quot, d) == m
    ensures (m / p) % d == r
  {
    assert (p * q) * d == p * (q * d);
    assert p * r + p * (q * d) == p * (r + q * d);
    TopQuotient(m, r + q * d, low, p);
    QuotientUnique(r + q * d, q, r, d);
  }

  /** The top words tie in a round if and only if the arithmetic says so. */
  lemma TieShows(rem: seq<Word>, quot: seq<Word>, denom: seq<Word>, k: nat, total: nat)
    requires InStep(rem, quot, denom, k, total)
    ensures Mag(denom) > 0
    ensures TieAt(total, Mag(denom), |denom| - 1, k - (|denom| - 1)) <==> rem[k] == denom[|denom| - 1]
  {
    var l := |denom| - 1;
    UpperRemainder(rem, quot, denom, k, total);
    TopIs(denom, l);
    TopIs(rem[k - l..], l);
  }

  /** The words a round works on are below 2^64 divisors. */
  lemma WindowBelow(rem: seq<Word>, quot: seq<Word>, denom: seq<Word>, k: nat, total: nat)
    requires InStep(rem, quot, denom, k, total) && k > |denom| - 1
    ensures var w := rem[k - |denom|..k + 1];
            Mag(w) == rem[k - |denom|] + 0x1_0000_0000_0000_0000 * Mag(rem[k - |denom| + 1..]) < Mag(denom) * 0x1_0000_0000_0000_0000
  {
    var l := |denom| - 1;
    var w, upper := rem[k - l - 1..k + 1], rem[k - l..];
    SplitZeros(upper, l + 1);
    assert upper[..l + 1] == w[1..];
  }

  /** What a round makes of remainder and quotient. */
  function RemAfter(rem: seq<Word>, off: nat, w: seq<Word>): (r: seq<Word>)
    requires off + |w| <= |rem|
    ensures |r| == |rem|
  {
    rem[..off] + w + rem[off + |w|..]
  }

  lemma GoodRound(rem: seq<Word>, quot: seq<Word>, denom: seq<Word>, k: nat, total: nat, w: seq<Word>, q: Word)
    requires InStep(rem, quot, denom, k, total) && k > |denom| - 1 && |w| == |denom| + 1
    requires Mag(w) == Mag(rem[k - |denom|..k + 1]) - Mag(denom) * q && Mag(w) < Mag(denom)
    ensures InStep(RemAfter(rem, k - |denom|, w), SetWord(quot, k - |denom|, q), denom, k - 1, total)
  {
    hide Mag;
    hide Pow;
    TopZero(w, denom);
    ZerosAbove(rem, k, w);
    TotalKept(rem, quot, denom, k, total, w, q);
  }

  lemma TotalKept(rem: seq<Word>, quot: seq<Word>, denom: seq<Word>, k: nat, total: nat, w: seq<Word>, q: Word)
    requires InStep(rem, quot, denom, k, total) && k > |denom| - 1 && |w| == |denom| + 1
    requires Mag(w) == Mag(rem[k - |denom|..k + 1]) - Mag(denom) * q
    ensures Mag(RemAfter(rem, k - |denom|, w)) + Times(Mag(SetWord(quot, k - |denom|, q)), Mag(denom)) == total
  {
    hide Mag;
    hide Pow;
    var off := k - |denom|;
    var rem', quot' := RemAfter(rem, off, w), SetWord(quot, off, q);
    ReplaceWindow(rem, off, w);
    ReplaceZero(quot, off, q);
    assert off + |w| == k + 1;
    DigitMoves(Pow(off), Mag(denom), q, Mag(rem), Mag(rem'), Mag(quot), Mag(quot'), total,
               Mag(rem[off..k + 1]), Mag(w));
  }

  lemma ZerosAbove(rem: seq<Word>, k: nat, w: seq<Word>)
    requires 2 <= |w| <= k + 1 <= |rem| && w[|w| - 1] == 0 && forall i :: k < i < |rem| ==> rem[i] == 0
    ensures var r := RemAfter(rem, k + 1 - |w|, w);
            (forall i :: k - 1 < i < |r| ==> r[i] == 0) && Mag(r[k + 1 - |w|..]) == Mag(w)
  {
    hide Mag;
    hide Pow;
    var off := k + 1 - |w|;
    var r := RemAfter(rem, off, w);
    assert r[k] == w[|w| - 1] && forall i :: k < i < |r| ==> r[i] == rem[i];
    SplitZeros(r[off..], |w|);
    assert r[off..][..|w|] == w;
  }

  lemma TopZero(w: seq<Word>, denom: seq<Word>)
    requires |w| == |denom| + 1 && Mag(w) < Mag(denom)
    ensures w[|denom|] == 0
  {
    MagPrefix(w, |denom|);
    assert w[..|denom| + 1] == w;
    MagBound(denom);
    if w[|denom|] > 0 {
      MulMonotone(1, w[|denom|], Pow(|denom|));
      assert false;
    }
  }

  /** The quotient is known from place p on, and is too small there. */
  ghost predicate FallsShort(quot: seq<Word>, p: nat, d: nat, total: nat) {
    p <= |quot| && Times(Mag(quot[p..]) + 1, Times(Pow(p), d)) <= total
  }

  /** After a tie the top word stays in the remainder, and the digit falls short by far. */
  lemma TieRound(rem: seq<Word>, quot: seq<Word>, denom: seq<Word>, k: nat, total: nat, w: seq<Word>, q: Word)
    requires InStep(rem, quot, denom, k, total) && k > |denom| - 1 && |w| == |denom| + 1 && Normalized(denom)
    requires q <= 1 && Mag(w) == Mag(rem[k - |denom|..k + 1]) - Mag(denom) * q
    requires 0xFFFF_FFFF_FFFF_FFFE * Mag(denom) <= Mag(rem[k - |denom|..k + 1])
    ensures w[|denom|] >= 1
    ensures FallsShort(SetWord(quot, k - |denom|, q), k - |denom|, Mag(denom), total)
  {
    var p := k - |denom|;
    hide Mag;
    hide Pow;
    hide FallsShort;
    TopStays(w, denom, q, Mag(rem[p..k + 1]));
    TieShort(rem, quot, denom, k, total, q);
  }

  lemma TieShort(rem: seq<Word>, quot: seq<Word>, denom: seq<Word>, k: nat, total: nat, q: Word)
    requires InStep(rem, quot, denom, k, total) && k > |denom| - 1 && q <= 1
    requires 0xFFFF_FFFF_FFFF_FFFE * Mag(denom) <= Mag(rem[k - |denom|..k + 1])
    ensures FallsShort(SetWord(quot, k - |denom|, q), k - |denom|, Mag(denom), total)
  {
    hide *;
    var low, upper, above := StepSum(rem, quot, denom, k, total, q);
    var p := k - |denom|;
    ShortStep(Pow(p), Pow(p + 1), Mag(denom), q, above, low, upper, total);
    ShortIs(SetWord(quot, p, q), p, Mag(denom), total);
  }

  /** The dividend, split at the places of a round. */
  lemma StepSum(rem: seq<Word>, quot: seq<Word>, denom: seq<Word>, k: nat, total: nat, q: Word)
    returns (low: nat, upper: nat, above: nat)
    requires InStep(rem, quot, denom, k, total) && k > |denom| - 1
    ensures k < |rem| && k - |denom| < |quot|
    ensures var p := k - |denom|;
      && Pow(p + 1) == 0x1_0000_0000_0000_0000 * Pow(p)
      && low + Times(Pow(p), upper) + Times(Times(Pow(p + 1), above), Mag(denom)) == total
      && upper == Mag(rem[p..k + 1])
      && Mag(SetWord(quot, p, q)[p..]) == q + 0x1_0000_0000_0000_0000 * above
  {
    StepParts(rem, quot, denom, k, total);
    hide *;
    var p := k - |denom|;
    QuotParts(quot, p, q);
    RemParts(rem, p, k + 1);
    low, upper, above := Mag(rem[..p]), Mag(rem[p..k + 1]), Mag(quot[p + 1..]);
  }

  lemma StepParts(rem: seq<Word>, quot: seq<Word>, denom: seq<Word>, k: nat, total: nat)
    requires InStep(rem, quot, denom, k, total) && k > |denom| - 1
    ensures k < |rem| == |quot| + |denom| && Mag(rem) + Times(Mag(quot), Mag(denom)) == total
    ensures forall i :: k < i < |rem| ==> rem[i] == 0
    ensures forall i :: 0 <= i < k - |denom| + 1 ==> quot[i] == 0
  {
  }

  lemma ShortIs(quot: seq<Word>, p: nat, d: nat, total: nat)
    requires p <= |quot| && Times(Mag(quot[p..]) + 1, Times(Pow(p), d)) <= total
    ensures FallsShort(quot, p, d, total)
  {
  }

  lemma RemParts(rem: seq<Word>, p: nat, k: nat)
    requires p <= k <= |rem| && forall i :: k <= i < |rem| ==> rem[i] == 0
    ensures Mag(rem) == Mag(rem[..p]) + Times(Pow(p), Mag(rem[p..])) && Mag(rem[p..]) == Mag(rem[p..k])
  {
    hide Mag;
    hide Pow;
    MagSplit(rem, p);
    SplitZeros(rem[p..], k - p);
    assert rem[p..][..k - p] == rem[p..k];
  }

  lemma QuotParts(quot: seq<Word>, p: nat, q: Word)
    requires p < |quot| && forall i :: 0 <= i < p + 1 ==> quot[i] == 0
    ensures Mag(SetWord(quot, p, q)[p..]) == q + 0x1_0000_0000_0000_0000 * Mag(quot[p + 1..])
    ensures Mag(quot) == Times(Pow(p + 1), Mag(quot[p + 1..])) && Pow(p + 1) == 0x1_0000_0000_0000_0000 * Pow(p)
  {
    assert Pow(p + 1) == 0x1_0000_0000_0000_0000 * Pow(p);
    hide Mag;
    hide Pow;
    var quot' := SetWord(quot, p, q);
    MagTail(quot', p);
    assert quot'[p + 1..] == quot[p + 1..];
    MagSplit(quot, p + 1);
    MagZeros(quot[..p + 1]);
  }

  lemma ShortStep(p: nat, p1: nat, d: nat, q: nat, above: nat, low: nat, upper: nat, total: nat)
    requires q <= 1 && 0xFFFF_FFFF_FFFF_FFFE * d <= upper && p1 == 0x1_0000_0000_0000_0000 * p
    requires low + Times(p, upper) + Times(Times(p1, above), d) == total
    ensures Times(q + 0x1_0000_0000_0000_0000 * above + 1, Times(p, d)) <= total
  {
    var pd := p * d;
    MulMonotone(0xFFFF_FFFF_FFFF_FFFE * d, upper, p);
    assert (0xFFFF_FFFF_FFFF_FFFE * d) * p == 0xFFFF_FFFF_FFFF_FFFE * pd;
    assert upper * p == p * upper;
    assert ((0x1_0000_0000_0000_0000 * p) * above) * d == 0x1_0000_0000_0000_0000 * (above * pd) by {
      assert (p * above) * d == above * pd;
      assert (0x1_0000_0000_0000_0000 * p) * above == 0x1_0000_0000_0000_0000 * (p * above);
    }
    assert (q + 0x1_0000_0000_0000_0000 * above + 1) * pd == (q + 1) * pd + 0x1_0000_0000_0000_0000 * (above * pd);
    MulNonNegative(p, d);
    MulMonotone(q + 1, 2, pd);
  }

  lemma TopStays(w: seq<Word>, denom: seq<Word>, q: Word, before: nat)
    requires Normalized(denom) && |w| == |denom| + 1 && q <= 1
    requires Mag(w) == before - Mag(denom) * q && 0xFFFF_FFFF_FFFF_FFFE * Mag(denom) <= before
    ensures w[|denom|] >= 1
  {
    var n := |denom|;
    assert Pow(n) == 0x1_0000_0000_0000_0000 * Pow(n - 1);
    hide Mag;
    hide Pow;
    SmallMultiple(Mag(denom), q);
    var low, p := TopWord(denom);
    MulMonotone(0x8000_0000_0000_0000, denom[n - 1], p);
    StillLarge(Mag(w), Mag(denom), p);
    if w[n] == 0 {
      SplitZeros(w, n);
      MagBound(w[..n]);
      assert false;
    }
  }

  lemma StillLarge(w: int, d: nat, p: nat)
    requires 0xFFFF_FFFF_FFFF_FFFD * d <= w && 0x8000_0000_0000_0000 * p <= d && p >= 1
    ensures w >= 0x1_0000_0000_0000_0000 * p
  {
  }

  /** One round: the words at k become one less of remainder and one of quotient. */
  method Round(quot0: seq<Word>, rem0: seq<Word>, denom: seq<Word>, k: nat, ghost total: nat)
    returns (quot: seq<Word>, rem: seq<Word>)
    requires Normalized(denom) && |denom| <= k < |rem0| == |quot0| + |denom|
    ensures |rem| == |rem0| && |quot| == |quot0|
    ensures rem[k + 1..] == rem0[k + 1..] && quot[k - |denom| + 1..] == quot0[k - |denom| + 1..]
    ensures InStep(rem0, quot0, denom, k, total) && rem0[k] < denom[|denom| - 1] ==> InStep(rem, quot, denom, k - 1, total)
    ensures InStep(rem0, quot0, denom, k, total) && rem0[k] >= denom[|denom| - 1] ==>
      rem0[k] == denom[|denom| - 1] && rem[k] >= 1 && FallsShort(quot, k - |denom|, Mag(denom), total)
  {
    var off := k - |denom|;
    var window := rem0[off..k + 1];
    var w, q := DigitStep(window, denom);
    rem := RemAfter(rem0, off, w);
    quot := SetWord(quot0, off, q);
    assert rem[k] == w[|denom|];
    if InStep(rem0, quot0, denom, k, total) {
      WindowBelow(rem0, quot0, denom, k, total);
      if rem0[k] < denom[|denom| - 1] {
        GoodRound(rem0, quot0, denom, k, total, w, q);
      } else {
        TieRound(rem0, quot0, denom, k, total, w, q);
      }
    }
  }

  /** Before the first round the upper words are below the divisor, and no place further up ties. */
  lemma FirstRound(num: seq<Word>, rem: seq<Word>, quot: seq<Word>, denom: seq<Word>)
    requires Normalized(denom) && |num| >= |denom| && |rem| == |quot| + |denom|
    requires rem == num || rem == num + [0]
    requires rem[|rem| - 1] < denom[|denom| - 1] && forall i :: 0 <= i < |quot| ==> quot[i] == 0
    ensures InStep(rem, quot, denom, |rem| - 1, Mag(num)) && Mag(denom) > 0
    ensures TieFree(Mag(num), Mag(denom), |denom| - 1, |rem| - |denom|)
  {
    hide Mag;
    hide Pow;
    MagZeroExtend(num, 1);
    assert Zeros(1) == [0];
    MagZeros(quot);
    PositiveTop(denom);
    assert Times(0, Mag(denom)) == 0;
    hide Times;
    UpperBelow(rem[|rem| - |denom|..], denom);
    FirstTies(num, rem, denom);
  }

  lemma FirstTies(num: seq<Word>, rem: seq<Word>, denom: seq<Word>)
    requires Normalized(denom) && |rem| >= |denom| && Mag(rem) == Mag(num)
    ensures Mag(denom) > 0 && TieFree(Mag(num), Mag(denom), |denom| - 1, |rem| - |denom|)
  {
    hide Mag;
    hide Pow;
    PositiveTop(denom);
    MagBound(rem);
    var m, d, l := Mag(num), Mag(denom), |denom| - 1;
    forall j: nat | j > |rem| - |denom|
      ensures !TieAt(m, d, l, j)
    {
      NoTieAbove(Mag(num), denom, |rem| - 1, j);
    }
  }

  lemma UpperBelow(s: seq<Word>, denom: seq<Word>)
    requires Normalized(denom) && |s| == |denom| && s[|s| - 1] < denom[|s| - 1]
    ensures Mag(s) < Mag(denom)
  {
    var lowS, p := TopWord(s);
    var lowD, p' := TopWord(denom);
    HigherDigit(s[|s| - 1], denom[|s| - 1], p, lowS);
  }

  lemma NoTieAbove(m: nat, denom: seq<Word>, n: nat, j: nat)
    requires Normalized(denom) && m < Pow(n + 1) && j + |denom| - 1 > n
    ensures Mag(denom) > 0 && !TieAt(m, Mag(denom), |denom| - 1, j)
  {
    var l := |denom| - 1;
    PositiveTop(denom);
    TopIs(denom, l);
    PowMonotone(n + 1, j + l);
    PowAdd(j, l);
    hide Mag;
    hide Pow;
    SmallQuotient(m, Pow(j), Pow(l));
    NoTop(Upper(m, j), Mag(denom), Pow(l));
  }

  lemma NoTop(m: nat, d: nat, p: nat)
    requires d > 0 && m < p
    ensures (m % d) / p == 0
  {
    RemainderBelow(m, d);
    QuotientUnique(m % d, 0, m % d, p);
  }

  lemma SmallQuotient(m: nat, p: nat, q: nat)
    requires p > 0 && m < p * q
    ensures m / p < q
  {
    if m / p >= q {
      MulMonotone(q, m / p, p);
      assert false;
    }
  }

  lemma ShortQuotient(quot: seq<Word>, p: nat, d: nat, total: nat)
    requires FallsShort(quot, p, d, total) && d > 0
    ensures Mag(quot) < total / d
  {
    MagSplit(quot, p);
    MagBound(quot[..p]);
    hide Mag;
    hide Pow;
    hide Times;
    ShortTotal(Mag(quot), Mag(quot[..p]), Mag(quot[p..]), Pow(p), d, total);
  }

  lemma ShortTotal(quot: nat, low: nat, high: nat, p: nat, d: nat, total: nat)
    requires quot == low + p * high && low < p && d > 0 && Times(high + 1, Times(p, d)) <= total
    ensures quot < total / d
  {
    assert (high + 1) * (p * d) == ((high + 1) * p) * d;
    assert (high + 1) * p == p * high + p;
    MulMonotone(quot + 1, (high + 1) * p, d);
    QuotientAtLeast(total, d, quot + 1);
  }

  lemma QuotientAtLeast(m: nat, d: nat, q: nat)
    requires d > 0 && q * d <= m
    ensures q <= m / d
  {
    var t := m / d;
    assert m < t * d + d;
    MulSucc(t, d);
    if t + 1 <= q {
      MulMonotone(t + 1, q, d);
      assert false;
    }
  }

  lemma LargeRemainder(rem: seq<Word>, t: nat, denom: seq<Word>)
    requires |denom| <= t < |rem| && rem[t] >= 1
    ensures Mag(rem) >= Mag(denom)
  {
    hide Mag;
    hide Pow;
    MagSplit(rem, t);
    MagTail(rem, t);
    MulMonotone(1, Mag(rem[t..]), Pow(t));
    MagBound(denom);
    PowMonotone(|denom|, t);
  }

  /**
   The main loop of divide: a digit step at each place, from the top down. Quotient and
   remainder are the true ones if no round ties; if one does, the quotient is too small
   and the remainder not below the divisor, whatever the later rounds do.
   */
  method DivideWords(num: seq<Word>, denom: seq<Word>) returns (quot: seq<Word>, rem: seq<Word>)
    requires Normalized(denom) && |num| >= |denom|
    ensures |rem| >= |denom| && Mag(denom) > 0
    ensures !Ties(Mag(num), Mag(denom), |denom| - 1) ==>
      Mag(num) == Mag(rem) + Mag(quot) * Mag(denom) && Mag(rem) < Mag(denom)
    ensures Ties(Mag(num), Mag(denom), |denom| - 1) ==>
      Mag(quot) < Mag(num) / Mag(denom) && Mag(rem) >= Mag(denom)
  {
    hide InStep;
    hide TieAt;
    hide FallsShort;
    hide Mag;
    hide Pow;
    var l, n := |denom| - 1, |num| - 1;
    quot := Zeros(n - l);
    rem := num;
    if rem[n] >= denom[l] {
      rem := rem + [0];
      n := n + 1;
      quot := quot + [0];
    }
    FirstRound(num, rem, quot, denom);
    ghost var m, d, t := Mag(num), Mag(denom), 0;
    var k := n;
    while k > l
      invariant l <= k <= n == |rem| - 1 && |quot| == n - l && (t != 0 ==> k < t)
      invariant t == 0 ==> InStep(rem, quot, denom, k, m) && TieFree(m, d, l, k - l)
      invariant t != 0 ==> l < t <= n && rem[t] >= 1 && TieAt(m, d, l, t - l) && FallsShort(quot, t - l - 1, d, m)
    {
      ghost var rem0, quot0 := rem, quot;
      quot, rem := Round(quot, rem, denom, k, m);
      if t == 0 {
        TieShows(rem0, quot0, denom, k, m);
        if rem0[k] >= denom[l] { t := k; }
      } else {
        KeptAbove(rem0, rem, k, t);
        ShortStays(quot0, quot, k - l, t - l - 1, d, m);
      }
      k := k - 1;
    }
    if t == 0 {
      Finished(rem, quot, denom, m);
    } else {
      ShortQuotient(quot, t - l - 1, d, m);
      LargeRemainder(rem, t, denom);
      assert Ties(m, d, l);
    }
  }

  lemma KeptAbove(rem: seq<Word>, rem': seq<Word>, k: nat, t: nat)
    requires k < t < |rem| == |rem'| && rem[k + 1..] == rem'[k + 1..]
    ensures rem[t] == rem'[t]
  {
    assert rem[t] == rem[k + 1..][t - k - 1] && rem'[t] == rem'[k + 1..][t - k - 1];
  }

  lemma ShortStays(quot: seq<Word>, quot': seq<Word>, k: nat, p: nat, d: nat, total: nat)
    requires FallsShort(quot, p, d, total) && k <= p <= |quot| == |quot'| && quot[k..] == quot'[k..]
    ensures FallsShort(quot', p, d, total)
  {
    assert quot[p..] == quot[k..][p - k..] && quot'[p..] == quot'[k..][p - k..];
  }

  lemma Finished(rem: seq<Word>, quot: seq<Word>, denom: seq<Word>, total: nat)
    requires denom != [] && InStep(rem, quot, denom, |denom| - 1, total)
    ensures total == Mag(rem) + Mag(quot) * Mag(denom) && Mag(rem) < Mag(denom)
  {
    assert rem[0..] == rem;
  }

  lemma {:induction false} ReplaceZero(s: seq<Word>, i: nat, w: Word)
    requires i < |s| && s[i] == 0
    ensures Mag(SetWord(s, i, w)) == Mag(s) + w * Pow(i)
  {
    var r := SetWord(s, i, w);
    if i == 0 {
      assert r[1..] == s[1..];
    } else {
      assert r[1..] == SetWord(s[1..], i - 1, w);
      ReplaceZero(s[1..], i - 1, w);
      MulAssoc(w, 0x1_0000_0000_0000_0000, Pow(i - 1));
    }
  }
}
