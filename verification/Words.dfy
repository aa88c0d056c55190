/**
 Little-endian sequences of 64-bit words and the natural numbers they denote.
 The words of a bignum (its data_ and length_) are such a sequence.
 */
module Words {

  type Word = w: int | 0 <= w < 0x1_0000_0000_0000_0000

  /** A uint64_t result: arithmetic wraps modulo 2^64. */
  function Wrap(n: int): Word {
    n % 0x1_0000_0000_0000_0000
  }

  /** High and low half word, and a half word moved to the high half. */
  function High(w: int): int { w / 0x1_0000_0000 }
  function Low(w: int): int { w % 0x1_0000_0000 }
  function Shifted(w: int): int { (w * 0x1_0000_0000) % 0x1_0000_0000_0000_0000 }

  /** The number held by two words. */
  function Double(hi: int, lo: int): int { hi * 0x1_0000_0000_0000_0000 + lo }

  /** 2^64 to the k. */
  function Pow(k: nat): (p: int)
    ensures p >= 1
  {
    if k == 0 then 1 else 0x1_0000_0000_0000_0000 * Pow(k - 1)
  }

  /** The number denoted by the words of s, least significant word first. */
  function Mag(s: seq<Word>): (m: int)
    ensures m >= 0
  {
    if s == [] then 0 else s[0] + 0x1_0000_0000_0000_0000 * Mag(s[1..])
  }

  predicate Canonical(s: seq<Word>) {
    s == [] || s[|s| - 1] != 0
  }

  function Zeros(n: nat): (s: seq<Word>)
    ensures |s| == n
    ensures forall i :: 0 <= i < n ==> s[i] == 0
  {
    seq(n, _ => 0)
  }

  /** data_[i] = w. */
  function SetWord(data: seq<Word>, i: nat, w: Word): (r: seq<Word>)
    requires i < |data|
    ensures |r| == |data| && r[i] == w && r[..i] == data[..i]
    ensures forall k :: 0 <= k < |data| && k != i ==> r[k] == data[k]
  {
    data[i := w]
  }

  lemma MulMonotone(a: int, b: int, c: int)
    requires a <= b && 0 <= c
    ensures a * c <= b * c
  {
  }

  lemma MulSucc(q: int, d: int)
    ensures (q + 1) * d == q * d + d
  {
  }

  lemma QuotientUnique(n: nat, q: nat, r: nat, d: nat)
    requires n == q * d + r && r < d
    ensures n / d == q && n % d == r
  {
    var k := n / d;
    if k < q {
      MulMonotone(k + 1, q, d); MulSucc(k, d);
      assert false;
    } else if q < k {
      MulMonotone(q + 1, k, d); MulSucc(q, d);
      assert false;
    }
  }

  lemma Distribute(x: int, h: int, y: int, d: int)
    ensures (x * h + y) * d == x * d * h + y * d
  {
    assert (x * h + y) * d == x * h * d + y * d;
  }

  lemma MulNonNegative(a: int, b: int)
    requires 0 <= a && 0 <= b
    ensures 0 <= a * b
  {
  }

  lemma ProductBelow(a: nat, p: nat, b: nat, q: nat)
    requires a < p && b < q
    ensures 0 <= a * b < p * q
  {
    MulMonotone(a, p, b);
    MulMonotone(b + 1, q, p);
    MulSucc(b, p);
    MulNonNegative(a, b);
  }

  lemma MulAssoc(a: int, b: int, c: int)
    ensures (a * b) * c == a * (b * c)
  {
  }

  lemma {:induction false} PowAdd(i: nat, j: nat)
    ensures Pow(i + j) == Pow(i) * Pow(j)
  {
    if i != 0 {
      PowAdd(i - 1, j);
      MulAssoc(0x1_0000_0000_0000_0000, Pow(i - 1), Pow(j));
    }
  }

  lemma {:induction false} MagAppend(s: seq<Word>, t: seq<Word>)
    ensures Mag(s + t) == Mag(s) + Pow(|s|) * Mag(t)
  {
    if s == [] {
      assert s + t == t;
    } else {
      assert (s + t)[1..] == s[1..] + t;
      MagAppend(s[1..], t);
      MulAssoc(0x1_0000_0000_0000_0000, Pow(|s| - 1), Mag(t));
    }
  }

  lemma MagSingle(w: Word)
    ensures Mag([w]) == w
  {
    assert [w][1..] == [];
  }

  lemma MagCons(w: Word, s: seq<Word>)
    ensures Mag([w] + s) == w + 0x1_0000_0000_0000_0000 * Mag(s)
  {
    assert ([w] + s)[1..] == s;
  }

  lemma MagTail(s: seq<Word>, i: nat)
    requires i < |s|
    ensures Mag(s[i..]) == s[i] + 0x1_0000_0000_0000_0000 * Mag(s[i + 1..])
  {
    assert s[i..] == [s[i]] + s[i + 1..];
    MagCons(s[i], s[i + 1..]);
  }

  /** One more word on the left part of a split. */
  lemma MagPrefix(s: seq<Word>, i: nat)
    requires i < |s|
    ensures Mag(s[..i + 1]) == Mag(s[..i]) + s[i] * Pow(i)
  {
    assert s[..i + 1] == s[..i] + [s[i]];
    MagAppend(s[..i], [s[i]]);
    MagSingle(s[i]);
  }

  lemma MagSplit(s: seq<Word>, i: nat)
    requires i <= |s|
    ensures Mag(s) == Mag(s[..i]) + Pow(i) * Mag(s[i..])
  {
    assert s == s[..i] + s[i..];
    MagAppend(s[..i], s[i..]);
  }

  lemma {:induction false} MagBound(s: seq<Word>)
    ensures Mag(s) < Pow(|s|)
  {
    if s != [] {
      MagBound(s[1..]);
    }
  }

  lemma {:induction false} MagZeros(s: seq<Word>)
    requires forall i :: 0 <= i < |s| ==> s[i] == 0
    ensures Mag(s) == 0
  {
    if s != [] {
      MagZeros(s[1..]);
    }
  }

  lemma MagZeroExtend(s: seq<Word>, n: nat)
    ensures Mag(s + Zeros(n)) == Mag(s)
  {
    MagAppend(s, Zeros(n));
    MagZeros(Zeros(n));
  }

  lemma MagLower(s: seq<Word>)
    requires s != [] && Canonical(s)
    ensures Mag(s) >= Pow(|s| - 1)
  {
    var n := |s| - 1;
    MagPrefix(s, n);
    assert s[..n + 1] == s;
    MulMonotone(1, s[n], Pow(n));
  }

  lemma {:induction false} PowMonotone(i: nat, j: nat)
    requires i <= j
    ensures Pow(i) <= Pow(j)
  {
    if i < j {
      PowMonotone(i, j - 1);
    }
  }

  /** A number has one representation of a given length. */
  lemma {:induction false} MagInjective(s: seq<Word>, t: seq<Word>)
    requires |s| == |t| && Mag(s) == Mag(t)
    ensures s == t
  {
    if s != [] {
      assert s[0] == t[0] && Mag(s[1..]) == Mag(t[1..]);
      MagInjective(s[1..], t[1..]);
      assert s == [s[0]] + s[1..] && t == [t[0]] + t[1..];
    }
  }

  /** A number has one canonical representation. */
  lemma {:induction false} CanonicalUnique(s: seq<Word>, t: seq<Word>)
    requires Canonical(s) && Canonical(t) && Mag(s) == Mag(t)
    ensures s == t
  {
    if |s| < |t| {
      MagBound(s); MagLower(t); PowMonotone(|s|, |t| - 1);
      assert false;
    } else if |t| < |s| {
      MagBound(t); MagLower(s); PowMonotone(|t|, |s| - 1);
      assert false;
    }
    MagInjective(s, t);
  }

  /** The highest word in which two numbers of one length differ decides their order. */
  lemma MagOrder(s: seq<Word>, t: seq<Word>, i: nat)
    requires i < |s| == |t| && s[i] < t[i] && s[i + 1..] == t[i + 1..]
    ensures Mag(s) < Mag(t)
  {
    MagSplit(s, i + 1);
    MagSplit(t, i + 1);
    MagPrefix(s, i);
    MagPrefix(t, i);
    MagBound(s[..i]);
    HigherDigit(s[i], t[i], Pow(i), Mag(s[..i]));
  }

  lemma HigherDigit(x: int, y: int, p: int, low: int)
    requires x < y && low < p && 0 <= p
    ensures low + x * p < y * p
  {
    MulMonotone(x + 1, y, p);
    MulSucc(x, p);
  }

  lemma LongerIsLarger(s: seq<Word>, t: seq<Word>)
    requires |s| < |t| && Canonical(t)
    ensures Mag(s) < Mag(t)
  {
    MagBound(s);
    MagLower(t);
    PowMonotone(|s|, |t| - 1);
  }

  /** The i low words of s are the sum of the i low words of xs and ys, up to a carry of c. */
  ghost predicate IsSum(s: seq<Word>, xs: seq<Word>, ys: seq<Word>, i: nat, c: int)
    requires i <= |s| && i <= |xs| && i <= |ys|
  {
    Mag(s[..i]) + c * Pow(i) == Mag(xs[..i]) + Mag(ys[..i])
  }

  lemma IsSumStep(s: seq<Word>, xs: seq<Word>, ys: seq<Word>, i: nat, c: int, c': int)
    requires i < |s| && i < |xs| && i < |ys|
    requires IsSum(s, xs, ys, i, c)
    requires s[i] + c' * 0x1_0000_0000_0000_0000 == xs[i] + ys[i] + c
    ensures IsSum(s, xs, ys, i + 1, c')
  {
    MagPrefix(s, i);
    MagPrefix(xs, i);
    MagPrefix(ys, i);
    CarryStep(Pow(i), Mag(s[..i]), Mag(xs[..i]), Mag(ys[..i]), xs[i], ys[i], c, s[i], c');
  }

  lemma CarryStep(p: int, low: int, lx: int, ly: int, x: int, y: int, c: int, w: int, c': int)
    requires low + c * p == lx + ly
    requires w + c' * 0x1_0000_0000_0000_0000 == x + y + c
    ensures low + w * p + c' * (0x1_0000_0000_0000_0000 * p) == lx + x * p + (ly + y * p)
  {
    assert (w + c' * 0x1_0000_0000_0000_0000) * p == w * p + c' * (0x1_0000_0000_0000_0000 * p);
    assert (x + y + c) * p == x * p + y * p + c * p;
  }

  lemma IsSumWhole(s: seq<Word>, xs: seq<Word>, ys: seq<Word>, c: int)
    requires |s| == |xs| == |ys| && IsSum(s, xs, ys, |s|, c)
    ensures Mag(s) + c * Pow(|s|) == Mag(xs) + Mag(ys)
  {
    assert s[..|s|] == s;
    assert xs[..|s|] == xs;
    assert ys[..|s|] == ys;
  }

  lemma NoCarry(c: nat, p: int, low: nat, total: int)
    requires 0 <= p && low + c * p == total < p
    ensures c == 0 && low == total
  {
    if c >= 1 {
      MulMonotone(1, c, p);
      assert false;
    }
  }

  /** A sum below the weight of the next word leaves no carry. */
  lemma SumEnds(s: seq<Word>, xs: seq<Word>, ys: seq<Word>, c: int)
    requires |s| == |xs| == |ys| && 0 <= c && IsSum(s, xs, ys, |s|, c)
    requires Mag(xs) + Mag(ys) < Pow(|s|)
    ensures c == 0 && Mag(s) == Mag(xs) + Mag(ys)
  {
    var n := |s|;
    IsSumWhole(s, xs, ys, c);
    NoCarry(c, Pow(n), Mag(s), Mag(xs) + Mag(ys));
  }

  /** A summand with a zero top word is below half the weight of the next word. */
  lemma HeadRoom(xs: seq<Word>)
    requires xs != [] && xs[|xs| - 1] == 0
    ensures 2 * Mag(xs) < Pow(|xs|)
  {
    var n := |xs| - 1;
    MagPrefix(xs, n);
    assert xs[..n + 1] == xs;
    MagBound(xs[..n]);
  }

  /** From place i on, a sum without carry and with nothing to add is the first summand. */
  lemma SumStops(s: seq<Word>, xs: seq<Word>, ys: seq<Word>, i: nat)
    requires i <= |s| == |xs| == |ys| && IsSum(s, xs, ys, i, 0)
    requires forall k :: i <= k < |s| ==> s[k] == xs[k] && ys[k] == 0
    ensures Mag(s) == Mag(xs) + Mag(ys)
  {
    assert s[i..] == xs[i..];
    MagSplit(s, i);
    MagSplit(xs, i);
    SplitZeros(ys, i);
  }

  lemma SplitZeros(ys: seq<Word>, i: nat)
    requires i <= |ys| && forall k :: i <= k < |ys| ==> ys[k] == 0
    ensures Mag(ys) == Mag(ys[..i])
  {
    var top := ys[i..];
    MagZeros(top);
    MagSplit(ys, i);
  }

  /** A difference of numbers in order leaves no borrow. */
  lemma DifferenceEnds(x: seq<Word>, data: seq<Word>, ys: seq<Word>, borrow: int)
    requires |x| == |data| == |ys| && 0 <= borrow && IsSum(x, data, ys, |x|, borrow)
    requires Mag(ys) <= Mag(x)
    ensures Mag(x) == Mag(data) + Mag(ys)
  {
    var n := |x|;
    IsSumWhole(x, data, ys, borrow);
    MagBound(data);
    NoCarry(borrow, Pow(n), Mag(x) - Mag(ys), Mag(data));
  }

  /** A number splits in one way at a place. */
  lemma SplitUnique(s: seq<Word>, n: nat, top: nat, low: nat)
    requires |s| == n + 1 && low < Pow(n) && Mag(s) == low + top * Pow(n)
    ensures s[n] == top && Mag(s[..n]) == low
  {
    MagPrefix(s, n);
    assert s[..n + 1] == s;
    MagBound(s[..n]);
    DigitUnique(Mag(s[..n]), s[n], low, top, Pow(n));
  }

  lemma DigitUnique(l1: nat, t1: nat, l2: nat, t2: nat, p: nat)
    requires l1 < p && l2 < p && l1 + t1 * p == l2 + t2 * p
    ensures l1 == l2 && t1 == t2
  {
    if t1 < t2 {
      HigherDigit(t1, t2, p, l1);
      assert false;
    } else if t2 < t1 {
      HigherDigit(t2, t1, p, l2);
      assert false;
    }
  }

  /** The loop of reduce: leading zero words are dropped. */
  method Trim(data: seq<Word>) returns (r: seq<Word>)
    ensures Canonical(r) && Mag(r) == Mag(data) && |r| <= |data|
    ensures Canonical(data) ==> r == data
  {
    var n := |data|;
    assert data[..n] == data;
    while n > 0 && data[n - 1] == 0
      invariant 0 <= n <= |data|
      invariant Mag(data[..n]) == Mag(data)
      invariant Canonical(data) ==> n == |data|
    {
      n := n - 1;
      MagPrefix(data, n);
    }
    r := data[..n];
  }
}
