/** The loops of the bignum's long division, over the words of its operands. */
module Divide {
  import opened Words
  import opened DoubleWord
  import opened AddSubtract
  import opened Multiply

  /** a minus q * b, over i words of b, is in the i + 1 low words of s, up to a borrow of c. */
  ghost predicate IsReduced(s: seq<Word>, a: seq<Word>, b: seq<Word>, q: Word, i: nat, c: int)
    requires i < |s| && i < |a| && i <= |b|
  {
    Mag(s[..i + 1]) + Mag(b[..i]) * q == Mag(a[..i + 1]) + c * Pow(i + 1)
  }

  lemma ReducedStart(a: seq<Word>, b: seq<Word>, q: Word)
    requires a != []
    ensures IsReduced(a, a, b, q, 0, 0)
  {
    assert b[..0] == [];
  }

  /** The high word of a product plus two borrows fits a word when the second borrow is real. */
  lemma NoWrap(s: seq<Word>, a: seq<Word>, b: seq<Word>, q: Word, i: nat, c: int, hi: Word, lo: Word)
    requires i < |s| && i < |a| && i < |b| && 0 <= c <= 1
    requires IsReduced(s, a, b, q, i, c)
    requires Double(hi, lo) == (b[i] as int) * (q as int)
    ensures hi + c + (if s[i] < lo then 1 else 0) < 0x1_0000_0000_0000_0000
  {
    ProductBound(b[i], q);
    if hi == 0xFFFF_FFFF_FFFF_FFFE && c == 1 && s[i] < lo {
      FullProduct(b[i], q, hi, lo);
      MagPrefix(s, i);
      MagBound(s[..i]);
      MagBound(b[..i]);
      MulMonotone(Mag(b[..i]), Pow(i) - 1, q);
      assert false;
    }
  }

  /** Only the largest words have a product with the largest high word. */
  lemma FullProduct(b: Word, q: Word, hi: Word, lo: Word)
    requires Double(hi, lo) == (b as int) * (q as int) && hi == 0xFFFF_FFFF_FFFF_FFFE
    ensures b == q == 0xFFFF_FFFF_FFFF_FFFF && lo == 1
  {
    if b < 0xFFFF_FFFF_FFFF_FFFF {
      MulMonotone(b, 0xFFFF_FFFF_FFFF_FFFE, q);
      assert false;
    }
    if q < 0xFFFF_FFFF_FFFF_FFFF {
      assert false;
    }
  }

  lemma ReducedStep(s: seq<Word>, s': seq<Word>, a: seq<Word>, b: seq<Word>, q: Word, i: nat,
                    c: int, hi: Word, lo: Word, c1: int, c': int)
    requires |s| == |s'| == |a| && i + 1 < |s| && i < |b|
    requires IsReduced(s, a, b, q, i, c)
    requires Double(hi, lo) == (b[i] as int) * (q as int)
    requires s'[..i] == s[..i] && s[i + 1] == a[i + 1]
    requires s'[i] == s[i] - lo + c1 * 0x1_0000_0000_0000_0000
    requires s'[i + 1] == a[i + 1] - (hi + c + c1) + c' * 0x1_0000_0000_0000_0000
    ensures IsReduced(s', a, b, q, i + 1, c')
  {
    MagPrefix(s, i);
    MagPrefix(s', i);
    MagPrefix(s', i + 1);
    MagPrefix(a, i + 1);
    MagPrefix(b, i);
    ReduceStep(Pow(i), Mag(s[..i]), s[i], Mag(a[..i + 1]), a[i + 1], Mag(b[..i]), b[i], q, c, hi, lo, c1, c',
               s'[i], s'[i + 1]);
  }

  lemma ReduceStep(p: int, low: int, si: int, la: int, ai: int, lb: int, bi: int, q: int,
                   c: int, hi: int, lo: int, c1: int, c': int, w0: int, w1: int)
    requires low + si * p + lb * q == la + c * (0x1_0000_0000_0000_0000 * p)
    requires Double(hi, lo) == bi * q
    requires w0 == si - lo + c1 * 0x1_0000_0000_0000_0000
    requires w1 == ai - (hi + c + c1) + c' * 0x1_0000_0000_0000_0000
    ensures low + w0 * p + w1 * (0x1_0000_0000_0000_0000 * p) + (lb + bi * p) * q ==
            la + ai * (0x1_0000_0000_0000_0000 * p) + c' * (0x1_0000_0000_0000_0000 * (0x1_0000_0000_0000_0000 * p))
  {
    var bp := 0x1_0000_0000_0000_0000 * p;
    assert w0 * p == si * p - lo * p + c1 * bp;
    assert w1 * bp == ai * bp - hi * bp - c * bp - c1 * bp + c' * (0x1_0000_0000_0000_0000 * bp);
    assert (lb + bi * p) * q == lb * q + bi * q * p;
    assert Double(hi, lo) * p == hi * bp + lo * p;
  }

  method TakeOff(x: Word, lo: Word, carry: int) returns (w: Word, carry': int)
    requires 0 <= carry <= 1
    ensures w == x - lo + (carry' - carry) * 0x1_0000_0000_0000_0000
    ensures carry' == carry + (if x < lo then 1 else 0)
  {
    w := Wrap(x - lo);
    carry' := if w > x then carry + 1 else carry;
  }

  method TakeOffHigh(x: Word, hi: Word, carry: int) returns (w: Word, carry': int)
    requires 0 <= carry && hi + carry < 0x1_0000_0000_0000_0000
    ensures 0 <= carry' <= 1 && w == x - (hi + carry) + carry' * 0x1_0000_0000_0000_0000
  {
    w := Wrap(x - Wrap(hi + carry));
    carry' := if w > x then 1 else 0;
  }

  /** The first loop of subtractmul: the product taken off with borrows, each word wrapping. */
  method SubtractProduct(a0: seq<Word>, b: seq<Word>, q: Word) returns (a: seq<Word>, carry: int)
    requires |a0| == |b| + 1
    ensures |a| == |a0| && 0 <= carry <= 1
    ensures carry == 0 ==> Mag(a) + Mag(b) * q == Mag(a0)
    ensures carry == 1 ==> Mag(a) + Mag(b) * q == Mag(a0) + Pow(|a0|)
  {
    a, carry := a0, 0;
    ReducedStart(a, b, q);
    var i := 0;
    while i < |b|
      invariant 0 <= i <= |b| && |a| == |a0| && 0 <= carry <= 1
      invariant forall k :: i < k < |a| ==> a[k] == a0[k]
      invariant IsReduced(a, a0, b, q, i, carry)
    {
      var hi, lo := DDProduct(b[i], q);
      NoWrap(a, a0, b, q, i, carry, hi, lo);
      ghost var s, c := a, carry;
      var w;
      w, carry := TakeOff(a[i], lo, carry);
      ghost var c1 := carry - c;
      a := SetWord(a, i, w);
      w, carry := TakeOffHigh(a[i + 1], hi, carry);
      a := SetWord(a, i + 1, w);
      assert a[..i] == s[..i];
      ReducedStep(s, a, a0, b, q, i, c, hi, lo, c1, carry);
      i := i + 1;
    }
    assert a[..|b| + 1] == a && a0[..|b| + 1] == a0 && b[..|b|] == b;
  }

  /** The second loop of subtractmul: b added back, without its last carry. */
  method AddBack(a0: seq<Word>, b: seq<Word>) returns (a: seq<Word>, ghost carry: int)
    requires |a0| == |b| + 1
    ensures |a| == |a0| && a[|b|] == a0[|b|] && 0 <= carry <= 1
    ensures Mag(a[..|b|]) + carry * Pow(|b|) == Mag(a0[..|b|]) + Mag(b)
  {
    a := a0;
    var carry': int := 0;
    var i := 0;
    while i < |b|
      invariant 0 <= i <= |b| && |a| == |a0| && 0 <= carry' <= 1
      invariant forall k :: i <= k < |a| ==> a[k] == a0[k]
      invariant IsSum(a, a0, b, i, carry')
    {
      ghost var c := carry';
      var w;
      w, carry' := AddCarry(a[i], carry');
      w, carry' := AddWord(w, b[i], carry');
      a := SetWord(a, i, w);
      IsSumStep(a, a0, b, i, c, carry');
      i := i + 1;
    }
    carry := carry';
    assert b[..|b|] == b;
  }

  lemma MulPred(m: int, q: int)
    ensures m * (q - 1) == m * q - m
  {
  }

  /** Which numbers the two parts of an added-back remainder are. */
  lemma AddedBack(p: int, low: int, carry: int, top: int, rest: int)
    requires low + carry * p + top * p == rest + 0x1_0000_0000_0000_0000 * p
    requires 0 <= low < p && 0 <= rest < p
    ensures low == rest
  {
    var k := 0x1_0000_0000_0000_0000 - carry - top;
    assert low - rest == k * p;
    if k >= 1 {
      MulMonotone(1, k, p);
      assert false;
    } else if k <= -1 {
      MulMonotone(k, -1, p);
      assert false;
    }
  }

  /**
   a -= q * b, where q may be one too large: then q is corrected and b added back. For a q
   further off nothing is promised but an end.
   */
  method SubtractMul(a0: seq<Word>, b: seq<Word>, q0: Word) returns (a: seq<Word>, q: Word)
    requires |a0| == |b| + 1
    ensures |a| == |a0|
    ensures Mag(b) * q0 - Mag(b) <= Mag(a0) ==>
      && (Mag(b) * q0 <= Mag(a0) ==> q == q0)
      && (Mag(b) * q0 > Mag(a0) ==> q == q0 - 1)
      && Mag(a) == Mag(a0) - Mag(b) * q
  {
    var carry;
    a, carry := SubtractProduct(a0, b, q0);
    q := q0;
    MagBound(a);
    ghost var fits := Mag(b) * q0 <= Mag(a0);
    assert fits <==> carry == 0;
    if carry != 0 {
      q := Wrap(q - 1);
      var n := |b|;
      ghost var s, c := a, 0;
      a, c := AddBack(a, b);
      ghost var low := a[..n];
      a := SetWord(a, n, 0);
      if Mag(b) * q0 - Mag(b) <= Mag(a0) {
        TakenBack(a0, b, q0, s, low, c);
        assert a[..n] == low;
        SplitZeros(a, n);
      }
    }
  }

  /** After the borrow, what adding the divisor back leaves is the remainder for the digit below. */
  lemma TakenBack(a0: seq<Word>, b: seq<Word>, q0: Word, s: seq<Word>, low: seq<Word>, c: int)
    requires |a0| == |s| == |b| + 1 && |low| == |b| && 0 <= c <= 1
    requires Mag(b) * q0 - Mag(b) <= Mag(a0) < Mag(b) * q0
    requires Mag(s) + Mag(b) * q0 == Mag(a0) + Pow(|a0|)
    requires Mag(low) + c * Pow(|b|) == Mag(s[..|b|]) + Mag(b)
    ensures q0 > 0 && Mag(low) == Mag(a0) - Mag(b) * (q0 - 1)
  {
    var n := |b|;
    assert Pow(n + 1) == 0x1_0000_0000_0000_0000 * Pow(n);
    MagPrefix(s, n);
    assert s[..n + 1] == s;
    MagBound(b);
    MagBound(low);
    hide Mag;
    hide Pow;
    SomeDigit(Mag(b), q0);
    MulPred(Mag(b), q0);
    TakenStep(Mag(b), Mag(b) * q0, Pow(n), s[n], Mag(s[..n]), Mag(low), c, Mag(a0));
  }

  lemma SomeDigit(m: nat, q: nat)
    ensures m * q > 0 ==> q > 0
  {
  }

  lemma TakenStep(m: nat, product: int, p: int, top: int, sLow: int, low: nat, c: int, w: nat)
    requires product - m <= w < product && m < p && low < p
    requires sLow + top * p + product == w + 0x1_0000_0000_0000_0000 * p && low + c * p == sLow + m
    ensures low == w - (product - m)
  {
    AddedBack(p, low, c, top, w - (product - m));
  }

  /** What normalize establishes: the top bit is set and the second word is not above the top word. */
  predicate Normalized(b: seq<Word>) {
    b != [] && b[|b| - 1] >= 0x8000_0000_0000_0000 && (|b| >= 2 ==> b[|b| - 2] <= b[|b| - 1])
  }

  /** The part of a number below its top word. */
  lemma TopWord(b: seq<Word>) returns (low: nat, p: nat)
    requires b != []
    ensures p == Pow(|b| - 1) && low == Mag(b[..|b| - 1]) < p && Mag(b) == low + b[|b| - 1] * p
  {
    var n := |b| - 1;
    assert b[..n + 1] == b;
    MagPrefix(b, n);
    MagBound(b[..n]);
    low, p := Mag(b[..n]), Pow(n);
  }

  /** The two top words of a number. */
  lemma TopWords(a: seq<Word>) returns (low: nat, p: nat)
    requires |a| >= 2
    ensures p == Pow(|a| - 2) && low < p && Mag(a) == low + Double(a[|a| - 1], a[|a| - 2]) * p
  {
    var n := |a| - 1;
    var l1, p1 := TopWord(a);
    MagPrefix(a, n - 1);
    MagBound(a[..n - 1]);
    low, p := Mag(a[..n - 1]), Pow(n - 1);
    DoubleAt(a[n], a[n - 1], p);
  }

  lemma DoubleAt(hi: int, lo: int, p: int)
    ensures Double(hi, lo) * p == lo * p + hi * (0x1_0000_0000_0000_0000 * p)
  {
  }

  /** The rest of a normalized divisor is small against its top word, whatever the digit. */
  lemma RestIsSmall(b: seq<Word>, q: Word)
    requires Normalized(b)
    ensures (q - 1) * Mag(b[..|b| - 1]) <= b[|b| - 1] * Pow(|b| - 1)
  {
    var d := b[|b| - 1];
    var rest := b[..|b| - 1];
    if q <= 1 || |b| == 1 {
      assert |b| == 1 ==> rest == [];
      SmallDigit(q, Mag(rest), d, Pow(|b| - 1));
    } else {
      var low, p := TopWord(rest);
      assert rest[|rest| - 1] == b[|b| - 2];
      RestStep(q, low, rest[|rest| - 1], d, p);
    }
  }

  lemma SmallDigit(q: nat, rest: nat, d: nat, p: nat)
    requires q <= 1 || rest == 0
    ensures (q - 1) * rest <= d * p
  {
    MulNonNegative(d, p);
    if q == 0 {
      assert (q - 1) * rest + rest == 0;
    } else if q == 1 {
      assert (q - 1) * rest == 0;
    } else {
      assert (q - 1) * rest == 0;
    }
  }

  lemma RestStep(q: Word, low: nat, v: Word, d: Word, p: nat)
    requires 1 < q && low < p && v <= d && d >= 0x8000_0000_0000_0000
    ensures (q - 1) * (low + v * p) <= d * (0x1_0000_0000_0000_0000 * p)
  {
    var rest := low + v * p;
    MulMonotone(v, d, p);
    MulNonNegative(v, p);
    MulMonotone(q - 1, 0xFFFF_FFFF_FFFF_FFFE, rest);
    assert rest < d * p + p;
    assert 0xFFFF_FFFF_FFFF_FFFE * rest <= 0xFFFF_FFFF_FFFF_FFFE * (d * p + p);
    MulMonotone(0x8000_0000_0000_0000, d, p);
  }

  /** The guessed digit is the true digit or one more. */
  lemma GuessIsClose(a: seq<Word>, b: seq<Word>, q: Word)
    requires Normalized(b) && |a| == |b| + 1 && a[|b|] < b[|b| - 1]
    requires q == Double(a[|b|], a[|b| - 1]) / b[|b| - 1]
    ensures Mag(b) * q - Mag(b) <= Mag(a) < Mag(b) * q + Mag(b)
  {
    var d := b[|b| - 1];
    var w := Double(a[|b|], a[|b| - 1]);
    var lowB, p := TopWord(b);
    var lowA, p' := TopWords(a);
    RestIsSmall(b, q);
    var r := DivRest(w, d, q);
    CloseStep(q, d, w, r, lowA, lowB, p, Mag(a), Mag(b));
  }

  lemma DivRest(w: nat, d: nat, q: nat) returns (r: nat)
    requires 0 < d && q == w / d
    ensures w == d * q + r && r < d
  {
    r := w % d;
  }

  lemma CloseStep(q: nat, d: nat, w: nat, r: nat, lowA: nat, lowB: nat, p: nat, a: int, b: int)
    requires w == d * q + r && r < d && lowA < p && lowB < p
    requires (q - 1) * lowB <= d * p
    requires a == lowA + w * p && b == lowB + d * p
    ensures b * q - b <= a < b * q + b
  {
    var dp := d * p;
    assert b * q == lowB * q + dp * q;
    assert (q - 1) * lowB == lowB * q - lowB;
    assert w * p == dp * q + r * p by {
      assert (d * q + r) * p == d * q * p + r * p;
      assert d * q * p == d * p * q;
    }
    MulNonNegative(r, p);
    MulNonNegative(lowB, q);
    MulMonotone(r + 1, d, p);
    MulSucc(r, p);
  }

  /** On a tie of the top words the true digit is one of the three largest, far above the returned 0 or 1. */
  lemma TieIsLarge(a: seq<Word>, b: seq<Word>)
    requires Normalized(b) && |a| == |b| + 1 && a[|b|] == b[|b| - 1]
    ensures 0xFFFF_FFFF_FFFF_FFFE * Mag(b) <= Mag(a)
  {
    var low, p := TopWord(b);
    var lowA, pA := TopWord(a);
    TieStep(b[|b| - 1], low, lowA, p);
  }

  lemma TieStep(d: nat, low: nat, lowA: nat, p: nat)
    requires low < p && d >= 0x8000_0000_0000_0000
    ensures 0xFFFF_FFFF_FFFF_FFFE * (low + d * p) <= lowA + d * (0x1_0000_0000_0000_0000 * p)
  {
    var dp := d * p;
    MulMonotone(0x8000_0000_0000_0000, d, p);
    assert d * (0x1_0000_0000_0000_0000 * p) == 0x1_0000_0000_0000_0000 * dp;
  }

  /** The top word of a partial remainder never exceeds that of the divisor. */
  lemma TopNotAbove(a: seq<Word>, b: seq<Word>)
    requires b != [] && |a| == |b| + 1 && Mag(a) < Mag(b) * 0x1_0000_0000_0000_0000
    ensures a[|b|] <= b[|b| - 1]
  {
    var low, p := TopWord(b);
    var lowA, pA := TopWord(a);
    if a[|b|] > b[|b| - 1] {
      AboveStep(a[|b|], b[|b| - 1], low, lowA, p);
      assert false;
    }
  }

  lemma AboveStep(x: nat, d: nat, low: nat, lowA: nat, p: nat)
    requires low < p && d < x
    ensures (low + d * p) * 0x1_0000_0000_0000_0000 < lowA + x * (0x1_0000_0000_0000_0000 * p)
  {
    var dp := d * p;
    assert d * (0x1_0000_0000_0000_0000 * p) == 0x1_0000_0000_0000_0000 * dp;
    MulMonotone(d + 1, x, 0x1_0000_0000_0000_0000 * p);
    MulSucc(d, 0x1_0000_0000_0000_0000 * p);
  }

  lemma TieQuotient(d: Word, x: Word)
    requires d >= 0x8000_0000_0000_0000
    ensures Wrap(Double(d, x) / d) <= 1
  {
    var k := if x >= d then 1 else 0;
    assert (0x1_0000_0000_0000_0000 + k) * d == Double(d, 0) + k * d;
    QuotientUnique(Double(d, x), 0x1_0000_0000_0000_0000 + k, x - k * d, d);
  }

  /**
   One digit of the long division: guess, multiply, subtract, correct. For a normalized
   divisor and a partial remainder below 2^64 divisors, the digit and the remainder are
   the true ones exactly when the top words do not tie.
   */
  method DigitStep(a0: seq<Word>, b: seq<Word>) returns (a: seq<Word>, q: Word)
    requires Normalized(b) && |a0| == |b| + 1
    ensures |a| == |a0|
    ensures Mag(a0) < Mag(b) * 0x1_0000_0000_0000_0000 ==>
      && Mag(a) == Mag(a0) - Mag(b) * q
      && (Mag(a) < Mag(b) <==> a0[|b|] < b[|b| - 1])
      && (a0[|b|] >= b[|b| - 1] ==> a0[|b|] == b[|b| - 1] && q <= 1 && 0xFFFF_FFFF_FFFF_FFFE * Mag(b) <= Mag(a0))
  {
    var n := |b|;
    q := DDQuotient(a0[n], a0[n - 1], b[n - 1]);
    ghost var guess := q;
    a, q := SubtractMul(a0, b, q);
    if Mag(a0) < Mag(b) * 0x1_0000_0000_0000_0000 {
      TopNotAbove(a0, b);
      if a0[n] < b[n - 1] {
        GuessIsClose(a0, b, guess);
        MulPred(Mag(b), guess);
        assert Mag(a) < Mag(b);
      } else {
        TieQuotient(b[n - 1], a0[n - 1]);
        TieIsLarge(a0, b);
        SmallMultiple(Mag(b), guess);
        PositiveTop(b);
        assert q == guess;
        assert Mag(b) <= Mag(a);
      }
    }
  }

  lemma PositiveTop(b: seq<Word>)
    requires b != [] && b[|b| - 1] > 0
    ensures Mag(b) > 0
  {
    var low, p := TopWord(b);
    MulMonotone(1, b[|b| - 1], p);
  }

  lemma SmallMultiple(m: nat, q: nat)
    requires q <= 1
    ensures m * q <= m
  {
    if q == 0 { assert m * q == 0; } else { assert m * q == m; }
  }

  /** One word of a division by a half word: two half words of quotient and the next remainder. */
  method HalfWordStep(r0: Word, w: Word, divisor: Word) returns (q: Word, r: Word)
    requires 0 < divisor < 0x1_0000_0000 && r0 < divisor
    ensures Double(r0, w) == (q as int) * (divisor as int) + r && r < divisor
  {
    var q1: int, r1: int, q2: int, r2: int;
    ghost var t1, t2;
    q1, r1, t1 := HalfDigit(Shifted(r0) + High(w), divisor);
    q2, r2, t2 := HalfDigit(Shifted(r1) + Low(w), divisor);
    q := q1 * 0x1_0000_0000 + q2;
    r := r2;
    HalfWordSum(r0, w, r1, r2, t1, t2);
    Distribute(q1, 0x1_0000_0000, q2, divisor);
  }

  lemma HalfWordSum(r0: Word, w: Word, r1: int, r2: int, t1: int, t2: int)
    requires r0 < 0x1_0000_0000 && 0 <= r1 < 0x1_0000_0000
    requires Shifted(r0) + High(w) == t1 + r1 && Shifted(r1) + Low(w) == t2 + r2
    ensures Double(r0, w) == t1 * 0x1_0000_0000 + t2 + r2
  {
    assert Shifted(r0) == r0 * 0x1_0000_0000 && Shifted(r1) == r1 * 0x1_0000_0000;
  }

  method HalfDigit(dividend: nat, divisor: Word) returns (q: int, r: int, ghost taken: nat)
    requires 0 < divisor && dividend < divisor * 0x1_0000_0000
    ensures taken == q * divisor && dividend == taken + r && 0 <= r < divisor
    ensures 0 <= q < 0x1_0000_0000
  {
    q := dividend / divisor;
    r := dividend % divisor;
    taken := q * divisor;
    if q >= 0x1_0000_0000 {
      MulMonotone(0x1_0000_0000, q, divisor);
      assert false;
    }
  }

  lemma HornerStep(w: int, rest: int, quot: int, r0: int, q: int, r: int, d: int)
    requires rest == quot * d + r0 && Double(r0, w) == q * d + r
    ensures w + 0x1_0000_0000_0000_0000 * rest == (q + 0x1_0000_0000_0000_0000 * quot) * d + r
  {
    assert (q + 0x1_0000_0000_0000_0000 * quot) * d == q * d + 0x1_0000_0000_0000_0000 * (quot * d);
  }

  /** Division by a divisor that fits a half word, from the top word down. */
  method DivideByHalfWord(x: seq<Word>, divisor: Word) returns (quot: seq<Word>, dHi: Word)
    requires 0 < divisor < 0x1_0000_0000
    ensures |quot| == |x| && Mag(x) == Mag(quot) * divisor + dHi && dHi < divisor
  {
    quot := x;
    dHi := 0;
    var i := |x|;
    while i > 0
      invariant 0 <= i <= |x| == |quot|
      invariant forall j :: 0 <= j < i ==> quot[j] == x[j]
      invariant Mag(x[i..]) == Mag(quot[i..]) * divisor + dHi && dHi < divisor
    {
      i := i - 1;
      ghost var above, r0 := quot[i + 1..], dHi;
      var q;
      q, dHi := HalfWordStep(dHi, quot[i], divisor);
      quot := SetWord(quot, i, q);
      assert quot[i..] == [q] + above;
      MagCons(q, above);
      MagTail(x, i);
      HornerStep(x[i], Mag(x[i + 1..]), Mag(above), r0, q, dHi, divisor);
    }
    assert x[0..] == x && quot[0..] == quot;
  }

  /** Words replaced inside a number. */
  lemma ReplaceWindow(s: seq<Word>, off: nat, w: seq<Word>)
    requires off + |w| <= |s|
    ensures var r := s[..off] + w + s[off + |w|..];
            Mag(r) == Mag(s) + Pow(off) * (Mag(w) - Mag(s[off..off + |w|]))
  {
    var old_ := s[off..off + |w|];
    var rest := s[off + |w|..];
    assert s == s[..off] + (old_ + rest);
    assert s[..off] + w + rest == s[..off] + (w + rest);
    MagAppend(s[..off], old_ + rest);
    MagAppend(s[..off], w + rest);
    MagAppend(old_, rest);
    MagAppend(w, rest);
    WindowStep(Pow(off), Mag(w), Mag(old_), Pow(|w|) * Mag(rest));
  }

  lemma WindowStep(p: int, w: int, o: int, rest: int)
    ensures p * (w + rest) == p * (o + rest) + p * (w - o)
  {
  }

  lemma MagTwo(lo: Word, hi: Word)
    ensures Mag([lo, hi]) == Double(hi, lo)
  {
    assert [lo, hi] == [lo] + [hi];
    MagCons(lo, [hi]);
    MagSingle(hi);
  }

  /** A digit moved from the remainder to the quotient. */
  lemma DigitMoves(p: int, d: int, q: int, r0: int, r: int, quot0: int, quot: int, total: int, w0: int, w: int)
    requires r0 + quot0 * d == total && w == w0 - d * q
    requires r == r0 + p * (w - w0) && quot == quot0 + q * p
    ensures r + quot * d == total
  {
    assert p * (w - w0) == -(q * p) * d by { assert w - w0 == -(d * q); assert p * -(d * q) == -(q * p) * d; }
    assert (quot0 + q * p) * d == quot0 * d + q * p * d;
  }
}
