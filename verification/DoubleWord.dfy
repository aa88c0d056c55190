/**
 The two double-word primitives of the bignum: the product of two words and
 the quotient of a double word by a word, both computed in 64-bit arithmetic
 with half words.
 */
module DoubleWord {
  import opened Words

  lemma HalfBound(x: int, y: int)
    requires 0 <= x < 0x1_0000_0000 && 0 <= y < 0x1_0000_0000
    ensures 0 <= x * y <= 0xFFFF_FFFE_0000_0001
  {
    MulMonotone(0, x, y);
    MulMonotone(x, 0xFFFF_FFFF, y);
  }

  lemma SplitProduct(h: nat, hiA: nat, loA: nat, hiB: nat, loB: nat)
    ensures (hiA * h + loA) * (hiB * h + loB) ==
            (hiA * hiB) * (h * h) + (loA * hiB + hiA * loB) * h + loA * loB
  {
    var b := hiB * h + loB;
    assert (hiA * h + loA) * b == hiA * h * b + loA * b;
    assert hiA * h * b == (hiA * hiB) * (h * h) + hiA * loB * h;
    assert loA * b == loA * hiB * h + loA * loB;
  }

  /** The product of two words as the sum of its four half products. */
  lemma HalfProducts(a: Word, b: Word) returns (p: Word, q: Word, r: Word, s: Word)
    ensures p == Wrap(High(a) * High(b)) && q == Wrap(Low(a) * High(b))
    ensures r == Wrap(High(a) * Low(b)) && s == Wrap(Low(a) * Low(b))
    ensures p <= 0xFFFF_FFFE_0000_0001 && q <= 0xFFFF_FFFE_0000_0001 && r <= 0xFFFF_FFFE_0000_0001
    ensures a * b == Double(p, s) + (q + r) * 0x1_0000_0000
  {
    var hiA, loA, hiB, loB := High(a), Low(a), High(b), Low(b);
    HalfBound(hiA, hiB); HalfBound(loA, hiB); HalfBound(hiA, loB); HalfBound(loA, loB);
    SplitProduct(0x1_0000_0000, hiA, loA, hiB, loB);
    p, q, r, s := hiA * hiB, loA * hiB, hiA * loB, loA * loB;
  }

  /** (hi, lo) += mid << 32, with the carry out of the low word. */
  method AddShifted(hi: Word, lo: Word, mid: Word) returns (hi': Word, lo': Word)
    requires Double(hi, lo) + mid * 0x1_0000_0000 < Double(0x1_0000_0000_0000_0000, 0)
    ensures Double(hi', lo') == Double(hi, lo) + mid * 0x1_0000_0000
  {
    lo' := Wrap(lo + Shifted(mid));
    hi' := Wrap(hi + (if lo' < lo then 1 else 0) + High(mid));
  }

  /** (hi, lo) = a * b. */
  method DDProduct(a: Word, b: Word) returns (hi: Word, lo: Word)
    ensures Double(hi, lo) == a * b
  {
    ghost var p, q, r, s := HalfProducts(a, b);
    var hiA, loA := High(a), Low(a);
    var hiB, loB := High(b), Low(b);
    lo := Wrap(loA * loB);
    hi := Wrap(hiA * hiB);
    var mid1 := Wrap(loA * hiB);
    var mid2 := Wrap(hiA * loB);
    hi, lo := AddShifted(hi, lo, mid1);
    hi, lo := AddShifted(hi, lo, mid2);
  }

  /** (a, b) -= (s1, s0), with the borrow seen as a result above the minuend. */
  method SubtractDouble(a: Word, b: Word, s1: nat, s0: Word) returns (a': Word, b': Word)
    ensures Double(s1, s0) <= Double(a, b) ==> Double(a', b') == Double(a, b) - Double(s1, s0)
  {
    b' := Wrap(b - s0);
    a' := Wrap(a - (s1 + (if b' > b then 1 else 0)));
  }

  lemma ShiftDouble(m: Word, left: int)
    ensures Double(High(m) + left, Shifted(m)) == (left * 0x1_0000_0000 + m) * 0x1_0000_0000
    ensures 0 <= High(m) && 0 <= Shifted(m) < 0x1_0000_0000_0000_0000
  {
  }

  lemma GuessBound(t: nat, dHi: nat, g: nat)
    requires t < (dHi + 1) * 0x1_0000_0000 && g == t / (dHi + 1)
    ensures g * dHi + g <= t && g < 0x1_0000_0000
  {
    assert g * (dHi + 1) <= t;
    if g >= 0x1_0000_0000 {
      MulMonotone(0x1_0000_0000, g, dHi + 1);
      assert false;
    }
  }

  /**
   The first guess of a half quotient, taken with the divisor rounded up at its
   high half, and its partial products. For t up to d it does not exceed the half quotient,
   so the products can be subtracted. t is the dividend without its low half word.
   */
  method GuessHalf(t: Word, d: Word) returns (g: Word, left: Word, right: Word, ghost taken: nat)
    requires 0 < d
    ensures t <= d ==> g < 0x1_0000_0000
    ensures t <= d ==> taken == g * d && taken == left * 0x1_0000_0000 + right <= t * 0x1_0000_0000
  {
    var dHi, dLo := High(d), Low(d);
    g := t / (dHi + 1);
    left := Wrap(g * dHi);
    right := Wrap(g * dLo);
    taken := 0;
    if t <= d {
      taken := g * d;
      GuessParts(t, d, g);
    }
  }

  lemma GuessParts(t: Word, d: Word, g: nat)
    requires 0 < d && t <= d && g == t / (High(d) + 1)
    ensures g < 0x1_0000_0000 && g * High(d) < 0x1_0000_0000_0000_0000 && g * Low(d) < 0x1_0000_0000_0000_0000
    ensures 0 <= g * High(d) && 0 <= g * Low(d)
    ensures g * d == (g * High(d)) * 0x1_0000_0000 + g * Low(d) <= t * 0x1_0000_0000
  {
    var dHi, dLo := High(d), Low(d);
    GuessBound(t, dHi, g);
    HalfBound(g, dHi);
    HalfBound(g, dLo);
    SplitProduct(0x1_0000_0000, 0, g, dHi, dLo);
    MulMonotone(dLo, 0x1_0000_0000, g);
  }

  /** Counting one more multiple of d, out of at most 2 * 2^32. */
  lemma TakeOne(q: Word, d: nat, taken: nat, rest: nat, whole: nat)
    requires taken == q * d && 0 < d && d * 0x1_0000_0000 <= rest
    requires rest + taken * 0x1_0000_0000 == whole < Double(d + 1, 0)
    ensures taken + d == Wrap(q + 1) * d
    ensures rest - d * 0x1_0000_0000 + (taken + d) * 0x1_0000_0000 == whole
  {
    MulSucc(q, d);
    if q + 1 > 0x2_0000_0000 {
      MulMonotone(0x2_0000_0001, q + 1, d);
      assert false;
    }
  }

  /** What is left and what has been taken off make up less than d + 1 words. */
  ghost predicate HasRoom(a: Word, b: Word, d: Word, q: nat, taken: nat) {
    taken == q * d && Double(a, b) + taken * 0x1_0000_0000 < Double(d + 1, 0)
  }

  /** Takes d << 32 off (a0, b0) as often as it fits, counting from q0. */
  method TakeHighMultiples(a0: Word, b0: Word, d: Word, q0: Word, ghost taken0: nat)
    returns (a: Word, b: Word, q: Word, ghost taken: nat)
    requires 0 < d
    ensures Double(a, b) < d * 0x1_0000_0000
    ensures HasRoom(a0, b0, d, q0, taken0) ==>
      taken == q * d && Double(a, b) + taken * 0x1_0000_0000 == Double(a0, b0) + taken0 * 0x1_0000_0000
  {
    var dHi, dLo1 := High(d), Shifted(Low(d));
    assert Double(dHi, dLo1) == d * 0x1_0000_0000;
    a, b, q, taken := a0, b0, q0, taken0;
    ghost var room, whole := HasRoom(a0, b0, d, q0, taken0), Double(a0, b0) + taken0 * 0x1_0000_0000;
    assert room ==> taken0 == q0 * d && whole < Double(d + 1, 0);
    hide HasRoom;
    while a > dHi || (a == dHi && b >= dLo1)
      invariant room ==> taken == q * d && Double(a, b) + taken * 0x1_0000_0000 == whole < Double(d + 1, 0)
      decreases Double(a, b)
    {
      ghost var before: nat := Double(a, b);
      a, b := SubtractDouble(a, b, dHi, dLo1);
      if room {
        TakeOne(q, d, taken, before, whole);
      }
      q, taken := Wrap(q + 1), taken + d;
    }
  }

  /** The high half of the quotient. */
  method HighQuotient(a0: Word, b0: Word, d: Word) returns (a: Word, b: Word, qHi: Word, ghost taken: nat)
    requires 0 < d
    ensures Double(a, b) < d * 0x1_0000_0000
    ensures a0 <= d ==> taken == qHi * d && Double(a0, b0) == Double(a, b) + taken * 0x1_0000_0000
  {
    var left, middle;
    qHi, left, middle, taken := GuessHalf(a0, d);
    ShiftDouble(middle, left);
    a, b := SubtractDouble(a0, b0, High(middle) + left, Shifted(middle));
    a, b, qHi, taken := TakeHighMultiples(a, b, d, qHi, taken);
  }

  lemma TakeLow(q: nat, d: nat, taken: nat, rest: nat)
    requires taken == q * d && 0 < d && taken + d <= rest < d * 0x1_0000_0000
    ensures taken + d == (q + 1) * d
    ensures q + 1 < 0x1_0000_0000
  {
    MulSucc(q, d);
    if q + 1 >= 0x1_0000_0000 {
      MulMonotone(0x1_0000_0000, q + 1, d);
      assert false;
    }
  }

  /** The low half of the quotient, when (a0, b0) is below d << 32. */
  method LowQuotient(a0: Word, b0: Word, d: Word) returns (qLo: Word, ghost r: Word, ghost taken: nat)
    requires 0 < d && Double(a0, b0) < d * 0x1_0000_0000
    ensures taken == qLo * d && Double(a0, b0) == taken + r && r < d
    ensures qLo < 0x1_0000_0000
  {
    var a: Word, b: Word := a0, b0;
    var t := a * 0x1_0000_0000 + High(b);
    assert t < d && t * 0x1_0000_0000 <= Double(a0, b0);
    var middle, right;
    qLo, middle, right, taken := GuessHalf(t, d);
    ShiftDouble(middle, 0);
    a, b := SubtractDouble(a, b, 0, right);
    a, b := SubtractDouble(a, b, High(middle), Shifted(middle));
    while a != 0 || b >= d
      invariant taken == qLo * d
      invariant Double(a, b) + taken == Double(a0, b0)
      invariant qLo < 0x1_0000_0000
      decreases Double(a, b)
    {
      a, b := SubtractDouble(a, b, 0, d);
      TakeLow(qLo, d, taken, Double(a0, b0));
      taken := taken + d;
      qLo := qLo + 1;
    }
    r := b;
  }

  lemma JoinWords(qHi: Word, qLo: Word)
    ensures Wrap(Shifted(qHi) + qLo) == Wrap(qHi * 0x1_0000_0000 + qLo)
  {
  }

  lemma JoinQuotients(n: nat, d: nat, qHi: Word, qLo: Word, hi: nat, lo: nat, r: nat)
    requires hi == qHi * d && lo == qLo * d && n == hi * 0x1_0000_0000 + lo + r && r < d
    ensures Wrap(n / d) == Wrap(Shifted(qHi) + qLo)
  {
    Distribute(qHi, 0x1_0000_0000, qLo, d);
    QuotientUnique(n, qHi * 0x1_0000_0000 + qLo, r, d);
    JoinWords(qHi, qLo);
  }

  /** A quotient of a double word fits a word exactly when its high word is below the divisor. */
  lemma QuotientFits(a: Word, b: Word, d: Word)
    requires 0 < d
    ensures Wrap(Double(a, b) / d) == Double(a, b) / d <==> a < d
  {
    var q, r := Double(a, b) / d, Double(a, b) % d;
    assert q * d + r == Double(a, b);
    if a < d && q >= 0x1_0000_0000_0000_0000 {
      MulMonotone(0x1_0000_0000_0000_0000, q, d);
      assert false;
    }
    if a >= d && q < 0x1_0000_0000_0000_0000 {
      MulMonotone(q + 1, 0x1_0000_0000_0000_0000, d);
      MulSucc(q, d);
      assert false;
    }
  }

  /**
   The quotient of the double word (a, b) by d, a half word at a time. For a < d
   this is the whole quotient. For the tie a == d the quotient needs a 65th bit,
   and only its low 64 bits come out. For a > d nothing is promised but an end.
   */
  method DDQuotient(a: Word, b: Word, d: Word) returns (q: Word)
    requires 0 < d
    ensures a <= d ==> q == Wrap(Double(a, b) / d) && (q == Double(a, b) / d <==> a < d)
  {
    ghost var hi, lo, r;
    var a', b', qHi, qLo;
    a', b', qHi, hi := HighQuotient(a, b, d);
    qLo, r, lo := LowQuotient(a', b', d);
    if a <= d {
      JoinQuotients(Double(a, b), d, qHi, qLo, hi, lo, r);
    }
    q := Wrap(Shifted(qHi) + qLo);
    QuotientFits(a, b, d);
  }
}
