/** Shifts of a bignum, and the scaling before a long division. */
module Shift {
  import opened Words
  import opened Multiply
  import opened Divide

  /** 2 to the k. */
  function Pow2(k: nat): (p: int)
    ensures p >= 1
  {
    if k == 0 then 1 else 2 * Pow2(k - 1)
  }

  lemma {:induction false} Pow2Add(i: nat, j: nat)
    ensures Pow2(i + j) == Pow2(i) * Pow2(j)
  {
    if i != 0 {
      Pow2Add(i - 1, j);
      MulAssoc(2, Pow2(i - 1), Pow2(j));
    }
  }

  /** A word is 2^k times 2^(64 - k). */
  lemma WordBits(k: nat)
    requires k <= 64
    ensures Pow2(k) * Pow2(64 - k) == Pow2(64 - k) * Pow2(k) == 0x1_0000_0000_0000_0000
  {
    Pow2Add(k, 64 - k);
    Pow2Word();
  }

  lemma Pow2Word()
    ensures Pow2(64) == 0x1_0000_0000_0000_0000 && Pow2(31) == 0x8000_0000
  {
    assert Pow2(4) == 0x10;
    Pow2Add(4, 4);
    assert Pow2(8) == 0x100;
    Pow2Add(8, 8);
    assert Pow2(16) == 0x1_0000;
    Pow2Add(16, 16);
    assert Pow2(32) == 0x1_0000_0000;
    Pow2Add(32, 32);
  }

  lemma {:induction false} PowIsPow2(k: nat)
    ensures Pow(k) == Pow2(64 * k)
  {
    if k > 0 {
      PowIsPow2(k - 1);
      Pow2Word();
      assert 64 * k == 64 + 64 * (k - 1);
      Pow2Add(64, 64 * (k - 1));
    }
  }

  lemma {:induction false} Pow2Monotone(i: nat, j: nat)
    requires i <= j
    ensures Pow2(i) <= Pow2(j)
  {
    if i < j {
      Pow2Monotone(i, j - 1);
    }
  }

  /**
   Word i after a left shift by k: its own low bits moved up, with the high bits of
   the word below. The mask of the source keeps exactly those bits for k <= 30, and is
   taken so for 31.
   */
  function LeftWord(w: Word, below: Word, k: nat): Word
    requires k <= 64
  {
    Wrap(Wrap(w * Pow2(k)) + below / Pow2(64 - k))
  }

  /** The bits a left shift moves out of a word, and those it keeps. */
  lemma LeftParts(w: Word, below: Word, k: nat)
    requires k <= 64
    ensures LeftWord(w, below, k) + (w / Pow2(64 - k)) * 0x1_0000_0000_0000_0000 == w * Pow2(k) + below / Pow2(64 - k)
  {
    WordBits(k);
    LeftSplit(w, Pow2(k), Pow2(64 - k));
    LeftRoom(w, below, Pow2(k), Pow2(64 - k));
  }

  lemma LeftSplit(w: Word, m: int, n: int)
    requires m >= 1 && n >= 1 && m * n == 0x1_0000_0000_0000_0000
    ensures Wrap(w * m) == (w % n) * m
    ensures w * m == (w / n) * 0x1_0000_0000_0000_0000 + (w % n) * m
  {
    var q, r := w / n, w % n;
    assert w == n * q + r;
    Regroup(w, m, n, q, r);
    MulMonotone(r + 1, n, m);
    MulSucc(r, m);
    MulNonNegative(r, m);
    MulNonNegative(q, 1);
  }

  lemma Regroup(w: int, m: int, n: int, q: int, r: int)
    requires w == n * q + r
    ensures w * m == q * (m * n) + r * m
  {
  }

  lemma LeftRoom(w: Word, below: Word, m: int, n: int)
    requires m >= 1 && n >= 1 && m * n == 0x1_0000_0000_0000_0000
    ensures 0 <= (w % n) * m + below / n < 0x1_0000_0000_0000_0000
  {
    var r, h := w % n, below / n;
    assert h * n <= below;
    if h >= m {
      MulMonotone(m, h, n);
      assert false;
    }
    MulMonotone(r + 1, n, m);
    MulSucc(r, m);
    MulNonNegative(r, m);
  }

  /** The bits that enter word i from below. */
  function Moved(x: seq<Word>, i: nat, k: nat): int
    requires i <= |x| && k <= 64
  {
    if i == 0 then 0 else x[i - 1] / Pow2(64 - k)
  }

  lemma NothingMoved(k: nat)
    requires k <= 64
    ensures 0 / Pow2(64 - k) == 0
  {
  }

  function Below(x: seq<Word>, i: nat): Word
    requires i < |x|
  {
    if i > 0 then x[i - 1] else 0
  }

  lemma LeftStep(x: seq<Word>, i: nat, k: nat, above: seq<Word>, w: Word)
    requires i < |x| && k <= 64
    requires Mag(above) == Mag(x[i + 1..]) * Pow2(k) + Moved(x, i + 1, k)
    requires w + Moved(x, i + 1, k) * 0x1_0000_0000_0000_0000 == x[i] * Pow2(k) + Moved(x, i, k)
    ensures Mag([w] + above) == Mag(x[i..]) * Pow2(k) + Moved(x, i, k)
  {
    MagCons(w, above);
    MagTail(x, i);
    LeftSum(x[i], Mag(x[i + 1..]), Pow2(k), Moved(x, i, k), Moved(x, i + 1, k), w, Mag(above), Mag(x[i..]));
  }

  lemma LeftBalance(x: seq<Word>, i: nat, k: nat, w: Word)
    requires i < |x| && k <= 64 && w == LeftWord(x[i], Below(x, i), k)
    ensures w + Moved(x, i + 1, k) * 0x1_0000_0000_0000_0000 == x[i] * Pow2(k) + Moved(x, i, k)
  {
    LeftParts(x[i], Below(x, i), k);
    NothingMoved(k);
  }

  lemma LeftSum(w: int, rest: int, m: int, moved: int, out: int, w': int, above: int, x: int)
    requires above == rest * m + out && x == w + 0x1_0000_0000_0000_0000 * rest
    requires w' + out * 0x1_0000_0000_0000_0000 == w * m + moved
    ensures w' + 0x1_0000_0000_0000_0000 * above == x * m + moved
  {
    assert (w + 0x1_0000_0000_0000_0000 * rest) * m == w * m + 0x1_0000_0000_0000_0000 * (rest * m);
  }

  /** The bits of a left shift multiply by 2^k; the loop runs from the top word down. */
  method ShiftLeftBits(x: seq<Word>, k: nat) returns (data: seq<Word>)
    requires 0 < k <= 31
    ensures |data| == |x| + 1 && Mag(data) == Mag(x) * Pow2(k)
  {
    data := x + [0];
    ghost var x0 := data;
    MagZeroExtend(x, 1);
    assert Zeros(1) == [0];
    NothingMoved(k);
    var i := |data|;
    while i > 0
      invariant 0 <= i <= |data| == |x0|
      invariant forall j :: 0 <= j < i ==> data[j] == x0[j]
      invariant Mag(data[i..]) == Mag(x0[i..]) * Pow2(k) + Moved(x0, i, k)
    {
      i := i - 1;
      ghost var above := data[i + 1..];
      data := SetWord(data, i, LeftWord(data[i], Below(data, i), k));
      assert data[i..] == [data[i]] + above;
      LeftBalance(x0, i, k, data[i]);
      LeftStep(x0, i, k, above, data[i]);
    }
    assert data[0..] == data && x0[0..] == x0;
  }

  /** The words of a left shift: q zero words under the number, moved up from the top. */
  method ShiftLeftWords(x: seq<Word>, q: nat) returns (data: seq<Word>)
    ensures data == Zeros(q) + x
  {
    data := x + Zeros(q);
    ghost var x0 := data;
    var i := |data|;
    while i > 0
      invariant 0 <= i <= |data| == |x| + q
      invariant forall j :: 0 <= j < i ==> data[j] == x0[j]
      invariant forall j :: i <= j < |data| ==> data[j] == if j < q then 0 else x[j - q]
    {
      i := i - 1;
      data := SetWord(data, i, if i < q then 0 else data[i - q]);
    }
  }

  /**
   <<=: whole words first, then bits, then the reduction. The mask for the bits is computed
   as an int, so the shift is defined if and only if no more than 31 bits are left over, and
   then it multiplies by 2^k.
   */
  method ShiftLeft(x: seq<Word>, k: nat) returns (defined: bool, data: seq<Word>)
    ensures defined <==> k % 64 <= 31
    ensures defined ==> Canonical(data) && Mag(data) == Mag(x) * Pow2(k)
  {
    var q, bits := k / 64, k % 64;
    data := x;
    if q > 0 {
      data := ShiftLeftWords(x, q);
    }
    MagAppend(Zeros(q), x);
    MagZeros(Zeros(q));
    assert Zeros(0) + x == x;
    defined := bits <= 31;
    if !defined {
      return;
    }
    if bits > 0 {
      data := ShiftLeftBits(data, bits);
    }
    WholeShift(k, q, bits);
    LeftTogether(Mag(x), Pow(q), Pow2(bits));
    data := Trim(data);
  }

  lemma LeftTogether(m: int, p: int, b: int)
    ensures (p * m) * b == m * (p * b)
  {
  }

  /** A shift by whole words and by bits. */
  lemma WholeShift(k: nat, q: nat, bits: nat)
    requires k == 64 * q + bits
    ensures Pow2(k) == Pow(q) * Pow2(bits) && Pow2(0) == 1
  {
    PowIsPow2(q);
    Pow2Add(64 * q, bits);
  }

  /** The top word decides the length and the top bit after scaling by 2^x. */
  lemma ScaledTop(b: seq<Word>, m: nat, s: seq<Word>)
    requires b != [] && 0 < m && 0x8000_0000_0000_0000 <= b[|b| - 1] * m < 0x1_0000_0000_0000_0000 && b[|b| - 1] * m + m <= 0x1_0000_0000_0000_0000
    requires Canonical(s) && Mag(s) == Mag(b) * m
    ensures |s| == |b| && s[|s| - 1] >= 0x8000_0000_0000_0000
  {
    var n := |b| - 1;
    var low, p := TopWord(b);
    ScaledRange(low, b[n], p, m);
    MulMonotone(1, 0x8000_0000_0000_0000, p);
    if |s| < |b| {
      MagBound(s);
      PowMonotone(|s|, n);
      assert false;
    } else if |s| > |b| {
      MagLower(s);
      PowMonotone(n + 1, |s| - 1);
      assert false;
    }
    var low', p' := TopWord(s);
    if s[n] < 0x8000_0000_0000_0000 {
      HigherDigit(s[n], 0x8000_0000_0000_0000, p, low');
      assert false;
    }
  }

  lemma ScaledRange(low: nat, top: nat, p: nat, m: nat)
    requires low < p && 0 < m && 0x8000_0000_0000_0000 <= top * m && top * m + m <= 0x1_0000_0000_0000_0000
    ensures 0x8000_0000_0000_0000 * p <= (low + top * p) * m < 0x1_0000_0000_0000_0000 * p
  {
    var t := top * m;
    assert (low + top * p) * m == low * m + t * p;
    MulNonNegative(low, m);
    MulMonotone(0x8000_0000_0000_0000, t, p);
    MulMonotone(low, p, m);
    assert p * m + t * p == (m + t) * p;
    MulMonotone(t + m, 0x1_0000_0000_0000_0000, p);
    StrictlyBelow(low, p, m);
  }

  lemma StrictlyBelow(low: nat, p: nat, m: nat)
    requires low < p && 0 < m
    ensures low * m < p * m
  {
    MulMonotone(low + 1, p, m);
    MulSucc(low, m);
  }

  /**
   The second scaling, by 2^64 - 1, moves the excess of the second word away: the top
   word stays, and the word under it becomes small.
   */
  lemma SecondScaling(b: seq<Word>, s: seq<Word>)
    requires |b| >= 2 && b[|b| - 1] >= 0x8000_0000_0000_0000 && b[|b| - 2] > b[|b| - 1]
    requires |s| == |b| + 1 && Mag(s) == Mag(b) * 0xFFFF_FFFF_FFFF_FFFF
    ensures Normalized(s)
  {
    hide Mag;
    var n, d, v := |b|, b[|b| - 1], b[|b| - 2];
    var low, p := TopWord(b);
    var low2, p2 := TopWord(b[..n - 1]);
    assert b[..n - 1][n - 2] == v && p == 0x1_0000_0000_0000_0000 * p2;
    SecondStep(low2, v, d, p2);
    var rest := low * 0x1_0000_0000_0000_0000 - Mag(b);
    SplitUnique(s, n, d, rest);
    var low3, p3 := TopWord(s[..n]);
    assert s[..n][n - 1] == s[n - 1];
    SecondIsSmall(v - d, s[n - 1], p, low3, rest);
  }

  lemma SecondIsSmall(bound: int, second: int, p: int, low: int, rest: int)
    requires 0 <= low && p >= 1 && rest == low + second * p && rest < bound * p + p
    ensures second <= bound
  {
    if second > bound {
      MulMonotone(bound + 1, second, p);
      MulSucc(bound, p);
      assert false;
    }
  }

  lemma SecondStep(low2: nat, v: nat, d: nat, p2: nat)
    requires low2 < p2 && d < v < 0x1_0000_0000_0000_0000
    ensures var p := 0x1_0000_0000_0000_0000 * p2;
            var low := low2 + v * p2;
            var rest := low * 0x1_0000_0000_0000_0000 - (low + d * p);
            0 <= rest < 0x1_0000_0000_0000_0000 * p && rest < (v - d) * p + p &&
            (low + d * p) * 0xFFFF_FFFF_FFFF_FFFF == rest + d * (0x1_0000_0000_0000_0000 * p)
  {
    var p := 0x1_0000_0000_0000_0000 * p2;
    var dp := d * p;
    MulMonotone(d + 1, v, p2);
    MulSucc(d, p2);
    HigherDigit(v, 0x1_0000_0000_0000_0000, p2, low2);
    assert dp == 0x1_0000_0000_0000_0000 * (d * p2);
    assert d * (0x1_0000_0000_0000_0000 * p) == 0x1_0000_0000_0000_0000 * dp;
    assert (v - d) * p == 0x1_0000_0000_0000_0000 * (v * p2) - dp;
  }

  /** How far the top bit of a word is from bit 63. */
  function BitsToTop(top: nat): nat
    requires top > 0
    decreases 0x8000_0000_0000_0000 - top
  {
    if top >= 0x8000_0000_0000_0000 then 0 else 1 + BitsToTop(2 * top)
  }

  method LeadingZeros(top: Word) returns (x: nat)
    requires top > 0
    ensures x == BitsToTop(top) <= 63 && (x <= 31 <==> top >= 0x1_0000_0000)
    ensures 0x8000_0000_0000_0000 <= top * Pow2(x)
    ensures top * Pow2(x) + Pow2(x) <= 0x1_0000_0000_0000_0000
  {
    var y: nat := top;
    x := 0;
    while y < 0x8000_0000_0000_0000
      invariant 0 < y == top * Pow2(x) && x <= 63
      invariant y + Pow2(x) <= 0x1_0000_0000_0000_0000
      invariant BitsToTop(top) == x + BitsToTop(y)
      decreases 0x8000_0000_0000_0000 - y
    {
      KeepsRoom(top, x);
      y := y * 2;
      x := x + 1;
    }
    FewBits(top, x);
  }

  /** The shift fits an int's mask exactly when the top word is more than a half word. */
  lemma FewBits(top: Word, x: nat)
    requires 0x8000_0000_0000_0000 <= top * Pow2(x) && top * Pow2(x) + Pow2(x) <= 0x1_0000_0000_0000_0000
    ensures x <= 31 <==> top >= 0x1_0000_0000
  {
    Pow2Word();
    assert Pow2(32) == 2 * Pow2(31);
    if x <= 31 {
      Pow2Monotone(x, 31);
      if top < 0x1_0000_0000 {
        ProductAtMost(top, 0xFFFF_FFFF, Pow2(x), 0x8000_0000);
        assert false;
      }
    } else {
      Pow2Monotone(32, x);
      if top >= 0x1_0000_0000 {
        ProductAtMost(0x1_0000_0000, top, 0x1_0000_0000, Pow2(x));
        assert false;
      }
    }
  }

  lemma ProductAtMost(a: nat, b: nat, p: nat, q: nat)
    requires a <= b && p <= q
    ensures a * p <= b * q
  {
    MulMonotone(a, b, p);
    MulMonotone(p, q, b);
  }

  /** A multiple of 2^x below 2^63 leaves room for another 2^x, and can be doubled. */
  lemma KeepsRoom(top: Word, x: nat)
    requires x <= 63 && 0 < top && top * Pow2(x) < 0x8000_0000_0000_0000
    ensures top * Pow2(x) + Pow2(x) <= 0x8000_0000_0000_0000
    ensures x < 63 && top * Pow2(x) * 2 == top * Pow2(x + 1) && 0 < top * Pow2(x)
  {
    Pow2Add(x, 63 - x);
    Pow2Word();
    assert Pow2(64) == 2 * Pow2(63);
    RoomStep(top, Pow2(x), Pow2(63 - x));
    MulMonotone(1, top, Pow2(x));
    DoubleStep(top, Pow2(x));
  }

  lemma RoomStep(top: nat, p: nat, q: nat)
    requires top * p < p * q
    ensures top * p + p <= p * q
  {
    if top >= q {
      MulMonotone(q, top, p);
      assert false;
    }
    MulMonotone(top + 1, q, p);
    MulSucc(top, p);
  }

  lemma DoubleStep(top: nat, p: nat)
    requires 1 <= top && 1 <= p
    ensures top * p * 2 == top * (2 * p) && 0 < top * p
  {
    MulMonotone(1, top, p);
  }

  /**
   Scales dividend and divisor so that the top bit of the divisor is set and, by a second
   factor of 2^64 - 1 where needed, its second word is not above its top word. second is
   the value that the source returns. The first shift is defined if and only if the divisor's
   top word is more than a half word.
   */
  method Normalize(denom: seq<Word>, num: seq<Word>)
    returns (defined: bool, denom': seq<Word>, num': seq<Word>, x: nat, second: bool)
    requires Canonical(denom) && denom != []
    ensures defined <==> denom[|denom| - 1] >= 0x1_0000_0000
    ensures defined ==> x <= 31 && (second ==> |denom| >= 2) && Factor(x, second) == Scale(denom)
    ensures defined ==> Normalized(denom') && Canonical(num')
    ensures defined ==> Mag(denom') == Mag(denom) * Scale(denom) && Mag(num') == Mag(num) * Scale(denom)
    ensures defined ==> |denom'| == |denom| + (if second then 1 else 0) == ScaledTo(denom)
  {
    var r := |denom| - 1;
    x := LeadingZeros(denom[r]);
    second := false;
    defined, denom' := ShiftLeft(denom, x);
    num' := num;
    if !defined {
      return;
    }
    defined, num' := ShiftLeft(num, x);
    ScaledTop(denom, Pow2(x), denom');
    SecondNeeded(denom', r);
    second := r > 0 && denom'[r] < denom'[r - 1];
    if second {
      ghost var scaled := denom';
      denom' := ScaleWords(denom', 0xFFFF_FFFF_FFFF_FFFF);
      SecondScaling(scaled, denom');
      denom' := Trim(denom');
      assert Normalized(denom');
      num' := ScaleWords(num', 0xFFFF_FFFF_FFFF_FFFF);
      num' := Trim(num');
      MulAssoc(Mag(denom), Pow2(x), 0xFFFF_FFFF_FFFF_FFFF);
      MulAssoc(Mag(num), Pow2(x), 0xFFFF_FFFF_FFFF_FFFF);
      assert Factor(x, second) == Pow2(x) * 0xFFFF_FFFF_FFFF_FFFF;
    } else {
      assert Factor(x, second) == Pow2(x);
    }
  }

  function Factor(x: nat, second: bool): (f: int)
    ensures f >= 1
  {
    Pow2(x) * (if second then 0xFFFF_FFFF_FFFF_FFFF else 1)
  }

  /** In a number whose top place is r, the digit below the top one is larger. */
  predicate SecondAbove(m: nat, r: nat) {
    r > 0 && m / Pow(r) < (m / Pow(r - 1)) % 0x1_0000_0000_0000_0000
  }

  /** Whether a divisor is scaled a second time. */
  predicate IsScaledTwice(denom: seq<Word>)
    requires Canonical(denom) && denom != []
  {
    SecondAbove(Mag(denom) * Pow2(BitsToTop(denom[|denom| - 1])), |denom| - 1)
  }

  /** What normalizing multiplies by, and how long it makes the divisor. */
  function Scale(denom: seq<Word>): (f: int)
    requires Canonical(denom) && denom != []
    ensures f >= 1
  {
    Factor(BitsToTop(denom[|denom| - 1]), IsScaledTwice(denom))
  }

  function ScaledTo(denom: seq<Word>): (n: nat)
    requires Canonical(denom) && denom != []
    ensures n >= |denom|
  {
    |denom| + (if IsScaledTwice(denom) then 1 else 0)
  }

  lemma SecondNeeded(s: seq<Word>, r: nat)
    requires |s| == r + 1
    ensures SecondAbove(Mag(s), r) <==> r > 0 && s[r] < s[r - 1]
  {
    WordAt(s, r);
    if r > 0 {
      WordAt(s, r - 1);
    }
  }

  /** A word of a number, by arithmetic. */
  lemma WordAt(s: seq<Word>, i: nat)
    requires i < |s|
    ensures Mag(s) / Pow(i) == Mag(s[i..]) && Mag(s[i..]) % 0x1_0000_0000_0000_0000 == s[i]
    ensures i == |s| - 1 ==> Mag(s[i..]) == s[i]
  {
    assert i == |s| - 1 ==> Mag(s[i + 1..]) == 0;
    hide Mag;
    hide Pow;
    MagSplit(s, i);
    MagBound(s[..i]);
    MagTail(s, i);
    WordStep(Mag(s), Pow(i), Mag(s[..i]), Mag(s[i..]));
    LowWordIs(Mag(s[i..]), s[i], Mag(s[i + 1..]));
  }

  lemma LowWordIs(m: nat, w: Word, rest: nat)
    requires m == w + 0x1_0000_0000_0000_0000 * rest
    ensures m % 0x1_0000_0000_0000_0000 == w
  {
    QuotientUnique(m, rest, w, 0x1_0000_0000_0000_0000);
  }

  lemma WordStep(m: nat, p: nat, low: nat, upper: nat)
    requires m == low + p * upper && low < p
    ensures m / p == upper
  {
    QuotientUnique(m, upper, low, p);
  }

  /** Word i after a right shift by k: the low k bits of the word above come in at the top. */
  function RightWord(w: Word, above: Word, k: nat): Word
    requires k <= 64
  {
    Wrap(w / Pow2(k) + Wrap((above % Pow2(k)) * Pow2(64 - k)))
  }

  lemma RightParts(w: Word, above: Word, k: nat)
    requires k <= 64
    ensures RightWord(w, above, k) == w / Pow2(k) + (above % Pow2(k)) * Pow2(64 - k)
  {
    WordBits(k);
    RightFits(w, above, Pow2(k), Pow2(64 - k));
  }

  lemma RightFits(w: Word, above: Word, m: int, n: int)
    requires m >= 1 && n >= 1 && n * m == 0x1_0000_0000_0000_0000
    ensures Wrap(w / m + Wrap((above % m) * n)) == w / m + (above % m) * n
  {
    LeftRoom(above, w, n, m);
    MulNonNegative(above % m, n);
    WrapTwice(w / m, (above % m) * n);
  }

  lemma WrapTwice(low: nat, high: nat)
    requires low + high < 0x1_0000_0000_0000_0000
    ensures Wrap(low + Wrap(high)) == low + high
  {
  }

  function Above(x: seq<Word>, i: nat): Word
    requires i < |x|
  {
    if i + 1 < |x| then x[i + 1] else 0
  }

  lemma RightSum(m: int, n: int, w: nat, d: nat, rest: nat, high: nat, rem: nat, rem': nat, x: int, data: int)
    requires m >= 1 && n * m == 0x1_0000_0000_0000_0000
    requires rest == high * m + rem' && rem == w % m && d == w / m + rem' * n
    requires x == w + 0x1_0000_0000_0000_0000 * rest && data == d + 0x1_0000_0000_0000_0000 * high
    ensures x == data * m + rem
  {
    assert w == (w / m) * m + rem;
    assert data * m == (w / m) * m + rem' * n * m + 0x1_0000_0000_0000_0000 * (high * m);
    assert rem' * n * m == rem' * (n * m);
  }

  lemma DivisionFacts(w: nat, m: nat)
    requires 0 < m
    ensures w == (w / m) * m + w % m && 0 <= w % m < m && 0 <= w / m
  {
  }

  /** Mag(x) / 2^k is what the shifted words denote, and x's low bits are what is lost. */
  lemma {:induction false} RightValue(x: seq<Word>, data: seq<Word>, k: nat)
    requires k <= 64 && |data| == |x|
    requires forall i :: 0 <= i < |x| ==> data[i] == RightWord(x[i], Above(x, i), k)
    ensures Mag(x) == Mag(data) * Pow2(k) + (if x == [] then 0 else x[0] % Pow2(k))
  {
    if x != [] {
      assert forall i :: 0 <= i < |x| - 1 ==> Above(x[1..], i) == Above(x, i + 1);
      RightValue(x[1..], data[1..], k);
      RightParts(x[0], Above(x, 0), k);
      WordBits(k);
      DivisionFacts(Above(x, 0), Pow2(k));
      RightSum(Pow2(k), Pow2(64 - k), x[0], data[0], Mag(x[1..]), Mag(data[1..]),
               x[0] % Pow2(k), Above(x, 0) % Pow2(k), Mag(x), Mag(data));
    }
  }

  /** The bits of a right shift; the loop runs from the bottom word up. */
  method ShiftRightBits(x: seq<Word>, k: nat) returns (data: seq<Word>)
    requires k <= 31 && x != []
    ensures Mag(data) == Mag(x) / Pow2(k)
  {
    data := x;
    var n := |data| - 1;
    var i := 0;
    while i <= n
      invariant 0 <= i <= n + 1 == |data| == |x|
      invariant forall j :: 0 <= j < i ==> data[j] == RightWord(x[j], Above(x, j), k)
      invariant forall j :: i <= j < |x| ==> data[j] == x[j]
    {
      data := SetWord(data, i, RightWord(data[i], Above(data, i), k));
      i := i + 1;
    }
    RightValue(x, data, k);
    DivisionFacts(x[0], Pow2(k));
    QuotientUnique(Mag(x), Mag(data), x[0] % Pow2(k), Pow2(k));
  }

  /**
   The shifts of >>= that are defined: all words go; or whole words only; or at most 31 bits,
   for the sake of the mask, and not 0 bits in several words, which would shift by a whole word.
   */
  predicate RightDefined(length: nat, k: nat) {
    k / 64 >= length || (k / 64 > 0 && k % 64 == 0) || (k % 64 <= 31 && (k > 0 || length == 1))
  }

  /** >>=: whole words first, then bits, then the reduction. Where defined, it divides by 2^k, rounding down. */
  method ShiftRight(x: seq<Word>, k: nat) returns (defined: bool, data: seq<Word>)
    ensures defined <==> RightDefined(|x|, k)
    ensures defined ==> Canonical(data) && Mag(data) == Mag(x) / Pow2(k)
  {
    defined := true;
    var q, bits := k / 64, k % 64;
    WholeShift(k, q, bits);
    if q >= |x| {
      AllShifted(x, k, q, bits);
      data := [];
      return;
    }
    data := x[q..];
    WordsShifted(x, q, Pow2(bits));
    if q > 0 && bits == 0 {
      data := Trim(data);
      return;
    }
    defined := bits <= 31 && (bits > 0 || |data| == 1);
    if !defined {
      return;
    }
    data := ShiftRightBits(data, bits);
    data := Trim(data);
  }

  lemma AllShifted(x: seq<Word>, k: nat, q: nat, bits: nat)
    requires |x| <= q && Pow2(k) == Pow(q) * Pow2(bits)
    ensures Mag(x) / Pow2(k) == Mag([]) == 0
  {
    assert Mag([]) == 0;
    hide Mag;
    hide Pow;
    hide Pow2;
    MagBound(x);
    PowMonotone(|x|, q);
    NothingLeft(Mag(x), Pow(q), Pow2(bits), Pow2(k));
  }

  lemma NothingLeft(m: nat, p: nat, b: nat, w: nat)
    requires m < p && b >= 1 && w == p * b
    ensures w >= 1 && m / w == 0
  {
    MulMonotone(1, b, p);
    QuotientUnique(m, 0, m, w);
  }

  lemma WordsShifted(x: seq<Word>, q: nat, b: int)
    requires q <= |x| && b >= 1
    ensures Pow(q) * b >= 1 && Mag(x) / (Pow(q) * b) == Mag(x[q..]) / b
    ensures Mag(x[q..]) / 1 == Mag(x[q..])
  {
    MagSplit(x, q);
    MagBound(x[..q]);
    TwoQuotients(Mag(x), Mag(x[..q]), Pow(q), Mag(x[q..]), b);
  }

  lemma TwoQuotients(m: nat, low: nat, p: nat, upper: nat, b: nat)
    requires m == low + p * upper && low < p && b >= 1
    ensures p * b >= 1 && m / (p * b) == upper / b
  {
    var t, r := upper / b, upper % b;
    DivisionFacts(upper, b);
    assert p * upper == t * (p * b) + p * r by { assert p * (t * b + r) == t * (p * b) + p * r; }
    MulMonotone(r + 1, b, p);
    assert (r + 1) * p == p * r + p && b * p == p * b;
    MulNonNegative(p, r);
    QuotientUnique(m, t, low + p * r, p * b);
  }
}
