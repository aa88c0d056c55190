/** Sign-magnitude integers of any size, updated in place by their operators. */
module Bignums {
  import opened Words
  import opened DoubleWord
  import opened AddSubtract
  import opened Multiply
  import opened Divide
  import opened LongDivision
  import opened Shift

  class Bignum {
    var data: seq<Word>
    var neg: bool

    /** No leading zero word, and no negative zero. */
    ghost predicate Valid()
      reads this
    {
      Canonical(data) && (data == [] ==> !neg)
    }

    ghost function Value(): int
      reads this
    {
      Signed(neg, Mag(data))
    }

    constructor FromWord(u: Word)
      ensures Valid() && Value() == u && fresh(this)
    {
      data := if u != 0 then [u] else [];
      neg := false;
      new;
      MagSingle(u);
    }

    constructor FromInt64(i: int)
      requires -0x8000_0000_0000_0000 <= i < 0x8000_0000_0000_0000
      ensures Valid() && Value() == i
    {
      neg := i < 0;
      var u: Word := if i < 0 then -i else i;
      data := if u != 0 then [u] else [];
      new;
      MagSingle(u);
    }

    constructor Copy(n: Bignum)
      ensures data == n.data && neg == n.neg
    {
      data := n.data;
      neg := n.neg;
    }

    /** -n, as a new number. */
    constructor Negated(n: Bignum)
      ensures data == n.data && neg == !n.neg
    {
      data := n.data;
      neg := !n.neg;
    }

    method Assign(y: Bignum)
      modifies this
      ensures data == old(y.data) && neg == old(y.neg)
    {
      data := y.data;
      neg := y.neg;
    }

    /** Leading zero words are dropped; zero is never negative. */
    method Reduce()
      modifies this
      ensures Valid() && Value() == old(Value())
      ensures Mag(data) == old(Mag(data)) && |data| <= old(|data|)
    {
      data := Trim(data);
      if data == [] {
        neg := false;
      }
    }

    /** The order of two numbers, as a sign. */
    method Compare(y: Bignum) returns (code: int)
      requires Canonical(data) && Canonical(y.data)
      requires neg == y.neg || (Valid() && y.Valid())
      ensures code < 0 <==> Value() < y.Value()
      ensures code > 0 <==> Value() > y.Value()
    {
      if neg != y.neg {
        if neg { MagLower(data); } else { MagLower(y.data); }
        return (if y.neg then 1 else 0) - (if neg then 1 else 0);
      }
      code := CompareWords(data, y.data);
      code := if neg then -code else code;
    }

    /** this += y, also when y is this number itself. */
    method AddAssign(y: Bignum)
      requires Canonical(data) && Canonical(y.data)
      modifies this
      ensures Valid() && Value() == old(Value()) + old(y.Value())
      decreases if neg != y.neg then 3 else 0
    {
      if neg != y.neg {
        var minusY := new Bignum.Negated(y);
        SubAssign(minusY);
        return;
      }
      data := AddWords(data, y.data);
      Reduce();
    }

    /** this -= y, also when y is this number itself. */
    method SubAssign(y: Bignum)
      requires Canonical(data) && Canonical(y.data)
      modifies this
      ensures Valid() && Value() == old(Value()) - old(y.Value())
      decreases if neg != y.neg then 2 else if Mag(y.data) > Mag(data) then 1 else 0
    {
      if neg != y.neg {
        var minusY := new Bignum.Negated(y);
        AddAssign(minusY);
        return;
      }
      var order := y.Compare(this);
      if (!neg && order > 0) || (neg && order < 0) {
        var difference := new Bignum.Copy(y);
        difference.SubAssign(this);
        var negated := new Bignum.Negated(difference);
        Assign(negated);
        return;
      }
      if |y.data| > |data| {
        LongerIsLarger(data, y.data);
      }
      data := SubtractWords(data, y.data);
      Reduce();
    }

    /** this *= y, for a word. */
    method MulWord(y: Word)
      requires Canonical(data)
      modifies this
      ensures Valid() && Value() == old(Value()) * y
      ensures Mag(data) == old(Mag(data)) * y
    {
      data := ScaleWords(data, y);
      ghost var m, m0 := Mag(data), old(Mag(data));
      Reduce();
      NegativeProduct(m0, y);
    }

    /**
     this *= y, for a signed machine integer. The sign is flipped after the reduction, so
     zero times a negative integer comes out as a negative zero.
     */
    method MulInt64(y: int)
      requires Canonical(data) && -0x8000_0000_0000_0000 < y < 0x8000_0000_0000_0000
      modifies this
      ensures Canonical(data) && Value() == old(Value()) * y
      ensures Valid() <==> y >= 0 || old(Value()) != 0
    {
      var u: Word := if y < 0 then -y else y;
      MulWord(u);
      NegativeProduct(old(Value()), u);
      if y < 0 {
        neg := !neg;
      }
      NonZeroProduct(old(Value()), u);
      MagZeroOnlyEmpty(data);
    }

    /** this *= y, also when y is this number itself: y is a copy in the source. */
    method MulAssign(y0: Bignum)
      requires Valid() && y0.Valid() && |data| <= 0xFFFF_FFFF_FFFF_FFFF
      modifies this
      ensures Valid() && Value() == old(Value()) * old(y0.Value())
      ensures |data| <= old(|data|) + old(|y0.data|)
    {
      var y := new Bignum.Copy(y0);
      SignedProduct(neg, Mag(data), y.neg, Mag(y.data));
      if |data| == 0 || |y.data| == 0 {
        data, neg := [], false;
        return;
      }
      var difSigns := neg != y.neg;
      data := MultiplyMagnitudes(data, y.data);
      neg := difSigns;
    }

    /**
     quot and rem of this by any divisor, by every path of the source. quot or rem may be
     this number. Without remDesired, rem is left as scratch on the last path. A zero
     remainder of a negative dividend keeps the sign of the dividend. For a divisor of several
     words the code can go wrong in three ways, and contract and result say exactly when: an
     undefined shift, a tie of top words in some round, and an overrun when a remainder that
     has to be scaled back twice is zero.
     */
    method DivideBy(denom0: Bignum, quot: Bignum, rem: Bignum, remDesired: bool) returns (result: DivideResult)
      requires Valid() && denom0.Valid() && quot != rem
      modifies quot, rem
      ensures result == ZeroDivide <==> old(denom0.Value()) == 0
      ensures result == ZeroDivide ==> unchanged(quot) && unchanged(rem)
      ensures result == UndefinedShift <==> ShiftsTooFar(old(data), old(denom0.data))
      ensures result == Overrun <==> remDesired && Overruns(old(data), old(denom0.data))
      ensures result == Divided || result == Overrun ==>
        (quot.Value() == Truncated(old(Value()), old(denom0.Value())) <==> !Misdivides(old(data), old(denom0.data)))
      ensures (result == Divided || result == Overrun) && !Misdivides(old(data), old(denom0.data)) ==> quot.Valid()
      ensures result == Divided && remDesired ==>
        && Canonical(rem.data) && rem.neg == old(neg)
        && (Mag(rem.data) < old(Mag(denom0.data)) <==> !Misdivides(old(data), old(denom0.data)))
        && (!Misdivides(old(data), old(denom0.data)) ==>
              old(Value()) == quot.Value() * old(denom0.Value()) + rem.Value())
    {
      if |denom0.data| == 0 {
        return ZeroDivide;
      }
      MagZeroOnlyEmpty(denom0.data);
      var q, quotNeg, r, remNeg;
      result, q, quotNeg, r, remNeg := DivideSigned(data, neg, denom0.data, denom0.neg, remDesired);
      quot.data, quot.neg := q, quotNeg;
      rem.data, rem.neg := r, remNeg;
    }
  }

  /** Order of magnitudes: lengths first, then words from the top down. */
  method CompareWords(x: seq<Word>, y: seq<Word>) returns (code: int)
    requires Canonical(x) && Canonical(y)
    ensures code < 0 <==> Mag(x) < Mag(y)
    ensures code > 0 <==> Mag(x) > Mag(y)
  {
    if |x| == 0 && |y| == 0 {
      return 0;
    }
    if |x| < |y| {
      LongerIsLarger(x, y);
      return -1;
    }
    if |x| > |y| {
      LongerIsLarger(y, x);
      return 1;
    }
    var i := |x|;
    while i > 0
      invariant 0 <= i <= |x|
      invariant x[i..] == y[i..]
    {
      i := i - 1;
      if x[i] > y[i] {
        MagOrder(y, x, i);
        return 1;
      } else if x[i] < y[i] {
        MagOrder(x, y, i);
        return -1;
      }
    }
    assert x[0..] == x && y[0..] == y;
    return 0;
  }

  /** The multiplication paths of the source for operands that are not zero. */
  method MultiplyMagnitudes(x: seq<Word>, y: seq<Word>) returns (data: seq<Word>)
    requires Canonical(x) && Canonical(y) && x != [] && y != [] && |x| <= 0xFFFF_FFFF_FFFF_FFFF
    ensures Mag(data) == Mag(x) * Mag(y) && Canonical(data) && data != []
    ensures |data| <= |x| + |y|
  {
    hide Mag;
    hide Pow;
    MagZeroOnlyEmpty(x);
    MagZeroOnlyEmpty(y);
    NonZeroProduct(Mag(x), Mag(y));
    if |x| + |y| == 2 {
      data := MultiplySingles(x[0], y[0], x, y);
      MagZeroOnlyEmpty(data);
      return;
    }
    if |x| == 1 {
      assert x == [x[0]];
      MagSingle(x[0]);
      data := ScaleWords(y, x[0]);
    } else if |y| == 1 {
      assert y == [y[0]];
      MagSingle(y[0]);
      data := ScaleWords(x, y[0]);
    } else {
      data := MultiplyWords(x, y);
    }
    data := Trim(data);
    MagZeroOnlyEmpty(data);
  }

  /** The value of a sign and a magnitude. */
  function Signed(neg: bool, m: int): int {
    if neg then -m else m
  }

  // ---- When a division goes wrong -----------------------------------------------------

  /** The division takes the path for long divisors. */
  predicate IsLong(num: seq<Word>, denom: seq<Word>) {
    |denom| >= 2 && Mag(denom) <= Mag(num)
  }

  /** Normalizing a long divisor shifts by more than an int's mask allows. */
  predicate ShiftsTooFar(num: seq<Word>, denom: seq<Word>) {
    IsLong(num, denom) && denom[|denom| - 1] < 0x1_0000_0000
  }

  /** In some round of the division of the scaled numbers the top words tie. */
  ghost predicate HasTie(num: seq<Word>, denom: seq<Word>)
    requires Canonical(denom) && denom != []
  {
    Scaled(denom, denom) > 0 && Ties(Scaled(num, denom), Scaled(denom, denom), ScaledTo(denom) - 1)
  }

  function Scaled(num: seq<Word>, denom: seq<Word>): nat
    requires Canonical(denom) && denom != []
  {
    MulNonNegative(Mag(num), Scale(denom));
    Mag(num) * Scale(denom)
  }

  ghost predicate Misdivides(num: seq<Word>, denom: seq<Word>)
    requires Canonical(denom)
  {
    IsLong(num, denom) && denom[|denom| - 1] >= 0x1_0000_0000 && HasTie(num, denom)
  }

  /** A zero remainder has to be scaled back twice. */
  ghost predicate Overruns(num: seq<Word>, denom: seq<Word>)
    requires Canonical(denom)
  {
    IsLong(num, denom) && denom[|denom| - 1] >= 0x1_0000_0000 &&
    IsScaledTwice(denom) && !HasTie(num, denom) && IsMultiple(Mag(num), Mag(denom))
  }

  predicate IsMultiple(m: nat, d: nat) {
    d > 0 && m % d == 0
  }

  /**
   Ties happen: 2^191 divided by 2^127 + 1 is one, and there the quotient is not 2^64 - 1.
   Neither number is scaled, and the divisor's top word comes up as the remainder's.
   */
  lemma TieHappens()
    ensures Canonical([0, 0, 0x8000_0000_0000_0000]) && Canonical([1, 0x8000_0000_0000_0000])
    ensures Misdivides([0, 0, 0x8000_0000_0000_0000], [1, 0x8000_0000_0000_0000])
  {
    var num: seq<Word>, denom: seq<Word> := [0, 0, 0x8000_0000_0000_0000], [1, 0x8000_0000_0000_0000];
    assert num[1..] == [0, 0x8000_0000_0000_0000];
    MagTwo(1, 0x8000_0000_0000_0000);
    MagTwo(0, 0x8000_0000_0000_0000);
    var m, d := Mag(num), Mag(denom);
    assert m == 0x8000_0000_0000_0000 * 0x1_0000_0000_0000_0000 * 0x1_0000_0000_0000_0000;
    assert d == 0x8000_0000_0000_0000 * 0x1_0000_0000_0000_0000 + 1;
    SecondNeeded(denom, 1);
    assert Pow2(0) == 1 && BitsToTop(0x8000_0000_0000_0000) == 0;
    assert Scale(denom) == 1 && ScaledTo(denom) == 2;
    assert Pow(1) == 0x1_0000_0000_0000_0000;
    assert TieAt(m, d, 1, 1);
  }

  /**
   A number of several words divided by itself, with the remainder wanted, overruns exactly
   if the number has to be scaled twice.
   */
  lemma SelfOverruns(x: seq<Word>)
    requires Canonical(x) && |x| >= 2
    ensures Overruns(x, x) <==> x[|x| - 1] >= 0x1_0000_0000 && IsScaledTwice(x)
  {
    if x[|x| - 1] >= 0x1_0000_0000 && IsScaledTwice(x) {
      MagZeroOnlyEmpty(x);
      hide Mag;
      hide Scale;
      hide IsScaledTwice;
      hide Normalized;
      assert IsMultiple(Mag(x), Mag(x)) by { QuotientUnique(Mag(x), 1, 0, Mag(x)); }
      SelfTieFree(x);
    }
  }

  /** Such a number: its second word is above its top word, which has the top bit. */
  lemma OverrunHappens()
    ensures Canonical([0xFFFF_FFFF_FFFF_FFFF, 0x8000_0000_0000_0000])
    ensures Overruns([0xFFFF_FFFF_FFFF_FFFF, 0x8000_0000_0000_0000], [0xFFFF_FFFF_FFFF_FFFF, 0x8000_0000_0000_0000])
  {
    var x: seq<Word> := [0xFFFF_FFFF_FFFF_FFFF, 0x8000_0000_0000_0000];
    SecondNeeded(x, 1);
    assert Pow2(0) == 1 && BitsToTop(0x8000_0000_0000_0000) == 0;
    assert IsScaledTwice(x);
    SelfOverruns(x);
  }

  /** And one whose normalizing shifts too far: 2^64, divided by itself or into anything larger. */
  lemma ShiftTooFarHappens(num: seq<Word>)
    requires Mag(num) >= 0x1_0000_0000_0000_0000
    ensures Canonical([0, 1]) && ShiftsTooFar(num, [0, 1])
  {
    MagTwo(0, 1);
  }

  lemma SelfTieFree(x: seq<Word>)
    requires Canonical(x) && x != []
    ensures !HasTie(x, x)
  {
    ScaledIsLong(x);
    var d, l := Scaled(x, x), ScaledTo(x) - 1;
    hide Scaled;
    hide ScaledTo;
    forall j: nat | j > 0
      ensures d > 0 && !TieAt(d, d, l, j)
    {
      NoSelfTie(d, l, j);
    }
  }

  lemma NoSelfTie(d: nat, l: nat, j: nat)
    requires j > 0 && d >= Pow(l)
    ensures d > 0 && !TieAt(d, d, l, j)
  {
    var p, u, t := Pow(l), Upper(d, j), d / Pow(l);
    PowMonotone(1, j);
    assert Pow(1) == 0x1_0000_0000_0000_0000;
    RemainderBelow(u, d);
    UpperSmall(d, Pow(j), u);
    hide Pow;
    QuotientAtLeast(d, p, 1);
    DivisionFacts(d, p);
    DivisionFacts(u % d, p);
    MulMonotone(1, t, p);
    if (u % d) / p == t {
      assert false;
    }
  }

  lemma UpperSmall(d: nat, p: nat, u: nat)
    requires p >= 0x1_0000_0000_0000_0000 && u == d / p
    ensures 2 * u <= d
  {
    DivisionFacts(d, p);
    MulMonotone(2, p, u);
  }

  /** The scaled divisor has as many words as it is taken to have. */
  lemma ScaledIsLong(x: seq<Word>)
    requires Canonical(x) && x != []
    ensures Scaled(x, x) >= Pow(ScaledTo(x) - 1)
  {
    var n := |x| - 1;
    var low, p := TopWord(x);
    var b := Pow2(BitsToTop(x[n]));
    TopBit(x[n]);
    assert Pow(n + 1) == 0x1_0000_0000_0000_0000 * p;
    assert Scale(x) == b * (if IsScaledTwice(x) then 0xFFFF_FFFF_FFFF_FFFF else 1);
    LongStep(low, x[n], p, b, Mag(x), IsScaledTwice(x), Scale(x), Scaled(x, x));
  }

  lemma LongStep(low: nat, top: nat, p: nat, b: nat, m: nat, second: bool, f: nat, scaled: nat)
    requires m == low + top * p && p >= 1 && top * b >= 0x8000_0000_0000_0000
    requires f == b * (if second then 0xFFFF_FFFF_FFFF_FFFF else 1) && scaled == m * f
    ensures scaled >= if second then 0x1_0000_0000_0000_0000 * p else p
  {
    var once := m * b;
    assert once == low * b + (top * b) * p;
    MulNonNegative(low, b);
    MulMonotone(0x8000_0000_0000_0000, top * b, p);
    if second {
      MulAssoc(m, b, 0xFFFF_FFFF_FFFF_FFFF);
    } else {
      assert f == b;
    }
  }

  lemma {:induction false} TopBit(top: nat)
    requires top > 0
    ensures top * Pow2(BitsToTop(top)) >= 0x8000_0000_0000_0000
    decreases 0x8000_0000_0000_0000 - top
  {
    if top < 0x8000_0000_0000_0000 {
      TopBit(2 * top);
      var e := Pow2(BitsToTop(2 * top));
      assert top * (2 * e) == (2 * top) * e;
    } else {
      assert Pow2(0) == 1;
    }
  }

  /** Division with signs: the quotient is rounded toward zero, the remainder has the sign of the dividend. */
  method DivideSigned(num: seq<Word>, numNeg: bool, denom: seq<Word>, denomNeg: bool, remDesired: bool)
    returns (result: DivideResult, quot: seq<Word>, quotNeg: bool, rem: seq<Word>, remNeg: bool)
    requires Canonical(num) && (num == [] ==> !numNeg) && Canonical(denom) && denom != [] && Mag(denom) > 0
    ensures result != ZeroDivide && (result == UndefinedShift <==> ShiftsTooFar(num, denom))
    ensures result == Overrun <==> remDesired && Overruns(num, denom)
    ensures result != UndefinedShift ==> Canonical(quot)
    ensures result != UndefinedShift ==>
      (Signed(quotNeg, Mag(quot)) == Truncated(Signed(numNeg, Mag(num)), Signed(denomNeg, Mag(denom))) <==> !Misdivides(num, denom))
    ensures result != UndefinedShift && !Misdivides(num, denom) ==> (quot == [] ==> !quotNeg)
    ensures remNeg == numNeg
    ensures remDesired && result == Divided ==> Canonical(rem) && (Mag(rem) < Mag(denom) <==> !Misdivides(num, denom))
    ensures remDesired && result == Divided && !Misdivides(num, denom) ==>
      Signed(numNeg, Mag(num)) == Signed(quotNeg, Mag(quot)) * Signed(denomNeg, Mag(denom)) + Signed(remNeg, Mag(rem))
  {
    hide Mag;
    hide HasTie;
    hide IsScaledTwice;
    quotNeg, remNeg := numNeg != denomNeg, numNeg;
    MagZeroOnlyEmpty(num);
    DivisionFacts(Mag(num), Mag(denom));
    SignedDivision(remNeg, Mag(num), denomNeg, Mag(denom), Mag(num) / Mag(denom), Mag(num) % Mag(denom));
    QuotientPositive(Mag(num), Mag(denom));
    var order := CompareWords(num, denom);
    if order < 0 {
      result, quot, rem, quotNeg := Divided, [], num, false;
      MagZeroOnlyEmpty([]);
    } else {
      result, quot, rem := DivideMagnitudes(num, denom, remDesired);
      if result != UndefinedShift {
        MagZeroOnlyEmpty(quot);
      }
    }
  }

  lemma QuotientPositive(m: nat, d: nat)
    requires 0 < d
    ensures m / d > 0 <==> d <= m
    ensures m < d ==> m % d == m
  {
    DivisionFacts(m, d);
    NonZeroProduct(m / d, d);
  }

  /** The division paths of the source for a dividend that is not below its divisor. */
  method DivideMagnitudes(num: seq<Word>, denom: seq<Word>, remDesired: bool)
    returns (result: DivideResult, quot: seq<Word>, rem: seq<Word>)
    requires Canonical(num) && Canonical(denom) && denom != [] && 0 < Mag(denom) <= Mag(num)
    ensures result != ZeroDivide && (result == UndefinedShift <==> ShiftsTooFar(num, denom))
    ensures result == Overrun <==> remDesired && Overruns(num, denom)
    ensures result != UndefinedShift ==> Canonical(quot) && (Mag(quot) == Mag(num) / Mag(denom) <==> !Misdivides(num, denom))
    ensures remDesired && result == Divided ==> Canonical(rem) && (Mag(rem) < Mag(denom) <==> !Misdivides(num, denom))
    ensures remDesired && result == Divided && !Misdivides(num, denom) ==> Mag(rem) == Mag(num) % Mag(denom)
  {
    if |denom| == 1 && (|num| == 1 || denom[0] < 0x1_0000_0000) {
      result := Divided;
      quot, rem := DivideShort(num, denom);
      RemainderBelow(Mag(num), Mag(denom));
    } else {
      hide Mag;
      hide HasTie;
      hide IsScaledTwice;
      result, quot, rem := DivideLong(num, denom, remDesired);
      if |denom| == 1 { ShortNeverTies(num, denom); }
    }
  }

  /** The two short ways: one word by one, and any number by a half word. */
  method DivideShort(num: seq<Word>, denom: seq<Word>) returns (quot: seq<Word>, rem: seq<Word>)
    requires |denom| == 1 && denom[0] != 0 && Mag(denom) > 0 && num != [] && (|num| == 1 || denom[0] < 0x1_0000_0000)
    ensures Canonical(quot) && Mag(quot) == Mag(num) / Mag(denom)
    ensures Canonical(rem) && Mag(rem) == Mag(num) % Mag(denom)
  {
    var divisor := denom[0];
    assert denom == [divisor];
    MagSingle(divisor);
    if |num| == 1 {
      assert num == [num[0]];
      MagSingle(num[0]);
      DivisionFacts(num[0], divisor);
      quot, rem := Single(num[0] / divisor), Single(num[0] % divisor);
      SingleValue(num[0] / divisor);
      SingleValue(num[0] % divisor);
    } else {
      var dHi;
      quot, dHi := DivideByHalfWord(num, divisor);
      QuotientUnique(Mag(num), Mag(quot), dHi, divisor);
      quot := Trim(quot);
      rem := Single(dHi);
      SingleValue(dHi);
    }
  }

  lemma ShortNeverTies(num: seq<Word>, denom: seq<Word>)
    requires |denom| == 1 && Canonical(denom)
    ensures !IsScaledTwice(denom) && !HasTie(num, denom)
  {
    if Scaled(denom, denom) > 0 {
      OneWordNeverTies(Scaled(num, denom), Scaled(denom, denom));
    }
  }

  /** The quotient rounded toward zero. */
  function Truncated(x: int, d: int): int
    requires d != 0
  {
    var ax: int, ad: int := if x < 0 then -x else x, if d < 0 then -d else d;
    if (x < 0) == (d < 0) then ax / ad else -(ax / ad)
  }

  function Single(u: Word): (s: seq<Word>)
    ensures Canonical(s) && |s| <= 1
  {
    if u != 0 then [u] else []
  }

  lemma SingleValue(u: Word)
    ensures Mag(Single(u)) == u
  {
    MagSingle(u);
  }

  /** The last path of divide: normalize, the digit loop, and the remainder scaled back. */
  method DivideLong(num: seq<Word>, denom: seq<Word>, remDesired: bool)
    returns (result: DivideResult, quot: seq<Word>, rem: seq<Word>)
    requires Canonical(num) && Canonical(denom) && denom != [] && 0 < Mag(denom) <= Mag(num)
    ensures result != ZeroDivide && (result == UndefinedShift <==> denom[|denom| - 1] < 0x1_0000_0000)
    ensures result == Overrun <==> denom[|denom| - 1] >= 0x1_0000_0000 && remDesired &&
                                   IsScaledTwice(denom) && !HasTie(num, denom) && IsMultiple(Mag(num), Mag(denom))
    ensures result != UndefinedShift ==> Canonical(quot) && (Mag(quot) == Mag(num) / Mag(denom) <==> !HasTie(num, denom))
    ensures remDesired && result == Divided ==> Canonical(rem) && (Mag(rem) < Mag(denom) <==> !HasTie(num, denom))
    ensures remDesired && result == Divided && !HasTie(num, denom) ==> Mag(rem) == Mag(num) % Mag(denom)
  {
    hide Mag;
    hide HasTie;
    hide IsScaledTwice;
    hide Scale;
    hide Factor;
    var x, second;
    result, quot, rem, x, second := DivideScaled(num, denom);
    if result == Divided && remDesired {
      ghost var r := Mag(rem);
      if second {
        var ok;
        ok, rem := DivideByMax(rem);
        if !ok {
          return Overrun, quot, rem;
        }
      }
      ghost var once := Mag(rem);
      rem := Unshift(rem, x);
      FactorIs(x, second);
      BackTwice(r, once, Pow2(x), second, Scale(denom), Mag(rem));
      RemainderBelow(Mag(num), Mag(denom));
    }
  }

  lemma FactorIs(x: nat, second: bool)
    ensures Factor(x, second) == Pow2(x) * (if second then 0xFFFF_FFFF_FFFF_FFFF else 1)
  {
  }

  /** Dividend and divisor scaled, and divided; the remainder is still scaled. */
  method DivideScaled(num: seq<Word>, denom: seq<Word>)
    returns (result: DivideResult, quot: seq<Word>, rem: seq<Word>, x: nat, second: bool)
    requires Canonical(denom) && denom != [] && 0 < Mag(denom) <= Mag(num)
    ensures result == Divided || result == UndefinedShift
    ensures result == UndefinedShift <==> denom[|denom| - 1] < 0x1_0000_0000
    ensures result == Divided ==> x <= 31 && Factor(x, second) == Scale(denom) && second == IsScaledTwice(denom)
    ensures result == Divided ==> Canonical(quot) && (Mag(quot) == Mag(num) / Mag(denom) <==> !HasTie(num, denom))
    ensures result == Divided && !HasTie(num, denom) ==>
      Mag(rem) / Scale(denom) == Mag(num) % Mag(denom) && (Mag(rem) == 0 <==> IsMultiple(Mag(num), Mag(denom)))
    ensures result == Divided && HasTie(num, denom) ==> Mag(rem) > 0 && Mag(rem) / Scale(denom) >= Mag(denom)
  {
    hide Mag;
    hide IsScaledTwice;
    hide Factor;
    hide Normalized;
    hide HasTie;
    hide Scale;
    var defined, denom', num';
    quot, rem := [], [];
    defined, denom', num', x, second := Normalize(denom, num);
    if !defined {
      return UndefinedShift, quot, rem, x, second;
    }
    LongEnough(Mag(num), Mag(denom), Scale(denom), num', denom');
    ScaledTie(num, denom, num', denom');
    quot, rem := DivideWords(num', denom');
    quot := Trim(quot);
    LongResult(num, denom, Mag(quot), Mag(rem));
    result := Divided;
  }

  lemma ScaledTie(num: seq<Word>, denom: seq<Word>, num': seq<Word>, denom': seq<Word>)
    requires Canonical(denom) && denom != [] && |denom'| == ScaledTo(denom) && Mag(denom) > 0
    requires Mag(num') == Mag(num) * Scale(denom) && Mag(denom') == Mag(denom) * Scale(denom)
    ensures Mag(num') == Scaled(num, denom) && Mag(denom') == Scaled(denom, denom) > 0
    ensures HasTie(num, denom) <==> Ties(Mag(num'), Mag(denom'), |denom'| - 1)
  {
    hide Mag;
    hide Scale;
    hide Ties;
    hide ScaledTo;
    StrictlyBelow(0, Mag(denom), Scale(denom));
    assert 0 * Scale(denom) == 0;
  }

  /** The remainder shifted back and reduced. */
  method Unshift(rem0: seq<Word>, x: nat) returns (rem: seq<Word>)
    requires x <= 31
    ensures Canonical(rem) && Mag(rem) == Mag(rem0) / Pow2(x)
  {
    if x > 0 {
      var defined;
      defined, rem := ShiftRight(rem0, x);
    } else {
      rem := Trim(rem0);
    }
  }

  /**
   /= by the largest word, which undoes the second scaling. The number comes unreduced, so it
   takes the long way; if it is zero, its reduction leaves no word for the loop to start from.
   */
  method DivideByMax(x: seq<Word>) returns (ok: bool, quot: seq<Word>)
    ensures ok <==> Mag(x) > 0
    ensures ok ==> Canonical(quot) && Mag(quot) == Mag(x) / 0xFFFF_FFFF_FFFF_FFFF
  {
    var max: seq<Word> := [0xFFFF_FFFF_FFFF_FFFF];
    MagSingle(0xFFFF_FFFF_FFFF_FFFF);
    var defined, denom, num, shift, second := Normalize(max, x);
    OneWordScale(max);
    MagZeroOnlyEmpty(num);
    ok := num != [];
    quot := [];
    if ok {
      var rem;
      quot, rem := DivideWords(num, denom);
      OneWordNeverTies(Mag(num), Mag(denom));
      QuotientUnique(Mag(num), Mag(quot), Mag(rem), Mag(denom));
      quot := Trim(quot);
    }
  }

  lemma OneWordScale(max: seq<Word>)
    requires max == [0xFFFF_FFFF_FFFF_FFFF] && Canonical(max)
    ensures Scale(max) == 1 && ScaledTo(max) == 1
  {
    assert BitsToTop(0xFFFF_FFFF_FFFF_FFFF) == 0;
    assert !IsScaledTwice(max);
  }

  lemma LongEnough(m: nat, d: nat, f: nat, num: seq<Word>, denom: seq<Word>)
    requires d <= m && Mag(num) == m * f && Mag(denom) == d * f && Normalized(denom)
    ensures |num| >= |denom|
  {
    MulMonotone(d, m, f);
    if |num| < |denom| {
      LongerIsLarger(num, denom);
      assert false;
    }
  }

  /** What the digit loop on the scaled numbers says of the numbers themselves. */
  lemma LongResult(num: seq<Word>, denom: seq<Word>, q: nat, r: nat)
    requires Canonical(denom) && denom != [] && Mag(denom) > 0 && Scaled(denom, denom) > 0
    requires !HasTie(num, denom) ==> Scaled(num, denom) == r + q * Scaled(denom, denom) && r < Scaled(denom, denom)
    requires HasTie(num, denom) ==> q < Scaled(num, denom) / Scaled(denom, denom) && r >= Scaled(denom, denom)
    ensures q == Mag(num) / Mag(denom) <==> !HasTie(num, denom)
    ensures !HasTie(num, denom) ==> r / Scale(denom) == Mag(num) % Mag(denom) && (r == 0 <==> IsMultiple(Mag(num), Mag(denom)))
    ensures HasTie(num, denom) ==> r > 0 && r / Scale(denom) >= Mag(denom)
  {
    var m, d, f := Mag(num), Mag(denom), Scale(denom);
    hide Mag;
    hide HasTie;
    hide Scale;
    if HasTie(num, denom) {
      DivisionFacts(m, d);
      ScaledDivision(m, d, f);
      QuotientAtLeast(r, f, d);
    } else {
      Unscale(m, d, f, q, r);
      NonZeroProduct(m % d, f);
    }
  }

  lemma ScaledDivision(m: nat, d: nat, f: nat)
    requires d > 0 && f > 0
    ensures d * f > 0 && (m * f) / (d * f) == m / d
  {
    var q, r := m / d, m % d;
    DivisionFacts(m, d);
    assert m * f == q * (d * f) + r * f by { assert (q * d + r) * f == q * d * f + r * f; assert q * d * f == q * (d * f); }
    MulNonNegative(r, f);
    StrictlyBelow(r, d, f);
    QuotientUnique(m * f, q, r * f, d * f);
  }

  /** Dividing by the two factors one after the other divides by the scale. */
  lemma BackTwice(r: nat, once: nat, p: nat, second: bool, f: nat, result: nat)
    requires p >= 1 && f == p * (if second then 0xFFFF_FFFF_FFFF_FFFF else 1)
    requires once == (if second then r / 0xFFFF_FFFF_FFFF_FFFF else r) && result == once / p
    ensures result == r / f
  {
    if second {
      var low := r % 0xFFFF_FFFF_FFFF_FFFF;
      DivisionFacts(r, 0xFFFF_FFFF_FFFF_FFFF);
      TwoQuotients(r, low, 0xFFFF_FFFF_FFFF_FFFF, once, p);
    }
  }

  /** A division of scaled numbers has the same quotient, and the scaled remainder. */
  lemma Unscale(m: nat, d: nat, f: nat, q: nat, r: nat)
    requires d > 0 && f > 0 && m * f == r + q * (d * f) && r < d * f
    ensures q == m / d && r == (m % d) * f && r / f == m % d
  {
    var k := m - q * d;
    assert k * f == r by { assert k * f == m * f - q * d * f; assert q * d * f == q * (d * f); }
    Unscaled(k, d, f, r);
    QuotientUnique(m, q, k, d);
    QuotientUnique(r, k, 0, f);
  }

  lemma Unscaled(k: int, d: nat, f: nat, r: nat)
    requires f > 0 && k * f == r < d * f
    ensures 0 <= k < d
  {
    if k < 0 {
      MulMonotone(k, -1, f);
      assert false;
    }
    if k >= d {
      MulMonotone(d, k, f);
      assert false;
    }
  }

  /** The signs given to quotient and remainder make a division rounded toward zero. */
  lemma SignedDivision(xNeg: bool, m: int, dNeg: bool, d: int, q: int, r: int)
    requires m >= 0 && q >= 0 && d > 0 && m == q * d + r && 0 <= r < d && (xNeg ==> m > 0)
    ensures Truncated(Signed(xNeg, m), Signed(dNeg, d)) == Signed(xNeg != dNeg, q)
    ensures Signed(xNeg, m) == Signed(xNeg != dNeg, q) * Signed(dNeg, d) + Signed(xNeg, r)
  {
    QuotientUnique(m, q, r, d);
    NegativeProduct(q, d);
    NegativeProduct(q, -d);
  }

  /**
   How a division ends: UndefinedShift and Overrun stand for undefined behaviour of the source,
   a shift beyond the width of an int and a loop over 2^64 - 1 words.
   */
  datatype DivideResult = Divided | ZeroDivide | UndefinedShift | Overrun

  lemma NegativeProduct(m: int, y: int)
    ensures (-m) * y == -(m * y) && m * (-y) == -(m * y)
  {
  }

  lemma NonZeroProduct(a: int, b: int)
    ensures a * b == 0 <==> a == 0 || b == 0
  {
  }

  lemma MagZeroOnlyEmpty(s: seq<Word>)
    requires Canonical(s)
    ensures Mag(s) == 0 <==> s == []
  {
    if s != [] {
      MagLower(s);
    }
  }

  lemma SignedProduct(n1: bool, m1: int, n2: bool, m2: int)
    ensures Signed(n1, m1) * Signed(n2, m2) == Signed(n1 != n2, m1 * m2)
  {
    NegativeProduct(m1, m2);
    NegativeProduct(m1, -m2);
  }

  /** Whether a product of two words overflowed shows in dividing it back. */
  lemma OverflowShows(a: Word, b: Word)
    requires a != 0
    ensures Wrap((a as int) * (b as int)) / a == b <==> (a as int) * (b as int) < 0x1_0000_0000_0000_0000
  {
    var p, w := (a as int) * (b as int), Wrap((a as int) * (b as int));
    MulNonNegative(a, b);
    var k := w / a;
    assert k * a <= w;
    if p < 0x1_0000_0000_0000_0000 {
      QuotientUnique(p, b, 0, a);
    } else if k >= b {
      MulMonotone(b, k, a);
      assert false;
    }
  }

  /** The product of two one-word numbers: one word, or two when dividing back shows an overflow. */
  method MultiplySingles(a: Word, b: Word, ghost x: seq<Word>, ghost y: seq<Word>) returns (data: seq<Word>)
    requires a != 0 && b != 0 && x == [a] && y == [b]
    ensures Canonical(data) && Mag(data) == Mag(x) * Mag(y) && |data| <= 2
  {
    MagSingle(a);
    MagSingle(b);
    OverflowShows(a, b);
    NonZeroProduct(a, b);
    MulNonNegative(a, b);
    var w := Wrap((a as int) * (b as int));
    data := [w];
    MagSingle(w);
    if w / a != b {
      var hi, lo := DDProduct(a, b);
      data := [lo, hi];
      MagTwo(lo, hi);
    }
  }
}
