/** The multiplication loops of the bignum, over the words of its operands. */
module Multiply {
  import opened Words
  import opened DoubleWord

  /** The low i words of s are the product of the low i words of x by y, up to a carry of c. */
  ghost predicate IsScaled(s: seq<Word>, x: seq<Word>, y: Word, i: nat, c: int)
    requires i <= |s| && i <= |x|
  {
    Mag(s[..i]) + c * Pow(i) == Mag(x[..i]) * y
  }

  lemma IsScaledStep(s: seq<Word>, x: seq<Word>, y: Word, i: nat, c: int, c': int)
    requires i < |s| && i < |x|
    requires IsScaled(s, x, y, i, c)
    requires s[i] + c' * 0x1_0000_0000_0000_0000 == x[i] * y + c
    ensures IsScaled(s, x, y, i + 1, c')
  {
    MagPrefix(s, i);
    MagPrefix(x, i);
    ScaleStep(Pow(i), Mag(s[..i]), Mag(x[..i]), x[i], y, c, s[i], c');
  }

  lemma ScaleStep(p: int, low: int, lx: int, x: int, y: int, c: int, w: int, c': int)
    requires low + c * p == lx * y
    requires w + c' * 0x1_0000_0000_0000_0000 == x * y + c
    ensures low + w * p + c' * (0x1_0000_0000_0000_0000 * p) == (lx + x * p) * y
  {
    assert (w + c' * 0x1_0000_0000_0000_0000) * p == w * p + c' * (0x1_0000_0000_0000_0000 * p);
    assert (x * y + c) * p == x * p * y + c * p;
    assert (lx + x * p) * y == lx * y + x * p * y;
  }

  lemma ProductBound(x: Word, y: Word)
    ensures 0 <= x * y <= 0xFFFF_FFFF_FFFF_FFFE_0000_0000_0000_0001
  {
    MulMonotone(0, x, y);
    MulMonotone(x, 0xFFFF_FFFF_FFFF_FFFF, y);
  }

  /** A product plus a carry, and the new carry. */
  method MultiplyAdd(x: Word, y: Word, carry: Word) returns (w: Word, carry': Word)
    ensures w + carry' * 0x1_0000_0000_0000_0000 == x * y + carry
  {
    var hi, lo := DDProduct(x, y);
    ProductBound(x, y);
    w := Wrap(lo + carry);
    carry' := hi + (if w < lo then 1 else 0);
  }

  /** Multiplication by one word, in place. */
  method ScaleWords(x: seq<Word>, y: Word) returns (data: seq<Word>)
    ensures |data| == |x| + 1 && Mag(data) == Mag(x) * y
  {
    data := x + [0];
    var carry: Word := 0;
    var i := 0;
    while i < |x|
      invariant 0 <= i <= |x| && |data| == |x| + 1
      invariant forall k :: i <= k < |x| ==> data[k] == x[k]
      invariant IsScaled(data, x, y, i, carry)
    {
      ghost var c := carry;
      var w;
      w, carry := MultiplyAdd(data[i], y, carry);
      data := SetWord(data, i, w);
      IsScaledStep(data, x, y, i, c, carry);
      i := i + 1;
    }
    data := SetWord(data, i, carry);
    MagPrefix(data, i);
    assert data[..i + 1] == data && x[..i] == x;
  }

  /** The product that word j of x and word i - j of y contribute to column i. */
  function Term(x: seq<Word>, y: seq<Word>, j: nat, i: nat): int
    requires j < |x|
  {
    if 0 <= i - j < |y| then (x[j] as int) * (y[i - j] as int) else 0
  }

  /** Column i of the schoolbook product, over the k low words of x. */
  function Column(x: seq<Word>, y: seq<Word>, k: nat, i: nat): int
    requires k <= |x|
  {
    if k == 0 then 0 else Column(x, y, k - 1, i) + Term(x, y, k - 1, i)
  }

  /** The n low columns at their places. */
  function Columns(x: seq<Word>, y: seq<Word>, k: nat, n: nat): int
    requires k <= |x|
  {
    if n == 0 then 0 else Columns(x, y, k, n - 1) + Column(x, y, k, n - 1) * Pow(n - 1)
  }

  /** The contributions of one word of x alone, at their places. */
  function Row(x: seq<Word>, y: seq<Word>, j: nat, n: nat): int
    requires j < |x|
  {
    if n == 0 then 0 else Row(x, y, j, n - 1) + Term(x, y, j, n - 1) * Pow(n - 1)
  }

  lemma {:induction false} ColumnsAddRow(x: seq<Word>, y: seq<Word>, k: nat, n: nat)
    requires k < |x|
    ensures Columns(x, y, k + 1, n) == Columns(x, y, k, n) + Row(x, y, k, n)
  {
    if n != 0 {
      ColumnsAddRow(x, y, k, n - 1);
      DistributeTerm(Column(x, y, k, n - 1), Term(x, y, k, n - 1), Pow(n - 1));
    }
  }

  lemma DistributeTerm(a: int, b: int, p: int)
    ensures (a + b) * p == a * p + b * p
  {
  }

  /** A row is one word of x times as much of y as the columns reach. */
  lemma {:induction false} RowValue(x: seq<Word>, y: seq<Word>, j: nat, n: nat)
    requires j < |x|
    ensures n <= j ==> Row(x, y, j, n) == 0
    ensures j <= n <= j + |y| ==> Row(x, y, j, n) == x[j] * Pow(j) * Mag(y[..n - j])
    ensures j + |y| <= n ==> Row(x, y, j, n) == x[j] * Pow(j) * Mag(y)
  {
    if n == 0 {
      assert j == 0 ==> Mag(y[..0]) == 0;
      assert y == [] ==> Mag(y) == 0;
    } else {
      RowValue(x, y, j, n - 1);
      if n <= j {
        if n == j { assert Mag(y[..0]) == 0; }
      } else if n <= j + |y| {
        var m := n - 1 - j;
        MagPrefix(y, m);
        PowAdd(j, m);
        RowStep(x[j], Pow(j), Mag(y[..m]), y[m], Pow(m));
        assert y[..|y|] == y;
      } else {
        assert y[..|y|] == y;
      }
      if j + |y| <= n {
        assert y[..|y|] == y;
        assert y == [] ==> Mag(y) == 0;
      }
    }
  }

  lemma RowStep(xj: int, pj: int, low: int, ym: int, pm: int)
    ensures xj * pj * low + xj * ym * (pj * pm) == xj * pj * (low + ym * pm)
  {
    assert xj * pj * (low + ym * pm) == xj * pj * low + xj * pj * (ym * pm);
    assert xj * pj * (ym * pm) == xj * ym * (pj * pm);
  }

  /** The columns add up to the product. */
  lemma {:induction false} ColumnsValue(x: seq<Word>, y: seq<Word>, k: nat, n: nat)
    requires k <= |x| && k + |y| <= n
    ensures Columns(x, y, k, n) == Mag(x[..k]) * Mag(y)
  {
    if k == 0 {
      assert x[..0] == [];
      EmptyColumns(x, y, n);
    } else {
      ColumnsValue(x, y, k - 1, n);
      ColumnsAddRow(x, y, k - 1, n);
      RowValue(x, y, k - 1, n);
      MagPrefix(x, k - 1);
      DistributeTerm(Mag(x[..k - 1]), x[k - 1] * Pow(k - 1), Mag(y));
    }
  }

  lemma {:induction false} EmptyColumns(x: seq<Word>, y: seq<Word>, n: nat)
    ensures Columns(x, y, 0, n) == 0
  {
    if n != 0 {
      EmptyColumns(x, y, n - 1);
    }
  }

  /** The three-word accumulator of a column. */
  function Triple(carry: int, hi: int, lo: int): int {
    carry * 0x1_0000_0000_0000_0000_0000_0000_0000_0000 + Double(hi, lo)
  }

  /** A double word added to the accumulator; carry counts the overflows of its high word. */
  method AddDouble(carry: Word, sumHi: Word, sumLo: Word, hi: Word, lo: Word)
    returns (carry': Word, sumHi': Word, sumLo': Word)
    requires hi <= 0xFFFF_FFFF_FFFF_FFFE && carry < 0xFFFF_FFFF_FFFF_FFFF
    ensures Triple(carry', sumHi', sumLo') == Triple(carry, sumHi, sumLo) + Double(hi, lo)
    ensures carry' <= carry + 1
  {
    sumLo' := Wrap(sumLo + lo);
    ghost var c := if sumLo' < sumLo then 1 else 0;
    assert sumLo' + c * 0x1_0000_0000_0000_0000 == sumLo + lo;
    sumHi' := sumHi;
    if sumLo' < sumLo {
      sumHi' := Wrap(sumHi' + 1);
    }
    sumHi' := Wrap(sumHi' + hi);
    carry' := carry + (if sumHi' < sumHi then 1 else 0);
    assert sumHi' + (carry' - carry) * 0x1_0000_0000_0000_0000 == sumHi + hi + c;
  }

  /** The inner loop: column i added to what the columns before it left over. */
  method AddColumn(x: seq<Word>, y: seq<Word>, i: nat, sumHi0: Word, sumLo0: Word)
    returns (carry: Word, sumHi: Word, sumLo: Word)
    requires |x| <= 0xFFFF_FFFF_FFFF_FFFF
    ensures Triple(carry, sumHi, sumLo) == Double(sumHi0, sumLo0) + Column(x, y, |x|, i)
  {
    carry, sumHi, sumLo := 0, sumHi0, sumLo0;
    var jA := 0;
    while jA < |x|
      invariant 0 <= jA <= |x| && carry <= jA
      invariant Triple(carry, sumHi, sumLo) == Double(sumHi0, sumLo0) + Column(x, y, jA, i)
    {
      var jB := i - jA;
      if 0 <= jB < |y| {
        ProductBound(x[jA], y[jB]);
        var hi, lo := DDProduct(x[jA], y[jB]);
        carry, sumHi, sumLo := AddDouble(carry, sumHi, sumLo, hi, lo);
      }
      jA := jA + 1;
    }
  }

  /** One word of the product split off the running sum of columns. */
  lemma ColumnStep(low: int, p: int, hi: int, lo: int, column: int, carry: int, hi': int, lo': int, total: int)
    requires low + Double(hi, lo) * p == total
    requires Triple(carry, hi', lo') == Double(hi, lo) + column
    ensures low + lo' * p + Double(carry, hi') * (0x1_0000_0000_0000_0000 * p) == total + column * p
  {
    assert (Double(hi, lo) + column) * p == Double(hi, lo) * p + column * p;
    assert Triple(carry, hi', lo') == Double(carry, hi') * 0x1_0000_0000_0000_0000 + lo';
    assert (Double(carry, hi') * 0x1_0000_0000_0000_0000 + lo') * p ==
           Double(carry, hi') * (0x1_0000_0000_0000_0000 * p) + lo' * p;
  }

  /** The schoolbook product, column by column, with a three-word accumulator. */
  method MultiplyWords(x: seq<Word>, y: seq<Word>) returns (data: seq<Word>)
    requires |x| <= 0xFFFF_FFFF_FFFF_FFFF
    ensures |data| == |x| + |y| && Mag(data) == Mag(x) * Mag(y)
  {
    var n := |x| + |y|;
    data := Zeros(n);
    var sumHi: Word, carry: Word := 0, 0;
    var i := 0;
    while i < n
      invariant 0 <= i <= n == |data|
      invariant Mag(data[..i]) + Double(carry, sumHi) * Pow(i) == Columns(x, y, |x|, i)
    {
      ghost var hi0, lo0 := carry, sumHi;
      var sumLo;
      carry, sumHi, sumLo := AddColumn(x, y, i, carry, sumHi);
      ColumnStep(Mag(data[..i]), Pow(i), hi0, lo0, Column(x, y, |x|, i), carry, sumHi, sumLo, Columns(x, y, |x|, i));
      data := SetWord(data, i, sumLo);
      MagPrefix(data, i);
      i := i + 1;
    }
    assert data[..n] == data && x[..|x|] == x;
    ColumnsValue(x, y, |x|, n);
    MagBound(x);
    MagBound(y);
    PowAdd(|x|, |y|);
    ProductBelow(Mag(x), Pow(|x|), Mag(y), Pow(|y|));
    NoCarry(Double(carry, sumHi), Pow(n), Mag(data), Mag(x) * Mag(y));
  }
}
