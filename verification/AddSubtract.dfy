/** The carry and borrow loops of the bignum, over the words of its operands. */
module AddSubtract {
  import opened Words

  /** A word plus a carry, and the new carry. */
  method AddCarry(x: Word, carry: int) returns (d: Word, carry': int)
    requires 0 <= carry <= 1
    ensures 0 <= carry' <= 1 && d + carry' * 0x1_0000_0000_0000_0000 == x + carry
    ensures carry' == 1 ==> d == 0
  {
    d := Wrap(x + carry);
    carry' := if d < carry then 1 else 0;
  }

  /** A further word added; after a carry the word before it is zero, so there is no second carry. */
  method AddWord(d: Word, y: Word, carry: int) returns (w: Word, carry': int)
    requires 0 <= carry <= 1 && (carry == 1 ==> d == 0)
    ensures 0 <= carry' <= 1
    ensures w + carry' * 0x1_0000_0000_0000_0000 == d + carry * 0x1_0000_0000_0000_0000 + y
  {
    w := Wrap(d + y);
    carry' := if w < d then 1 else carry;
  }

  /** The carry loop of +=, over the words of both numbers. */
  method AddWords(x: seq<Word>, y: seq<Word>) returns (data: seq<Word>)
    ensures Mag(data) == Mag(x) + Mag(y)
  {
    var n := (if |y| > |x| then |y| else |x|) + 1;
    ghost var ys := y + Zeros(n - |y|);
    MagZeroExtend(x, n - |x|);
    MagZeroExtend(y, n - |y|);
    data := x + Zeros(n - |x|);
    ghost var xs := data;
    ghost var total := Mag(xs) + Mag(ys);
    assert total == Mag(x) + Mag(y);
    assert total < Pow(n) by {
      HeadRoom(xs);
      HeadRoom(ys);
    }
    hide Mag;
    hide Pow;
    var carry: int := 0;
    var i := 0;
    while i < n
      invariant 0 <= i <= n == |data| && 0 <= carry <= 1
      invariant forall k :: i <= k < n ==> data[k] == xs[k]
      invariant IsSum(data, xs, ys, i, carry)
    {
      if i >= |y| && carry == 0 {
        break;
      }
      ghost var c := carry;
      var w;
      w, carry := AddCarry(data[i], carry);
      if i < |y| {
        w, carry := AddWord(w, y[i], carry);
      }
      assert ys[i] == if i < |y| then y[i] else 0;
      data := SetWord(data, i, w);
      IsSumStep(data, xs, ys, i, c, carry);
      i := i + 1;
    }
    if i < n {
      SumStops(data, xs, ys, i);
    } else {
      SumEnds(data, xs, ys, carry);
    }
  }

  /** A word minus a borrow, and the new borrow. */
  method SubtractBorrow(x: Word, borrow: int) returns (d: Word, borrow': int)
    requires 0 <= borrow <= 1
    ensures 0 <= borrow' <= 1 && d + borrow == x + borrow' * 0x1_0000_0000_0000_0000
    ensures borrow' == 1 ==> d == 0xFFFF_FFFF_FFFF_FFFF
  {
    d := Wrap(x - borrow);
    borrow' := if d > x then 1 else 0;
  }

  method SubtractWord(d: Word, y: Word, borrow: int) returns (w: Word, borrow': int)
    requires 0 <= borrow <= 1 && (borrow == 1 ==> d == 0xFFFF_FFFF_FFFF_FFFF)
    ensures 0 <= borrow' <= 1
    ensures w + y + borrow * 0x1_0000_0000_0000_0000 == d + borrow' * 0x1_0000_0000_0000_0000
  {
    w := Wrap(d - y);
    borrow' := if w > d then 1 else borrow;
  }

  /** The borrow loop of -=, for a subtrahend that is not larger. */
  method SubtractWords(x: seq<Word>, y: seq<Word>) returns (data: seq<Word>)
    requires |y| <= |x| && Mag(y) <= Mag(x)
    ensures Mag(data) == Mag(x) - Mag(y)
  {
    var n := |x|;
    ghost var ys := y + Zeros(n - |y|);
    MagZeroExtend(y, n - |y|);
    data := x;
    var borrow: int := 0;
    var i := 0;
    while i < n
      invariant 0 <= i <= n == |data| && 0 <= borrow <= 1
      invariant forall k :: i <= k < n ==> data[k] == x[k]
      invariant IsSum(x, data, ys, i, borrow)
    {
      if i >= |y| && borrow == 0 {
        break;
      }
      ghost var b := borrow;
      var w;
      w, borrow := SubtractBorrow(data[i], borrow);
      if i < |y| {
        w, borrow := SubtractWord(w, y[i], borrow);
      }
      assert ys[i] == if i < |y| then y[i] else 0;
      data := SetWord(data, i, w);
      IsSumStep(x, data, ys, i, b, borrow);
      i := i + 1;
    }
    if i < n {
      SumStops(x, data, ys, i);
    } else {
      DifferenceEnds(x, data, ys, borrow);
    }
  }
}
