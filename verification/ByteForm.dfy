/** The sign and big-endian bytes of a bignum, as CBOR carries them, and powers. */
module ByteForm {
  import opened Words
  import opened Bignums

  type Byte = b: int | 0 <= b < 256

  /** The shortest big-endian bytes of n; zero is one byte. */
  function BytesOf(n: nat): (s: seq<Byte>)
    ensures s != []
  {
    if n < 256 then [n] else BytesOf(n / 256) + [n % 256]
  }

  /** The number of big-endian bytes. */
  function Fold(s: seq<Byte>): nat {
    if s == [] then 0 else Fold(s[..|s| - 1]) * 256 + s[|s| - 1]
  }

  function Reversed(s: seq<Byte>): (r: seq<Byte>)
    ensures |r| == |s|
  {
    if s == [] then [] else Reversed(s[1..]) + [s[0]]
  }

  lemma {:induction false} ReversedSnoc(s: seq<Byte>, b: Byte)
    ensures Reversed(s + [b]) == [b] + Reversed(s)
  {
    if s != [] {
      ReversedSnoc(s[1..], b);
      assert (s + [b])[1..] == s[1..] + [b];
    }
  }

  /** What is stored for an integer: section 2.4.2 of RFC 7049 stores -1 - n for a negative n. */
  function Sign(x: int): int { if x < 0 then -1 else 1 }
  function Stored(x: int): nat { if x < 0 then -1 - x else x }

  /** What the byte constructor makes of a sign and bytes. */
  function Loaded(signum: int, s: seq<Byte>): int {
    if s == [] then 0 else if signum == -1 then -1 - Fold(s) else Fold(s)
  }

  lemma {:induction false} FoldBytes(n: nat)
    ensures Fold(BytesOf(n)) == n
  {
    if n < 256 {
      assert [n as Byte][..0] == [];
      assert Fold([n]) == n;
    } else {
      var s := BytesOf(n / 256) + [n % 256];
      assert s[..|s| - 1] == BytesOf(n / 256);
      FoldBytes(n / 256);
    }
  }

  /** The byte form loses nothing, for every integer. */
  lemma ByteRoundTrip(x: int)
    ensures Loaded(Sign(x), BytesOf(Stored(x))) == x
  {
    FoldBytes(Stored(x));
  }

  /** No leading zero byte, except the single byte of zero. */
  lemma {:induction false} ShortestBytes(n: nat)
    ensures BytesOf(n)[0] == 0 <==> n == 0
  {
    if n >= 256 {
      ShortestBytes(n / 256);
    }
  }

  method Dump(x: Bignum) returns (signum: int, data: seq<Byte>)
    requires x.Valid()
    ensures signum == Sign(x.Value()) && data == BytesOf(Stored(x.Value()))
  {
    var n := new Bignum.Copy(x);
    MagZeroOnlyEmpty(x.data);
    if x.neg {
      signum := -1;
      n := new Bignum.Negated(n);
      var one := new Bignum.FromInt64(1);
      n.SubAssign(one);
    } else {
      signum := 1;
    }
    data := DumpBytes(n);
    data := Reversed(data);
  }

  /** The bytes of a non-negative number, lowest first; n is divided down. */
  method DumpBytes(n: Bignum) returns (data: seq<Byte>)
    requires n.Valid() && n.Value() >= 0
    modifies n
    ensures Reversed(data) == BytesOf(old(n.Value()))
  {
    ghost var m := n.Value();
    var divisor := new Bignum.FromInt64(256);
    LowWord(divisor.data);
    data := [];
    while true
      invariant fresh(divisor) && n != divisor && n.Valid() && divisor.Valid()
      invariant divisor.Value() == 256 && |divisor.data| <= 1 && n.Value() >= 0
      invariant BytesOf(m) == BytesOf(n.Value()) + Reversed(data)
      decreases n.Value()
    {
      var order := n.Compare(divisor);
      if order < 0 {
        break;
      }
      var b := TakeByte(n, divisor);
      ReversedSnoc(data, b);
      data := data + [b];
    }
    MagZeroOnlyEmpty(n.data);
    LowWord(n.data);
    var b: Byte := if |n.data| > 0 then n.data[0] % 256 else 0;
    ReversedSnoc(data, b);
    data := data + [b];
  }

  method TakeByte(n: Bignum, divisor: Bignum) returns (b: Byte)
    requires n.Valid() && n.Value() >= 256 && n != divisor
    requires divisor.Valid() && divisor.Value() == 256 && |divisor.data| <= 1
    modifies n
    ensures n.Valid() && n.Value() == old(n.Value()) / 256
    ensures b == old(n.Value()) % 256
  {
    var q := new Bignum.FromWord(0);
    var r := new Bignum.FromWord(0);
    ghost var w := n.Value();
    var result := n.DivideBy(divisor, q, r, true);
    ByteTaken(w, q.Value(), r.neg, r.data);
    n.Assign(q);
    b := if |r.data| > 0 then r.data[0] % 256 else 0;
  }

  lemma LowWord(s: seq<Word>)
    requires Canonical(s) && Mag(s) < 0x1_0000_0000_0000_0000
    ensures |s| <= 1 && Mag(s) == if |s| > 0 then s[0] else 0
  {
    assert Pow(1) == 0x1_0000_0000_0000_0000;
    if |s| > 1 {
      PowMonotone(1, |s| - 1);
      MagLower(s);
    } else if |s| == 1 {
      assert s == [s[0]];
      MagSingle(s[0]);
    }
  }

  lemma ByteTaken(w: int, q: int, remNeg: bool, rem: seq<Word>)
    requires w >= 0 && q == Truncated(w, 256) && !remNeg
    requires w == q * 256 + Signed(remNeg, Mag(rem)) && Canonical(rem) && Mag(rem) < 256
    ensures q == w / 256 && w % 256 == if |rem| > 0 then rem[0] else 0
  {
    LowWord(rem);
  }

  method FromBytes(signum: int, s: seq<Byte>) returns (x: Bignum)
    ensures fresh(x) && x.Valid() && x.Value() == Loaded(signum, s)
  {
    x := new Bignum.FromWord(0);
    if |s| == 0 {
      return;
    }
    var i := 0;
    while i < |s|
      invariant i <= |s| && fresh(x) && x.Valid() && x.Value() == Fold(s[..i])
    {
      assert s[..i + 1][..i] == s[..i];
      x.MulInt64(256);
      var b := new Bignum.FromInt64(s[i]);
      x.AddAssign(b);
      i := i + 1;
    }
    assert s[..i] == s;
    if signum == -1 {
      var v := x;
      x := new Bignum.FromInt64(-1);
      x.SubAssign(v);
    }
  }

  /** A JSON value as far as it can hold a bignum: the bytes and which of the two kinds they are. */
  datatype Variant = PositiveBignum(bytes: seq<Byte>) | NegativeBignum(bytes: seq<Byte>) | OtherValue

  /** What as_bignum returns, or its exception. */
  datatype Read = NotABignum | Number(n: int)

  function VariantOf(n: int): Variant {
    if n < 0 then NegativeBignum(BytesOf(Stored(n))) else PositiveBignum(BytesOf(Stored(n)))
  }

  function NumberOf(v: Variant): Read {
    match v
    case PositiveBignum(s) => Number(Loaded(1, s))
    case NegativeBignum(s) => Number(Loaded(-1, s))
    case OtherValue => NotABignum
  }

  method ToVariant(x: Bignum) returns (v: Variant)
    requires x.Valid()
    ensures v == VariantOf(x.Value())
  {
    var signum, data := Dump(x);
    v := if signum == -1 then NegativeBignum(data) else PositiveBignum(data);
  }

  method AsBignum(v: Variant) returns (ok: bool, x: Bignum)
    ensures fresh(x) && x.Valid() && ok == (NumberOf(v) != NotABignum)
    ensures ok ==> NumberOf(v) == Number(x.Value())
  {
    ok := !v.OtherValue?;
    if ok {
      x := FromBytes(if v.NegativeBignum? then -1 else 1, v.bytes);
    } else {
      x := new Bignum.FromWord(0);
    }
  }

  /** Every integer put into a JSON value comes back from it. */
  lemma VariantRoundTrip(n: int)
    ensures NumberOf(VariantOf(n)) == Number(n)
  {
    ByteRoundTrip(n);
  }

  predicate Shortest(s: seq<Byte>) { s != [] && (|s| == 1 || s[0] != 0) }

  lemma {:induction false} FoldPositive(s: seq<Byte>)
    requires s != [] && s[0] != 0
    ensures Fold(s) > 0
  {
    if |s| > 1 {
      FoldPositive(s[..|s| - 1]);
    }
  }

  lemma {:induction false} BytesBack(s: seq<Byte>)
    ensures BytesOf(Fold(s)) == s <==> Shortest(s)
  {
    if |s| == 1 {
      assert s[..0] == [] && s == [s[0]];
    } else if Shortest(s) {
      FoldPositive(s[..|s| - 1]);
      BytesBack(s[..|s| - 1]);
      assert s == s[..|s| - 1] + [s[|s| - 1]];
    } else if s != [] {
      ShortestBytes(Fold(s));
    }
  }

  /** A stored bignum read and stored again is the same if and only if its bytes are the shortest. */
  lemma VariantStable(v: Variant)
    requires v != OtherValue
    ensures VariantOf(NumberOf(v).n) == v <==> Shortest(v.bytes)
  {
    BytesBack(v.bytes);
  }

  /** x to the n. */
  function Exp(x: int, n: nat): int {
    if n == 0 then 1 else x * Exp(x, n - 1)
  }

  lemma {:induction false} ExpTwice(x: int, n: nat)
    ensures Exp(x * x, n) == Exp(x, 2 * n)
  {
    if n != 0 {
      ExpTwice(x, n - 1);
      assert Exp(x, 2 * n) == x * Exp(x, 2 * n - 1);
      assert Exp(x, 2 * n - 1) == x * Exp(x, 2 * n - 2);
      MulAssoc(x, x, Exp(x, 2 * n - 2));
    }
  }

  /** One round of the power loop keeps y * x^n. */
  lemma PowerStep(y: int, x: int, n: nat)
    requires n > 0
    ensures y * Exp(x, n) == (if n % 2 == 1 then y * x else y) * Exp(x * x, n / 2)
  {
    ExpTwice(x, n / 2);
    if n % 2 == 1 {
      assert n == 2 * (n / 2) + 1;
      MulAssoc(y, x, Exp(x, n - 1));
    }
  }

  lemma TwoHalves(x: int, n: int, h: int, odd: int)
    requires n == 2 * h + odd && (odd == 0 || odd == 1)
    ensures x * n == 2 * (x * h) + (if odd == 1 then x else 0)
    ensures (2 * x) * h == 2 * (x * h)
  {
  }

  lemma AtLeastOne(x: int, n: int)
    requires 0 <= x && n > 0
    ensures x <= x * n
  {
    MulMonotone(1, n, x);
  }

  /** The words of x squared and of the product stay within the words of x^n. */
  lemma RoomStep(yl: int, yl': int, xl: int, xl': int, n: nat, total: int)
    requires 0 <= yl && 0 <= xl && n > 0 && 0 <= xl' <= 2 * xl
    requires yl + xl * n <= total && yl' <= if n % 2 == 1 then yl + xl else yl
    ensures yl' + xl' * (n / 2) <= total && xl <= total && yl <= total
  {
    var h, odd := n / 2, n % 2;
    MulMonotone(xl', 2 * xl, h);
    MulNonNegative(xl, h);
    TwoHalves(xl, n, h, odd);
    AtLeastOne(xl, n);
  }

  /** Powers by repeated squaring, while the words of the result can be counted in a size_t. */
  method Power(x0: Bignum, n0: nat) returns (y: Bignum)
    requires x0.Valid() && n0 < 0x1_0000_0000 && 1 + |x0.data| * n0 <= 0xFFFF_FFFF_FFFF_FFFF
    ensures fresh(y) && y.Valid() && y.Value() == Exp(x0.Value(), n0)
  {
    var x := new Bignum.Copy(x0);
    y := new Bignum.FromInt64(1);
    OneDigit(y.data);
    var n := n0;
    ghost var goal, total := Exp(x0.Value(), n0), 1 + |x0.data| * n0;
    while n != 0
      invariant fresh(x) && fresh(y) && x != y && x.Valid() && y.Valid()
      invariant y.Value() * Exp(x.Value(), n) == goal
      invariant |y.data| + |x.data| * n <= total <= 0xFFFF_FFFF_FFFF_FFFF
    {
      PowerStep(y.Value(), x.Value(), n);
      ghost var yl, xl := |y.data|, |x.data|;
      RoomStep(yl, yl, xl, 0, n, total);
      if n % 2 == 1 {
        y.MulAssign(x);
      }
      x.MulAssign(x);
      RoomStep(yl, |y.data|, xl, |x.data|, n, total);
      n := n / 2;
    }
  }

  lemma OneDigit(s: seq<Word>)
    requires Canonical(s) && Mag(s) == 1
    ensures |s| == 1
  {
    LowWord(s);
  }
}
