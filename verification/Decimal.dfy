/** The decimal text of a bignum: the digit writer, the reader, and their round trip. */
module Decimal {
  import opened Words
  import opened Shift
  import opened Bignums

  function DigitChar(d: int): char
    requires 0 <= d < 10
  {
    (48 + d) as char
  }

  /** The decimal digits of a natural number. */
  function Digits(n: nat): (s: string)
    ensures s != []
  {
    if n < 10 then [DigitChar(n)] else Digits(n / 10) + [DigitChar(n % 10)]
  }

  /** What the reader computes of any characters, digits or not. */
  function Fold(s: string): int {
    if s == [] then 0 else Fold(s[..|s| - 1]) * 10 + (CharValue(s[|s| - 1]) - 48)
  }

  /** A character of a text is a byte, and negative from 128 on, as a signed char is. */
  function CharValue(c: char): int {
    if c as int < 128 then c as int else c as int - 256
  }

  function Spaces(s: string): (k: nat)
    ensures k <= |s|
  {
    if s != [] && IsSpace(s[0]) then 1 + Spaces(s[1..]) else 0
  }

  /** isspace in the default locale. */
  predicate IsSpace(c: char) {
    c == ' ' || 9 <= c as int <= 13
  }

  /** The printed form of a sign and a magnitude. */
  function Text(neg: bool, m: nat): string {
    (if neg then "-" else "") + Digits(m)
  }

  /** The sign and the unsigned part the reader takes from a text. */
  function HasMinus(s: string): bool {
    var t := s[Spaces(s)..];
    t != [] && t[0] == '-'
  }

  function Unsigned(s: string): string {
    var t := s[Spaces(s)..];
    if t != [] && t[0] == '-' then t[1..] else t
  }

  lemma {:induction false} FoldDigits(n: nat)
    ensures Fold(Digits(n)) == n
  {
    if n < 10 {
      var s := [DigitChar(n)];
      assert s[..0] == [];
      assert Fold(s) == n;
    } else {
      var s := Digits(n / 10) + [DigitChar(n % 10)];
      assert s[..|s| - 1] == Digits(n / 10);
      FoldDigits(n / 10);
    }
  }

  /** Only digits are printed, and only zero starts with 0. */
  lemma {:induction false} PlainDigits(n: nat)
    ensures forall i :: 0 <= i < |Digits(n)| ==> '0' <= Digits(n)[i] <= '9'
    ensures Digits(n)[0] == '0' <==> n == 0
    ensures n == 0 ==> Digits(n) == "0"
  {
    if n >= 10 {
      PlainDigits(n / 10);
    }
  }

  /** The reader's view of a printed number is the number: the decimal round trip. */
  lemma TextRoundTrip(neg: bool, m: nat)
    ensures HasMinus(Text(neg, m)) == neg
    ensures Fold(Unsigned(Text(neg, m))) == m
  {
    FoldDigits(m);
    PlainDigits(m);
    var s := Text(neg, m);
    assert Spaces(s) == 0 && s[0..] == s;
    assert Unsigned(s) == Digits(m);
  }

  /** No two numbers print alike. */
  lemma TextInjective(neg: bool, m: nat, neg': bool, m': nat)
    requires Text(neg, m) == Text(neg', m')
    ensures neg == neg' && m == m'
  {
    TextRoundTrip(neg, m);
    TextRoundTrip(neg', m');
  }

  /** A number of e + 1 digits is at least 8^e. */
  lemma {:induction false} DigitsLower(n: nat)
    requires n > 0
    ensures Pow2(3 * (|Digits(n)| - 1)) <= n
  {
    if n >= 10 {
      DigitsLower(n / 10);
      var e := |Digits(n / 10)| - 1;
      assert |Digits(n)| - 1 == e + 1;
      assert 3 * (e + 1) == 3 * e + 3;
      Pow2Add(3, 3 * e);
      assert Pow2(3) == 8;
    }
  }

  /** The buffer size computed from the word count has room for every digit and a sign. */
  lemma BufferIsLargeEnough(data: seq<Word>)
    requires Mag(data) > 0
    ensures |Digits(Mag(data))| + 1 <= |data| * 64 / 3 + 2
  {
    var e := |Digits(Mag(data))| - 1;
    DigitsLower(Mag(data));
    MagBound(data);
    PowIsPow2(|data|);
    if 3 * e >= 64 * |data| {
      Pow2Monotone(64 * |data|, 3 * e);
      assert false;
    }
  }

  /** Digits still to be written: none once the number has become zero. */
  function Rest(n: nat): string {
    if n == 0 then "" else Digits(n)
  }

  lemma RestStep(n: nat)
    requires n > 0
    ensures Digits(n) == Rest(n / 10) + [DigitChar(n % 10)]
  {
  }

  function Pow10(k: nat): (p: int)
    ensures p >= 1
  {
    if k == 0 then 1 else 10 * Pow10(k - 1)
  }

  lemma Pow10Chunk()
    ensures Pow10(19) == 10_000_000_000_000_000_000
  {
    assert Pow10(9) == 1_000_000_000;
    assert Pow10(14) == 100_000_000_000_000;
  }

  /** Removing the last digit of m * 10^k + r. */
  lemma DigitRemoved(m: nat, k: nat, r: nat)
    requires k > 0 && r < Pow10(k)
    ensures r / 10 < Pow10(k - 1)
    ensures (m * Pow10(k) + r) / 10 == m * Pow10(k - 1) + r / 10
    ensures (m * Pow10(k) + r) % 10 == r % 10
  {
    var p := Pow10(k - 1);
    MulNonNegative(m, p);
    TenTimes(m, p, r);
  }

  lemma TenTimes(m: nat, p: nat, r: nat)
    requires 0 <= m * p && r < 10 * p
    ensures r / 10 < p
    ensures (m * (10 * p) + r) / 10 == m * p + r / 10
    ensures (m * (10 * p) + r) % 10 == r % 10
  {
    var w := m * p;
    assert m * (10 * p) == 10 * w;
  }

  lemma ScaleZero(m: nat, p: int)
    requires p >= 1
    ensures 0 <= m * p && (m * p == 0 <==> m == 0)
  {
    MulNonNegative(m, p);
    if m > 0 {
      MulMonotone(1, m, p);
    }
  }

  /** What is written is the last digit of the rest, if the rest is not zero. */
  lemma ChunkStep(text: string, m: nat, k: nat, r: nat, w: nat, tail: string)
    requires k > 0 && r < Pow10(k) && 0 < w && w == m * Pow10(k) + r
    requires text == Rest(w) + tail
    ensures r / 10 < Pow10(k - 1) && w / 10 == m * Pow10(k - 1) + r / 10
    ensures text == Rest(w / 10) + ([DigitChar(r % 10)] + tail)
    ensures w / 10 == 0 <==> m == 0 && r / 10 == 0
    ensures |tail| < |text|
  {
    DigitRemoved(m, k, r);
    RestStep(w);
    ScaleZero(m, Pow10(k - 1));
    assert Rest(w / 10) + [DigitChar(r % 10)] + tail == Rest(w / 10) + ([DigitChar(r % 10)] + tail);
  }

  /** Writes the digits of one chunk leftward from position n0, ending early with the number. */
  method WriteChunk(buf: array<char>, n0: nat, r0: Word, vLength: nat, ip10: nat, ghost m: nat, ghost w0: nat, ghost text: string)
    returns (n: nat)
    requires ip10 > 0 && r0 < Pow10(ip10) && (vLength == 0 <==> m == 0)
    requires n0 <= buf.Length && |text| < buf.Length
    requires 0 < w0 == m * Pow10(ip10) + r0
    requires text == Rest(w0) + buf[n0..]
    modifies buf
    ensures 0 < n <= buf.Length && buf[0] == old(buf[0])
    ensures text == Rest(m) + buf[n..]
  {
    n := n0;
    var r: int := r0;
    var j := 0;
    ghost var w: nat := w0;
    while j < ip10
      invariant 0 <= j <= ip10 && 0 <= r < Pow10(ip10 - j) && 0 < n <= buf.Length
      invariant w == m * Pow10(ip10 - j) + r && (j < ip10 ==> w > 0)
      invariant text == Rest(w) + buf[n..]
      invariant buf[0] == old(buf[0])
    {
      ghost var tail := buf[n..];
      ChunkStep(text, m, ip10 - j, r, w, tail);
      n := n - 1;
      buf[n] := DigitChar(r % 10);
      assert buf[n..] == [DigitChar(r % 10)] + tail;
      r := r / 10;
      w := w / 10;
      j := j + 1;
      if r + vLength == 0 {
        return;
      }
    }
    MulOne(m, Pow10(0));
  }

  lemma MulOne(m: nat, p: int)
    requires p == 1
    ensures m * p == m
  {
  }

  /** Moves the digits at n.. down to position i0. */
  method Compact(buf: array<char>, i0: nat, n0: nat) returns (i: nat)
    requires i0 <= n0 <= buf.Length
    modifies buf
    ensures i <= buf.Length && buf[..i] == old(buf[..i0] + buf[n0..])
  {
    i := i0;
    var n := n0;
    while n < buf.Length
      invariant i0 <= i <= n <= buf.Length && i - i0 == n - n0
      invariant forall k :: 0 <= k < i0 ==> buf[k] == old(buf[k])
      invariant forall k :: i0 <= k < i ==> buf[k] == old(buf[k - i0 + n0])
      invariant forall k :: n <= k < buf.Length ==> buf[k] == old(buf[k])
    {
      buf[i] := buf[n];
      i, n := i + 1, n + 1;
    }
  }

  lemma OneWord(s: seq<Word>)
    requires Canonical(s) && Mag(s) < 0x1_0000_0000_0000_0000
    ensures |s| <= 1
  {
    assert Pow(1) == 0x1_0000_0000_0000_0000;
    if |s| > 1 {
      PowMonotone(1, |s| - 1);
      MagLower(s);
    }
  }

  /** What dividing by 10^19 leaves, read off the signed results. */
  lemma ChunkTaken(neg: bool, w: nat, vNeg: bool, v: nat, rem: seq<Word>)
    requires Signed(vNeg, v) == Truncated(Signed(neg, w), 10_000_000_000_000_000_000)
    requires Signed(neg, w) == Signed(vNeg, v) * 10_000_000_000_000_000_000 + Signed(neg, Mag(rem))
    requires Canonical(rem) && Mag(rem) < 10_000_000_000_000_000_000
    ensures w == v * 10_000_000_000_000_000_000 + Mag(rem) && (v > 0 ==> vNeg == neg)
    ensures |rem| <= 1 && Mag(rem) == if |rem| > 0 then rem[0] else 0
  {
    OneWord(rem);
    if |rem| == 1 {
      assert rem == [rem[0]];
      MagSingle(rem[0]);
    }
  }

  /** One division by 10^19 in place: the quotient stays in v, the remainder is returned. */
  method TakeChunk(v: Bignum, bigP10: Bignum, bigR: Bignum) returns (r: Word)
    requires v.Valid() && v.data != [] && v != bigR && bigP10 != v && bigP10 != bigR
    requires bigP10.Valid() && bigP10.Value() == 10_000_000_000_000_000_000 && |bigP10.data| <= 1
    modifies v, bigR
    ensures v.Valid() && (v.data == [] <==> Mag(v.data) == 0) && (v.data != [] ==> v.neg == old(v.neg))
    ensures old(Mag(v.data)) == Mag(v.data) * 10_000_000_000_000_000_000 + r > Mag(v.data)
    ensures r < 10_000_000_000_000_000_000
  {
    MagZeroOnlyEmpty(v.data);
    ghost var neg, w := v.neg, Mag(v.data);
    var result := v.DivideBy(bigP10, v, bigR, true);
    ChunkTaken(neg, w, v.neg, Mag(v.data), bigR.data);
    MagZeroOnlyEmpty(v.data);
    r := if |bigR.data| > 0 then bigR.data[0] else 0;
  }

  /** Decimal printing. The buffer size is computed as an int, which the precondition keeps in range. */
  method Dump(x: Bignum) returns (text: string)
    requires x.Valid() && |x.data| * 64 / 3 + 2 <= 0x7FFF_FFFF
    ensures text == Text(x.neg, Mag(x.data))
  {
    var v := new Bignum.Copy(x);
    var len := |v.data| * 64 / 3 + 2;
    var buf := new char[len];
    ghost var m := Mag(x.data);
    MagZeroOnlyEmpty(x.data);
    if |v.data| == 0 {
      buf[0] := '0';
      assert buf[..1] == "0" == Digits(0);
      return buf[..1];
    }
    BufferIsLargeEnough(x.data);
    Pow10Chunk();
    var n, i := len, 0;
    var bigR := new Bignum.FromWord(0);
    var bigP10 := new Bignum.FromWord(10_000_000_000_000_000_000);
    if v.neg {
      buf[0] := '-';
      i := 1;
    }
    OneWord(bigP10.data);
    assert buf[n..] == [];
    while true
      invariant fresh(v) && fresh(bigR) && fresh(buf) && v != bigR && bigP10 != v && bigP10 != bigR
      invariant v.Valid() && bigP10.Valid() && bigP10.Value() == 10_000_000_000_000_000_000 && |bigP10.data| <= 1
      invariant v.data != [] && v.neg == x.neg
      invariant 0 < n <= len == buf.Length && (x.neg ==> buf[0] == '-')
      invariant Digits(m) == Digits(Mag(v.data)) + buf[n..]
      decreases Mag(v.data)
    {
      ghost var w := Mag(v.data);
      var r := TakeChunk(v, bigP10, bigR);
      n := WriteChunk(buf, n, r, |v.data|, 19, Mag(v.data), w, Digits(m));
      if |v.data| == 0 {
        break;
      }
    }
    assert buf[n..] == Digits(m) && buf[..i] == if x.neg then "-" else "";
    i := Compact(buf, i, n);
    text := buf[..i];
  }

  function Abs(n: int): int {
    if n < 0 then -n else n
  }

  /** White space and a minus are passed over. */
  method SkipPrefix(s: string) returns (neg: bool, digits: string)
    ensures neg == HasMinus(s) && digits == Unsigned(s)
  {
    var i := 0;
    while i < |s| && IsSpace(s[i])
      invariant i <= |s| && Spaces(s) == i + Spaces(s[i..])
    {
      assert s[i..][1..] == s[i + 1..];
      i := i + 1;
    }
    neg := false;
    ghost var t := s[i..];
    if i < |s| && s[i] == '-' {
      neg := true;
      i := i + 1;
    }
    digits := s[i..];
  }

  /** v * 10 + (c - '0'), in place. */
  method AppendDigit(x: Bignum, c: char)
    requires x.Valid()
    modifies x
    ensures x.Valid() && x.Value() == old(x.Value()) * 10 + (CharValue(c) - 48)
  {
    x.MulInt64(10);
    var digit := new Bignum.FromInt64(CharValue(c) - 48);
    x.AddAssign(digit);
  }

  /**
   Reading a number: leading white space, at most one minus, then any characters at all,
   each counted by the distance of its value from that of '0'. A minus before something worth zero gives a
   negative zero.
   */
  method Initialize(s: string) returns (x: Bignum)
    ensures fresh(x) && Canonical(x.data)
    ensures x.Value() == if HasMinus(s) then -Abs(Fold(Unsigned(s))) else Fold(Unsigned(s))
    ensures x.Valid() <==> !(HasMinus(s) && Fold(Unsigned(s)) == 0)
  {
    var neg, digits := SkipPrefix(s);
    x := new Bignum.FromWord(0);
    var k := 0;
    while k < |digits|
      invariant k <= |digits| && fresh(x) && x.Valid() && x.Value() == Fold(digits[..k])
    {
      assert digits[..k + 1][..k] == digits[..k];
      AppendDigit(x, digits[k]);
      k := k + 1;
    }
    assert digits[..k] == digits;
    MagZeroOnlyEmpty(x.data);
    if neg {
      x.neg := true;
    }
  }

  lemma SameNumber(neg: bool, data: seq<Word>, neg': bool, data': seq<Word>)
    requires Canonical(data) && (data == [] ==> !neg) && Canonical(data') && (data' == [] ==> !neg')
    requires Signed(neg, Mag(data)) == Signed(neg', Mag(data'))
    ensures neg == neg' && data == data'
  {
    MagZeroOnlyEmpty(data);
    MagZeroOnlyEmpty(data');
    CanonicalUnique(data, data');
  }

  /** A number printed and read again is the same in sign and in every word. */
  method DumpAndInitialize(x: Bignum) returns (y: Bignum)
    requires x.Valid() && |x.data| * 64 / 3 + 2 <= 0x7FFF_FFFF
    ensures fresh(y) && y.Valid() && y.neg == x.neg && y.data == x.data
  {
    var text := Dump(x);
    TextRoundTrip(x.neg, Mag(x.data));
    MagZeroOnlyEmpty(x.data);
    y := Initialize(text);
    SameNumber(x.neg, x.data, y.neg, y.data);
  }
}
