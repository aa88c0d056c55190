/** The keys of the document store: path components, their encoding, and byte order. */
module StoreKeys {
  import opened ObjectStorage
  import Decimal
  import Shift

  /** A part of a path: how it is stored, and how it is shown. */
  datatype Component = Component(key: string, pretty: string)

  datatype Made = Made(c: Component) | Illegal

  predicate IsNumber(s: string) {
    s != "" && forall i :: 0 <= i < |s| ==> '0' <= s[i] <= '9'
  }

  predicate IsBits(s: string) {
    forall i :: 0 <= i < |s| ==> s[i] == '0' || s[i] == '1'
  }

  /** A number in binary, most significant bit first, in a given number of digits. */
  function Bits(n: nat, width: nat): (s: string)
    ensures |s| == width && IsBits(s)
  {
    if width == 0 then "" else Bits(n / 2, width - 1) + [if n % 2 == 1 then '1' else '0']
  }

  function FromBits(s: string): nat
    requires IsBits(s)
  {
    if s == "" then 0 else FromBits(s[..|s| - 1]) * 2 + if s[|s| - 1] == '1' then 1 else 0
  }

  /** The key of an index: a size_t in 64 binary digits. */
  function EncodeIndex(n: nat): (s: string)
    ensures |s| == 64 && IsBits(s)
  {
    Bits(n, 64)
  }

  /** The index in a key; of a longer text only the first 64 digits are looked at. */
  function DecodeIndex(s: string): nat
    requires IsBits(s)
  {
    FromBits(if |s| > 64 then s[..64] else s)
  }

  /**
   The constructor of a component. Text after # must be a decimal number that fits, and
   text after $ must be binary; anything after a leading dot is taken as the directory.
   */
  function MakeComponent(c: string): Made {
    if c == "" then Made(Component("", ""))
    else if c[0] == '#' then
      if IsNumber(c[1..]) && 0 <= Decimal.Fold(c[1..]) < 0x1_0000_0000_0000_0000 then
        var i: nat := Decimal.Fold(c[1..]);
        Made(Component("$" + EncodeIndex(i), "#" + Decimal.Digits(i)))
      else Illegal
    else if c[0] == '$' then
      if IsBits(c[1..]) then Made(Component("$" + c[1..], "#" + Decimal.Digits(DecodeIndex(c[1..])))) else Illegal
    else if c[0] == '.' then Made(Component("!", c))
    else if c[0] == '!' then Made(Component("!", "."))
    else Made(Component(c, c))
  }

  // ---- Indexes ------------------------------------------------------------------------

  /** Decoding inverts encoding, for every number that fits. */
  lemma {:induction false} BitsBack(n: nat, width: nat)
    requires n < Shift.Pow2(width)
    ensures FromBits(Bits(n, width)) == n
  {
    if width > 0 {
      BitsBack(n / 2, width - 1);
      var s := Bits(n, width);
      assert s[..|s| - 1] == Bits(n / 2, width - 1);
    }
  }

  /** A text ordered before another stays so whatever follows, if neither is a prefix of the other. */
  lemma {:induction false} LessExtends(s: string, t: string, x: string, y: string)
    requires |s| == |t| && Less(s, t)
    ensures Less(s + x, t + y)
  {
    assert (s + x)[0] == s[0] && (t + y)[0] == t[0];
    if s[0] == t[0] {
      LessExtends(s[1..], t[1..], x, y);
      assert (s + x)[1..] == s[1..] + x && (t + y)[1..] == t[1..] + y;
    }
  }

  /** Texts with one beginning are ordered by what follows it. */
  lemma {:induction false} LessPrefix(p: string, s: string, t: string)
    ensures Less(p + s, p + t) <==> Less(s, t)
  {
    if p == "" {
      assert p + s == s && p + t == t;
    } else {
      LessPrefix(p[1..], s, t);
      assert (p + s)[1..] == p[1..] + s && (p + t)[1..] == p[1..] + t;
    }
  }

  /** Binary texts of one width are ordered as their numbers. */
  lemma {:induction false} BitsOrder(m: nat, n: nat, width: nat)
    requires m < n < Shift.Pow2(width)
    ensures Less(Bits(m, width), Bits(n, width))
  {
    var hm, hn := Bits(m / 2, width - 1), Bits(n / 2, width - 1);
    var bm, bn := [if m % 2 == 1 then '1' else '0'], [if n % 2 == 1 then '1' else '0'];
    if m / 2 < n / 2 {
      BitsOrder(m / 2, n / 2, width - 1);
      LessExtends(hm, hn, bm, bn);
    } else {
      assert m / 2 == n / 2 && bm == "0" && bn == "1";
      LessPrefix(hm, bm, bn);
    }
  }

  /** Byte order on index keys is the order of the indexes. */
  lemma IndexOrder(i: nat, j: nat)
    requires i < j < 0x1_0000_0000_0000_0000
    ensures Less("$" + EncodeIndex(i), "$" + EncodeIndex(j))
  {
    Shift.Pow2Word();
    BitsOrder(i, j, 64);
    LessPrefix("$", EncodeIndex(i), EncodeIndex(j));
  }

  lemma PlainFold(s: string)
    requires IsNumber(s)
    ensures Decimal.Fold(s) >= 0
  {
    FoldDigitsOnly(s);
  }

  lemma {:induction false} FoldDigitsOnly(s: string)
    requires forall i :: 0 <= i < |s| ==> '0' <= s[i] <= '9'
    ensures Decimal.Fold(s) >= 0
  {
    if s != "" {
      FoldDigitsOnly(s[..|s| - 1]);
    }
  }

  /** An index written after # becomes its key, and both forms make the same component. */
  lemma IndexComponent(i: nat)
    requires i < 0x1_0000_0000_0000_0000
    ensures MakeComponent("#" + Decimal.Digits(i)) == Made(Component("$" + EncodeIndex(i), "#" + Decimal.Digits(i)))
    ensures MakeComponent("$" + EncodeIndex(i)) == Made(Component("$" + EncodeIndex(i), "#" + Decimal.Digits(i)))
  {
    hide EncodeIndex;
    IndexBack(i);
    DecimalBack(i);
    Tails(Decimal.Digits(i), EncodeIndex(i));
  }

  lemma Tails(s: string, t: string)
    ensures ("#" + s)[1..] == s && ("$" + t)[1..] == t
  {
  }

  /** Decoding the key of an index gives the index. */
  lemma IndexBack(i: nat)
    requires i < 0x1_0000_0000_0000_0000
    ensures FromBits(EncodeIndex(i)) == i
  {
    Shift.Pow2Word();
    BitsBack(i, 64);
  }

  lemma DecimalBack(i: nat)
    ensures IsNumber(Decimal.Digits(i)) && Decimal.Fold(Decimal.Digits(i)) == i
  {
    Decimal.FoldDigits(i);
    Decimal.PlainDigits(i);
  }

  /** A key read as a component keeps its key: paths can be taken from keys and from what was written. */
  lemma KeyStays(c: string)
    requires MakeComponent(c).Made?
    ensures MakeComponent(MakeComponent(c).c.key).Made?
    ensures MakeComponent(MakeComponent(c).c.key).c.key == MakeComponent(c).c.key
  {
    if c != "" && c[0] == '#' {
      PlainFold(c[1..]);
      IndexComponent(Decimal.Fold(c[1..]));
    }
  }

  /**
   A component is stored under the very text it is made of if and only if the text has no
   meaning of its own: no dot or number sign in front, nothing after an exclamation mark, and
   only binary digits after a dollar sign.
   */
  lemma StoredAsWritten(c: string)
    ensures MakeComponent(c).Made? && MakeComponent(c).c.key == c <==>
              c == "" || c == "!" || (c[0] != '.' && c[0] != '#' && c[0] != '!' && (c[0] == '$' ==> IsBits(c[1..])))
  {
    hide EncodeIndex;
    if c != "" && c[0] == '$' && IsBits(c[1..]) {
      assert "$" + c[1..] == c;
    }
  }

  // ---- Order and prefixes ---------------------------------------------------------------

  predicate StartsWith(k: string, p: string) {
    |p| <= |k| && k[..|p|] == p
  }

  lemma StartsIs(k: string, p: string)
    requires StartsWith(k, p)
    ensures k == p + k[|p|..]
  {
  }

  /** Whatever lies between two keys with one beginning has that beginning. */
  lemma {:induction false} Between(p: string, x: string, k: string, y: string)
    requires Less(p + x, k) && Less(k, p + y)
    ensures StartsWith(k, p)
  {
    if p != "" {
      var q := p[1..];
      assert (p + x)[0] == p[0] && (p + y)[0] == p[0] && k != "";
      assert (p + x)[1..] == q + x && (p + y)[1..] == q + y;
      assert k[0] == p[0];
      Between(q, x, k[1..], y);
      assert k == [k[0]] + k[1..];
    }
  }
}
