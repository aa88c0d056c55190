/** Base64 text of bytes, and back. */
module Base64 {

  type Byte = b: int | 0 <= b < 256

  /** A 6-bit value and its letter; the url alphabet differs in the last two. */
  function Letter(v: int, url: bool): char
    requires 0 <= v < 64
  {
    if v < 26 then ('A' as int + v) as char
    else if v < 52 then ('a' as int + v - 26) as char
    else if v < 62 then ('0' as int + v - 52) as char
    else if v == 62 then (if url then '-' else '+')
    else if url then '_' else '/'
  }

  predicate IsBase64(c: char) {
    'A' <= c <= 'Z' || 'a' <= c <= 'z' || '0' <= c <= '9' || c == '+' || c == '/'
  }

  /** The place of a letter in the standard alphabet. */
  function Place(c: char): (v: int)
    requires IsBase64(c)
    ensures 0 <= v < 64 && Letter(v, false) == c
  {
    if 'A' <= c <= 'Z' then c as int - 'A' as int
    else if 'a' <= c <= 'z' then c as int - 'a' as int + 26
    else if '0' <= c <= '9' then c as int - '0' as int + 52
    else if c == '+' then 62 else 63
  }

  // ---- Groups ---------------------------------------------------------------------

  /** The four 6-bit values of three bytes. */
  function Sextets(a: Byte, b: Byte, c: Byte): (r: seq<int>)
    ensures |r| == 4 && forall i :: 0 <= i < 4 ==> 0 <= r[i] < 64
  {
    [a / 4, (a % 4) * 16 + b / 16, (b % 16) * 4 + c / 64, c % 64]
  }

  /** The three bytes of four 6-bit values; sums past 255 wrap in the source, but none arises. */
  function Octets(w: int, x: int, y: int, z: int): (r: seq<Byte>)
    requires 0 <= w < 64 && 0 <= x < 64 && 0 <= y < 64 && 0 <= z < 64
    ensures |r| == 3
  {
    [w * 4 + x / 16, (x % 16) * 16 + y / 4, (y % 4) * 64 + z]
  }

  lemma GroupBack(a: Byte, b: Byte, c: Byte)
    ensures var s := Sextets(a, b, c); Octets(s[0], s[1], s[2], s[3]) == [a, b, c]
  {
  }

  function Letters(s: seq<int>, url: bool): (r: string)
    requires forall i :: 0 <= i < |s| ==> 0 <= s[i] < 64
    ensures |r| == |s| && forall i :: 0 <= i < |s| ==> r[i] == Letter(s[i], url)
  {
    seq(|s|, i requires 0 <= i < |s| => Letter(s[i], url))
  }

  /** The text of bytes: whole groups, then a part of one, filled up unless for a url. */
  function Encoded(data: seq<Byte>, url: bool): string {
    if data == [] then ""
    else if |data| == 1 then Letters(Sextets(data[0], 0, 0)[..2], url) + (if url then "" else "==")
    else if |data| == 2 then Letters(Sextets(data[0], data[1], 0)[..3], url) + (if url then "" else "=")
    else Letters(Sextets(data[0], data[1], data[2]), url) + Encoded(data[3..], url)
  }

  /** The text before the first fill character. */
  function Body(s: string): (t: string)
    ensures |t| <= |s| && t == s[..|t|] && '=' !in t
    ensures |t| < |s| ==> s[|t|] == '='
  {
    if s == [] || s[0] == '=' then "" else [s[0]] + Body(s[1..])
  }

  predicate AllBase64(s: string) {
    forall i :: 0 <= i < |s| ==> IsBase64(s[i])
  }

  /** The bytes of letters; a last group gives one byte fewer than it has letters. */
  function Bytes(t: string): seq<Byte>
    requires AllBase64(t)
  {
    if |t| < 2 then []
    else if |t| == 2 then Octets(Place(t[0]), Place(t[1]), 0, 0)[..1]
    else if |t| == 3 then Octets(Place(t[0]), Place(t[1]), Place(t[2]), 0)[..2]
    else Octets(Place(t[0]), Place(t[1]), Place(t[2]), Place(t[3])) + Bytes(t[4..])
  }

  datatype Decoding = Decoded(data: seq<Byte>) | NotBase64

  /** What decoding gives: anything but a letter before the fill characters is refused. */
  function DecodedText(s: string): Decoding {
    if AllBase64(Body(s)) then Decoded(Bytes(Body(s))) else NotBase64
  }

  // ---- Properties -------------------------------------------------------------------

  lemma LetterBack(v: int)
    requires 0 <= v < 64
    ensures IsBase64(Letter(v, false)) && Letter(v, false) != '=' && Place(Letter(v, false)) == v
  {
  }

  lemma LettersBack(s: seq<int>)
    requires forall i :: 0 <= i < |s| ==> 0 <= s[i] < 64
    ensures var t := Letters(s, false);
            AllBase64(t) && '=' !in t && forall i :: 0 <= i < |s| ==> Place(t[i]) == s[i]
  {
    forall i | 0 <= i < |s|
      ensures IsBase64(Letters(s, false)[i]) && Letters(s, false)[i] != '=' && Place(Letters(s, false)[i]) == s[i]
    {
      LetterBack(s[i]);
    }
  }

  lemma {:induction false} BodyAppend(t: string, s: string)
    requires '=' !in t
    ensures Body(t + s) == t + Body(s)
  {
    if t == [] {
      assert t + s == s;
    } else {
      assert t[0] in t && forall c :: c in t[1..] ==> c in t;
      BodyAppend(t[1..], s);
      assert (t + s)[1..] == t[1..] + s;
    }
  }

  lemma TailBack(data: seq<Byte>)
    requires 0 < |data| < 3
    ensures DecodedText(Encoded(data, false)) == Decoded(data)
  {
    var b := if |data| == 2 then data[1] else 0;
    var s := Sextets(data[0], b, 0)[..|data| + 1];
    var t := Letters(s, false);
    var fill := if |data| == 1 then "==" else "=";
    LettersBack(s);
    hide Letters;
    hide Letter;
    BodyAppend(t, fill);
    assert Body(fill) == "" && t + "" == t;
    LastGroup(data, t);
  }

  lemma LastGroup(data: seq<Byte>, t: string)
    requires 0 < |data| < 3 && |t| == |data| + 1 && AllBase64(t)
    requires var s := Sextets(data[0], if |data| == 2 then data[1] else 0, 0);
             forall i :: 0 <= i < |t| ==> Place(t[i]) == s[i]
    ensures Bytes(t) == data
  {
    GroupBack(data[0], if |data| == 2 then data[1] else 0, 0);
  }

  /** Round trip: decoding the text of any bytes gives the bytes. */
  lemma {:induction false} EncodeThenDecode(data: seq<Byte>)
    ensures DecodedText(Encoded(data, false)) == Decoded(data)
  {
    if data == [] {
    } else if |data| < 3 {
      TailBack(data);
    } else {
      var s := Sextets(data[0], data[1], data[2]);
      var t, rest := Letters(s, false), Encoded(data[3..], false);
      EncodeThenDecode(data[3..]);
      LettersBack(s);
      BodyAppend(t, rest);
      GroupBack(data[0], data[1], data[2]);
      var body := t + Body(rest);
      assert body[4..] == Body(rest) && body[..4] == t;
      assert Bytes(body) == [data[0], data[1], data[2]] + data[3..];
    }
  }

  /** Padded text has four characters for every three bytes begun; unpadded text leaves the fill out. */
  lemma {:induction false} EncodedLength(data: seq<Byte>)
    ensures |Encoded(data, false)| == (|data| + 2) / 3 * 4
    ensures |Encoded(data, true)| == (|data| * 4 + 2) / 3
  {
    if |data| >= 3 {
      EncodedLength(data[3..]);
    }
  }

  // ---- The loops --------------------------------------------------------------------

  /** The first n letters of a group. */
  method PutLetters(result0: string, a4: seq<int>, n: nat, url: bool) returns (result: string)
    requires n <= |a4| && forall k :: 0 <= k < |a4| ==> 0 <= a4[k] < 64
    ensures result == result0 + Letters(a4, url)[..n]
  {
    result := result0;
    for j := 0 to n
      invariant result == result0 + Letters(a4, url)[..j]
    {
      result := result + [Letter(a4[j], url)];
    }
  }

  /** The part of a group left at the end, and its fill. */
  method PutTail(result0: string, b3: seq<Byte>, i: nat, url: bool) returns (result: string)
    requires 0 < i < 3 && |b3| == 3
    ensures result == result0 + Encoded(b3[..i], url)
  {
    var a3 := b3;
    for j := i to 3
      invariant |a3| == 3 && forall k :: 0 <= k < i ==> a3[k] == b3[k]
      invariant forall k :: i <= k < j ==> a3[k] == 0
    {
      a3 := a3[j := 0];
    }
    TailStep(b3[..i], a3, i, url);
    hide Encoded;
    hide Sextets;
    var a4 := Sextets(a3[0], a3[1], a3[2]);
    result := PutLetters(result0, a4, i + 1, url);
    ghost var letters := result;
    if !url {
      var k := i;
      while k < 3
        invariant i <= k <= 3 && result == letters + seq(k - i, _ => '=')
      {
        result := result + "=";
        k := k + 1;
      }
    }
  }

  method EncodeBase64(data: seq<Byte>, url: bool) returns (result: string)
    ensures result == Encoded(data, url)
  {
    hide Encoded;
    result := "";
    var a3: seq<Byte> := [0, 0, 0];
    var i, first := 0, 0;
    assert data[0..] == data;
    while first != |data|
      invariant 0 <= i < 3 && i <= first <= |data| && |a3| == 3
      invariant a3[..i] == data[first - i..first]
      invariant result + Encoded(data[first - i..], url) == Encoded(data, url)
      decreases |data| - first
    {
      ghost var at, before := first - i, result;
      assert a3[i := data[first]][..i + 1] == a3[..i] + [data[first]];
      assert data[at..first + 1] == data[at..first] + [data[first]];
      a3 := a3[i := data[first]];
      i, first := i + 1, first + 1;
      if i == 3 {
        var a4 := Sextets(a3[0], a3[1], a3[2]);
        result := PutLetters(result, a4, 4, url);
        assert a3[0] == data[at] && a3[1] == data[at + 1] && a3[2] == data[at + 2];
        GroupStep(data, at, url, before);
        i := 0;
      }
    }
    if i > 0 {
      assert data[first - i..] == a3[..i];
      result := PutTail(result, a3, i, url);
    } else {
      NoBytes(url);
      assert data[first..] == [];
    }
  }

  lemma NoBytes(url: bool)
    ensures Encoded([], url) == ""
  {
  }

  /** A whole group moves from what is left to what is written. */
  lemma GroupStep(data: seq<Byte>, at: nat, url: bool, before: string)
    requires at + 3 <= |data|
    ensures before + Letters(Sextets(data[at], data[at + 1], data[at + 2]), url) + Encoded(data[at + 3..], url)
         == before + Encoded(data[at..], url)
  {
    assert data[at..][3..] == data[at + 3..];
  }

  lemma TailStep(rest: seq<Byte>, a3: seq<Byte>, i: nat, url: bool)
    requires 0 < i < 3 && |rest| == i && |a3| == 3
    requires (forall k :: 0 <= k < i ==> a3[k] == rest[k]) && forall k :: i <= k < 3 ==> a3[k] == 0
    ensures Encoded(rest, url)
         == Letters(Sextets(a3[0], a3[1], a3[2]), url)[..i + 1] + (if url then "" else seq(3 - i, _ => '='))
  {
    var s := Sextets(a3[0], a3[1], a3[2]);
    assert Letters(s[..i + 1], url) == Letters(s, url)[..i + 1];
    assert seq(3 - i, _ => '=') == if i == 1 then "==" else "=";
  }

  /** A last group of i letters gives i - 1 bytes, whatever is left in the rest of the buffer. */
  lemma LastBytes(rest: string, a4: seq<int>, i: nat)
    requires 0 < i < 4 && |rest| == i && AllBase64(rest)
    requires |a4| == 4 && forall k :: 0 <= k < 4 ==> 0 <= a4[k] < 64
    requires forall k :: 0 <= k < i ==> a4[k] == Place(rest[k])
    ensures Bytes(rest) == Octets(a4[0], a4[1], a4[2], 0)[..i - 1]
  {
  }

  lemma NoLetters()
    ensures Bytes("") == []
  {
  }

  /** Four letters move from what is left to what is decoded. */
  lemma LettersStep(body: string, at: nat, a4: seq<int>)
    requires at + 4 <= |body| && AllBase64(body)
    requires |a4| == 4 && forall k :: 0 <= k < 4 ==> 0 <= a4[k] < 64 && a4[k] == Place(body[at + k])
    ensures Octets(a4[0], a4[1], a4[2], a4[3]) + Bytes(body[at + 4..]) == Bytes(body[at..])
  {
    assert body[at..][4..] == body[at + 4..];
  }

  method DecodeBase64(s: string) returns (r: Decoding)
    ensures r == DecodedText(s)
  {
    hide Bytes;
    hide Octets;
    ghost var body := Body(s);
    var result: seq<Byte> := [];
    NoLetters();
    assert body[0..] == body;
    var a4: seq<int> := [0, 0, 0, 0];
    var i, first := 0, 0;
    while first != |s| && s[first] != '='
      invariant 0 <= i < 4 && i <= first <= |body| && |a4| == 4 && forall k :: 0 <= k < 4 ==> 0 <= a4[k] < 64
      invariant forall k :: 0 <= k < first ==> IsBase64(s[k])
      invariant forall k :: 0 <= k < i ==> a4[k] == Place(s[first - i + k])
      invariant AllBase64(body) ==> result + Bytes(body[first - i..]) == Bytes(body)
      decreases |s| - first
    {
      assert first < |body|;
      if !IsBase64(s[first]) {
        assert !IsBase64(body[first]);
        return NotBase64;
      }
      ghost var at := first - i;
      a4 := a4[i := Place(s[first])];
      i, first := i + 1, first + 1;
      if i == 4 {
        var a3 := Octets(a4[0], a4[1], a4[2], a4[3]);
        if AllBase64(body) {
          LettersStep(body, at, a4);
        }
        result := result + a3;
        i := 0;
      }
    }
    assert first == |body|;
    if i > 0 {
      var a3 := Octets(a4[0], a4[1], a4[2], 0);
      assert forall k :: 0 <= k < |body| ==> IsBase64(body[k]);
      LastBytes(body[first - i..], a4, i);
      result := result + a3[..i - 1];
    }
    r := Decoded(result);
  }
}
