/** Reading back what was printed: string escapes and number lexemes. */
module RoundTripText {
  import opened JsonText
  import opened ParserSpec
  import opened JsonPrinting

  lemma RunOne(p: Parser, c: char)
    ensures Run(Running(p), [c]) == Step(p, c)
  {
    assert [c][1..] == [];
  }

  /** Text read in two parts. */
  lemma RunThen(p: Parser, s: string, q: Parser, t: string)
    requires Run(Running(p), s) == Running(q)
    ensures Run(Running(p), s + t) == Run(Running(q), t)
  {
    RunAppend(Running(p), s, t);
  }

  lemma RunTwo(p: Parser, a: char, b: char)
    requires Step(p, a).Running?
    ensures Run(Running(p), [a, b]) == Step(Step(p, a).p, b)
  {
    RunOne(p, a);
    RunThen(p, [a], Step(p, a).p, [b]);
    RunOne(Step(p, a).p, b);
    assert [a] + [b] == [a, b];
  }

  /** A printed hexadecimal digit shifts the code point being read by four bits. */
  lemma HexCharStep(p: Parser, d: int)
    requires 0 <= d < 16 && p.state.InString? && InHex(p.state.str)
    ensures Step(p, HexChar(d)) ==
              if p.state.str.EscapeU4? then Running(EndCodepoint(p, p.cp * 16 + d))
              else if p.state.str.EscapeU9? then
                Running(p.(state := InString(StringU1), cp := 0, cp2 := 0,
                           sbuf := p.sbuf + Convert(SurrogatePair(p.cp, p.cp2 * 16 + d))))
              else if InSecond(p.state.str) then
                Running(p.(state := InString(NextHex(p.state.str)), cp2 := p.cp2 * 16 + d))
              else Running(p.(state := InString(NextHex(p.state.str)), cp := p.cp * 16 + d))
  {
    hide Step;
    hide EndCodepoint;
    hide Convert;
    hide SurrogatePair;
    StringStepIs(p, HexChar(d));
    assert Hex(HexChar(d)) == d;
  }

  /** Four characters read one after the other. */
  lemma RunFour(p: Parser, s: string, p1: Parser, p2: Parser, p3: Parser)
    requires |s| == 4 && Step(p, s[0]) == Running(p1) && Step(p1, s[1]) == Running(p2) && Step(p2, s[2]) == Running(p3)
    ensures Run(Running(p), s) == Step(p3, s[3])
  {
    hide Step;
    hide Run;
    RunTwo(p, s[0], s[1]);
    RunTwo(p2, s[2], s[3]);
    RunThen(p, [s[0], s[1]], p2, [s[2], s[3]]);
    FourChars(s);
  }

  lemma FourChars(s: string)
    requires |s| == 4
    ensures [s[0], s[1]] + [s[2], s[3]] == s
  {
  }

  /** The four digits of a unit as the first code point. */
  lemma FirstUnit(p: Parser, u: int)
    requires 0 <= u < 0x1_0000 && p.state == InString(EscapeU1) && p.cp == 0
    ensures Run(Running(p), HexText(u)) == Running(EndCodepoint(p.(state := InString(EscapeU4), cp := u / 0x10), u))
  {
    hide Step;
    hide Run;
    hide HexChar;
    hide EndCodepoint;
    HexUnits(u);
    var p1 := p.(state := InString(EscapeU2), cp := u / 0x1000);
    var p2 := p.(state := InString(EscapeU3), cp := u / 0x100);
    var p3 := p.(state := InString(EscapeU4), cp := u / 0x10);
    HexCharStep(p, u / 0x1000);
    HexCharStep(p1, u / 0x100 % 0x10);
    HexCharStep(p2, u / 0x10 % 0x10);
    HexCharStep(p3, u % 0x10);
    RunFour(p, HexText(u), p1, p2, p3);
  }

  lemma SecondStates()
    ensures InHex(EscapeU6) && InHex(EscapeU7) && InHex(EscapeU8) && InHex(EscapeU9)
    ensures InSecond(EscapeU6) && InSecond(EscapeU7) && InSecond(EscapeU8) && InSecond(EscapeU9)
  {
  }

  /** The four digits of a unit as the second code point. */
  lemma SecondUnit(p: Parser, u: int)
    requires 0 <= u < 0x1_0000 && p.state == InString(EscapeU6) && p.cp2 == 0
    ensures Run(Running(p), HexText(u))
         == Running(p.(state := InString(StringU1), cp := 0, cp2 := 0, sbuf := p.sbuf + Convert(SurrogatePair(p.cp, u))))
  {
    hide Step;
    hide Run;
    hide HexChar;
    hide Convert;
    hide SurrogatePair;
    hide InHex;
    hide InSecond;
    SecondStates();
    HexUnits(u);
    var p1 := p.(state := InString(EscapeU7), cp2 := u / 0x1000);
    var p2 := p.(state := InString(EscapeU8), cp2 := u / 0x100);
    var p3 := p.(state := InString(EscapeU9), cp2 := u / 0x10);
    HexCharStep(p, u / 0x1000);
    HexCharStep(p1, u / 0x100 % 0x10);
    HexCharStep(p2, u / 0x10 % 0x10);
    HexCharStep(p3, u % 0x10);
    RunFour(p, HexText(u), p1, p2, p3);
  }

  lemma HexUnits(u: int)
    requires 0 <= u < 0x1_0000
    ensures u / 0x1000 < 16 && (u / 0x1000) * 16 + u / 0x100 % 0x10 == u / 0x100
    ensures (u / 0x100) * 16 + u / 0x10 % 0x10 == u / 0x10 && (u / 0x10) * 16 + u % 0x10 == u
  {
  }

  /** A surrogate pair denotes the code point it was made from. */
  lemma PairBack(cp: int)
    requires 0x1_0000 <= cp < 0x11_0000
    ensures var v := cp - 0x1_0000;
            0xD800 <= v / 0x400 + 0xD800 < 0xDC00 && 0 <= v % 0x400 + 0xDC00 < 0xE000 &&
            SurrogatePair(v / 0x400 + 0xD800, v % 0x400 + 0xDC00) == cp
  {
  }

  predicate StringStart(p: Parser) {
    p.state == InString(StringU1) && p.cp == 0 && p.cp2 == 0
  }

  /** Backslash and u, in a string or after a high surrogate. */
  lemma UnitBegins(p: Parser)
    requires p.state == InString(StringU1) || p.state == InString(SurrogatePair1)
    ensures Run(Running(p), "\\u") ==
              if p.state.str.StringU1? then Running(p.(state := InString(EscapeU1), cp := 0))
              else Running(p.(state := InString(EscapeU6), cp2 := 0))
  {
    hide Run;
    RunTwo(p, '\\', 'u');
  }

  /** An escape of any code point that is a character reads back as that character. */
  lemma UnicodeBack(p: Parser, c: char)
    requires StringStart(p)
    ensures Run(Running(p), UnicodeEscape(c as int)) == Running(p.(sbuf := p.sbuf + [c]))
  {
    hide Step;
    hide Run;
    hide HexText;
    hide SurrogatePair;
    var cp := c as int;
    UnitBegins(p);
    var unit := p.(state := InString(EscapeU1), cp := 0);
    if cp <= 0xFFFF {
      RunThen(p, "\\u", unit, HexText(cp));
      FirstUnit(unit, cp);
    } else {
      var v := cp - 0x1_0000;
      var first, second := v / 0x400 + 0xD800, v % 0x400 + 0xDC00;
      PairBack(cp);
      FirstUnit(unit, first);
      var high := p.(state := InString(SurrogatePair1), cp := first);
      RunThen(p, "\\u", unit, HexText(first));
      RunThen(p, "\\u" + HexText(first), high, "\\u");
      UnitBegins(high);
      var low := high.(state := InString(EscapeU6), cp2 := 0);
      RunThen(p, "\\u" + HexText(first) + "\\u", low, HexText(second));
      SecondUnit(low, second);
    }
  }

  lemma ShortBack(p: Parser, c: char, opts: Options)
    requires StringStart(p) && IsShort(c, opts)
    ensures Run(Running(p), EscapedChar(c, opts)) == Running(p.(sbuf := p.sbuf + [c]))
  {
    hide Run;
    var e := EscapedChar(c, opts);
    assert e == ['\\', e[1]] && Unescaped(e[1]) == [c] && e[1] != 'u';
    RunTwo(p, '\\', e[1]);
  }

  lemma EscapedBack(p: Parser, c: char, opts: Options)
    requires StringStart(p)
    ensures Run(Running(p), EscapedChar(c, opts)) == Running(p.(sbuf := p.sbuf + [c]))
  {
    hide Run;
    hide UnicodeEscape;
    if IsShort(c, opts) {
      ShortBack(p, c, opts);
    } else if IsControlCharacter(c) || (opts.escapeAllNonAscii && c as int >= 0x80) {
      UnicodeBack(p, c);
    } else {
      RunOne(p, c);
    }
  }

  /** The characters with an escape of two characters. */
  predicate IsShort(c: char, opts: Options) {
    c == '\\' || c == '"' || c == '\U{8}' || c == '\U{C}' || c == '\n' || c == '\r' || c == '\t' ||
    (opts.escapeSolidus && c == '/')
  }

  /** Every text survives escaping and parsing, with either option set. */
  lemma {:induction false} StringBack(p: Parser, s: string, opts: Options)
    requires StringStart(p)
    ensures Run(Running(p), Escaped(s, opts)) == Running(p.(sbuf := p.sbuf + s))
  {
    hide Step;
    hide Run;
    hide EscapedChar;
    if s == [] {
      RunNothing(Running(p));
      assert p.sbuf + s == p.sbuf;
    } else {
      var init := s[..|s| - 1];
      StringBack(p, init, opts);
      var q := p.(sbuf := p.sbuf + init);
      RunThen(p, Escaped(init, opts), q, EscapedChar(s[|s| - 1], opts));
      EscapedBack(q, s[|s| - 1], opts);
      assert q.sbuf + [s[|s| - 1]] == p.sbuf + s;
    }
  }

  /** A whole printed string, from its opening quote's state to its end. */
  lemma QuotedBack(p: Parser, s: string, opts: Options)
    requires StringStart(p) && p.sbuf == ""
    ensures Run(Running(p), Escaped(s, opts) + "\"") == EndString(p.(sbuf := s))
  {
    StringBack(p, s, opts);
    RunOne(p.(sbuf := s), '"');
    assert Step(p.(sbuf := s), '"') == EndString(p.(sbuf := s));
    hide Step;
    hide Run;
    hide Escaped;
    hide EndString;
    assert p.sbuf + s == s;
    RunThen(p, Escaped(s, opts), p.(sbuf := s), "\"");
  }

  // ---- Numbers --------------------------------------------------------------------

  predicate AllDigits(s: string) {
    forall i :: 0 <= i < |s| ==> IsDigit(s[i])
  }

  /** int of section 6 of RFC 8259, with its optional minus. */
  predicate IsInteger(s: string) {
    s != [] && if s[0] == '-' then IsUnsigned(s[1..]) else IsUnsigned(s)
  }

  predicate IsUnsigned(s: string) {
    s == "0" || (s != [] && s[0] != '0' && AllDigits(s))
  }

  /** An integer, a point at k and digits. */
  predicate IsFixedAt(s: string, k: nat) {
    k + 1 < |s| && s[k] == '.' && IsInteger(s[..k]) && AllDigits(s[k + 1..])
  }

  predicate IsMantissa(s: string) {
    IsInteger(s) || exists k :: 0 <= k < |s| && IsFixedAt(s, k)
  }

  /** A mantissa, an e at k, and an exponent without plus sign. */
  predicate IsScientificAt(s: string, k: nat) {
    k + 1 < |s| && (s[k] == 'e' || s[k] == 'E') && IsMantissa(s[..k]) &&
    var x := if s[k + 1] == '-' then s[k + 2..] else s[k + 1..];
    x != [] && AllDigits(x)
  }

  /** The number texts of each kind; the parser drops a plus sign, so none is in them. */
  predicate ValidNumber(kind: NumberKind, s: string) {
    match kind
    case Integer => IsInteger(s)
    case Fixed => exists k :: 0 <= k < |s| && IsFixedAt(s, k)
    case Scientific => exists k :: 0 <= k < |s| && IsScientificAt(s, k)
  }

  lemma {:induction false} DigitsRun(p: Parser, s: string)
    requires p.state.InNumber? && (p.state.num.Digits? || p.state.num.Fraction2? || p.state.num.Exp3?)
    requires AllDigits(s)
    ensures Run(Running(p), s) == Running(p.(nbuf := p.nbuf + s))
    decreases |s|
  {
    if s == [] {
      assert p.nbuf + s == p.nbuf;
    } else {
      var q := p.(nbuf := p.nbuf + [s[0]]);
      assert Step(p, s[0]) == Running(q);
      DigitsRun(q, s[1..]);
      assert q.nbuf + s[1..] == p.nbuf + s;
    }
  }

  /** States from which a value can begin. */
  predicate AtValue(p: Parser) {
    p.state.Structure? && (p.state.at.Start? || p.state.at.ExpectValue? || p.state.at.ExpectValueOrEnd?) &&
    p.nbuf == "" && p.sbuf == "" && p.cp == 0 && p.cp2 == 0
  }

  /** The parser once begin_document has been sent. */
  function Begun(p: Parser): Parser
    requires p.state.Structure?
  {
    if p.state.at.Start? then BeginDoc(p) else p
  }

  lemma UnsignedRun(p: Parser, s: string) returns (st: NumberState)
    requires p.state == InNumber(Minus) && p.nbuf == "-" && IsUnsigned(s)
    ensures Run(Running(p), s) == Running(p.(state := InNumber(st), nbuf := "-" + s)) && (st.Zero? || st.Digits?)
  {
    st := if s[0] == '0' then Zero else Digits;
    var q := p.(state := InNumber(st), nbuf := "-" + [s[0]]);
    RunOne(p, s[0]);
    RunThen(p, [s[0]], q, s[1..]);
    assert [s[0]] + s[1..] == s;
    if s != "0" {
      DigitsRun(q, s[1..]);
      assert q.nbuf + s[1..] == "-" + s;
    }
  }

  lemma IntegerRun(p: Parser, s: string) returns (st: NumberState)
    requires AtValue(p) && IsInteger(s)
    ensures Run(Running(p), s) == Running(Begun(p).(state := InNumber(st), nbuf := s)) && (st.Zero? || st.Digits?)
  {
    RunOne(p, s[0]);
    assert [s[0]] + s[1..] == s;
    if s[0] == '-' {
      var q := Begun(p).(state := InNumber(Minus), nbuf := "-");
      RunThen(p, [s[0]], q, s[1..]);
      st := UnsignedRun(q, s[1..]);
    } else {
      st := if s[0] == '0' then Zero else Digits;
      var q := Begun(p).(state := InNumber(st), nbuf := [s[0]]);
      RunThen(p, [s[0]], q, s[1..]);
      if s != "0" {
        DigitsRun(q, s[1..]);
      }
    }
  }

  /** The first digit of a fraction or an exponent. */
  lemma FirstDigit(p: Parser, c: char)
    requires p.state.InNumber? && (p.state.num.Fraction1? || p.state.num.Exp1? || p.state.num.Exp2?) && IsDigit(c)
    ensures Step(p, c)
         == Running(p.(state := InNumber(if p.state.num.Fraction1? then Fraction2 else Exp3), nbuf := p.nbuf + [c]))
  {
    hide Step;
    NumberStepIs(p, c);
  }

  lemma TailText(s: string, mark: char, t: string)
    requires t != []
    ensures [mark, t[0]] + t[1..] == [mark] + t
    ensures s + [mark] + [t[0]] + t[1..] == s + [mark] + t
    ensures AllDigits(t) ==> AllDigits(t[1..]) && IsDigit(t[0])
  {
  }

  /** A letter or point that the number goes on with, its first digit, and more digits. */
  lemma TailRun(p: Parser, s: string, mark: char, next: NumberState, t: string, last: NumberState)
    requires p.state.InNumber? && t != [] && AllDigits(t)
    requires last.Fraction2? || last.Exp3?
    requires Step(p, mark) == Running(p.(state := InNumber(next), nbuf := s + [mark]))
    requires (next.Fraction1? && last.Fraction2?) || ((next.Exp1? || next.Exp2?) && last.Exp3?)
    ensures Run(Running(p), [mark] + t) == Running(p.(state := InNumber(last), nbuf := s + [mark] + t))
  {
    var q := p.(state := InNumber(next), nbuf := s + [mark]);
    var r := p.(state := InNumber(last), nbuf := s + [mark] + [t[0]]);
    hide Step;
    hide Run;
    FirstDigit(q, t[0]);
    RunTwo(p, mark, t[0]);
    RunThen(p, [mark, t[0]], r, t[1..]);
    TailText(s, mark, t);
    DigitsRun(r, t[1..]);
  }

  lemma CutAt(s: string, k: nat)
    requires k < |s|
    ensures s == s[..k] + ([s[k]] + s[k + 1..]) && s == s[..k] + [s[k]] + s[k + 1..]
  {
  }

  lemma FixedRun(p: Parser, s: string, k: nat)
    requires AtValue(p) && IsFixedAt(s, k)
    ensures Run(Running(p), s) == Running(Begun(p).(state := InNumber(Fraction2), nbuf := s))
  {
    hide Step;
    hide Run;
    hide IsInteger;
    hide AtValue;
    var head, tail := s[..k], s[k + 1..];
    CutAt(s, k);
    var st := IntegerRun(p, head);
    BegunState(p);
    var q := Begun(p).(state := InNumber(st), nbuf := head);
    PointStep(q);
    TailRun(q, head, '.', Fraction1, tail, Fraction2);
    RunThen(p, head, q, "." + tail);
  }

  lemma BegunState(p: Parser)
    requires AtValue(p)
    ensures p.state.Structure?
  {
  }

  lemma PointStep(p: Parser)
    requires p.state == InNumber(Zero) || p.state == InNumber(Digits)
    ensures Step(p, '.') == Running(p.(state := InNumber(Fraction1), nbuf := p.nbuf + ['.']))
  {
    hide Step;
    NumberStepIs(p, '.');
  }

  lemma ExponentStep(p: Parser, e: char)
    requires p.state == InNumber(Zero) || p.state == InNumber(Digits) || p.state == InNumber(Fraction2)
    requires e == 'e' || e == 'E'
    ensures Step(p, e) == Running(p.(state := InNumber(Exp1), nbuf := p.nbuf + [e]))
  {
    hide Step;
    NumberStepIs(p, e);
  }

  lemma MinusStep(p: Parser)
    requires p.state == InNumber(Exp1)
    ensures Step(p, '-') == Running(p.(state := InNumber(Exp2), nbuf := p.nbuf + ['-']))
  {
    hide Step;
    NumberStepIs(p, '-');
  }

  lemma MantissaRun(p: Parser, s: string) returns (st: NumberState)
    requires AtValue(p) && IsMantissa(s)
    ensures Run(Running(p), s) == Running(Begun(p).(state := InNumber(st), nbuf := s))
    ensures st.Zero? || st.Digits? || st.Fraction2?
  {
    if IsInteger(s) {
      st := IntegerRun(p, s);
    } else {
      var k :| 0 <= k < |s| && IsFixedAt(s, k);
      FixedRun(p, s, k);
      st := Fraction2;
    }
  }

  lemma ScientificRun(p: Parser, s: string, k: nat)
    requires AtValue(p) && IsScientificAt(s, k)
    ensures Run(Running(p), s) == Running(Begun(p).(state := InNumber(Exp3), nbuf := s))
  {
    hide Step;
    hide Run;
    hide IsMantissa;
    hide AtValue;
    var head, tail := s[..k], s[k + 1..];
    CutAt(s, k);
    BegunState(p);
    var st := MantissaRun(p, head);
    var q := Begun(p).(state := InNumber(st), nbuf := head);
    ExponentRun(q, head, s[k], tail);
    RunThen(p, head, q, [s[k]] + tail);
  }

  /** The mark of an exponent and the exponent, with a minus or without. */
  lemma ExponentRun(p: Parser, head: string, e: char, tail: string)
    requires p.state == InNumber(Zero) || p.state == InNumber(Digits) || p.state == InNumber(Fraction2)
    requires p.nbuf == head && (e == 'e' || e == 'E') && tail != ""
    requires var x := if tail[0] == '-' then tail[1..] else tail; x != [] && AllDigits(x)
    ensures Run(Running(p), [e] + tail) == Running(p.(state := InNumber(Exp3), nbuf := head + [e] + tail))
  {
    hide Step;
    hide Run;
    ExponentStep(p, e);
    if tail[0] == '-' {
      var r := p.(state := InNumber(Exp1), nbuf := head + [e]);
      RunOne(p, e);
      MinusStep(r);
      TailRun(r, head + [e], '-', Exp2, tail[1..], Exp3);
      RunThen(p, [e], r, ['-'] + tail[1..]);
      CutAt(tail, 0);
      MinusText(head + [e], tail);
    } else {
      TailRun(p, head, e, Exp1, tail, Exp3);
    }
  }

  lemma MinusText(s: string, tail: string)
    requires tail != "" && tail[0] == '-'
    ensures s + ['-'] + tail[1..] == s + tail && ['-'] + tail[1..] == tail
  {
  }

  /** Any number text is read to its end, in a state that knows its kind. */
  lemma NumberRun(p: Parser, kind: NumberKind, s: string) returns (st: NumberState)
    requires AtValue(p) && ValidNumber(kind, s)
    ensures Run(Running(p), s) == Running(Begun(p).(state := InNumber(st), nbuf := s))
    ensures EndsNumber(st) && KindOf(st) == kind
  {
    match kind
    case Integer => st := IntegerRun(p, s);
    case Fixed =>
      var k :| 0 <= k < |s| && IsFixedAt(s, k);
      FixedRun(p, s, k);
      st := Fraction2;
    case Scientific =>
      var k :| 0 <= k < |s| && IsScientificAt(s, k);
      ScientificRun(p, s, k);
      st := Exp3;
  }
}
