/** Parser, decoder and serializer together: reading text, and text that was printed. */
module JsonPipeline {
  import opened JsonText
  import opened ParserSpec
  import opened JsonParsing
  import opened JsonDecoding
  import Invariant = ParserInvariant
  import Printing = JsonPrinting
  import Back = RoundTrip

  // ---- Every accepted text decodes --------------------------------------------------

  /** The k-th open structure of the decoder is of its frame's kind and lies above the one before. */
  predicate FrameFits(frames: seq<Invariant.Frame>, d: Decoder, k: nat)
    requires k < |frames| && |d.offsets| == |frames| + 1
  {
    var o := d.offsets[k + 1];
    o.isObject == frames[k].ObjectFrame? && o.index < |d.stack| &&
    (if o.isObject then d.stack[o.index].value.Object? else d.stack[o.index].value.Array?) &&
    (if k == 0 then o.index == 0 else d.offsets[k].index < o.index)
  }

  /** What the decoder looks like where the stream of events has got to. */
  predicate Follows(t: Invariant.Phase, d: Decoder) {
    match t
    case NotBegun => true
    case Open(frames) =>
      && |d.offsets| == |frames| + 1 && d.offsets[0] == Offset(0, false)
      && (forall k :: 0 <= k < |frames| ==> FrameFits(frames, d, k))
      && (if frames == [] then d.stack == []
          else frames[|frames| - 1] == Invariant.ObjectFrame(true) ==> |d.stack| > Last(d.offsets).index + 1)
    case Complete => d.offsets == [Offset(0, false)] && |d.stack| == 1
    case Finished => d.valid
    case Bad => true
  }

  /** Structures opened earlier lie lower. */
  lemma {:induction false} Lower(frames: seq<Invariant.Frame>, d: Decoder, k: nat, j: nat)
    requires |d.offsets| == |frames| + 1 && k < j < |frames|
    requires forall i :: 0 <= i < |frames| ==> FrameFits(frames, d, i)
    ensures d.offsets[k + 1].index < d.offsets[j + 1].index
    decreases j
  {
    assert FrameFits(frames, d, j);
    if k + 1 < j {
      Lower(frames, d, k, j - 1);
    }
  }

  lemma PlaceFollows(frames: seq<Invariant.Frame>, d: Decoder, v: Json)
    requires Follows(Invariant.Open(frames), d) && Invariant.ValueAllowed(frames)
    ensures HasPlace(d)
    ensures var p := Place(d, v);
            p.offsets == d.offsets && p.stack != [] && Last(p.stack).value == v && p.valid == d.valid &&
            (frames == [] ==> |p.stack| == 1) &&
            (frames != [] ==> Last(d.offsets).index < |p.stack| - 1) &&
            forall k :: 0 <= k < |frames| ==> FrameFits(frames, p, k)
  {
    if frames != [] {
      var n := |frames| - 1;
      assert FrameFits(frames, d, n);
      var p := Place(d, v);
      forall k | 0 <= k < |frames|
        ensures FrameFits(frames, p, k)
      {
        assert FrameFits(frames, d, k);
        if k < n {
          Lower(frames, d, k, n);
        }
        assert p.stack[d.offsets[k + 1].index] == d.stack[d.offsets[k + 1].index];
      }
    }
  }

  lemma ScalarFollows(frames: seq<Invariant.Frame>, d: Decoder, v: Json)
    requires Follows(Invariant.Open(frames), d) && Invariant.ValueAllowed(frames)
    ensures HasPlace(d) && Follows(Invariant.ValueEnded(frames), Place(d, v))
  {
    PlaceFollows(frames, d, v);
    if frames != [] && frames[|frames| - 1].ObjectFrame? {
      var p := Place(d, v);
      Renamed(frames, p, false);
    }
  }

  /** The flag of the innermost object is nothing the decoder's structures depend on. */
  lemma Renamed(frames: seq<Invariant.Frame>, d: Decoder, named: bool)
    requires frames != [] && frames[|frames| - 1].ObjectFrame? && |d.offsets| == |frames| + 1
    requires forall k :: 0 <= k < |frames| ==> FrameFits(frames, d, k)
    ensures var r := frames[..|frames| - 1] + [Invariant.ObjectFrame(named)];
            forall k :: 0 <= k < |r| ==> FrameFits(r, d, k)
  {
    var r := frames[..|frames| - 1] + [Invariant.ObjectFrame(named)];
    forall k | 0 <= k < |r|
      ensures FrameFits(r, d, k)
    {
      assert FrameFits(frames, d, k);
    }
  }

  lemma OpenFollows(frames: seq<Invariant.Frame>, d: Decoder, isObject: bool)
    requires Follows(Invariant.Open(frames), d) && Invariant.ValueAllowed(frames)
    ensures var f := if isObject then Invariant.ObjectFrame(false) else Invariant.ArrayFrame;
            OpenStructure(d, isObject).Decoded? && Follows(Invariant.Open(frames + [f]), OpenStructure(d, isObject).d)
  {
    var v := if isObject then Object([]) else Array([]);
    PlaceFollows(frames, d, v);
    var f := if isObject then Invariant.ObjectFrame(false) else Invariant.ArrayFrame;
    var p, q, fs := Place(d, v), OpenStructure(d, isObject).d, frames + [f];
    forall k | 0 <= k < |fs|
      ensures FrameFits(fs, q, k)
    {
      if k < |frames| {
        assert FrameFits(frames, p, k);
      }
    }
  }

  lemma NameFollows(frames: seq<Invariant.Frame>, d: Decoder, name: string)
    requires Follows(Invariant.Open(frames), d) && frames != [] && frames[|frames| - 1] == Invariant.ObjectFrame(false)
    ensures Follows(Invariant.Open(frames[..|frames| - 1] + [Invariant.ObjectFrame(true)]), Decode(d, Name(name)).d)
  {
    var q := Decode(d, Name(name)).d;
    assert FrameFits(frames, d, |frames| - 1);
    forall k | 0 <= k < |frames|
      ensures FrameFits(frames, q, k)
    {
      assert FrameFits(frames, d, k);
    }
    Renamed(frames, q, true);
  }

  lemma CloseFollows(frames: seq<Invariant.Frame>, d: Decoder)
    requires Follows(Invariant.Open(frames), d) && frames != []
    ensures CloseStructure(d).Decoded? && Follows(Invariant.ValueEnded(frames[..|frames| - 1]), CloseStructure(d).d)
  {
    var n := |frames| - 1;
    assert FrameFits(frames, d, n);
    var q, fs := CloseStructure(d).d, frames[..n];
    forall k | 0 <= k < n
      ensures FrameFits(fs, q, k)
    {
      assert FrameFits(frames, d, k);
      Lower(frames, d, k, n);
    }
    if n > 0 && fs[n - 1].ObjectFrame? {
      Renamed(fs, q, false);
    }
  }

  lemma FollowStep(t: Invariant.Phase, d: Decoder, e: Event)
    requires Follows(t, d) && Invariant.EventStep(t, e) != Invariant.Bad
    ensures Decode(d, e).Decoded? && Follows(Invariant.EventStep(t, e), Decode(d, e).d)
  {
    hide FrameFits;
    match e
    case BeginDocument =>
    case EndDocument =>
    case Name(s) => NameFollows(t.frames, d, s);
    case BeginObject => OpenFollows(t.frames, d, true);
    case BeginArray => OpenFollows(t.frames, d, false);
    case EndObject => CloseFollows(t.frames, d);
    case EndArray => CloseFollows(t.frames, d);
    case _ => ScalarFollows(t.frames, d, ScalarValue(e));
  }

  lemma {:induction false} FollowAll(d: Decoder, es: seq<Event>)
    requires Invariant.Trace(es) != Invariant.Bad
    ensures var o := DecodeAll(Decoded(d), es); o.Decoded? && Follows(Invariant.Trace(es), o.d)
    decreases |es|
  {
    if es != [] {
      var init, e := es[..|es| - 1], es[|es| - 1];
      FollowAll(d, init);
      var o := DecodeAll(Decoded(d), init);
      FollowStep(Invariant.Trace(init), o.d, e);
      assert es == init + [e];
      DecodeAppend(Decoded(d), init, [e]);
      DecodeOne(o.d, e);
    }
  }

  // ---- Reading ------------------------------------------------------------------------

  datatype Reading = Value(v: Json) | NoValue | Rejected(code: Errc)

  /** What a text is read as: an error, no value for a blank text, or the decoder's result. */
  function Read(maxDepth: nat, s: string): Reading {
    match Parse(maxDepth, s)
    case Failed(code, _) => Rejected(code)
    case Running(p) =>
      var o := DecodeAll(Decoded(Fresh()), p.events);
      if o.Decoded? && o.d.valid then Value(o.d.result) else NoValue
  }

  /**
   Whatever text is accepted: its events never meet an undefined step of the decoder, and
   the decoder ends with a value unless the text was blank.
   */
  lemma AcceptedDecodes(maxDepth: nat, s: string)
    ensures match Parse(maxDepth, s)
            case Running(p) =>
              DecodeAll(Decoded(Fresh()), p.events).Decoded? &&
              (Read(maxDepth, s).NoValue? <==> p.events == [] || p.events == [BeginDocument])
            case Failed(code, es) =>
              DecodeAll(Decoded(Fresh()), es).Decoded? && code != AssertionFailed && Read(maxDepth, s) == Rejected(code)
  {
    Invariant.ParseSound(maxDepth, s);
    match Parse(maxDepth, s)
    case Running(p) =>
      if p.events == [] {
      } else if p.events == [BeginDocument] {
        DecodeOne(Fresh(), BeginDocument);
      } else {
        FollowAll(Fresh(), p.events);
      }
    case Failed(code, es) => FollowAll(Fresh(), es);
  }

  /**
   The round trip: compact text of any value with well-formed numbers, whose nesting is
   allowed, reads as the value with its objects as the sorted storage keeps them, and as
   the value itself when it is already so kept.
   */
  lemma RoundTrip(v: Json, opts: Printing.Options, maxDepth: nat)
    requires Back.Valid(v) && Back.Height(v) <= maxDepth
    ensures Read(maxDepth, Printing.Print(v, opts)) == Value(Normal(v))
    ensures IsNormal(v) ==> Read(maxDepth, Printing.Print(v, opts)) == Value(v)
  {
    Back.PrintThenParse(v, opts, maxDepth);
    DecodeDocument(Fresh(), v);
  }

  /** No two values that the sorted storage keeps have the same text. */
  lemma PrintInjective(v: Json, w: Json, opts: Printing.Options)
    requires Back.Valid(v) && Back.Valid(w) && IsNormal(v) && IsNormal(w)
    requires Printing.Print(v, opts) == Printing.Print(w, opts)
    ensures v == w
  {
    var depth := Back.Max(Back.Height(v), Back.Height(w));
    RoundTrip(v, opts, depth);
    RoundTrip(w, opts, depth);
  }

  /** begin_document only resets, so sending it again at once changes nothing. */
  lemma {:induction false} CollapseDecodes(d: Decoder, es: seq<Event>)
    ensures DecodeAll(Decoded(d), es) == DecodeAll(Decoded(d), Collapse(es))
    decreases |es|
  {
    if es != [] {
      var init, e := es[..|es| - 1], es[|es| - 1];
      CollapseDecodes(d, init);
      assert es == init + [e];
      DecodeAppend(Decoded(d), init, [e]);
      if e == BeginDocument && init != [] && init[|init| - 1] == BeginDocument {
        TwiceBegun(d, init);
      } else {
        DecodeAppend(Decoded(d), Collapse(init), [e]);
      }
    }
  }

  lemma TwiceBegun(d: Decoder, init: seq<Event>)
    requires init != [] && init[|init| - 1] == BeginDocument
    ensures DecodeAll(DecodeAll(Decoded(d), init), [BeginDocument]) == DecodeAll(Decoded(d), init)
  {
    var before := init[..|init| - 1];
    assert init == before + [BeginDocument];
    DecodeAppend(Decoded(d), before, [BeginDocument]);
    var o := DecodeAll(Decoded(d), before);
    if o.Decoded? {
      DecodeOne(o.d, BeginDocument);
      DecodeOne(Decode(o.d, BeginDocument).d, BeginDocument);
    }
  }

  /** Parser and decoder on a text that comes in any pieces. */
  method ReadChunks(chunks: seq<string>, maxDepth: nat) returns (r: Reading)
    ensures r == Read(maxDepth, Concat(chunks))
  {
    hide Parse;
    hide Collapse;
    hide Concat;
    hide DecodeAll;
    AcceptedDecodes(maxDepth, Concat(chunks));
    var ec, parser := ParseChunks(chunks, maxDepth);
    if ec != Ok {
      return Rejected(ec.code);
    }
    CollapseDecodes(Fresh(), parser.events);
    var decoder := new JsonDecoder();
    var ok := decoder.HandleAll(parser.events);
    r := if decoder.isValid then Value(decoder.result) else NoValue;
  }

  /** A text cut from its end: each length takes a piece off, and what is left is the first piece. */
  function Cut(text: string, lengths: seq<nat>): (chunks: seq<string>)
    ensures chunks != []
    decreases |lengths|
  {
    if lengths == [] then [text]
    else
      var n := lengths[|lengths| - 1];
      var k := if n <= |text| then |text| - n else 0;
      Cut(text[..k], lengths[..|lengths| - 1]) + [text[k..]]
  }

  /** The pieces are the text again. */
  lemma {:induction false} CutConcat(text: string, lengths: seq<nat>)
    ensures Concat(Cut(text, lengths)) == text
    decreases |lengths|
  {
    if lengths == [] {
      assert [text][..0] == [] && Concat([text]) == "" + text;
    } else {
      var n := lengths[|lengths| - 1];
      var k := if n <= |text| then |text| - n else 0;
      var init := Cut(text[..k], lengths[..|lengths| - 1]);
      CutConcat(text[..k], lengths[..|lengths| - 1]);
      assert (init + [text[k..]])[..|init|] == init;
      assert text[..k] + text[k..] == text;
    }
  }

  function Lengths(chunks: seq<string>): seq<nat> {
    if |chunks| <= 1 then [] else Lengths(chunks[..|chunks| - 1]) + [|chunks[|chunks| - 1]|]
  }

  /** Any pieces of a text are a cut of it. */
  lemma {:induction false} CutAny(chunks: seq<string>)
    requires chunks != []
    ensures Cut(Concat(chunks), Lengths(chunks)) == chunks
  {
    var init, last := chunks[..|chunks| - 1], chunks[|chunks| - 1];
    if init == [] {
      assert chunks == [last] && chunks[..0] == [] && Concat(chunks) == Concat([]) + last;
      assert Concat(chunks) == last;
    } else {
      CutAny(init);
      var text, k := Concat(chunks), |Concat(init)|;
      assert Lengths(chunks)[..|Lengths(chunks)| - 1] == Lengths(init);
      assert text[..k] == Concat(init) && text[k..] == last && chunks == init + [last];
    }
  }

  /** Printing a value, cutting the text into any pieces, and reading the pieces gives the value back. */
  method PrintAndRead(v: Json, opts: Printing.Options, lengths: seq<nat>) returns (r: Reading)
    requires Back.Valid(v) && IsNormal(v)
    ensures r == Value(v)
  {
    var text := Printing.Dump(v, opts);
    var chunks := Cut(text, lengths);
    CutConcat(text, lengths);
    var maxDepth := Back.Height(v);
    RoundTrip(v, opts, maxDepth);
    r := ReadChunks(chunks, maxDepth);
  }
}
