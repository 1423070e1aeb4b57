/**
 * `convert_seg_element_to_srt_element` and `convert_to_srt`: the SubRip
 * document built from the segments of a transcription result.
 *
 * Each segment becomes one element, its printed index (`id + 1`), its start
 * and end time stamps, its stripped text and a blank line:
 *
 *     1
 *     00:00:00,000 --> 00:00:02,500
 *     hello world
 *
 * and the document is the elements of all segments, in the order of the list.
 */
module Srt {
  import opened Options
  import opened Decimal
  import opened Text
  import opened SrtTime

  /** One entry of `result["segments"]`; `start` and `end` are offsets in microseconds. */
  datatype Segment = Segment(id: nat, start: nat, end: nat, text: string)

  /** A transcription result; `convert_to_srt` reads only its segments. */
  datatype TranscriptionResult = TranscriptionResult(segments: seq<Segment>)

  /** The f-string `f"{index}\n{start} --> {end}\n{text}\n\n"` of one element. */
  function ElementLayout(index: string, start: string, end: string, text: string): (e: string)
    ensures |e| == |index| + |start| + |end| + |text| + 9
  {
    index + "\n" + start + " --> " + end + "\n" + text + "\n\n"
  }

  /**
   * `convert_seg_element_to_srt_element` on the four fields it reads: index
   * `id + 1`, both time stamps, the stripped text.
   */
  function Element(id: nat, start: nat, end: nat, text: string): (e: string)
    ensures |e| == |NatToString(id + 1)| + 33 + |Strip(text)|
  {
    ElementLayout(NatToString(id + 1), TimedeltaToStr(start), TimedeltaToStr(end), Strip(text))
  }

  /**
   * `convert_seg_element_to_srt_element(seg)`: its printed index, 33 characters
   * of time stamps and separators, and the stripped text.
   */
  function SrtElement(seg: Segment): (e: string)
    ensures |e| == |NatToString(seg.id + 1)| + 33 + |Strip(seg.text)|
  {
    Element(seg.id, seg.start, seg.end, seg.text)
  }

  /**
   * The loop of `convert_to_srt`, `srt = srt + render(seg)` for each segment
   * in turn from `srt = ""`, with the element renderer as a parameter: the
   * facts about order and concatenation below hold whatever one element looks
   * like.
   */
  function Accumulate(render: Segment -> string, segments: seq<Segment>): string {
    if segments == [] then ""
    else Accumulate(render, segments[..|segments| - 1]) + render(segments[|segments| - 1])
  }

  /** The document `convert_to_srt` builds: the elements of `segments`, left to right. */
  function SrtDocument(segments: seq<Segment>): string {
    Accumulate(SrtElement, segments)
  }

  /** One more turn of the loop appends the next element. */
  lemma AccumulateStep(render: Segment -> string, segments: seq<Segment>, i: nat)
    requires i < |segments|
    ensures Accumulate(render, segments[..i + 1]) == Accumulate(render, segments[..i]) + render(segments[i])
  {
    assert segments[..i + 1][..i] == segments[..i];
  }

  /** `convert_to_srt(result)`: starts from the empty string and appends one element per segment. */
  method ConvertToSrt(result: TranscriptionResult) returns (srt: string)
    ensures srt == SrtDocument(result.segments)
  {
    var segments := result.segments;
    srt := "";
    for i := 0 to |segments|
      invariant srt == SrtDocument(segments[..i])
    {
      var element := SrtElement(segments[i]);
      AccumulateStep(SrtElement, segments, i);
      srt := srt + element;
    }
    assert segments[..|segments|] == segments;
  }

  // ---------------------------------------------------------------------------
  // The document as a concatenation of elements

  /** Accumulating over a concatenation is concatenating the accumulations. */
  lemma {:induction false} AccumulateAppend(render: Segment -> string, a: seq<Segment>, b: seq<Segment>)
    ensures Accumulate(render, a + b) == Accumulate(render, a) + Accumulate(render, b)
    decreases |b|
  {
    if b == [] {
      assert a + b == a;
    } else {
      var b' := b[..|b| - 1];
      assert (a + b)[..|a + b| - 1] == a + b';
      assert (a + b)[|a + b| - 1] == b[|b| - 1];
      AccumulateAppend(render, a, b');
    }
  }

  /** `convert_to_srt` distributes over concatenation of segment lists. */
  lemma SrtDocumentAppend(a: seq<Segment>, b: seq<Segment>)
    ensures SrtDocument(a + b) == SrtDocument(a) + SrtDocument(b)
  {
    AccumulateAppend(SrtElement, a, b);
  }

  /** The empty list gives the empty document, and only it does. */
  lemma SrtDocumentEmpty(segments: seq<Segment>)
    ensures SrtDocument(segments) == "" <==> segments == []
  {
    if segments != [] {
      var last := |segments| - 1;
      assert SrtDocument(segments) == SrtDocument(segments[..last]) + SrtElement(segments[last]);
    }
  }

  /** Accumulating over a list that starts with `seg` starts with `seg`'s element. */
  lemma AccumulateCons(render: Segment -> string, seg: Segment, rest: seq<Segment>)
    ensures Accumulate(render, [seg] + rest) == render(seg) + Accumulate(render, rest)
  {
    AccumulateAppend(render, [seg], rest);
    assert [seg][..0] == [];
    assert Accumulate(render, [seg]) == "" + render(seg) == render(seg);
  }

  /** Accumulating around position `k`: what comes before, element `k`, what comes after. */
  lemma AccumulateAt(render: Segment -> string, segments: seq<Segment>, k: nat)
    requires k < |segments|
    ensures Accumulate(render, segments)
      == Accumulate(render, segments[..k]) + render(segments[k]) + Accumulate(render, segments[k + 1..])
  {
    SplitAround(segments, k);
    AccumulateAppend(render, segments[..k], [segments[k]] + segments[k + 1..]);
    AccumulateCons(render, segments[k], segments[k + 1..]);
    ConcatAssoc(Accumulate(render, segments[..k]), render(segments[k]), Accumulate(render, segments[k + 1..]));
  }

  lemma SplitAround(segments: seq<Segment>, k: nat)
    requires k < |segments|
    ensures segments == segments[..k] + ([segments[k]] + segments[k + 1..])
  {
  }

  lemma ConcatAssoc(x: string, y: string, z: string)
    ensures x + (y + z) == x + y + z
  {
  }

  /** Peeling the first segment off the front of the document. */
  lemma SrtDocumentCons(seg: Segment, rest: seq<Segment>)
    ensures SrtDocument([seg] + rest) == SrtElement(seg) + SrtDocument(rest)
  {
    AccumulateCons(SrtElement, seg, rest);
  }

  /** Segment `k`'s element stands, whole and once, between the elements of the segments before and after it. */
  lemma SrtDocumentAt(segments: seq<Segment>, k: nat)
    requires k < |segments|
    ensures SrtDocument(segments)
      == SrtDocument(segments[..k]) + SrtElement(segments[k]) + SrtDocument(segments[k + 1..])
  {
    AccumulateAt(SrtElement, segments, k);
  }

  /** The sum of the lengths of the rendered elements. */
  function TotalLength(render: Segment -> string, segments: seq<Segment>): nat {
    if segments == [] then 0 else TotalLength(render, segments[..|segments| - 1]) + |render(segments[|segments| - 1])|
  }

  lemma {:induction false} AccumulateLength(render: Segment -> string, segments: seq<Segment>)
    ensures |Accumulate(render, segments)| == TotalLength(render, segments)
    decreases |segments|
  {
    if segments != [] {
      AccumulateLength(render, segments[..|segments| - 1]);
    }
  }

  /** The document is exactly as long as its elements together. */
  lemma SrtDocumentLength(segments: seq<Segment>)
    ensures |SrtDocument(segments)| == TotalLength(SrtElement, segments)
  {
    AccumulateLength(SrtElement, segments);
  }

  // ---------------------------------------------------------------------------
  // Reading a document back

  /** What a reader of one element recovers: the printed index, both times in milliseconds of the day, the text. */
  datatype Cue = Cue(index: nat, start: nat, end: nat, text: string)

  /** The cue the element of `seg` should read back as. */
  function CueOf(seg: Segment): Cue {
    Cue(seg.id + 1, MillisOfDay(seg.start), MillisOfDay(seg.end), Strip(seg.text))
  }

  /** The cues of a list of segments, in order. */
  function CuesOf(segments: seq<Segment>): (cues: seq<Cue>)
    ensures |cues| == |segments|
    ensures forall k :: 0 <= k < |segments| ==> cues[k] == CueOf(segments[k])
  {
    if segments == [] then [] else [CueOf(segments[0])] + CuesOf(segments[1..])
  }

  /** Splits off the text before the first line feed. */
  function SplitLine(s: string): (r: Option<(string, string)>)
    ensures r.Some? ==> s == r.value.0 + "\n" + r.value.1 && '\n' !in r.value.0
    ensures r.None? ==> '\n' !in s
  {
    if s == [] then None
    else if s[0] == '\n' then Some(([], s[1..]))
    else match SplitLine(s[1..])
      case None => None
      case Some((line, rest)) => Some(([s[0]] + line, rest))
  }

  /** Reads one element off the front of `s`, returning its cue and what follows it. */
  function ParseCue(s: string): (r: Option<(Cue, string)>)
    ensures r.Some? ==> |r.value.1| < |s|
  {
    match SplitLine(s)
    case None => None
    case Some((indexLine, s1)) =>
      match SplitLine(s1)
      case None => None
      case Some((timing, s2)) =>
        match SplitLine(s2)
        case None => None
        case Some((text, s3)) =>
          if indexLine != [] && AllDigits(indexLine) && |timing| == 29 && timing[12..17] == " --> "
            && IsTimestamp(timing[..12]) && IsTimestamp(timing[17..]) && s3 != [] && s3[0] == '\n'
          then
            var cue := Cue(DecimalValue(indexLine), TimestampMillis(timing[..12]), TimestampMillis(timing[17..]), text);
            Some((cue, s3[1..]))
          else None
  }

  /** Reads a whole document as a list of cues; `None` when it is not made of elements. */
  function ParseSrt(doc: string): Option<seq<Cue>>
    decreases |doc|
  {
    if doc == [] then Some([])
    else match ParseCue(doc)
      case None => None
      case Some((cue, rest)) =>
        match ParseSrt(rest)
        case None => None
        case Some(cues) => Some([cue] + cues)
  }

  /** Text in which no segment's stripped text has a line feed of its own. */
  predicate SingleLineTexts(segments: seq<Segment>) {
    forall k :: 0 <= k < |segments| ==> '\n' !in Strip(segments[k].text)
  }

  lemma {:induction false} SplitLineOf(a: string, b: string)
    requires '\n' !in a
    ensures SplitLine(a + "\n" + b) == Some((a, b))
    decreases |a|
  {
    var s := a + "\n" + b;
    if a == [] {
      assert s == "\n" + b;
      assert s[1..] == b;
    } else {
      assert s[0] == a[0];
      assert s[1..] == a[1..] + "\n" + b;
      SplitLineOf(a[1..], b);
      assert [a[0]] + a[1..] == a;
    }
  }

  lemma DigitsHaveNoLineFeed(s: string)
    requires AllDigits(s)
    ensures '\n' !in s
  {
    assert forall k :: 0 <= k < |s| ==> s[k] != '\n';
  }

  lemma TimingLine(a: string, b: string)
    requires |a| == 12 && |b| == 12
    ensures var t := a + " --> " + b; |t| == 29 && t[..12] == a && t[12..17] == " --> " && t[17..] == b
  {
  }

  lemma TimestampHasNoLineFeed(t: string)
    requires IsTimestamp(t)
    ensures '\n' !in t
  {
    assert t == [t[0], t[1], t[2], t[3], t[4], t[5], t[6], t[7], t[8], t[9], t[10], t[11]];
  }

  /** An element laid out from well-formed pieces reads back as those pieces, leaving what follows untouched. */
  lemma ParseCueOfLayout(index: string, a: string, b: string, text: string, rest: string)
    requires index != [] && AllDigits(index) && IsTimestamp(a) && IsTimestamp(b) && '\n' !in text
    ensures ParseCue(ElementLayout(index, a, b, text) + rest)
      == Some((Cue(DecimalValue(index), TimestampMillis(a), TimestampMillis(b), text), rest))
  {
    var timing := a + " --> " + b;
    var s2 := text + "\n" + ("\n" + rest);
    var s1 := timing + "\n" + s2;
    assert ElementLayout(index, a, b, text) + rest == index + "\n" + s1;
    DigitsHaveNoLineFeed(index);
    SplitLineOf(index, s1);
    TimingLine(a, b);
    TimestampHasNoLineFeed(a);
    TimestampHasNoLineFeed(b);
    assert '\n' !in timing;
    SplitLineOf(timing, s2);
    SplitLineOf(text, "\n" + rest);
    assert ("\n" + rest)[1..] == rest;
  }

  /** The cue of a segment, field by field; a solver hint that unfolds `CueOf`, which the verifier does not do reliably on its own. */
  lemma CueOfFields(seg: Segment)
    ensures CueOf(seg) == Cue(seg.id + 1, MillisOfDay(seg.start), MillisOfDay(seg.end), Strip(seg.text))
  {
  }

  /** An element reads back as its printed index, both times of day and the stripped text, leaving what follows untouched. */
  lemma ParseCueOfFields(id: nat, start: nat, end: nat, text: string, rest: string)
    requires '\n' !in Strip(text)
    ensures ParseCue(Element(id, start, end, text) + rest)
      == Some((Cue(id + 1, MillisOfDay(start), MillisOfDay(end), Strip(text)), rest))
  {
    ElementPieces(id, start, end);
    ParseCueOfLayout(NatToString(id + 1), TimedeltaToStr(start), TimedeltaToStr(end), Strip(text), rest);
  }

  /** The pieces of an element are well formed and stand for the printed index and the times of day. */
  lemma ElementPieces(id: nat, start: nat, end: nat)
    ensures var index := NatToString(id + 1);
      index != [] && AllDigits(index) && DecimalValue(index) == id + 1
    ensures IsTimestamp(TimedeltaToStr(start)) && TimestampMillis(TimedeltaToStr(start)) == MillisOfDay(start)
    ensures IsTimestamp(TimedeltaToStr(end)) && TimestampMillis(TimedeltaToStr(end)) == MillisOfDay(end)
  {
    NatToStringValue(id + 1);
    TimestampRoundTrip(start);
    TimestampRoundTrip(end);
  }

  /** An element reads back as the cue of its segment, leaving what follows untouched. */
  lemma ParseCueOfElement(seg: Segment, rest: string)
    requires '\n' !in Strip(seg.text)
    ensures ParseCue(SrtElement(seg) + rest) == Some((CueOf(seg), rest))
  {
    CueOfFields(seg);
    ParseCueOfFields(seg.id, seg.start, seg.end, seg.text, rest);
  }

  /**
   * Reading the document back gives one cue per segment, in list order, each
   * carrying that segment's printed index, times and stripped text.
   */
  lemma {:induction false} ParseSrtRoundTrip(segments: seq<Segment>)
    requires SingleLineTexts(segments)
    ensures ParseSrt(SrtDocument(segments)) == Some(CuesOf(segments))
    decreases |segments|
  {
    if segments != [] {
      var seg, rest := segments[0], segments[1..];
      assert segments == [seg] + rest;
      assert SingleLineTexts(rest) by {
        forall k | 0 <= k < |rest| ensures '\n' !in Strip(rest[k].text) {
          assert rest[k] == segments[k + 1];
        }
      }
      SrtDocumentCons(seg, rest);
      assert '\n' !in Strip(segments[0].text);
      ParseCueOfElement(seg, SrtDocument(rest));
      ParseSrtRoundTrip(rest);
      ParseSrtCons(SrtElement(seg) + SrtDocument(rest), CueOf(seg), SrtDocument(rest), CuesOf(rest));
      CuesOfCons(seg, rest);
    } else {
      assert SrtDocument(segments) == "";
    }
  }

  /** A document that starts with one cue and goes on with a list of them reads as that list, one longer. */
  lemma ParseSrtCons(doc: string, cue: Cue, rest: string, cues: seq<Cue>)
    requires ParseCue(doc) == Some((cue, rest)) && ParseSrt(rest) == Some(cues)
    ensures ParseSrt(doc) == Some([cue] + cues)
  {
  }

  lemma CuesOfCons(seg: Segment, rest: seq<Segment>)
    ensures CuesOf([seg] + rest) == [CueOf(seg)] + CuesOf(rest)
  {
    assert ([seg] + rest)[1..] == rest;
  }

  /**
   * When the ids are 0 .. N-1 in list order, the document holds exactly N
   * cues, printed with the indices 1 .. N in order.
   */
  lemma PrintedIndices(segments: seq<Segment>)
    requires SingleLineTexts(segments)
    requires forall k :: 0 <= k < |segments| ==> segments[k].id == k
    ensures ParseSrt(SrtDocument(segments)).Some?
    ensures var cues := ParseSrt(SrtDocument(segments)).value;
      |cues| == |segments| && forall k :: 0 <= k < |cues| ==> cues[k].index == k + 1
  {
    ParseSrtRoundTrip(segments);
  }

  /** Worked instance: the text is stripped and the index is one more than the id. */
  lemma SrtElementExample()
    ensures SrtElement(Segment(0, 0, 2500000, "  hello world  "))
      == "1\n00:00:00,000 --> 00:00:02,500\nhello world\n\n"
  {
    ElementExample();
  }

  lemma ElementExample()
    ensures Element(0, 0, 2500000, "  hello world  ") == "1\n00:00:00,000 --> 00:00:02,500\nhello world\n\n"
  {
    StripExample();
    TimestampExampleZero();
    TimestampExampleSeconds();
    assert NatToString(1) == "1";
    ElementOfPieces(0, 0, 2500000, "  hello world  ", "1", "00:00:00,000", "00:00:02,500", "hello world");
    ElementLayoutExample();
  }

  /** A solver hint: an element whose four pieces are known is their layout. */
  lemma ElementOfPieces(id: nat, start: nat, end: nat, text: string, index: string, a: string, b: string, t: string)
    requires NatToString(id + 1) == index && TimedeltaToStr(start) == a && TimedeltaToStr(end) == b && Strip(text) == t
    ensures Element(id, start, end, text) == ElementLayout(index, a, b, t)
  {
  }

  /** The worked layout, built piece by piece so that each concatenation of literals is a small step for the solver. */
  lemma ElementLayoutExample()
    ensures ElementLayout("1", "00:00:00,000", "00:00:02,500", "hello world")
      == "1\n00:00:00,000 --> 00:00:02,500\nhello world\n\n"
  {
    var s := "1" + "\n";
    assert s == "1\n";
    s := s + "00:00:00,000";
    assert s == "1\n00:00:00,000";
    s := s + " --> ";
    assert s == "1\n00:00:00,000 --> ";
    s := s + "00:00:02,500";
    assert s == "1\n00:00:00,000 --> 00:00:02,500";
    s := s + "\n";
    assert s == "1\n00:00:00,000 --> 00:00:02,500\n";
    s := s + "hello world";
    assert s == "1\n00:00:00,000 --> 00:00:02,500\nhello world";
    s := s + "\n\n";
    assert s == "1\n00:00:00,000 --> 00:00:02,500\nhello world\n\n";
  }
}
