/**
 * Slide text extraction. A presentation is a sequence of slides, a slide a
 * sequence of shapes, a text-bearing shape a sequence of paragraphs and a
 * paragraph a sequence of runs; the result maps the original 1-based slide
 * number to the slide's stripped text, leaving blank slides out.
 */
module PresentationParser {
  import opened PyStr
  import opened PyDict

  datatype TextRun = TextRun(text: string)
  datatype Paragraph = Paragraph(runs: seq<TextRun>)
  datatype Shape = Shape(hasTextFrame: bool, paragraphs: seq<Paragraph>)
  datatype Slide = Slide(shapes: seq<Shape>)
  datatype Presentation = Presentation(slides: seq<Slide>)

  /** The stripped texts of some runs, joined with nothing in between. */
  function RunsText(runs: seq<TextRun>): string {
    if |runs| == 0 then "" else Strip(runs[0].text) + RunsText(runs[1..])
  }

  /** A paragraph's text: its runs, each stripped, then one line break. */
  function ParagraphText(p: Paragraph): string {
    RunsText(p.runs) + "\n"
  }

  /** The paragraphs' texts one after another. */
  function ParagraphsText(ps: seq<Paragraph>): string {
    if |ps| == 0 then "" else ParagraphText(ps[0]) + ParagraphsText(ps[1..])
  }

  /** A shape's text: the text of all of its paragraphs, in order. */
  function ShapeText(sh: Shape): string {
    ParagraphsText(sh.paragraphs)
  }

  /** The texts of the shapes that have a text frame, in order; shapes
      without one contribute nothing. */
  function FramedText(shapes: seq<Shape>): string {
    if |shapes| == 0 then ""
    else if shapes[0].hasTextFrame then ShapeText(shapes[0]) + FramedText(shapes[1..])
    else FramedText(shapes[1..])
  }

  /** A slide's text: the framed shapes' text, stripped. */
  function SlideText(slide: Slide): (t: string)
    ensures IsStripped(t)
  {
    Strip(FramedText(slide.shapes))
  }

  /** The text of every slide, in slide order. */
  function SlideTexts(slides: seq<Slide>): (ts: seq<string>)
    ensures |ts| == |slides|
    ensures forall i :: 0 <= i < |slides| ==> ts[i] == SlideText(slides[i])
    ensures AllStripped(ts)
  {
    seq(|slides|, i requires 0 <= i < |slides| => SlideText(slides[i]))
  }

  /** The key set of the text map built from the first `n` slide texts: the
      slide numbers up to `n` whose text is not empty. */
  ghost predicate KeysAreTextSlides(texts: seq<string>, n: nat, d: Dict<int, string>)
    requires n <= |texts|
  {
    forall k :: k in Keys(d) <==> 1 <= k <= n && texts[k - 1] != ""
  }

  /** Keys strictly increase in insertion order. */
  ghost predicate IncreasingKeys(d: Dict<int, string>) {
    forall i, j :: 0 <= i < j < |d| ==> d[i].0 < d[j].0
  }

  /** Every entry holds the (non-empty) text of the slide its key numbers. */
  ghost predicate EntriesAreSlideTexts(texts: seq<string>, d: Dict<int, string>) {
    forall i :: 0 <= i < |d| ==> 1 <= d[i].0 <= |texts| && d[i].1 == texts[d[i].0 - 1] && d[i].1 != ""
  }

  /** Every slide text is already stripped. */
  ghost predicate AllStripped(texts: seq<string>) {
    forall i :: 0 <= i < |texts| ==> IsStripped(texts[i])
  }

  /** The loop of `extract_text` after its first `n` slides, given their texts.
      Each text is stripped a second time before it is checked for emptiness and stored. */
  function CollectTexts(texts: seq<string>, n: nat): (d: Dict<int, string>)
    requires n <= |texts| && AllStripped(texts)
    ensures KeysAreTextSlides(texts, n, d)
    ensures IncreasingKeys(d)
    ensures EntriesAreSlideTexts(texts, d)
    ensures forall i :: 0 <= i < |d| ==> d[i].0 <= n
  {
    if n == 0 then []
    else
      var d := CollectTexts(texts, n - 1);
      var text := texts[n - 1];
      var r := if Strip(text) != "" then Assign(d, n, Strip(text)) else d;
      CollectStep(texts, n, d, r);
      r
  }

  /** One turn of the `extract_text` loop keeps its invariants. */
  lemma CollectStep(texts: seq<string>, n: nat, d: Dict<int, string>, r: Dict<int, string>)
    requires 1 <= n <= |texts| && AllStripped(texts)
    requires KeysAreTextSlides(texts, n - 1, d)
    requires IncreasingKeys(d)
    requires EntriesAreSlideTexts(texts, d)
    requires forall i :: 0 <= i < |d| ==> d[i].0 <= n - 1
    requires r == if Strip(texts[n - 1]) != "" then Assign(d, n, Strip(texts[n - 1])) else d
    ensures KeysAreTextSlides(texts, n, r)
    ensures IncreasingKeys(r)
    ensures EntriesAreSlideTexts(texts, r)
    ensures forall i :: 0 <= i < |r| ==> r[i].0 <= n
  {
    var text := texts[n - 1];
    StripStripped(text);
    if text != "" {
      assert n !in Keys(d);
      CollectKeep(texts, n, d, r);
    } else {
      CollectSkip(texts, n, d);
    }
  }

  /** Slide `n` has text: its entry is appended at the end. */
  lemma CollectKeep(texts: seq<string>, n: nat, d: Dict<int, string>, r: Dict<int, string>)
    requires 1 <= n <= |texts| && texts[n - 1] != ""
    requires KeysAreTextSlides(texts, n - 1, d)
    requires IncreasingKeys(d)
    requires EntriesAreSlideTexts(texts, d)
    requires forall i :: 0 <= i < |d| ==> d[i].0 <= n - 1
    requires r == d + [(n, texts[n - 1])]
    ensures KeysAreTextSlides(texts, n, r)
    ensures IncreasingKeys(r)
    ensures EntriesAreSlideTexts(texts, r)
    ensures forall i :: 0 <= i < |r| ==> r[i].0 <= n
  {
    assert n !in Keys(d);
    AppendFacts(d, (n, texts[n - 1]));
    forall i | 0 <= i < |r| ensures r[i].0 <= n {
      if i < |d| {
        assert r[i] == d[i];
      }
    }
  }

  /** Slide `n` is blank: the map is left as it was. */
  lemma CollectSkip(texts: seq<string>, n: nat, d: Dict<int, string>)
    requires 1 <= n <= |texts| && texts[n - 1] == ""
    requires KeysAreTextSlides(texts, n - 1, d)
    ensures KeysAreTextSlides(texts, n, d)
  {
  }

  /** `extract_text`: slide number (counted from 1 over all slides) to the
      slide's stripped text, for exactly the slides whose text is not blank,
      in slide order. */
  function ExtractText(p: Presentation): (d: Dict<int, string>)
    ensures forall k :: k in Keys(d) <==> 1 <= k <= |p.slides| && SlideText(p.slides[k - 1]) != ""
    ensures IncreasingKeys(d)
    ensures forall i :: 0 <= i < |d| ==>
      1 <= d[i].0 <= |p.slides| && d[i].1 == SlideText(p.slides[d[i].0 - 1]) && d[i].1 != ""
  {
    var texts := SlideTexts(p.slides);
    CollectTexts(texts, |texts|)
  }

  /** The keys of the extraction never repeat. */
  lemma ExtractedKeysDistinct(p: Presentation)
    ensures DistinctKeys(ExtractText(p))
  {
  }

  /** Every stored text is non-empty and has no whitespace at either end, so
      the second `strip()` changed nothing. */
  lemma ExtractedTextsStripped(p: Presentation, i: int)
    requires 0 <= i < |ExtractText(p)|
    ensures ExtractText(p)[i].1 != "" && Strip(ExtractText(p)[i].1) == ExtractText(p)[i].1
  {
    var d := ExtractText(p);
    StripStripped(d[i].1);
  }

  /** A slide is left out exactly when all of its framed text is whitespace. */
  lemma BlankSlideDropped(p: Presentation, k: int)
    requires 1 <= k <= |p.slides|
    ensures k !in Keys(ExtractText(p)) <==> AllSpace(FramedText(p.slides[k - 1].shapes))
  {
    StripEmptyIff(FramedText(p.slides[k - 1].shapes));
  }

  /** A slide holding one text box with one line of text. */
  function OneLineSlide(line: string): Slide {
    Slide([Shape(true, [Paragraph([TextRun(line)])])])
  }

  /** A word followed by a line break strips to the word. */
  lemma StripLine(w: string)
    requires IsStripped(w)
    ensures Strip(w + "\n") == w
  {
    var s := w + "\n";
    if w == [] {
      assert StripLeft(s) == StripLeft([]);
    } else {
      assert StripLeft(s) == s;
      assert StripRight(s) == StripRight(w);
      StripStripped(w);
      assert StripLeft(w) == w;
    }
  }

  /** One run's text is its text stripped. */
  lemma OneRunStrips(run: TextRun)
    ensures RunsText([run]) == Strip(run.text)
  {
    assert [run][1..] == [];
  }

  /** One stripped run's text is the run's text. */
  lemma OneRunText(w: string)
    requires IsStripped(w)
    ensures RunsText([TextRun(w)]) == w
  {
    OneRunStrips(TextRun(w));
    StripStripped(w);
  }

  /** One paragraph's text on its own. */
  lemma OneParagraphText(p: Paragraph)
    ensures ParagraphsText([p]) == ParagraphText(p)
  {
    assert [p][1..] == [];
  }

  /** One framed shape's text on its own. */
  lemma OneShapeText(sh: Shape)
    requires sh.hasTextFrame
    ensures FramedText([sh]) == ShapeText(sh)
  {
    assert [sh][1..] == [];
  }

  /** A one-line slide's text is its line, once the line is stripped. */
  lemma OneLineSlideText(w: string)
    requires IsStripped(w)
    ensures SlideText(OneLineSlide(w)) == w
  {
    var p := Paragraph([TextRun(w)]);
    OneRunText(w);
    OneParagraphText(p);
    OneShapeText(Shape(true, [p]));
    assert FramedText(OneLineSlide(w).shapes) == w + "\n";
    StripLine(w);
  }

  /** A slide with text adds its entry at the end of the map built so far. */
  lemma CollectKeeps(texts: seq<string>, n: nat)
    requires 1 <= n <= |texts| && AllStripped(texts) && texts[n - 1] != ""
    ensures CollectTexts(texts, n) == CollectTexts(texts, n - 1) + [(n, texts[n - 1])]
  {
    StripStripped(texts[n - 1]);
    var d := CollectTexts(texts, n - 1);
    assert n !in Keys(d);
  }

  /** A blank slide leaves the map built so far as it was. */
  lemma CollectSkips(texts: seq<string>, n: nat)
    requires 1 <= n <= |texts| && AllStripped(texts) && texts[n - 1] == ""
    ensures CollectTexts(texts, n) == CollectTexts(texts, n - 1)
  {
    StripStripped(texts[n - 1]);
  }

  /** A one-line slide anywhere in a deck contributes its line. */
  lemma OneLineAt(slides: seq<Slide>, i: nat, w: string)
    requires i < |slides| && slides[i] == OneLineSlide(w) && IsStripped(w)
    ensures SlideTexts(slides)[i] == w
  {
    OneLineSlideText(w);
  }

  /** In a deck of two text slides around a blank one, the blank slide is
      dropped and the last slide keeps its own number, 3. */
  lemma BlankMiddleSlide(a: string, c: string)
    requires IsStripped(a) && IsStripped(c) && a != "" && c != ""
    ensures ExtractText(Presentation([OneLineSlide(a), OneLineSlide(""), OneLineSlide(c)]))
            == [(1, a), (3, c)]
  {
    var slides := [OneLineSlide(a), OneLineSlide(""), OneLineSlide(c)];
    BlankMiddleTexts(a, c);
    CollectBlankMiddle(SlideTexts(slides), a, c);
  }

  /** The loop over texts `a`, blank, `c`: entries 1 and 3. */
  lemma CollectBlankMiddle(texts: seq<string>, a: string, c: string)
    requires |texts| == 3 && AllStripped(texts) && texts[0] == a && texts[1] == "" && texts[2] == c && a != "" && c != ""
    ensures CollectTexts(texts, 3) == [(1, a), (3, c)]
  {
    CollectKeeps(texts, 1);
    CollectSkips(texts, 2);
    CollectKeeps(texts, 3);
  }

  /** The texts of the deck `a`, blank, `c` are those lines, all stripped. */
  lemma BlankMiddleTexts(a: string, c: string)
    requires IsStripped(a) && IsStripped(c) && a != "" && c != ""
    ensures var texts := SlideTexts([OneLineSlide(a), OneLineSlide(""), OneLineSlide(c)]);
       |texts| == 3 && AllStripped(texts) && texts[0] == a && texts[1] == "" && texts[2] == c
  {
    var slides := [OneLineSlide(a), OneLineSlide(""), OneLineSlide(c)];
    OneLineAt(slides, 0, a);
    OneLineAt(slides, 1, "");
    OneLineAt(slides, 2, c);
  }

  /** `''.join([value + ' ' for value in values])`. */
  function SpacedJoin(vs: seq<string>): (t: string)
    ensures |t| >= |vs|
    ensures t == "" <==> |vs| == 0
  {
    if |vs| == 0 then "" else vs[0] + " " + SpacedJoin(vs[1..])
  }

  /** Adding a value at the end adds it and one space at the end. */
  lemma {:induction false} SpacedJoinAppend(vs: seq<string>, v: string)
    ensures SpacedJoin(vs + [v]) == SpacedJoin(vs) + v + " "
  {
    if |vs| > 0 {
      assert (vs + [v])[1..] == vs[1..] + [v];
      SpacedJoinAppend(vs[1..], v);
    }
  }

  /** The parser object: the loaded presentation and the text map. */
  datatype Parser = Parser(presentation: Presentation, presentationText: Dict<int, string>)

  /** The constructor: the text map starts empty. */
  function NewParser(p: Presentation): (r: Parser)
    ensures r.presentation == p && |r.presentationText| == 0
  {
    Parser(p, [])
  }

  /** `parse()`: fill the text map from the presentation. */
  function Parse(parser: Parser): (r: Parser)
    ensures r.presentation == parser.presentation
    ensures forall k :: k in Keys(r.presentationText) ==> 1 <= k <= |r.presentation.slides|
  {
    parser.(presentationText := ExtractText(parser.presentation))
  }

  /** Parsing a new parser keeps its presentation and stores the
      extraction. */
  lemma ParseExtracts(p: Presentation)
    ensures var r := Parse(NewParser(p)); r.presentation == p && r.presentationText == ExtractText(p)
  {
  }

  /** The keys of the extraction are the slides with text. */
  lemma ExtractedKeys(p: Presentation)
    ensures forall k :: k in Keys(ExtractText(p)) <==> 1 <= k <= |p.slides| && SlideText(p.slides[k - 1]) != ""
  {
  }

  /** `get_all_presentation_text()`: every stored text followed by one space,
      in slide order. */
  function AllPresentationText(parser: Parser): string {
    SpacedJoin(Values(parser.presentationText))
  }

  /** Before `parse()` the whole-presentation text is empty, and after it the
      text is empty exactly when no slide has text. */
  lemma AllTextEmptyIff(p: Presentation)
    ensures AllPresentationText(NewParser(p)) == ""
    ensures AllPresentationText(Parse(NewParser(p))) == "" <==>
            forall i :: 0 <= i < |p.slides| ==> SlideText(p.slides[i]) == ""
  {
    var d := ExtractText(p);
    ParseExtracts(p);
    ExtractedKeys(p);
    assert AllPresentationText(Parse(NewParser(p))) == SpacedJoin(Values(d));
    if |d| > 0 {
      assert d[0].0 in Keys(d);
      assert SlideText(p.slides[d[0].0 - 1]) != "";
    } else {
      forall i | 0 <= i < |p.slides| ensures SlideText(p.slides[i]) == "" {
        assert i + 1 !in Keys(d);
      }
    }
  }
}
