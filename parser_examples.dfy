/**
 * Worked inputs for app/parser.py: what `split_sections` returns for small
 * documents, and which ordinary lines its heading pattern accepts.
 */
module ParserExamples {
  import opened PyStr
  import opened Parser
  import Seqs

  /** A line that starts with a lower-case letter is never a heading. */
  lemma LowercaseStartIsBody(line: string)
    requires line != [] && 'a' <= line[0] <= 'z'
    ensures !IsHeadingLine(line)
  {
    var k := SpanNonSpace(line, 0);
    if k > 0 {
      assert line[..k][0] == line[0];
    }
  }

  /** A label, one space, then a letter: the heading pattern matches. */
  lemma LabelSpaceLetter(line: string, k: nat)
    requires 0 < k && k + 1 < |line|
    requires IsLabel(line[..k]) && IsSpace(line[k]) && IsWordNonDigit(line[k + 1])
    ensures IsHeadingLine(line)
  {
    assert AllSpace(line[k..k + 1]);
    assert MatchesHeadingPattern(line);
    NumberedHeadingMatchesPattern(line);
  }

  /** Ordinary sentences that start with a one-letter capital word are taken as headings. */
  lemma SentencesAreHeadings()
    ensures IsHeadingLine("I went home")
    ensures IsHeadingLine("A quick note")
    ensures IsHeadingLine("2.1 Intro")
  {
    PronounSentence();
    ArticleSentence();
    DottedNumber();
  }

  lemma PronounSentence()
    ensures IsHeadingLine("I went home")
  {
    var line := "I went home";
    assert line[..1] == "I";
    LabelSpaceLetter(line, 1);
  }

  lemma ArticleSentence()
    ensures IsHeadingLine("A quick note")
  {
    var line := "A quick note";
    assert line[..1] == "A";
    LabelSpaceLetter(line, 1);
  }

  lemma DottedNumber()
    ensures IsHeadingLine("2.1 Intro")
  {
    var line := "2.1 Intro";
    assert line[..3] == "2.1";
    LabelSpaceLetter(line, 3);
  }

  /** Capital letters and spaces, at least four: a heading; so is a lone capitalised word made of capitals. */
  lemma AllCapsExamples()
    ensures IsHeadingLine("INTRODUCTION")
    ensures IsHeadingLine("TO DO")
  {
    assert IsAllCapsHeading("TO DO");
  }

  lemma Lines3(text: string, a: string, b: string, c: string)
    requires NoLineBreak(a) && NoLineBreak(b) && NoLineBreak(c) && c != []
    requires text == a + "\n" + b + "\n" + c
    ensures SplitLines(text) == [a, b, c]
  {
    assert [a, b, c][1..] == [b, c];
    assert [b, c][1..] == [c];
    assert JoinWith([c], "\n") == c;
    assert JoinWith([b, c], "\n") == b + "\n" + c;
    assert JoinWith([a, b, c], "\n") == a + "\n" + (b + "\n" + c);
    assert a + "\n" + (b + "\n" + c) == text;
    JoinSplitLines([a, b, c]);
  }

  lemma Run3(a: string, b: string, c: string)
    ensures RunFrom(Start, [a, b, c]) == Step(Step(Step(Start, a), b), c)
  {
    assert [a, b, c][..2] == [a, b];
    assert [a, b][..1] == [a];
    assert [a][..0] == [];
    assert RunFrom(Start, [a]) == Step(Start, a);
    assert RunFrom(Start, [a, b]) == Step(Step(Start, a), b);
  }

  /** `split_sections` on three lines is three steps of the loop and the final flush. */
  lemma Sections3(text: string, a: string, b: string, c: string)
    requires NoLineBreak(a) && NoLineBreak(b) && NoLineBreak(c) && c != []
    requires text == a + "\n" + b + "\n" + c
    ensures Sections(text) == Flushed(Step(Step(Step(Start, a), b), c))
  {
    Lines3(text, a, b, c);
    Run3(a, b, c);
  }

  /** Lines before the first heading are not dropped: they open the first section's content. */
  lemma OrphanLineJoinsFirstSection(a: string, h: string, c: string)
    requires NoLineBreak(a) && NoLineBreak(h) && NoLineBreak(c)
    requires IsBody(a) && IsHeading(h) && IsBody(c)
    ensures Sections(a + "\n" + h + "\n" + c) == [Section(Strip(h), CleanText(Strip(a) + "\n" + Strip(c)))]
  {
    Sections3(a + "\n" + h + "\n" + c, a, h, c);
    OrphanSteps(a, h, c);
    Join2(Strip(a), Strip(c));
    FlushOne(Strip(h), [Strip(a), Strip(c)], Strip(a) + "\n" + Strip(c));
  }

  lemma OrphanSteps(a: string, h: string, c: string)
    requires IsBody(a) && IsHeading(h) && IsBody(c)
    ensures Step(Step(Step(Start, a), h), c) == Splitter(Some(Strip(h)), [Strip(a), Strip(c)], [])
  {
    var st1 := Splitter(None, [Strip(a)], []);
    assert Step(Start, a) == st1 by { BodyStep(Start, a); }
    var st2 := Splitter(Some(Strip(h)), [Strip(a)], []);
    assert Step(st1, h) == st2 by { HeadingStep(st1, h); }
    BodyStep(st2, c);
  }

  /** The final flush of a buffer under a heading, with nothing emitted before. */
  lemma FlushOne(h: string, buffer: seq<string>, text: string)
    requires h != [] && buffer != [] && JoinWith(buffer, "\n") == text
    ensures Flushed(Splitter(Some(h), buffer, [])) == [Section(h, CleanText(text))]
  {
  }

  lemma Join2(x: string, y: string)
    ensures JoinWith([x, y], "\n") == x + "\n" + y
  {
    assert [x, y][1..] == [y];
  }

  /** A heading with no body line after it produces no section. */
  lemma TrailingHeadingDropped(h1: string, b: string, h2: string)
    requires NoLineBreak(h1) && NoLineBreak(b) && NoLineBreak(h2)
    requires IsHeading(h1) && IsBody(b) && IsHeading(h2)
    ensures Sections(h1 + "\n" + b + "\n" + h2) == [Section(Strip(h1), CleanText(Strip(b)))]
  {
    Sections3(h1 + "\n" + b + "\n" + h2, h1, b, h2);
    TrailingSteps(h1, b, h2);
  }

  lemma TrailingSteps(h1: string, b: string, h2: string)
    requires IsHeading(h1) && IsBody(b) && IsHeading(h2)
    ensures Step(Step(Step(Start, h1), b), h2)
      == Splitter(Some(Strip(h2)), [], [Section(Strip(h1), CleanText(Strip(b)))])
  {
    var st1 := Splitter(Some(Strip(h1)), [], []);
    assert Step(Start, h1) == st1 by { HeadingStep(Start, h1); }
    var st2 := Splitter(Some(Strip(h1)), [Strip(b)], []);
    assert Step(st1, b) == st2 by { BodyStep(st1, b); }
    HeadingStep(st2, h2);
    assert JoinWith([Strip(b)], "\n") == Strip(b);
    FlushOne(Strip(h1), [Strip(b)], Strip(b));
  }

  /** A heading directly followed by another heading is replaced by it. */
  lemma EmptySectionReplaced(h1: string, h2: string, b: string)
    requires NoLineBreak(h1) && NoLineBreak(h2) && NoLineBreak(b)
    requires IsHeading(h1) && IsHeading(h2) && IsBody(b)
    ensures Sections(h1 + "\n" + h2 + "\n" + b) == [Section(Strip(h2), CleanText(Strip(b)))]
  {
    Sections3(h1 + "\n" + h2 + "\n" + b, h1, h2, b);
    ReplacedSteps(h1, h2, b);
    assert JoinWith([Strip(b)], "\n") == Strip(b);
    FlushOne(Strip(h2), [Strip(b)], Strip(b));
  }

  lemma ReplacedSteps(h1: string, h2: string, b: string)
    requires IsHeading(h1) && IsHeading(h2) && IsBody(b)
    ensures Step(Step(Step(Start, h1), h2), b) == Splitter(Some(Strip(h2)), [Strip(b)], [])
  {
    var st1 := Splitter(Some(Strip(h1)), [], []);
    assert Step(Start, h1) == st1 by { HeadingStep(Start, h1); }
    var st2 := Splitter(Some(Strip(h2)), [], []);
    assert Step(st1, h2) == st2 by { HeadingStep(st1, h2); }
    BodyStep(st2, b);
  }

  /** A single line that is not a heading line: no heading lines, and it is the only body line. */
  lemma OneBodyLine(b: string)
    requires IsBody(b)
    ensures HeadingLines([b]) == [] && BodyLines([b]) == [Strip(b)]
  {
    assert [b][..0] == [];
    LinesUnfold([b]);
  }

  lemma Lines4(a: string, b: string, c: string, d: string)
    requires NoLineBreak(a) && NoLineBreak(b) && NoLineBreak(c) && NoLineBreak(d) && d != []
    ensures SplitLines(a + "\n" + b + "\n" + c + "\n" + d) == [a, b, c, d]
  {
    var rest := b + "\n" + c + "\n" + d;
    Lines3(rest, b, c, d);
    NewlineIsOneBreak(a, rest);
    var p := a + "\n";
    Seqs.AppendAssoc(p, b, "\n");
    Seqs.AppendAssoc(p, b + "\n", c);
    Seqs.AppendAssoc(p, b + "\n" + c, "\n");
    Seqs.AppendAssoc(p, b + "\n" + c + "\n", d);
    assert [a] + [b, c, d] == [a, b, c, d];
  }

  /** Heading, body, heading, body: two sections, each heading with its own body line, also
      when both headings are the same line. */
  lemma TwoSections(h1: string, b1: string, h2: string, b2: string)
    requires NoLineBreak(h1) && NoLineBreak(b1) && NoLineBreak(h2) && NoLineBreak(b2)
    requires IsHeading(h1) && IsBody(b1) && IsHeading(h2) && IsBody(b2)
    ensures Sections(h1 + "\n" + b1 + "\n" + h2 + "\n" + b2)
      == [Section(Strip(h1), CleanText(Strip(b1))), Section(Strip(h2), CleanText(Strip(b2)))]
  {
    assert b2 != [];
    Lines4(h1, b1, h2, b2);
    OneBodyLine(b1);
    OneBodyLine(b2);
    assert JoinWith([Strip(b1)], "\n") == Strip(b1);
    assert JoinWith([Strip(b2)], "\n") == Strip(b2);
    SegmentTwoSections([], h1, [b1], h2, [b2]);
    Seqs.ConcatFour(h1, b1, h2, b2);
    assert Segment([]) == [];
  }
}
