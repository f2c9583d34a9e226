/**
 * The section splitter of app/parser.py: `clean_text`, the two heading
 * patterns, and the line-by-line state machine of `split_sections`.
 */
module Parser {
  import opened PyStr
  import opened Seqs

  /** One `{"heading": ..., "content": ...}` entry of the splitter's output. */
  datatype Section = Section(heading: string, content: string)

  // ---------------------------------------------------------------------
  // clean_text: re.sub(r'\s+', ' ', text).strip()
  // ---------------------------------------------------------------------

  /** Every whitespace character is `' '` and no two whitespace characters are adjacent. */
  predicate SingleSpaced(t: string) {
    && (forall i :: 0 <= i < |t| && IsSpace(t[i]) ==> t[i] == ' ')
    && (forall i :: 0 < i < |t| ==> !(IsSpace(t[i - 1]) && IsSpace(t[i])))
  }

  /** The shape of every `clean_text` result. */
  predicate Normalized(t: string) {
    IsTrimmed(t) && SingleSpaced(t)
  }

  /** `re.sub(r'\s+', ' ', s)`: a whitespace character followed by another is dropped,
      the last one of each run becomes `' '`. */
  function CollapseSpaces(s: string): (r: string)
    ensures |r| <= |s|
    ensures SingleSpaced(r)
    ensures s != [] ==> r != [] && (IsSpace(r[0]) <==> IsSpace(s[0]))
    ensures s != [] && !IsSpace(s[0]) ==> r[0] == s[0]
    ensures AllSpace(r) == AllSpace(s)
  {
    if s == [] then []
    else if !IsSpace(s[0]) then [s[0]] + CollapseSpaces(s[1..])
    else
      AllSpaceCons(s);
      if |s| > 1 && IsSpace(s[1]) then CollapseSpaces(s[1..])
      else AllSpaceCons(" " + CollapseSpaces(s[1..])); " " + CollapseSpaces(s[1..])
  }

  lemma AllSpaceCons(s: string)
    requires s != [] && IsSpace(s[0])
    ensures AllSpace(s) == AllSpace(s[1..])
  {
    if AllSpace(s[1..]) {
      forall i | 0 < i < |s| ensures IsSpace(s[i]) {
        assert s[i] == s[1..][i - 1];
      }
    }
  }

  lemma StripKeepsSingleSpaced(s: string)
    requires SingleSpaced(s)
    ensures SingleSpaced(Strip(s))
  {
    var t := TrimStart(s);
    var r := TrimEnd(t);
    var k := |s| - |t|;
    forall i | 0 <= i < |r| ensures r[i] == s[k + i] {
      assert r[i] == t[i];
    }
  }

  /** `clean_text(s)`: whitespace-normalised text, empty exactly when `s` is blank. */
  function CleanText(s: string): (r: string)
    ensures Normalized(r)
    ensures (r == []) == AllSpace(s)
  {
    var c := CollapseSpaces(s);
    StripKeepsSingleSpaced(c);
    Strip(c)
  }

  /** What `CollapseSpaces` keeps of the first character of `s`. */
  function CollapsedHead(s: string): string
    requires s != []
  {
    if !IsSpace(s[0]) then [s[0]]
    else if |s| > 1 && IsSpace(s[1]) then []
    else " "
  }

  lemma CollapseUnfold(s: string)
    requires s != []
    ensures CollapseSpaces(s) == CollapsedHead(s) + CollapseSpaces(s[1..])
  {
  }

  /** Collapsing works run by run: it splits at any point that is not inside a whitespace run. */
  lemma {:induction false} CollapseConcat(a: string, b: string)
    requires a == [] || b == [] || !IsSpace(a[|a| - 1]) || !IsSpace(b[0])
    ensures CollapseSpaces(a + b) == CollapseSpaces(a) + CollapseSpaces(b)
  {
    if a == [] {
      assert a + b == b;
    } else if b == [] {
      assert a + b == a;
    } else {
      ConcatHead(a, b);
      CollapseConcat(a[1..], b);
      CollapseUnfold(a + b);
      CollapseUnfold(a);
      var h, ca, cb := CollapsedHead(a), CollapseSpaces(a[1..]), CollapseSpaces(b);
      AppendAssoc(h, ca, cb);
    }
  }

  /** Splitting `a + b` after its first character, where `a` does not end inside a whitespace
      run that `b` continues. */
  lemma ConcatHead(a: string, b: string)
    requires a != [] && b != []
    requires !IsSpace(a[|a| - 1]) || !IsSpace(b[0])
    ensures (a + b)[1..] == a[1..] + b
    ensures CollapsedHead(a + b) == CollapsedHead(a)
    ensures a[1..] == [] || !IsSpace(a[1..][|a[1..]| - 1]) || !IsSpace(b[0])
  {
    var ab := a + b;
    assert ab[1..] == a[1..] + b;
    assert ab[0] == a[0];
    if |a| > 1 {
      assert ab[1] == a[1];
      assert a[1..][|a[1..]| - 1] == a[|a| - 1];
    } else {
      assert ab[1] == b[0];
    }
  }

  /** A non-empty whitespace run collapses to one `' '`. */
  lemma {:induction false} CollapseBlank(s: string)
    requires s != [] && AllSpace(s)
    ensures CollapseSpaces(s) == " "
  {
    if |s| > 1 {
      CollapseBlank(s[1..]);
    }
  }

  lemma CollapseKeepsLast(s: string)
    requires s != [] && !IsSpace(s[|s| - 1])
    ensures CollapseSpaces(s) != [] && CollapseSpaces(s)[|CollapseSpaces(s)| - 1] == s[|s| - 1]
  {
    var n := |s| - 1;
    assert s == s[..n] + [s[n]];
    CollapseConcat(s[..n], [s[n]]);
  }

  /** On text without leading or trailing whitespace, `clean_text` only collapses. */
  lemma CleanTextOfTrimmed(s: string)
    requires IsTrimmed(s)
    ensures CleanText(s) == CollapseSpaces(s)
  {
    if s != [] {
      CollapseKeepsLast(s);
    }
  }

  /** Collapsing text, a whitespace run, and text. */
  lemma CollapseSeparator(a: string, gap: string, b: string)
    requires a != [] && !IsSpace(a[|a| - 1])
    requires b != [] && !IsSpace(b[0])
    requires gap != [] && AllSpace(gap)
    ensures CollapseSpaces(a + gap + b) == CollapseSpaces(a) + " " + CollapseSpaces(b)
  {
    var tail := gap + b;
    assert a + gap + b == a + tail;
    CollapseGapThen(gap, b);
    CollapseConcat(a, tail);
    var ca, cb := CollapseSpaces(a), CollapseSpaces(b);
    AppendAssoc(ca, " ", cb);
  }

  lemma CollapseGapThen(gap: string, b: string)
    requires b != [] && !IsSpace(b[0])
    requires gap != [] && AllSpace(gap)
    ensures CollapseSpaces(gap + b) == " " + CollapseSpaces(b)
  {
    CollapseConcat(gap, b);
    CollapseBlank(gap);
  }

  lemma JoinedTrimmed(a: string, b: string)
    requires a != [] && IsTrimmed(a)
    requires b != [] && IsTrimmed(b)
    ensures IsTrimmed(CollapseSpaces(a) + " " + CollapseSpaces(b))
  {
    CollapseKeepsLast(b);
  }

  /** Every whitespace run between two pieces of text becomes exactly one `' '`. */
  lemma CleanTextSeparator(s: string, a: string, gap: string, b: string)
    requires s == a + gap + b
    requires a != [] && IsTrimmed(a)
    requires b != [] && IsTrimmed(b)
    requires gap != [] && AllSpace(gap)
    ensures CleanText(s) == CleanText(a) + " " + CleanText(b)
  {
    CollapseSeparator(a, gap, b);
    JoinedTrimmed(a, b);
    CleanTextOfTrimmed(a);
    CleanTextOfTrimmed(b);
  }

  lemma {:induction false} CollapseSingleSpaced(t: string)
    requires SingleSpaced(t)
    ensures CollapseSpaces(t) == t
  {
    if t != [] {
      assert SingleSpaced(t[1..]);
      CollapseSingleSpaced(t[1..]);
      if |t| > 1 {
        assert !(IsSpace(t[0]) && IsSpace(t[1]));
      }
      assert t == [t[0]] + t[1..];
    }
  }

  /** Normalised text is a fixed point of `clean_text`. */
  lemma CleanTextFixpoint(t: string)
    requires Normalized(t)
    ensures CleanText(t) == t
  {
    CollapseSingleSpaced(t);
  }

  /** `clean_text` is idempotent. */
  lemma CleanTextIdempotent(s: string)
    ensures CleanText(CleanText(s)) == CleanText(s)
  {
    CleanTextFixpoint(CleanText(s));
  }

  /** Cleaning non-blank trimmed lines joined by `"\n"` adds one line at a time. */
  lemma CleanJoinSnoc(lines: seq<string>, x: string)
    requires lines != []
    requires forall i :: 0 <= i < |lines| ==> lines[i] != [] && IsTrimmed(lines[i])
    requires x != [] && IsTrimmed(x)
    ensures CleanText(JoinWith(lines + [x], "\n")) == CleanText(JoinWith(lines, "\n")) + " " + CleanText(x)
  {
    var j := JoinWith(lines, "\n");
    var s := JoinWith(lines + [x], "\n");
    assert s == j + "\n" + x by {
      JoinSnoc(lines, x, "\n");
    }
    assert j != [] && IsTrimmed(j) by {
      JoinTrimmed(lines, "\n");
    }
    NewlineBlank();
    CleanTextSeparator(s, j, "\n", x);
  }

  lemma NewlineBlank()
    ensures AllSpace("\n")
  {
    assert IsSpace("\n"[0]);
  }

  // ---------------------------------------------------------------------
  // heading_regex (parser.py:19) and all_caps_regex (parser.py:20)
  // ---------------------------------------------------------------------

  predicate IsDigit(c: char) { '0' <= c <= '9' }

  predicate IsUpper(c: char) { 'A' <= c <= 'Z' }

  /** `[^\d\W]`: a word character that is not a digit. */
  predicate IsWordNonDigit(c: char) { ('a' <= c <= 'z') || ('A' <= c <= 'Z') || c == '_' }

  /** `\d+(\.\d+)*\.?`: digit groups joined by single dots, optionally ending in a dot. */
  predicate IsNumberLabel(s: string) {
    && s != [] && IsDigit(s[0])
    && (forall i :: 0 <= i < |s| ==> IsDigit(s[i]) || s[i] == '.')
    && (forall i :: 0 < i < |s| ==> s[i - 1] == '.' ==> s[i] != '.')
  }

  /** `[A-Z][A-Z]?\.?` */
  predicate IsLetterLabel(s: string) {
    || (|s| == 1 && IsUpper(s[0]))
    || (|s| == 2 && IsUpper(s[0]) && (IsUpper(s[1]) || s[1] == '.'))
    || (|s| == 3 && IsUpper(s[0]) && IsUpper(s[1]) && s[2] == '.')
  }

  /** `(\d+(\.\d+)*|[A-Z][A-Z]?)\.?` */
  predicate IsLabel(s: string) {
    IsNumberLabel(s) || IsLetterLabel(s)
  }

  /** The first whitespace position at or after `i` (or `|s|`). */
  function SpanNonSpace(s: string, i: nat): (j: nat)
    requires i <= |s|
    ensures i <= j <= |s|
    ensures forall k :: i <= k < j ==> !IsSpace(s[k])
    ensures j < |s| ==> IsSpace(s[j])
    decreases |s| - i
  {
    if i == |s| || IsSpace(s[i]) then i else SpanNonSpace(s, i + 1)
  }

  /** The first non-whitespace position at or after `i` (or `|s|`). */
  function SpanSpace(s: string, i: nat): (j: nat)
    requires i <= |s|
    ensures i <= j <= |s|
    ensures forall k :: i <= k < j ==> IsSpace(s[k])
    ensures j < |s| ==> !IsSpace(s[j])
    decreases |s| - i
  {
    if i == |s| || !IsSpace(s[i]) then i else SpanSpace(s, i + 1)
  }

  /** `heading_regex.match(line)`: the text up to the first whitespace is a label,
      and the first character after that whitespace run is a letter or `_`. */
  predicate IsNumberedHeading(line: string) {
    var k := SpanNonSpace(line, 0);
    var m := SpanSpace(line, k);
    k < |line| && IsLabel(line[..k]) && m < |line| && IsWordNonDigit(line[m])
  }

  /** The regular expression read as a pattern over a split of the line:
      label, non-empty whitespace run, then a letter or `_` (the rest is `.*`). */
  ghost predicate MatchesHeadingPattern(line: string) {
    exists k, m :: 0 < k < m < |line| && IsLabel(line[..k]) && AllSpace(line[k..m]) && IsWordNonDigit(line[m])
  }

  lemma LabelHasNoSpace(s: string, i: nat)
    requires IsLabel(s) && i < |s|
    ensures !IsSpace(s[i])
  {
  }

  /** The left-to-right scan decides exactly the regular expression's pattern. */
  lemma NumberedHeadingMatchesPattern(line: string)
    ensures IsNumberedHeading(line) <==> MatchesHeadingPattern(line)
  {
    var k := SpanNonSpace(line, 0);
    var m := SpanSpace(line, k);
    if IsNumberedHeading(line) {
      assert line[k..m] == line[k..][..m - k];
      assert AllSpace(line[k..m]) by {
        forall j | 0 <= j < m - k ensures IsSpace(line[k..m][j]) {
          assert line[k..m][j] == line[k + j];
        }
      }
      assert 0 < k;
    }
    if MatchesHeadingPattern(line) {
      var k', m' :| 0 < k' < m' < |line| && IsLabel(line[..k']) && AllSpace(line[k'..m']) && IsWordNonDigit(line[m']);
      forall j | 0 <= j < k' ensures !IsSpace(line[j]) {
        LabelHasNoSpace(line[..k'], j);
        assert line[..k'][j] == line[j];
      }
      assert IsSpace(line[k']) by {
        assert line[k'..m'][0] == line[k'];
      }
      assert k == k';
      forall j | k' <= j < m' ensures IsSpace(line[j]) {
        assert line[k'..m'][j - k'] == line[j];
      }
      assert m == m';
    }
  }

  /** `all_caps_regex.match(line)`: at least four characters, each `A`-`Z` or whitespace. */
  predicate IsAllCapsHeading(line: string) {
    |line| >= 4 && forall i :: 0 <= i < |line| ==> IsUpper(line[i]) || IsSpace(line[i])
  }

  /** The test of parser.py:27. */
  predicate IsHeadingLine(line: string) {
    IsNumberedHeading(line) || IsAllCapsHeading(line)
  }

  // ---------------------------------------------------------------------
  // split_sections: the state machine
  // ---------------------------------------------------------------------

  /** The loop state: `current_heading`, `current_content` and `sections`. */
  datatype Splitter = Splitter(heading: Option<string>, buffer: seq<string>, sections: seq<Section>)

  const Start: Splitter := Splitter(None, [], [])

  /** `current_heading and current_content` (Python truthiness). */
  predicate ReadyToFlush(st: Splitter) {
    st.heading.Some? && st.heading.value != [] && st.buffer != []
  }

  /** The sections after the flush of parser.py:28-33 and 38-42. */
  function Flushed(st: Splitter): seq<Section> {
    if ReadyToFlush(st) then st.sections + [Section(st.heading.value, CleanText(JoinWith(st.buffer, "\n")))]
    else st.sections
  }

  /** One iteration of the loop over `lines` on the raw line `raw`. */
  function Step(st: Splitter, raw: string): Splitter {
    var line := Strip(raw);
    if line == [] then st
    else if IsHeadingLine(line) then
      Splitter(Some(line), if ReadyToFlush(st) then [] else st.buffer, Flushed(st))
    else st.(buffer := st.buffer + [line])
  }

  /** The loop state after the lines `lines`, starting from `st`. */
  function RunFrom(st: Splitter, lines: seq<string>): Splitter {
    if lines == [] then st
    else Step(RunFrom(st, lines[..|lines| - 1]), lines[|lines| - 1])
  }

  /** `split_sections` on the text's lines. */
  function Segment(lines: seq<string>): seq<Section> {
    Flushed(RunFrom(Start, lines))
  }

  /** `split_sections(text)` */
  function Sections(text: string): seq<Section> {
    Segment(SplitLines(text))
  }

  /** `split_sections`, as the source writes it: a loop over the lines. */
  method SplitSections(text: string) returns (sections: seq<Section>)
    ensures sections == Sections(text)
    ensures forall i :: 0 <= i < |sections| ==> sections[i].content != [] && Normalized(sections[i].content)
    ensures forall i :: 0 <= i < |sections| ==> sections[i].heading in HeadingLines(SplitLines(text))
    ensures |sections| <= |HeadingLines(SplitLines(text))|
  {
    var lines := SplitLines(text);
    sections := [];
    var currentHeading: Option<string> := None;
    var currentContent: seq<string> := [];
    var i := 0;
    while i < |lines|
      invariant 0 <= i <= |lines|
      invariant Splitter(currentHeading, currentContent, sections) == RunFrom(Start, lines[..i])
    {
      RunPrefix(lines, i);
      ghost var before := Splitter(currentHeading, currentContent, sections);
      var line := Strip(lines[i]);
      i := i + 1;
      if line == [] {
        continue;
      }
      if IsHeadingLine(line) {
        if currentHeading.Some? && currentHeading.value != [] && currentContent != [] {
          sections := sections + [Section(currentHeading.value, CleanText(JoinWith(currentContent, "\n")))];
          currentContent := [];
        }
        currentHeading := Some(line);
        assert Splitter(currentHeading, currentContent, sections) == Step(before, lines[i - 1]);
      } else {
        currentContent := currentContent + [line];
        StepOnBody(before, lines[i - 1]);
      }
    }
    if currentHeading.Some? && currentHeading.value != [] && currentContent != [] {
      sections := sections + [Section(currentHeading.value, CleanText(JoinWith(currentContent, "\n")))];
    }
    assert lines[..i] == lines;
    SegmentContents(lines);
    SegmentHeadings(lines);
    forall j | 0 <= j < |sections| ensures sections[j].heading in HeadingLines(lines) {
      assert sections[j].heading == Headings(sections)[j];
    }
  }

  lemma RunPrefix(lines: seq<string>, i: nat)
    requires i < |lines|
    ensures RunFrom(Start, lines[..i + 1]) == Step(RunFrom(Start, lines[..i]), lines[i])
  {
    assert lines[..i + 1][..i] == lines[..i];
  }

  // ---------------------------------------------------------------------
  // What the splitter produces, stated over the input lines
  // ---------------------------------------------------------------------

  /** The trimmed lines that the loop takes as headings, in order. */
  function HeadingLines(lines: seq<string>): (r: seq<string>)
    ensures forall i :: 0 <= i < |r| ==> r[i] != [] && IsTrimmed(r[i]) && IsHeadingLine(r[i])
  {
    if lines == [] then []
    else
      var line := Strip(lines[|lines| - 1]);
      var prev := HeadingLines(lines[..|lines| - 1]);
      if line != [] && IsHeadingLine(line) then HeadingSnoc(prev, line); prev + [line] else prev
  }

  lemma HeadingSnoc(prev: seq<string>, line: string)
    requires forall i :: 0 <= i < |prev| ==> prev[i] != [] && IsTrimmed(prev[i]) && IsHeadingLine(prev[i])
    requires line != [] && IsTrimmed(line) && IsHeadingLine(line)
    ensures forall i :: 0 <= i < |prev + [line]| ==>
      (prev + [line])[i] != [] && IsTrimmed((prev + [line])[i]) && IsHeadingLine((prev + [line])[i])
  {
  }

  /** The trimmed non-blank lines that the loop appends to a content buffer, in order. */
  function BodyLines(lines: seq<string>): (r: seq<string>)
    ensures forall i :: 0 <= i < |r| ==> r[i] != [] && IsTrimmed(r[i]) && !IsHeadingLine(r[i])
  {
    if lines == [] then []
    else
      var line := Strip(lines[|lines| - 1]);
      var prev := BodyLines(lines[..|lines| - 1]);
      if line != [] && !IsHeadingLine(line) then BodySnoc(prev, line); prev + [line] else prev
  }

  lemma BodySnoc(prev: seq<string>, line: string)
    requires forall i :: 0 <= i < |prev| ==> prev[i] != [] && IsTrimmed(prev[i]) && !IsHeadingLine(prev[i])
    requires line != [] && IsTrimmed(line) && !IsHeadingLine(line)
    ensures forall i :: 0 <= i < |prev + [line]| ==>
      (prev + [line])[i] != [] && IsTrimmed((prev + [line])[i]) && !IsHeadingLine((prev + [line])[i])
  {
  }

  /** The heading and body lines grow by the last line, according to its kind. */
  lemma LinesUnfold(lines: seq<string>)
    requires lines != []
    ensures var init, line := lines[..|lines| - 1], Strip(lines[|lines| - 1]);
      && HeadingLines(lines) == HeadingLines(init) + (if line != [] && IsHeadingLine(line) then [line] else [])
      && BodyLines(lines) == BodyLines(init) + (if line != [] && !IsHeadingLine(line) then [line] else [])
  {
  }

  function Headings(secs: seq<Section>): (r: seq<string>)
    ensures |r| == |secs| && forall i :: 0 <= i < |secs| ==> r[i] == secs[i].heading
  {
    if secs == [] then [] else Headings(secs[..|secs| - 1]) + [secs[|secs| - 1].heading]
  }

  function Contents(secs: seq<Section>): (r: seq<string>)
    ensures |r| == |secs| && forall i :: 0 <= i < |secs| ==> r[i] == secs[i].content
  {
    if secs == [] then [] else Contents(secs[..|secs| - 1]) + [secs[|secs| - 1].content]
  }

  /** The contents already emitted, followed by the cleaned buffer if it is not empty. */
  function Pieces(st: Splitter): seq<string> {
    Contents(st.sections) + (if st.buffer == [] then [] else [CleanText(JoinWith(st.buffer, "\n"))])
  }

  /** The heading bookkeeping of the loop after the heading lines `hl`. */
  ghost predicate HeadingsTracked(st: Splitter, hl: seq<string>) {
    && (st.heading.None? <==> hl == [])
    && (st.heading.None? ==> st.sections == [])
    && (st.heading.Some? ==>
          && st.heading.value == hl[|hl| - 1]
          && IsSubsequence(Headings(st.sections), hl[..|hl| - 1]))
  }

  /** The content bookkeeping of the loop after the body lines `body`: nothing is lost. */
  ghost predicate ContentTracked(st: Splitter, body: seq<string>) {
    && (forall i :: 0 <= i < |st.buffer| ==> st.buffer[i] != [] && IsTrimmed(st.buffer[i]))
    && (forall i :: 0 <= i < |st.sections| ==> Normalized(st.sections[i].content))
    && PiecesMatchBody(Pieces(st), body)
  }

  /** Flushing keeps the emitted headings a subsequence of the heading lines. */
  lemma FlushedHeadings(st: Splitter, hl: seq<string>)
    requires HeadingsTracked(st, hl)
    ensures IsSubsequence(Headings(Flushed(st)), hl)
  {
    if st.heading.Some? {
      var n := |hl| - 1;
      var hs := Headings(st.sections);
      assert hl == hl[..n] + [hl[n]];
      if ReadyToFlush(st) {
        assert Headings(Flushed(st)) == hs + [st.heading.value];
        SubsequenceSnoc(hs, hl[..n], hl[n]);
      } else {
        SubsequenceExtend(hs, hl[..n], hl[n]);
      }
    }
  }

  lemma StepTracksHeadings(st: Splitter, hl: seq<string>, raw: string)
    requires HeadingsTracked(st, hl)
    requires forall i :: 0 <= i < |hl| ==> hl[i] != []
    ensures var line := Strip(raw);
      HeadingsTracked(Step(st, raw), hl + (if line != [] && IsHeadingLine(line) then [line] else []))
  {
    var line := Strip(raw);
    if line != [] && IsHeadingLine(line) {
      var hl' := hl + [line];
      assert hl'[..|hl'| - 1] == hl;
      var st' := Step(st, raw);
      assert st' == Splitter(Some(line), if ReadyToFlush(st) then [] else st.buffer, Flushed(st));
      FlushedHeadings(st, hl);
    } else {
      assert hl + [] == hl;
      assert Step(st, raw).heading == st.heading && Step(st, raw).sections == st.sections;
    }
  }

  lemma {:induction false} RunTracksHeadings(lines: seq<string>)
    ensures HeadingsTracked(RunFrom(Start, lines), HeadingLines(lines))
  {
    if lines != [] {
      var init := lines[..|lines| - 1];
      RunTracksHeadings(init);
      StepTracksHeadings(RunFrom(Start, init), HeadingLines(init), lines[|lines| - 1]);
      LinesUnfold(lines);
    }
  }

  lemma JoinLastExtend(prefix: seq<string>, u: string, v: string, sep: string)
    ensures JoinWith(prefix + [u + sep + v], sep) == JoinWith(prefix + [u], sep) + sep + v
  {
    if prefix != [] {
      JoinSnoc(prefix, u + sep + v, sep);
      JoinSnoc(prefix, u, sep);
    }
  }

  lemma StepOnHeading(st: Splitter, raw: string)
    requires Strip(raw) != [] && IsHeadingLine(Strip(raw))
    ensures Pieces(Step(st, raw)) == Pieces(st)
    ensures Step(st, raw).buffer == [] || Step(st, raw).buffer == st.buffer
  {
    var st' := Step(st, raw);
    if ReadyToFlush(st) {
      assert st'.sections == st.sections + [Section(st.heading.value, CleanText(JoinWith(st.buffer, "\n")))];
      assert st'.buffer == [];
    } else {
      assert st'.sections == st.sections && st'.buffer == st.buffer;
    }
  }

  lemma StepOnBody(st: Splitter, raw: string)
    requires Strip(raw) != [] && !IsHeadingLine(Strip(raw))
    ensures Step(st, raw) == st.(buffer := st.buffer + [Strip(raw)])
  {
  }

  /** The facts of ContentTracked about the pieces alone. */
  ghost predicate PiecesMatchBody(pieces: seq<string>, body: seq<string>) {
    && (forall i :: 0 <= i < |pieces| ==> pieces[i] != [])
    && ((pieces == []) == (body == []))
    && JoinWith(pieces, " ") == CleanText(JoinWith(body, "\n"))
  }

  lemma PiecesAppend(pieces: seq<string>, body: seq<string>, line: string)
    requires PiecesMatchBody(pieces, body)
    requires forall i :: 0 <= i < |body| ==> body[i] != [] && IsTrimmed(body[i])
    requires line != [] && IsTrimmed(line)
    ensures PiecesMatchBody(pieces + [CleanText(line)], body + [line])
  {
    if pieces == [] {
      assert body == [];
      assert body + [line] == [line];
      assert pieces + [CleanText(line)] == [CleanText(line)];
      PiecesStart(line);
    } else {
      PiecesMore(pieces, body, line);
    }
  }

  lemma PiecesMore(pieces: seq<string>, body: seq<string>, line: string)
    requires pieces != [] && PiecesMatchBody(pieces, body)
    requires forall i :: 0 <= i < |body| ==> body[i] != [] && IsTrimmed(body[i])
    requires line != [] && IsTrimmed(line)
    ensures PiecesMatchBody(pieces + [CleanText(line)], body + [line])
  {
    var y := CleanText(line);
    JoinSnoc(pieces, y, " ");
    CleanJoinSnoc(body, line);
    NonEmptySnoc(pieces, y);
  }

  lemma PiecesStart(line: string)
    requires line != [] && IsTrimmed(line)
    ensures PiecesMatchBody([CleanText(line)], [line])
  {
    var y := CleanText(line);
    assert !AllSpace(line) by {
      assert !IsSpace(line[0]);
    }
    assert JoinWith([line], "\n") == line;
    assert JoinWith([y], " ") == y;
  }

  lemma NonEmptySnoc(xs: seq<string>, y: string)
    requires forall i :: 0 <= i < |xs| ==> xs[i] != []
    requires y != []
    ensures forall i :: 0 <= i < |xs + [y]| ==> (xs + [y])[i] != []
  {
  }

  lemma PiecesExtendLast(pieces: seq<string>, body: seq<string>, p: string, line: string)
    requires PiecesMatchBody(pieces + [p], body)
    requires forall i :: 0 <= i < |body| ==> body[i] != [] && IsTrimmed(body[i])
    requires line != [] && IsTrimmed(line)
    ensures PiecesMatchBody(pieces + [p + " " + CleanText(line)], body + [line])
  {
    var y := CleanText(line);
    JoinLastExtend(pieces, p, y, " ");
    CleanJoinSnoc(body, line);
    assert forall i :: 0 <= i < |pieces| ==> pieces[i] != [] by {
      forall i | 0 <= i < |pieces| ensures pieces[i] != [] {
        assert pieces[i] == (pieces + [p])[i];
      }
    }
    NonEmptySnoc(pieces, p + " " + y);
  }

  lemma PiecesOfNewBuffer(st: Splitter, line: string)
    requires st.buffer == []
    ensures Pieces(st.(buffer := st.buffer + [line])) == Pieces(st) + [CleanText(line)]
  {
    assert st.buffer + [line] == [line];
    assert JoinWith([line], "\n") == line;
  }

  lemma PiecesOfLongerBuffer(st: Splitter, line: string)
    requires st.buffer != []
    requires forall i :: 0 <= i < |st.buffer| ==> st.buffer[i] != [] && IsTrimmed(st.buffer[i])
    requires line != [] && IsTrimmed(line)
    ensures var p := CleanText(JoinWith(st.buffer, "\n"));
      && Pieces(st) == Contents(st.sections) + [p]
      && Pieces(st.(buffer := st.buffer + [line])) == Contents(st.sections) + [p + " " + CleanText(line)]
  {
    CleanJoinSnoc(st.buffer, line);
  }

  lemma BodyLineTracksContent(st: Splitter, body: seq<string>, line: string)
    requires ContentTracked(st, body)
    requires forall i :: 0 <= i < |body| ==> body[i] != [] && IsTrimmed(body[i])
    requires line != [] && IsTrimmed(line)
    ensures ContentTracked(st.(buffer := st.buffer + [line]), body + [line])
  {
    BodyLinePieces(st, body, line);
    TrimmedLinesSnoc(st.buffer, line);
  }

  lemma TrimmedLinesSnoc(lines: seq<string>, line: string)
    requires forall i :: 0 <= i < |lines| ==> lines[i] != [] && IsTrimmed(lines[i])
    requires line != [] && IsTrimmed(line)
    ensures forall i :: 0 <= i < |lines + [line]| ==> (lines + [line])[i] != [] && IsTrimmed((lines + [line])[i])
  {
  }

  lemma BodyLinePieces(st: Splitter, body: seq<string>, line: string)
    requires PiecesMatchBody(Pieces(st), body)
    requires forall i :: 0 <= i < |st.buffer| ==> st.buffer[i] != [] && IsTrimmed(st.buffer[i])
    requires forall i :: 0 <= i < |body| ==> body[i] != [] && IsTrimmed(body[i])
    requires line != [] && IsTrimmed(line)
    ensures PiecesMatchBody(Pieces(st.(buffer := st.buffer + [line])), body + [line])
  {
    if st.buffer == [] {
      PiecesOfNewBuffer(st, line);
      PiecesAppend(Pieces(st), body, line);
    } else {
      var p := CleanText(JoinWith(st.buffer, "\n"));
      PiecesOfLongerBuffer(st, line);
      PiecesExtendLast(Contents(st.sections), body, p, line);
    }
  }

  lemma HeadingTracksContent(st: Splitter, body: seq<string>, raw: string)
    requires ContentTracked(st, body)
    requires Strip(raw) != [] && IsHeadingLine(Strip(raw))
    ensures ContentTracked(Step(st, raw), body)
  {
    var st' := Step(st, raw);
    assert st'.sections == Flushed(st);
    StepOnHeading(st, raw);
    FlushedNormalized(st);
  }

  lemma FlushedNormalized(st: Splitter)
    requires forall i :: 0 <= i < |st.sections| ==> Normalized(st.sections[i].content)
    ensures forall i :: 0 <= i < |Flushed(st)| ==> Normalized(Flushed(st)[i].content)
  {
    if ReadyToFlush(st) {
      var f := Flushed(st);
      forall i | 0 <= i < |f| ensures Normalized(f[i].content) {
        if i < |st.sections| { assert f[i] == st.sections[i]; }
      }
    }
  }

  lemma StepTracksContent(st: Splitter, body: seq<string>, raw: string)
    requires ContentTracked(st, body)
    requires forall i :: 0 <= i < |body| ==> body[i] != [] && IsTrimmed(body[i])
    ensures var line := Strip(raw);
      ContentTracked(Step(st, raw), body + (if line != [] && !IsHeadingLine(line) then [line] else []))
  {
    var line := Strip(raw);
    if line == [] {
      assert body + [] == body;
    } else if IsHeadingLine(line) {
      assert body + [] == body;
      HeadingTracksContent(st, body, raw);
    } else {
      StepOnBody(st, raw);
      BodyLineTracksContent(st, body, line);
    }
  }

  lemma {:induction false} RunTracksContent(lines: seq<string>)
    ensures ContentTracked(RunFrom(Start, lines), BodyLines(lines))
  {
    if lines != [] {
      var init := lines[..|lines| - 1];
      RunTracksContent(init);
      StepTracksContent(RunFrom(Start, init), BodyLines(init), lines[|lines| - 1]);
      LinesUnfold(lines);
    }
  }

  /** The emitted contents are the pieces of the final state, up to the unflushed
      pre-heading buffer when no heading was ever seen. */
  lemma FlushedContents(st: Splitter)
    ensures Contents(Flushed(st)) == Pieces(st) || (!ReadyToFlush(st) && Contents(Flushed(st)) == Contents(st.sections))
    ensures ReadyToFlush(st) || st.buffer == [] ==> Contents(Flushed(st)) == Pieces(st)
  {
  }

  /** Every emitted section has non-empty, whitespace-normalised content. */
  lemma SegmentContents(lines: seq<string>)
    ensures forall i :: 0 <= i < |Segment(lines)| ==>
      Segment(lines)[i].content != [] && Normalized(Segment(lines)[i].content)
  {
    var st := RunFrom(Start, lines);
    RunTracksContent(lines);
    FlushedContents(st);
    forall i | 0 <= i < |Segment(lines)|
      ensures Segment(lines)[i].content != [] && Normalized(Segment(lines)[i].content)
    {
      assert Segment(lines)[i].content == Contents(Segment(lines))[i] == Pieces(st)[i];
    }
  }

  /** Headings come from heading lines, in document order, each heading line used at most once. */
  lemma SegmentHeadings(lines: seq<string>)
    ensures IsSubsequence(Headings(Segment(lines)), HeadingLines(lines))
    ensures |Segment(lines)| <= |HeadingLines(lines)|
    ensures forall h :: h in Headings(Segment(lines)) ==> h in HeadingLines(lines)
  {
    var st := RunFrom(Start, lines);
    RunTracksHeadings(lines);
    FlushedHeadings(st, HeadingLines(lines));
    SubsequenceBounds(Headings(Segment(lines)), HeadingLines(lines));
  }

  /** A heading line is one line of the text: it holds no line boundary. */
  lemma {:induction false} HeadingLinesNoBreak(lines: seq<string>)
    requires forall i :: 0 <= i < |lines| ==> NoLineBreak(lines[i])
    ensures forall i :: 0 <= i < |HeadingLines(lines)| ==> NoLineBreak(HeadingLines(lines)[i])
  {
    if lines != [] {
      HeadingLinesNoBreak(lines[..|lines| - 1]);
    }
  }

  /** Every section of a text has a non-blank trimmed single-line heading and non-empty
      normalised content. */
  lemma SectionsShape(text: string)
    ensures forall i :: 0 <= i < |Sections(text)| ==>
      && Sections(text)[i].heading != [] && IsTrimmed(Sections(text)[i].heading)
      && NoLineBreak(Sections(text)[i].heading)
      && Sections(text)[i].content != [] && Normalized(Sections(text)[i].content)
  {
    var lines := SplitLines(text);
    SegmentContents(lines);
    SegmentHeadings(lines);
    HeadingLinesNoBreak(lines);
    forall i | 0 <= i < |Sections(text)|
      ensures Sections(text)[i].heading in HeadingLines(lines)
    {
      assert Sections(text)[i].heading == Headings(Sections(text))[i];
    }
  }

  /** Text without a heading line yields no section, however much text it has. */
  lemma SegmentWithoutHeadings(lines: seq<string>)
    requires HeadingLines(lines) == []
    ensures Segment(lines) == []
  {
    RunTracksHeadings(lines);
  }

  /** Once a heading exists, no content is lost: the contents joined with `' '` are the
      cleaned body lines, including those before the first heading. */
  lemma SegmentKeepsContent(lines: seq<string>)
    requires HeadingLines(lines) != []
    ensures JoinWith(Contents(Segment(lines)), " ") == CleanText(JoinWith(BodyLines(lines), "\n"))
  {
    var st := RunFrom(Start, lines);
    RunTracksHeadings(lines);
    RunTracksContent(lines);
    FlushedContents(st);
    assert st.heading.Some? && st.heading.value != [];
  }

  lemma {:induction false} RunFromConcat(st: Splitter, xs: seq<string>, ys: seq<string>)
    ensures RunFrom(st, xs + ys) == RunFrom(RunFrom(st, xs), ys)
  {
    if ys == [] {
      assert xs + ys == xs;
    } else {
      var n := |ys| - 1;
      assert xs + ys == (xs + ys[..n]) + [ys[n]];
      assert ys == ys[..n] + [ys[n]];
      RunFromConcat(st, xs, ys[..n]);
      RunFromSnoc(st, xs + ys[..n], ys[n]);
      RunFromSnoc(RunFrom(st, xs), ys[..n], ys[n]);
    }
  }

  lemma RunFromSnoc(st: Splitter, xs: seq<string>, x: string)
    ensures RunFrom(st, xs + [x]) == Step(RunFrom(st, xs), x)
  {
    assert (xs + [x])[..|xs|] == xs;
  }

  /** A blank or whitespace-only line has no effect on the output. */
  lemma SegmentIgnoresBlankLine(xs: seq<string>, blank: string, ys: seq<string>)
    requires AllSpace(blank)
    ensures Segment(xs + [blank] + ys) == Segment(xs + ys)
  {
    RunFromConcat(Start, xs + [blank], ys);
    RunFromConcat(Start, xs, ys);
    assert (xs + [blank])[..|xs|] == xs;
    assert RunFrom(Start, xs + [blank]) == RunFrom(Start, xs);
  }

  /** Once a heading line has been seen, or while no body line has been, a heading line leaves
      an empty buffer behind: either the buffer is flushed or it is already empty. Before the
      first heading, body lines wait in the buffer instead (see `SegmentKeepsContent`). */
  lemma HeadingClearsBuffer(xs: seq<string>)
    requires HeadingLines(xs) != [] || BodyLines(xs) == []
    ensures ReadyToFlush(RunFrom(Start, xs)) || RunFrom(Start, xs).buffer == []
  {
    var st := RunFrom(Start, xs);
    RunTracksHeadings(xs);
    RunTracksContent(xs);
    if st.buffer != [] {
      assert Pieces(st) != [];
    }
  }

  /** A heading line with nothing after it produces no section, once a heading line has been
      seen or while no body line has been. */
  lemma SegmentTrailingHeading(xs: seq<string>, h: string)
    requires Strip(h) != [] && IsHeadingLine(Strip(h))
    requires HeadingLines(xs) != [] || BodyLines(xs) == []
    ensures Segment(xs + [h]) == Segment(xs)
  {
    HeadingClearsBuffer(xs);
    assert (xs + [h])[..|xs|] == xs;
  }

  lemma HeadingAfterHeading(xs: seq<string>, h1: string, h2: string)
    requires Strip(h1) != [] && IsHeadingLine(Strip(h1))
    requires Strip(h2) != [] && IsHeadingLine(Strip(h2))
    requires HeadingLines(xs) != [] || BodyLines(xs) == []
    ensures RunFrom(Start, xs + [h1, h2]) == RunFrom(Start, xs + [h2])
  {
    HeadingClearsBuffer(xs);
    TwoHeadingSteps(RunFrom(Start, xs), h1, h2);
    RunSnoc(xs, h1);
    RunSnoc(xs + [h1], h2);
    AppendAssoc(xs, [h1], [h2]);
    PairConcat(h1, h2);
    RunSnoc(xs, h2);
  }

  lemma RunSnoc(xs: seq<string>, x: string)
    ensures RunFrom(Start, xs + [x]) == Step(RunFrom(Start, xs), x)
  {
    assert (xs + [x])[..|xs|] == xs;
  }

  /** Two heading lines in a row leave the state the second one alone leaves. */
  lemma TwoHeadingSteps(st: Splitter, h1: string, h2: string)
    requires Strip(h1) != [] && IsHeadingLine(Strip(h1))
    requires Strip(h2) != [] && IsHeadingLine(Strip(h2))
    requires ReadyToFlush(st) || st.buffer == []
    ensures Step(Step(st, h1), h2) == Step(st, h2)
  {
  }

  /** A heading line directly followed by another heading line is replaced by it and produces
      no section, once a heading line has been seen or while no body line has been. */
  lemma SegmentHeadingReplaced(xs: seq<string>, h1: string, h2: string, ys: seq<string>)
    requires Strip(h1) != [] && IsHeadingLine(Strip(h1))
    requires Strip(h2) != [] && IsHeadingLine(Strip(h2))
    requires HeadingLines(xs) != [] || BodyLines(xs) == []
    ensures Segment(xs + [h1, h2] + ys) == Segment(xs + [h2] + ys)
  {
    HeadingAfterHeading(xs, h1, h2);
    RunFromConcat(Start, xs + [h1, h2], ys);
    RunFromConcat(Start, xs + [h2], ys);
  }

  /** A raw line that the loop appends to the content buffer: non-blank after stripping and
      not a heading. */
  predicate IsBody(raw: string) {
    Strip(raw) != [] && !IsHeadingLine(Strip(raw))
  }

  /** A raw line that the loop takes as a heading: non-blank after stripping and a heading. */
  predicate IsHeading(raw: string) {
    Strip(raw) != [] && IsHeadingLine(Strip(raw))
  }

  lemma BodyStep(st: Splitter, raw: string)
    requires IsBody(raw)
    ensures Step(st, raw) == st.(buffer := st.buffer + [Strip(raw)])
  {
  }

  lemma HeadingStep(st: Splitter, raw: string)
    requires IsHeading(raw)
    ensures Step(st, raw) == Splitter(Some(Strip(raw)), if ReadyToFlush(st) then [] else st.buffer, Flushed(st))
  {
  }

  /** A run of lines without heading lines only grows the buffer, by its body lines. */
  lemma {:induction false} RunBodyLines(st: Splitter, bs: seq<string>)
    requires HeadingLines(bs) == []
    ensures RunFrom(st, bs) == st.(buffer := st.buffer + BodyLines(bs))
    decreases |bs|
  {
    if bs == [] {
      assert st.buffer + BodyLines(bs) == st.buffer;
    } else {
      var n := |bs| - 1;
      LinesUnfold(bs);
      RunBodyLines(st, bs[..n]);
      if Strip(bs[n]) == [] {
        BlankLineStep(st, bs[..n], bs[n]);
      } else {
        BodyLineStep(st, bs[..n], bs[n]);
      }
      InitLast(bs);
    }
  }

  /** A blank line leaves the buffer as it is. */
  lemma BlankLineStep(st: Splitter, init: seq<string>, last: string)
    requires Strip(last) == []
    requires RunFrom(st, init) == st.(buffer := st.buffer + BodyLines(init))
    ensures RunFrom(st, init + [last]) == st.(buffer := st.buffer + BodyLines(init + [last]))
  {
    RunFromSnoc(st, init, last);
    BodyLinesSnoc(init, last);
    AppendEmpty(BodyLines(init));
  }

  /** A body line is appended to the buffer, stripped. */
  lemma BodyLineStep(st: Splitter, init: seq<string>, last: string)
    requires IsBody(last)
    requires RunFrom(st, init) == st.(buffer := st.buffer + BodyLines(init))
    ensures RunFrom(st, init + [last]) == st.(buffer := st.buffer + BodyLines(init + [last]))
  {
    RunFromSnoc(st, init, last);
    BodyLinesSnoc(init, last);
    BodyStep(RunFrom(st, init), last);
    AppendAssoc(st.buffer, BodyLines(init), [Strip(last)]);
  }

  lemma BodyLinesSnoc(init: seq<string>, last: string)
    ensures BodyLines(init + [last]) == BodyLines(init) + (if IsBody(last) then [Strip(last)] else [])
  {
    assert (init + [last])[..|init|] == init;
  }

  /** Appending lines never loses a heading line already seen. */
  lemma {:induction false} HeadingLinesGrow(a: seq<string>, b: seq<string>)
    ensures |HeadingLines(a)| <= |HeadingLines(a + b)|
    decreases |b|
  {
    if b == [] {
      assert a + b == a;
    } else {
      var n := |b| - 1;
      HeadingLinesGrow(a, b[..n]);
      assert (a + b)[..|a + b| - 1] == a + b[..n];
      LinesUnfold(a + b);
    }
  }

  /** After a heading line that leaves no buffer behind, the state is that heading alone. */
  lemma HeadingStartsSection(xs: seq<string>, h: string)
    requires IsHeading(h)
    requires HeadingLines(xs) != [] || BodyLines(xs) == []
    ensures RunFrom(Start, xs + [h]) == Splitter(Some(Strip(h)), [], Segment(xs))
    ensures HeadingLines(xs + [h]) != []
  {
    HeadingClearsBuffer(xs);
    RunSnoc(xs, h);
    assert (xs + [h])[..|xs|] == xs;
    LinesUnfold(xs + [h]);
  }

  /** A heading line followed by lines that hold no heading line but some body line emits its
      own section, whose content is those body lines cleaned, once a heading line has been seen or while no body line has been. */
  lemma SegmentAppendSection(xs: seq<string>, h: string, bs: seq<string>)
    requires IsHeading(h)
    requires HeadingLines(bs) == [] && BodyLines(bs) != []
    requires HeadingLines(xs) != [] || BodyLines(xs) == []
    ensures Segment(xs + [h] + bs)
      == Segment(xs) + [Section(Strip(h), CleanText(JoinWith(BodyLines(bs), "\n")))]
    ensures HeadingLines(xs + [h] + bs) != []
  {
    var st := Splitter(Some(Strip(h)), [], Segment(xs));
    HeadingStartsSection(xs, h);
    RunFromConcat(Start, xs + [h], bs);
    RunBodyLines(st, bs);
    var last := st.(buffer := st.buffer + BodyLines(bs));
    assert st.buffer + BodyLines(bs) == BodyLines(bs);
    assert ReadyToFlush(last);
    HeadingLinesGrow(xs + [h], bs);
  }

  /** Two headings, each followed by lines with body lines and no heading line, emit two sections in order, each with its own
      lines; this holds as well when both headings are the same line. */
  lemma SegmentTwoSections(xs: seq<string>, h1: string, bs1: seq<string>, h2: string, bs2: seq<string>)
    requires IsHeading(h1) && IsHeading(h2)
    requires HeadingLines(bs1) == [] && BodyLines(bs1) != []
    requires HeadingLines(bs2) == [] && BodyLines(bs2) != []
    requires HeadingLines(xs) != [] || BodyLines(xs) == []
    ensures Segment(xs + [h1] + bs1 + [h2] + bs2) == Segment(xs)
      + [Section(Strip(h1), CleanText(JoinWith(BodyLines(bs1), "\n"))),
         Section(Strip(h2), CleanText(JoinWith(BodyLines(bs2), "\n")))]
  {
    var s1 := Section(Strip(h1), CleanText(JoinWith(BodyLines(bs1), "\n")));
    var s2 := Section(Strip(h2), CleanText(JoinWith(BodyLines(bs2), "\n")));
    SegmentAppendSection(xs, h1, bs1);
    SegmentAppendSection(xs + [h1] + bs1, h2, bs2);
    AppendAssoc(Segment(xs), [s1], [s2]);
    PairConcat(s1, s2);
  }
}
