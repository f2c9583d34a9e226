/**
 * `process_all_pdfs` of app/main.py: the metadata derived from the persona
 * (`test_case_name`, `description`, the combined query), the choice of PDF
 * files and their titles and output names, the summary prompt, and the
 * per-document and master records.
 *
 * The PDF text extractor, the summariser and the embedding similarity are
 * given as functions in `Services`; the directory listing is a parameter and
 * the files written are returned.
 */
module Pipeline {
  import opened PyStr
  import opened Seqs
  import opened Parser
  import opened Ranker

  const ChallengeId: string := "round_1b_003"
  const InputDir: string := "input/"
  const OutputDir: string := "output/"
  const NoSummary: string := "No summary available."
  const SummaryLimit: nat := 1000
  const TestCaseLimit: nat := 50

  /** The collaborators `process_all_pdfs` calls but that are not modelled: `extract_text` on a
      path (None when it raises), the summariser on a prompt (None when it raises), and the
      cosine similarity of two texts' embeddings. */
  datatype Services = Services(
    extract: string -> Option<string>,
    summarize: string -> Option<string>,
    similarity: (string, string) -> int)

  // ---------------------------------------------------------------------
  // Metadata from the persona (main.py:47-50)
  // ---------------------------------------------------------------------

  /** `c.lower()` for ASCII letters. */
  function LowerChar(c: char): char {
    if 'A' <= c <= 'Z' then (c as int + 32) as char else c
  }

  /** `s.lower()` */
  function Lower(s: string): (r: string)
    ensures |r| == |s|
    ensures forall i :: 0 <= i < |s| ==> r[i] == LowerChar(s[i])
  {
    if s == [] then [] else [LowerChar(s[0])] + Lower(s[1..])
  }

  /** `s.replace(a, b)` for one-character `a` and `b`. */
  function Replace(s: string, a: char, b: char): (r: string)
    ensures |r| == |s|
    ensures forall i :: 0 <= i < |s| ==> r[i] == if s[i] == a then b else s[i]
  {
    if s == [] then [] else [if s[0] == a then b else s[0]] + Replace(s[1..], a, b)
  }

  /** What one character of the goal becomes in the test case name. */
  function NameChar(c: char): char {
    if c == ' ' then '_' else LowerChar(c)
  }

  /** `persona_goal.lower().replace(" ", "_")[:50]`: the first 50 characters of the goal, each
      lower-cased with `' '` made `'_'`; it holds no space and no upper-case letter. */
  function TestCaseName(goal: string): (r: string)
    ensures |r| == if |goal| < TestCaseLimit then |goal| else TestCaseLimit
    ensures forall i :: 0 <= i < |r| ==> r[i] == NameChar(goal[i])
    ensures ' ' !in r
    ensures forall i :: 0 <= i < |r| ==> !('A' <= r[i] <= 'Z')
  {
    var t := Replace(Lower(goal), ' ', '_');
    if |t| < TestCaseLimit then t else t[..TestCaseLimit]
  }

  /** Deriving the name from a name changes nothing. */
  lemma TestCaseNameIdempotent(goal: string)
    ensures TestCaseName(TestCaseName(goal)) == TestCaseName(goal)
  {
    var t := TestCaseName(goal);
    forall i | 0 <= i < |t| ensures TestCaseName(t)[i] == t[i] {
      assert NameChar(NameChar(goal[i])) == NameChar(goal[i]);
    }
  }

  /** `persona_goal.split(".")[0]`: the longest prefix of the goal without a `'.'`. */
  function Description(goal: string): (r: string)
    ensures |r| <= |goal| && r == goal[..|r|] && '.' !in r
    ensures |r| < |goal| ==> goal[|r|] == '.'
    ensures '.' !in goal ==> r == goal
  {
    SplitOn(goal, '.')[0]
  }

  /** The description is the goal up to its first sentence end, cut before the `'.'`. */
  lemma DescriptionFirstSentence(first: string, rest: string)
    requires '.' !in first
    ensures Description(first + "." + rest) == first
  {
    var s := first + "." + rest;
    assert s[|first|] == '.';
    assert forall i :: 0 <= i < |first| ==> s[i] == first[i];
  }

  /** `f"{persona_role} needs: {persona_goal}"`: both parts can be read back from it. */
  function CombinedQuery(role: string, goal: string): (r: string)
    ensures |r| == |role| + 8 + |goal|
    ensures r[..|role|] == role && r[|role|..|role| + 8] == " needs: " && r[|role| + 8..] == goal
  {
    role + " needs: " + goal
  }

  /** A role without `':'` ends where the query's first `':'` stands, six characters earlier. */
  lemma FirstColon(role: string, goal: string)
    requires ':' !in role
    ensures |role| + 6 < |CombinedQuery(role, goal)| && CombinedQuery(role, goal)[|role| + 6] == ':'
    ensures forall i :: 0 <= i < |role| + 6 ==> CombinedQuery(role, goal)[i] != ':'
  {
    var q := CombinedQuery(role, goal);
    assert q[|role|..|role| + 8][6] == q[|role| + 6];
    forall i | 0 <= i < |role| + 6 ensures q[i] != ':' {
      if i < |role| {
        assert q[..|role|][i] == q[i];
      } else {
        assert q[|role|..|role| + 8][i - |role|] == q[i];
      }
    }
  }

  /** The query determines the persona's role and goal, when the role has no `':'`. */
  lemma CombinedQueryInjective(role1: string, goal1: string, role2: string, goal2: string)
    requires ':' !in role1 && ':' !in role2
    requires CombinedQuery(role1, goal1) == CombinedQuery(role2, goal2)
    ensures role1 == role2 && goal1 == goal2
  {
    FirstColon(role1, goal1);
    FirstColon(role2, goal2);
    assert |role1| == |role2|;
  }

  // ---------------------------------------------------------------------
  // File names (main.py:53, 59, 67)
  // ---------------------------------------------------------------------

  /** `filename.endswith(".pdf")` */
  predicate IsPdf(name: string) {
    |name| >= 4 && name[|name| - 4..] == ".pdf"
  }

  /** `p.rfind(c)`: the last position of `c` in `p`, or -1. */
  function RFind(p: string, c: char): (r: int)
    ensures -1 <= r < |p|
    ensures r >= 0 ==> p[r] == c
    ensures forall i :: r < i < |p| ==> p[i] != c
  {
    if p == [] then -1
    else if p[|p| - 1] == c then |p| - 1
    else RFind(p[..|p| - 1], c)
  }

  predicate AllDots(s: string) {
    forall i :: 0 <= i < |s| ==> s[i] == '.'
  }

  /** `os.path.splitext(p)` on POSIX: the extension starts at the last `'.'` of the last path
      component, unless only dots precede it in that component. */
  function SplitExt(p: string): (string, string) {
    var sepIndex := RFind(p, '/');
    var dotIndex := RFind(p, '.');
    if dotIndex > sepIndex && !AllDots(p[sepIndex + 1..dotIndex]) then (p[..dotIndex], p[dotIndex..])
    else (p, "")
  }

  /** The root and the extension make up the path; a non-empty extension is one `'.'` followed
      by text without `'.'` or `'/'`. */
  lemma SplitExtParts(p: string)
    ensures SplitExt(p).0 + SplitExt(p).1 == p
    ensures SplitExt(p).1 == [] || (SplitExt(p).1[0] == '.' && '.' !in SplitExt(p).1[1..] && '/' !in SplitExt(p).1)
  {
    var sepIndex := RFind(p, '/');
    var dotIndex := RFind(p, '.');
    if dotIndex > sepIndex && !AllDots(p[sepIndex + 1..dotIndex]) {
      assert SplitExt(p) == (p[..dotIndex], p[dotIndex..]);
      assert p[..dotIndex] + p[dotIndex..] == p;
      LastDotTail(p, sepIndex, dotIndex);
    } else {
      assert SplitExt(p) == (p, "");
    }
  }

  /** The text from the last `'.'`, when it lies after the last `'/'`. */
  lemma LastDotTail(p: string, sepIndex: int, dotIndex: int)
    requires sepIndex == RFind(p, '/') && dotIndex == RFind(p, '.')
    requires dotIndex > sepIndex
    ensures p[dotIndex..][0] == '.' && '.' !in p[dotIndex..][1..] && '/' !in p[dotIndex..]
  {
    var ext := p[dotIndex..];
    forall i | 0 <= i < |ext| ensures ext[i] == p[dotIndex + i] && (i > 0 ==> ext[i] != '.') && ext[i] != '/' {
    }
    assert forall i :: 0 <= i < |ext[1..]| ==> ext[1..][i] == ext[i + 1];
  }

  /** `os.path.splitext(filename)[0]` */
  function Title(name: string): string {
    SplitExt(name).0
  }

  /** `os.path.splitext(filename)[0] + ".json"` */
  function OutputFileName(name: string): string {
    Title(name) + ".json"
  }

  lemma RFindPdf(name: string)
    requires IsPdf(name)
    ensures RFind(name, '.') == |name| - 4
  {
    var n := |name|;
    assert name[n - 4] == '.' && name[n - 3] == 'p' && name[n - 2] == 'd' && name[n - 1] == 'f';
    assert name[..n - 1][..n - 2] == name[..n - 2];
    assert name[..n - 2][..n - 3] == name[..n - 3];
    assert RFind(name[..n - 3], '.') == n - 4;
    assert RFind(name[..n - 2], '.') == n - 4;
    assert RFind(name[..n - 1], '.') == n - 4;
  }

  /** The title of a PDF whose name has something other than dots before `".pdf"` is the name
      without `".pdf"`. */
  lemma PdfTitle(name: string)
    requires IsPdf(name) && '/' !in name && !AllDots(name[..|name| - 4])
    ensures Title(name) == name[..|name| - 4]
    ensures OutputFileName(name) == name[..|name| - 4] + ".json"
  {
    RFindPdf(name);
    assert RFind(name, '/') == -1;
    assert name[0..|name| - 4] == name[..|name| - 4];
  }

  /** A PDF whose name is only dots before `".pdf"` (such as `".pdf"`) keeps its whole name as
      its title. */
  lemma DotsOnlyPdfTitle(name: string)
    requires IsPdf(name) && '/' !in name && AllDots(name[..|name| - 4])
    ensures Title(name) == name
  {
    RFindPdf(name);
    assert RFind(name, '/') == -1;
    assert name[0..|name| - 4] == name[..|name| - 4];
  }

  /** Two PDF names with a proper stem never share an output file. */
  lemma OutputFileNameInjective(a: string, b: string)
    requires IsPdf(a) && '/' !in a && !AllDots(a[..|a| - 4])
    requires IsPdf(b) && '/' !in b && !AllDots(b[..|b| - 4])
    requires OutputFileName(a) == OutputFileName(b)
    ensures a == b
  {
    PdfTitle(a);
    PdfTitle(b);
    assert Title(a) == OutputFileName(a)[..|OutputFileName(a)| - 5];
    assert Title(b) == OutputFileName(b)[..|OutputFileName(b)| - 5];
    assert a == a[..|a| - 4] + ".pdf";
    assert b == b[..|b| - 4] + ".pdf";
  }

  // ---------------------------------------------------------------------
  // Extraction and summary (main.py:22-39)
  // ---------------------------------------------------------------------

  /** `os.path.join(INPUT_DIR, filename)` */
  function PdfPath(name: string): string {
    InputDir + name
  }

  /** `extract_text_from_pdf`: the extracted text, or `""` when extraction fails. */
  function ExtractText(name: string, env: Services): string {
    match env.extract(PdfPath(name))
    case Some(text) => text
    case None => ""
  }

  /** The prompt `generate_summary` gives the summariser. */
  function SummaryPrompt(text: string): string {
    "summarize: " + (if |text| <= SummaryLimit then text else text[..SummaryLimit])
  }

  /** `generate_summary`: the summariser's answer, or the fixed fallback when it fails. */
  function GenerateSummary(text: string, summarize: string -> Option<string>): string {
    match summarize(SummaryPrompt(text))
    case Some(summary) => summary
    case None => NoSummary
  }

  /** The prompt is `"summarize: "` and exactly the first 1000 characters of the text, or all of it when shorter. */
  lemma SummaryPromptShape(text: string)
    ensures |SummaryPrompt(text)| == 11 + (if |text| < SummaryLimit then |text| else SummaryLimit)
    ensures SummaryPrompt(text)[..11] == "summarize: "
    ensures |text| <= SummaryLimit ==> SummaryPrompt(text) == "summarize: " + text
    ensures SummaryPrompt(text)[11..] == text[..|SummaryPrompt(text)| - 11]
  {
  }

  /** Text after the first 1000 characters never reaches the summariser. */
  lemma SummaryIgnoresTail(text: string, tail: string, summarize: string -> Option<string>)
    requires |text| >= SummaryLimit
    ensures GenerateSummary(text + tail, summarize) == GenerateSummary(text, summarize)
  {
    assert (text + tail)[..SummaryLimit] == text[..SummaryLimit];
    assert |text| == SummaryLimit ==> text[..SummaryLimit] == text;
    assert SummaryPrompt(text + tail) == SummaryPrompt(text);
  }

  // ---------------------------------------------------------------------
  // Records (main.py:69-74, 81-101)
  // ---------------------------------------------------------------------

  /** The per-document file `ranked_result`. */
  datatype DocumentRecord = DocumentRecord(
    pdfFile: string, personaRole: string, personaQuery: string, rankedSections: seq<RankedSection>)

  /** One entry of `documents_metadata`. */
  datatype DocumentEntry = DocumentEntry(filename: string, title: string, description: string)

  datatype ChallengeInfo = ChallengeInfo(challengeId: string, testCaseName: string, description: string)
  datatype Persona = Persona(role: string)
  datatype JobToBeDone = JobToBeDone(task: string)

  /** `master_output` */
  datatype MasterRecord = MasterRecord(
    challengeInfo: ChallengeInfo, documents: seq<DocumentEntry>, persona: Persona, jobToBeDone: JobToBeDone)

  /** A file written: its path and the record dumped into it. */
  datatype OutputFile = OutputFile(path: string, record: DocumentRecord)

  /** The names of the listing that are processed, in listing order. */
  function PdfNames(listing: seq<string>): (r: seq<string>)
    ensures forall i :: 0 <= i < |r| ==> IsPdf(r[i])
  {
    if listing == [] then []
    else
      var n := |listing| - 1;
      PdfNames(listing[..n]) + (if IsPdf(listing[n]) then [listing[n]] else [])
  }

  /** The per-document record of the PDF `name`. */
  function DocumentFor(name: string, role: string, goal: string, env: Services): DocumentRecord {
    var text := ExtractText(name, env);
    DocumentRecord(name, role, goal, Ranking(Sections(text), CombinedQuery(role, goal), env.similarity))
  }

  /** The master entry of the PDF `name`. */
  function EntryFor(name: string, env: Services): DocumentEntry {
    DocumentEntry(name, Title(name), GenerateSummary(ExtractText(name, env), env.summarize))
  }

  /** The per-document files written for the listing, in order. */
  function Outputs(listing: seq<string>, role: string, goal: string, env: Services): seq<OutputFile> {
    if listing == [] then []
    else
      var n := |listing| - 1;
      Outputs(listing[..n], role, goal, env)
      + (if IsPdf(listing[n])
         then [OutputFile(OutputDir + OutputFileName(listing[n]), DocumentFor(listing[n], role, goal, env))]
         else [])
  }

  /** `documents_metadata` after the listing. */
  function Entries(listing: seq<string>, env: Services): seq<DocumentEntry> {
    if listing == [] then []
    else
      var n := |listing| - 1;
      Entries(listing[..n], env) + (if IsPdf(listing[n]) then [EntryFor(listing[n], env)] else [])
  }

  /** The master record for a persona and a listing. */
  function MasterFor(role: string, goal: string, listing: seq<string>, env: Services): MasterRecord {
    MasterRecord(
      ChallengeInfo(ChallengeId, TestCaseName(goal), Description(goal)),
      Entries(listing, env), Persona(role), JobToBeDone(goal))
  }

  /** `process_all_pdfs(role, goal)` over the directory listing `listing`: the master record and
      the per-document files, in the order written. */
  method ProcessAllPdfs(role: string, goal: string, listing: seq<string>, env: Services)
    returns (master: MasterRecord, written: seq<OutputFile>)
    ensures master == MasterFor(role, goal, listing, env)
    ensures written == Outputs(listing, role, goal, env)
  {
    var documents: seq<DocumentEntry> := [];
    var testCaseName := TestCaseName(goal);
    var description := Description(goal);
    var query := CombinedQuery(role, goal);
    written := [];
    var i := 0;
    while i < |listing|
      invariant i <= |listing|
      invariant documents == Entries(listing[..i], env)
      invariant written == Outputs(listing[..i], role, goal, env)
    {
      var filename := listing[i];
      assert listing[..i + 1][..i] == listing[..i];
      if IsPdf(filename) {
        var text := ExtractText(filename, env);
        var title := Title(filename);
        var summary := GenerateSummary(text, env.summarize);
        var sections := SplitSections(text);
        var ranked := RankSections(sections, query, env.similarity);
        var outputName := Title(filename) + ".json";
        written := written + [OutputFile(OutputDir + outputName, DocumentRecord(filename, role, goal, ranked))];
        documents := documents + [DocumentEntry(filename, title, summary)];
      }
      i := i + 1;
    }
    assert listing[..i] == listing;
    master := MasterRecord(ChallengeInfo(ChallengeId, testCaseName, description), documents, Persona(role), JobToBeDone(goal));
  }

  // ---------------------------------------------------------------------
  // What process_all_pdfs promises
  // ---------------------------------------------------------------------

  /** Only PDF names are processed, each once, in listing order. */
  lemma {:induction false} PdfNamesInOrder(listing: seq<string>)
    ensures IsSubsequence(PdfNames(listing), listing)
    ensures forall name :: name in listing && IsPdf(name) ==> name in PdfNames(listing)
  {
    if listing != [] {
      var n := |listing| - 1;
      var rest := PdfNames(listing[..n]);
      PdfNamesInOrder(listing[..n]);
      assert listing == listing[..n] + [listing[n]];
      if IsPdf(listing[n]) {
        assert PdfNames(listing) == rest + [listing[n]];
        SubsequenceSnoc(rest, listing[..n], listing[n]);
      } else {
        assert PdfNames(listing) == rest;
        SubsequenceExtend(rest, listing[..n], listing[n]);
      }
    }
  }

  /** The master record lists one entry per processed PDF, in listing order, with its name, its
      title and its summary. */
  lemma {:induction false} EntriesFollowPdfs(listing: seq<string>, env: Services)
    ensures |Entries(listing, env)| == |PdfNames(listing)|
    ensures forall i :: 0 <= i < |PdfNames(listing)| ==> Entries(listing, env)[i] == EntryFor(PdfNames(listing)[i], env)
  {
    if listing != [] {
      EntriesFollowPdfs(listing[..|listing| - 1], env);
    }
  }

  /** One per-document file per processed PDF, in listing order, named after its title, whose
      `persona_query` is the goal itself while its sections are ranked for the combined query. */
  lemma {:induction false} OutputsFollowPdfs(listing: seq<string>, role: string, goal: string, env: Services)
    ensures |Outputs(listing, role, goal, env)| == |PdfNames(listing)|
    ensures forall i :: 0 <= i < |PdfNames(listing)| ==>
      var name := PdfNames(listing)[i];
      var out := Outputs(listing, role, goal, env)[i];
      && out.path == OutputDir + Title(name) + ".json"
      && out.record.pdfFile == name
      && out.record.personaRole == role
      && out.record.personaQuery == goal
      && out.record.rankedSections == Ranking(Sections(ExtractText(name, env)), role + " needs: " + goal, env.similarity)
  {
    OutputsAreDocuments(listing, role, goal, env);
  }

  lemma {:induction false} OutputsAreDocuments(listing: seq<string>, role: string, goal: string, env: Services)
    ensures |Outputs(listing, role, goal, env)| == |PdfNames(listing)|
    ensures forall i :: 0 <= i < |PdfNames(listing)| ==>
      Outputs(listing, role, goal, env)[i]
        == OutputFile(OutputDir + OutputFileName(PdfNames(listing)[i]), DocumentFor(PdfNames(listing)[i], role, goal, env))
  {
    if listing != [] {
      var n := |listing| - 1;
      OutputsAreDocuments(listing[..n], role, goal, env);
    }
  }

  /** The master record is built even when nothing is processed; its document list is empty
      exactly when no name of the listing ends in `".pdf"`. */
  lemma MasterWithoutPdfs(role: string, goal: string, listing: seq<string>, env: Services)
    ensures MasterFor(role, goal, listing, env).documents == [] <==> forall name :: name in listing ==> !IsPdf(name)
  {
    EntriesFollowPdfs(listing, env);
    PdfNamesInOrder(listing);
    if PdfNames(listing) != [] {
      SubsequenceBounds(PdfNames(listing), listing);
      assert PdfNames(listing)[0] in listing;
    }
  }
}
