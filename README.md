# Persona-driven document sections, modelled in Dafny

The system reads a folder of PDF files on behalf of a *persona*, who has a role and a goal
(the "job to be done"). For each PDF it:

- extracts the plain text;
- cuts the text into `{heading, content}` sections with a line-by-line heading detector (`app/parser.py`);
- ranks the sections by their similarity to the query `"<role> needs: <goal>"` (`app/ranker.py`);
- writes one JSON ranking per document, plus a master record that lists every processed
  document with a short summary (`app/main.py`).

This project models that text pipeline and proves what it does.

- **PyStr** (`pystr.dfy`) models the Python string built-ins the code relies on:
  - `str.isspace` (the same set as `\s`);
  - `strip`, `splitlines`, `sep.join`, `split(".")` and `partition("\n")`;
  - `None`.

  **Seqs** (same file) adds order-preserving selection and an element-wise `Map` with its
  multiset laws.
- **Parser** (`parser.dfy`) models `clean_text`, the two heading patterns and `split_sections`.
  - The loop is a method, `SplitSections`.
  - It is proved equal to a state-machine function, `Sections`, built from `Step` and the final flush `Flushed`.
  - The laws of the state machine are lemmas about `Sections`.
  - **ParserExamples** (`parser_examples.dfy`) works through small documents and example heading lines.
- **Ranker** (`ranker.dfy`) models `rank_sections`:
  - filter, render, score, stable descending sort, and split back into heading and content;
  - the final loop is a method, `SplitBack`.
  - The sort is Python's stable `sorted(..., reverse=True)`. It is modelled as an insertion
    sort that places each element behind every element with an equal or higher score.
  - Lemmas prove that the sort orders the scores, is a permutation and is stable, and that it
    is the only sequence with all three properties.
- **Pipeline** (`pipeline.dfy`) models the pure derivations inside `process_all_pdfs`:
  - the test-case name, the description and the combined query;
  - `.pdf` filtering, `os.path.splitext`, titles and output file names;
  - the 1000-character summary prompt;
  - the per-document and master records.

  The loop over the directory listing is a method, `ProcessAllPdfs`. The PDF extractor, the
  summariser and the embedding similarity are function parameters (`Services`).

### Lines before the first heading

Lines before the first heading are kept. `current_content` is reset only inside a flush
(`app/parser.py:28-33`), so such lines stay in the buffer and open the first section's
content. `ParserExamples.OrphanLineJoinsFirstSection` proves the general shape: for any body
line `a`, heading line `h` and body line `c`, the text `a + "\n" + h + "\n" + c` gives the single
section `{strip(h), clean_text(strip(a) + "\n" + strip(c))}`. For example,
`"orphan line\n1. Intro\nreal content"` has that shape and gives
`{"1. Intro", "orphan line real content"}`.

The orphan buffer also changes what a heading without content does. A heading that follows
orphan lines and has no body of its own still flushes: `"orphan\n1. Intro"` gives the section
`{"1. Intro", "orphan"}`. In `"orphan\n1. Intro\n2. Next"` the first heading is not
replaced by the second: the text gives the same single section `{"1. Intro", "orphan"}`.
So `Parser.SegmentTrailingHeading` and `Parser.SegmentHeadingReplaced` drop a trailing heading
or an empty section only when the lines before it leave no orphan buffer: they contain a
heading line, or no body line at all.

## Model

| member | source | states |
|---|---|---|
| PyStr.Strip | app/parser.py:23 | `line.strip()` is trimmed, is empty exactly when the line is all whitespace, leaves trimmed text unchanged and adds no line break |
| PyStr.StripIsMiddle | app/parser.py:23 | when `s` is whitespace, then a trimmed non-empty middle `s[i..j]`, then whitespace, `s.strip()` is exactly that middle |
| PyStr.SplitLines | app/parser.py:14 | `text.splitlines()` is empty exactly for the empty text, and no line contains a line break |
| PyStr.NewlineIsOneBreak | app/parser.py:14 | for `a` without line breaks, `"\n"` ends exactly one line: `(a + "\n" + b).splitlines()` is `[a]` followed by `b.splitlines()` |
| PyStr.CrLfIsOneBreak | app/parser.py:14 | for `a` without line breaks, `"\r\n"` is one line boundary, not two: `(a + "\r\n" + b).splitlines()` is `[a]` followed by `b.splitlines()` |
| PyStr.SplitLinesFinalBreak | app/parser.py:14 | for non-empty `s` whose last character is not a line boundary, a final `"\n"` adds no empty line: `(s + "\n").splitlines() == s.splitlines()` |
| PyStr.SplitLinesJoin | app/parser.py:14 | for text whose only line boundaries are `"\n"` and that does not end in one, joining `splitlines()` with `"\n"` restores the text |
| PyStr.JoinSplitLines | app/parser.py:14 | a non-empty list of lines without line breaks whose last line is not empty, joined with `"\n"` and split again, comes back unchanged |
| PyStr.SplitOn | app/main.py:48 | `s.split(c)` is non-empty, no part contains `c`, the first part is a prefix of `s` followed by `c` when shorter, and `s` without `c` gives `[s]` |
| PyStr.SplitOnJoin | app/main.py:48 | joining the parts of `s.split(c)` with `c` gives `s` back |
| PyStr.Partition | app/ranker.py:29 | `partition("\n")` cuts the text into a newline-free head, the separator (`"\n"` when one exists, else empty, with an empty tail) and the tail, and the three concatenate to the text |
| PyStr.PartitionAt | app/ranker.py:29 | partitioning `h + "\n" + c` with a newline-free `h` gives `(h, "\n", c)` |
| Parser.CollapseSpaces | app/parser.py:4 | `re.sub(r'\s+', ' ', s)` is no longer than `s`, uses only `' '` as whitespace with no two adjacent, keeps whether it starts with whitespace and its first non-space character, and is all whitespace exactly when `s` is |
| Parser.CleanText | app/parser.py:3-5 | `clean_text` output is trimmed and single-spaced, and is empty exactly when the input is all whitespace |
| Parser.CleanTextFixpoint | app/parser.py:3-5 | text that is already trimmed and single-spaced is returned unchanged |
| Parser.CleanTextIdempotent | app/parser.py:3-5 | `clean_text(clean_text(s)) == clean_text(s)` for every `s` |
| Parser.CollapseConcat | app/parser.py:4 | whitespace collapsing distributes over a concatenation whose seam is not a whitespace run |
| Parser.CleanTextSeparator | app/parser.py:3-5 | a whitespace gap between two trimmed non-empty texts becomes exactly one `' '` in the cleaned text |
| Parser.CleanJoinSnoc | app/parser.py:31 | cleaning `"\n".join` of trimmed lines with one more line appends `' '` and the cleaned line |
| Parser.NumberedHeadingMatchesPattern | app/parser.py:19 | the left-to-right scan `IsNumberedHeading` holds exactly when the line splits into a label (digit groups joined by single dots, or one or two capitals, then an optional dot), a non-empty whitespace run and a letter or `_` |
| Parser.SplitSections | app/parser.py:14-44 | the loop returns `Sections(text)`; every section has non-empty, trimmed, single-spaced content and a heading that is one of the text's heading lines; there are no more sections than heading lines |
| Parser.SegmentContents | app/parser.py:28-42 | every emitted section has non-empty, normalised content, because a flush needs a non-empty buffer |
| Parser.SegmentHeadings | app/parser.py:27-34 | every emitted heading is one of the trimmed heading lines: the headings are a subsequence of them, in document order, and there are at most as many sections as heading lines |
| Parser.RunBodyLines | app/parser.py:22-36 | a run of lines with no heading line changes only the buffer, which grows by the run's stripped non-blank lines in order |
| Parser.SegmentAppendSection | app/parser.py:22-42 | a heading line followed by lines with no heading line but some body line emits one more section, under that heading, whose content is `clean_text` of exactly those body lines joined with `"\n"`; it needs the lines before to contain a heading line or no body line |
| Parser.SegmentTwoSections | app/parser.py:22-42 | two headings, each followed by its own body lines, emit two sections in order, each holding only its own lines, also when both headings are the same line |
| Parser.SectionsShape | app/parser.py:14-44 | every heading of `split_sections(text)` is a non-blank trimmed line without line breaks and every content is non-empty and normalised |
| Parser.SegmentWithoutHeadings | app/parser.py:27-42 | lines with no heading line give no sections, whatever their content |
| Parser.SegmentKeepsContent | app/parser.py:22-42 | once there is a heading line, the section contents joined with `' '` equal `clean_text` of all non-heading, non-blank lines joined with `"\n"`: nothing is lost, including lines before the first heading |
| Parser.SegmentIgnoresBlankLine | app/parser.py:23-25 | inserting a whitespace-only line anywhere does not change the sections |
| Parser.RunFromConcat | app/parser.py:22 | running the loop over two blocks of lines is running it over the first and continuing with the second |
| Parser.RunTracksHeadings | app/parser.py:27-34 | along the loop, the current heading is the last heading line seen, and the emitted headings are a subsequence of the heading lines before it; nothing is emitted before the first heading |
| Parser.RunTracksContent | app/parser.py:22-42 | along the loop, the emitted contents followed by the cleaned buffer, joined with `' '`, equal `clean_text` of every body line seen so far joined with `"\n"` |
| ParserExamples.LowercaseStartIsBody | app/parser.py:19-20 | a line that starts with a lower-case letter is never a heading |
| ParserExamples.LabelSpaceLetter | app/parser.py:19 | a label, a whitespace character and a letter make a heading line |
| ParserExamples.SentencesAreHeadings | app/parser.py:19 | the ordinary sentences `"I went home"` and `"A quick note"` are headings, as is `"2.1 Intro"` |
| ParserExamples.AllCapsExamples | app/parser.py:20 | `"INTRODUCTION"` and `"TO DO"` are headings by the all-capitals pattern |
| Parser.SegmentTrailingHeading | app/parser.py:27-42 | a heading line at the end adds no section, when the lines before it contain a heading line or no body line |
| Parser.SegmentHeadingReplaced | app/parser.py:27-36 | a heading line followed directly by another is replaced by it, whatever follows, when the lines before them contain a heading line or no body line |
| ParserExamples.OrphanLineJoinsFirstSection | app/parser.py:28-36 | in the three lines body, heading, body, the first body line is prepended to the only section's content |
| ParserExamples.TwoSections | app/parser.py:22-42 | the four lines heading, body, heading, body give two sections, each heading with its own body line; a repeated heading gives two sections too |
| ParserExamples.TrailingHeadingDropped | app/parser.py:28-42 | the three lines heading, body, heading give one section: the trailing heading produces none |
| ParserExamples.EmptySectionReplaced | app/parser.py:28-34 | the three lines heading, heading, body give one section, under the second heading: the first produces none |
| Ranker.RankableStrip | app/ranker.py:10 | a section passes the filter exactly when its stripped content is non-empty |
| Ranker.Render | app/ranker.py:10 | the rendered text `heading + "\n" + content`, stripped, is trimmed and non-empty for a section that passes the filter |
| Ranker.RankablesInOrder | app/ranker.py:10 | the filtered sections are a subsequence of the input, in input order |
| Ranker.RankablesCount | app/ranker.py:10 | each section survives the filter exactly as many times as it occurs in the input when its content is not blank, and never otherwise |
| Ranker.SectionTexts | app/ranker.py:10 | one non-empty rendered text per filtered section, in order |
| Ranker.SortDescending | app/ranker.py:24 | the sorted scores are non-increasing |
| Ranker.SortPermutation | app/ranker.py:24 | the sort is a permutation of its input |
| Ranker.SortStable | app/ranker.py:24 | for every score, the items with that score keep their input order |
| Ranker.SortUnique | app/ranker.py:24 | any non-increasing sequence that keeps each score group in input order is the sort's result, so the model is Python's stable `sorted(..., reverse=True)` |
| Ranker.RenderPartitionRoundTrip | app/ranker.py:29-33 | for a trimmed single-line non-empty heading and trimmed content, rendering and then partitioning gives the heading and content back |
| Ranker.SplitBack | app/ranker.py:27-34 | the loop maps every sorted pair to its partitioned, trimmed heading, score and content, in order |
| Ranker.RankSections | app/ranker.py:8-36 | the result is the ranking of the filtered sections: one entry per section that survives the filter, scores non-increasing, heading and content trimmed |
| Ranker.RankingEmpty | app/ranker.py:10-14 | the result is `[]` exactly when no section has non-blank content |
| Ranker.RankingPermutation | app/ranker.py:10-34 | the result is a permutation of the split-back scored texts: each surviving section appears once with its own score |
| Ranker.RankingStable | app/ranker.py:24-34 | entries with equal scores appear in the order of their sections in the input |
| Ranker.RankWellFormed | app/ranker.py:8-36 | for sections as the splitter emits them, the result holds exactly the sections' own headings and contents, each scored on its own text |
| Ranker.RankSplitText | app/ranker.py:8-36 | ranking the output of `split_sections` returns exactly its sections, each with its own score |
| Pipeline.Lower | app/main.py:47 | `lower()` maps each character to its lower-case form and keeps the length |
| Pipeline.Replace | app/main.py:47 | `replace(" ", "_")` replaces exactly the spaces and keeps the length |
| Pipeline.TestCaseName | app/main.py:47 | the name has `min(len(goal), 50)` characters, each the goal's character lower-cased with `' '` as `'_'`; it has no space and no capital |
| Pipeline.TestCaseNameIdempotent | app/main.py:47 | deriving a test-case name from a test-case name changes nothing |
| Pipeline.Description | app/main.py:48 | the description is the prefix of the goal before its first `.`, contains no `.`, and is the whole goal when there is no `.` |
| Pipeline.DescriptionFirstSentence | app/main.py:48 | a goal `first + "." + rest` with no dot in `first` has description `first` |
| Pipeline.CombinedQueryInjective | app/main.py:50 | for roles without `':'`, different persona/goal pairs never give the same query `role + " needs: " + goal` |
| Pipeline.RFind | app/main.py:59 | the last index of a character, or -1 when it does not occur |
| Pipeline.SplitExtParts | app/main.py:59 | `os.path.splitext` splits the name into two parts that concatenate to it, the extension being empty or a single dot-led suffix with no other dot or `/` |
| Pipeline.PdfTitle | app/main.py:53-67 | for a `.pdf` name with a non-dot stem, the title is the name without `.pdf` and the output file is the title with `.json` |
| Pipeline.DotsOnlyPdfTitle | app/main.py:59 | a `.pdf` name whose stem is only dots (such as `".pdf"`) keeps its whole name as the title |
| Pipeline.OutputFileNameInjective | app/main.py:67 | two distinct `.pdf` names with non-dot stems never write the same output file |
| Pipeline.SummaryPromptShape | app/main.py:34-35 | the summariser receives `"summarize: "` followed by exactly the first 1000 characters of the text, or all of it when shorter |
| Pipeline.SummaryIgnoresTail | app/main.py:34-39 | characters after the first 1000 never change the summary, including the fixed fallback on failure |
| Pipeline.PdfNames | app/main.py:52-53 | every processed name ends in `.pdf` |
| Pipeline.PdfNamesInOrder | app/main.py:52-53 | the processed names are the `.pdf` names of the listing, all of them, in listing order |
| Pipeline.ProcessAllPdfs | app/main.py:42-101 | the loop builds the master record and the list of written per-document files that the record functions describe |
| Pipeline.EntriesFollowPdfs | app/main.py:81-85 | the master record has one `documents` entry per processed PDF, in listing order, with its name, title and summary |
| Pipeline.OutputsFollowPdfs | app/main.py:59-74 | each processed PDF writes `output/<title>.json` holding its name, the role, the goal verbatim as `persona_query`, and the ranking of its sections against `role + " needs: " + goal` |
| Pipeline.MasterWithoutPdfs | app/main.py:88-101 | the master record's `documents` list is empty exactly when the listing has no `.pdf` name; the record is built either way |

## Left out

- Loading the sentence-embedding and summarisation models (`app/main.py:16-19`, `app/ranker.py:3-6`) is not modelled. These are opaque machine-learning libraries.
- Sentence embeddings and `util.cos_sim` (`app/ranker.py:17-21`) are replaced by a `similarity` parameter that scores a query and a text with an integer.
  - This omits floating-point arithmetic.
  - It also omits `float(score)` at `app/ranker.py:32`.
  - Ties are exact integer ties.
- `extract_text` (`app/main.py:22-28`) and the summariser call (`app/main.py:35`) are parameters that return a value or `None`. `None` stands for the exception path: the extractor then yields `""` and the summariser `"No summary available."`.
- The file system and JSON are not modelled:
  - `os.makedirs`, `os.listdir`, `open` and `json.dump` (`app/main.py:43, 52, 75-76, 103-105`). The directory listing is a parameter, and written files are returned as `(path, record)` pairs.
  - The master file path is not modelled.
  - `rank_all_outputs` (`app/ranker.py:39-66`) is not part of this model.
- Console `input` and `print` (`app/main.py:55, 78, 109-114`, `app/ranker.py:13, 68-73`) are not modelled.
- Character classes:
  - `\d`, `\w` and `str.lower` are ASCII-only: digits `0`-`9`, letters `A`-`Z` and `a`-`z`, and `_`. Python's Unicode digits, letters and case mappings are not modelled.
  - Whitespace and line boundaries use Python's full sets.
- `Ranker.Rankable` reads `sec['content']` directly; the `sec.get("content", "")` default of `app/ranker.py:10` is unreachable because every section has content.
- `Pipeline.SplitExtParts`: paths that contain `/` are modelled by `SplitExt`, but the lemmas about titles (`PdfTitle`, `OutputFileNameInjective`) are stated for bare file names, which is what `os.listdir` returns.
- `Pipeline.CombinedQueryInjective`: stated only for roles without `':'`. A role that contains `" needs: "` can make two persona/goal pairs give the same query.
- `Pipeline.OutputFileNameInjective`: stated only for names whose stem is not all dots. A name such as `".pdf"` keeps its full name as its title (`DotsOnlyPdfTitle`), so it would write `.pdf.json`.
