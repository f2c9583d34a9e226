/**
 * `rank_sections` of app/ranker.py: drop sections with blank content, render
 * the rest as `heading + "\n" + content`, pair each text with its score, sort
 * by score with Python's stable `sorted(..., reverse=True)`, and split every
 * text back into a heading and a content.
 *
 * Scores are whole numbers given by a `similarity` function; the sentence
 * embedding and the cosine similarity that produce them are not modelled.
 */
module Ranker {
  import opened PyStr
  import opened Seqs
  import opened Parser

  /** One `(text, score)` pair of `zip(section_texts, scores)`. */
  datatype Scored = Scored(text: string, score: int)

  /** One `{"heading", "score", "content"}` entry of the result. */
  datatype RankedSection = RankedSection(heading: string, score: int, content: string)

  // ---------------------------------------------------------------------
  // Filter and render (ranker.py:10)
  // ---------------------------------------------------------------------

  /** The content is not all whitespace, which is when `sec.get("content", "").strip()` is
      not empty (see `RankableStrip`). */
  predicate Rankable(sec: Section) {
    !AllSpace(sec.content)
  }

  lemma RankableStrip(sec: Section)
    ensures Rankable(sec) <==> Strip(sec.content) != []
  {
  }

  /** `f"{sec['heading']}\n{sec['content']}".strip()`: trimmed, and not blank for a rankable section. */
  function Render(sec: Section): (r: string)
    ensures IsTrimmed(r)
    ensures Rankable(sec) ==> r != []
  {
    var s := sec.heading + "\n" + sec.content;
    if Rankable(sec) then
      assert !AllSpace(s) by {
        var j :| 0 <= j < |sec.content| && !IsSpace(sec.content[j]);
        assert s[|sec.heading| + 1 + j] == sec.content[j];
      }
      Strip(s)
    else Strip(s)
  }

  /** The sections that pass the filter of ranker.py:10. */
  function Rankables(sections: seq<Section>): (r: seq<Section>)
    ensures forall i :: 0 <= i < |r| ==> Rankable(r[i])
  {
    if sections == [] then []
    else
      var n := |sections| - 1;
      Rankables(sections[..n]) + (if Rankable(sections[n]) then [sections[n]] else [])
  }

  /** The filter keeps the input order. */
  lemma {:induction false} RankablesInOrder(sections: seq<Section>)
    ensures IsSubsequence(Rankables(sections), sections)
  {
    if sections != [] {
      var n := |sections| - 1;
      var rest := Rankables(sections[..n]);
      RankablesInOrder(sections[..n]);
      assert sections == sections[..n] + [sections[n]];
      if Rankable(sections[n]) {
        assert Rankables(sections) == rest + [sections[n]];
        SubsequenceSnoc(rest, sections[..n], sections[n]);
      } else {
        assert Rankables(sections) == rest;
        SubsequenceExtend(rest, sections[..n], sections[n]);
      }
    }
  }

  /** The filter keeps every copy of a rankable section and drops every other section. */
  lemma {:induction false} RankablesCount(sections: seq<Section>, sec: Section)
    ensures multiset(Rankables(sections))[sec] == if Rankable(sec) then multiset(sections)[sec] else 0
  {
    if sections != [] {
      var n := |sections| - 1;
      RankablesCount(sections[..n], sec);
      assert sections == sections[..n] + [sections[n]];
      assert multiset(sections) == multiset(sections[..n]) + multiset{sections[n]};
    }
  }

  /** `section_texts`: the rendered rankable sections. */
  function SectionTexts(sections: seq<Section>): (r: seq<string>)
    ensures |r| == |Rankables(sections)|
    ensures forall i :: 0 <= i < |r| ==> r[i] == Render(Rankables(sections)[i]) && r[i] != []
  {
    var secs := Rankables(sections);
    assert forall i :: 0 <= i < |secs| ==> Render(secs[i]) != [];
    seq(|secs|, i requires 0 <= i < |secs| => Render(secs[i]))
  }

  /** `zip(section_texts, scores)`, each score the similarity of the query to that text. */
  function ScoreAll(texts: seq<string>, query: string, similarity: (string, string) -> int): (r: seq<Scored>)
    ensures |r| == |texts|
    ensures forall i :: 0 <= i < |r| ==> r[i] == Scored(texts[i], similarity(query, texts[i]))
  {
    seq(|texts|, i requires 0 <= i < |texts| => Scored(texts[i], similarity(query, texts[i])))
  }

  // ---------------------------------------------------------------------
  // sorted(..., key=score, reverse=True): a stable sort, highest score first
  // ---------------------------------------------------------------------

  predicate Descending(s: seq<Scored>) {
    forall i, j :: 0 <= i < j < |s| ==> s[i].score >= s[j].score
  }

  /** The entries of `s` with score `k`, in order: the group a stable sort must keep in order. */
  function WithScore(s: seq<Scored>, k: int): (r: seq<Scored>)
    ensures |r| <= |s|
    ensures forall i :: 0 <= i < |r| ==> r[i].score == k && r[i] in s
  {
    if s == [] then []
    else (if s[0].score == k then [s[0]] else []) + WithScore(s[1..], k)
  }

  /** Places `x` after every entry whose score is at least its own. */
  function Insert(s: seq<Scored>, x: Scored): seq<Scored> {
    if s == [] then [x]
    else if s[0].score >= x.score then [s[0]] + Insert(s[1..], x)
    else [x] + s
  }

  /** Insertion sort taking the entries in input order. */
  function SortByScore(s: seq<Scored>): seq<Scored> {
    if s == [] then []
    else Insert(SortByScore(s[..|s| - 1]), s[|s| - 1])
  }

  lemma {:induction false} InsertPermutation(s: seq<Scored>, x: Scored)
    ensures multiset(Insert(s, x)) == multiset(s) + multiset{x}
  {
    if s != [] && s[0].score >= x.score {
      InsertPermutation(s[1..], x);
      assert s == [s[0]] + s[1..];
    }
  }

  lemma {:induction false} InsertDescending(s: seq<Scored>, x: Scored)
    requires Descending(s)
    ensures Descending(Insert(s, x))
  {
    if s != [] && s[0].score >= x.score {
      var rest := Insert(s[1..], x);
      InsertDescending(s[1..], x);
      InsertPermutation(s[1..], x);
      forall j | 0 <= j < |rest| ensures s[0].score >= rest[j].score {
        assert rest[j] in multiset(s[1..]) + multiset{x};
        if rest[j] in s[1..] {
          var m :| 0 <= m < |s[1..]| && s[1..][m] == rest[j];
          assert s[1 + m] == rest[j];
        }
      }
    }
  }

  lemma {:induction false} WithScoreConcat(a: seq<Scored>, b: seq<Scored>, k: int)
    ensures WithScore(a + b, k) == WithScore(a, k) + WithScore(b, k)
  {
    if a != [] {
      assert (a + b)[1..] == a[1..] + b;
      WithScoreConcat(a[1..], b, k);
    } else {
      assert a + b == b;
    }
  }

  /** Inserting into a descending sequence appends `x` to its score group and leaves the other groups alone. */
  lemma {:induction false} InsertStable(s: seq<Scored>, x: Scored, k: int)
    requires Descending(s)
    ensures WithScore(Insert(s, x), k) == WithScore(s, k) + (if x.score == k then [x] else [])
  {
    if s == [] {
    } else if s[0].score >= x.score {
      assert Descending(s[1..]);
      InsertStable(s[1..], x, k);
      InsertStableBehind(s, x, k);
    } else {
      InsertStableFront(s, x, k);
    }
  }

  /** `x` goes behind `s[0]`: the groups of the tail carry over. */
  lemma InsertStableBehind(s: seq<Scored>, x: Scored, k: int)
    requires s != [] && s[0].score >= x.score
    requires WithScore(Insert(s[1..], x), k) == WithScore(s[1..], k) + (if x.score == k then [x] else [])
    ensures WithScore(Insert(s, x), k) == WithScore(s, k) + (if x.score == k then [x] else [])
  {
    var rest := Insert(s[1..], x);
    var ins := Insert(s, x);
    var head := if s[0].score == k then [s[0]] else [];
    var tail := if x.score == k then [x] else [];
    assert ins == [s[0]] + rest;
    WithScoreCons(ins, s[0], rest, k);
    WithScoreCons(s, s[0], s[1..], k);
    var w := WithScore(s[1..], k);
    AppendAssoc(head, w, tail);
  }

  /** `x` goes in front of a descending `s` whose scores are all below its own. */
  lemma InsertStableFront(s: seq<Scored>, x: Scored, k: int)
    requires Descending(s)
    requires s != [] && s[0].score < x.score
    ensures WithScore(Insert(s, x), k) == WithScore(s, k) + (if x.score == k then [x] else [])
  {
    assert Insert(s, x) == [x] + s;
    WithScoreCons(Insert(s, x), x, s, k);
    if x.score == k {
      forall m | 0 <= m < |s| ensures s[m].score != k {
        assert s[0].score >= s[m].score;
      }
      WithScoreNone(s, k);
    }
  }

  lemma WithScoreCons(t: seq<Scored>, y: Scored, s: seq<Scored>, k: int)
    requires t == [y] + s
    ensures WithScore(t, k) == (if y.score == k then [y] else []) + WithScore(s, k)
  {
    assert t[0] == y && t[1..] == s;
  }

  lemma {:induction false} WithScoreNone(s: seq<Scored>, k: int)
    requires forall m :: 0 <= m < |s| ==> s[m].score != k
    ensures WithScore(s, k) == []
  {
    if s != [] {
      WithScoreNone(s[1..], k);
    }
  }

  /** Highest score first. */
  lemma {:induction false} SortDescending(s: seq<Scored>)
    ensures Descending(SortByScore(s))
  {
    if s != [] {
      SortDescending(s[..|s| - 1]);
      InsertDescending(SortByScore(s[..|s| - 1]), s[|s| - 1]);
    }
  }

  /** The sort is a permutation. */
  lemma {:induction false} SortPermutation(s: seq<Scored>)
    ensures multiset(SortByScore(s)) == multiset(s)
  {
    if s != [] {
      var n := |s| - 1;
      var p, x := s[..n], s[n];
      SortPermutation(p);
      InsertPermutation(SortByScore(p), x);
      assert multiset(s) == multiset(p) + multiset{x} by {
        assert s == p + [x];
      }
    }
  }

  /** The sort is stable: entries with equal scores keep their input order. */
  lemma {:induction false} SortStable(s: seq<Scored>, k: int)
    ensures WithScore(SortByScore(s), k) == WithScore(s, k)
  {
    if s != [] {
      var n := |s| - 1;
      var p, x := s[..n], s[n];
      var sp := SortByScore(p);
      var tail := if x.score == k then [x] else [];
      assert SortByScore(s) == Insert(sp, x);
      SortStable(p, k);
      SortDescending(p);
      InsertStable(sp, x, k);
      assert s == p + [x];
      WithScoreConcat(p, [x], k);
      assert WithScore([x], k) == tail;
    }
  }

  lemma TopScoreBound(r: seq<Scored>, k: int)
    requires Descending(r) && WithScore(r, k) != []
    ensures r != [] && k <= r[0].score
  {
    var y := WithScore(r, k)[0];
    var m :| 0 <= m < |r| && r[m] == y;
    assert r[0].score >= r[m].score;
  }

  lemma TopGroup(r: seq<Scored>)
    ensures r != [] ==> WithScore(r, r[0].score) != []
  {
  }

  /** Two descending sequences with the same score groups are equal. */
  lemma {:induction false} SameGroupsEqual(r: seq<Scored>, t: seq<Scored>)
    requires Descending(r) && Descending(t)
    requires forall k :: WithScore(r, k) == WithScore(t, k)
    ensures r == t
  {
    SameFirst(r, t);
    if r != [] {
      SameTailGroups(r, t);
      assert Descending(r[1..]) && Descending(t[1..]);
      SameGroupsEqual(r[1..], t[1..]);
      assert r == [r[0]] + r[1..];
      assert t == [t[0]] + t[1..];
    }
  }

  /** Two descending sequences with the same score groups start with the same entry. */
  lemma SameFirst(r: seq<Scored>, t: seq<Scored>)
    requires Descending(r) && Descending(t)
    requires forall k :: WithScore(r, k) == WithScore(t, k)
    ensures (r == []) == (t == [])
    ensures r != [] ==> r[0] == t[0]
  {
    TopGroup(r);
    TopGroup(t);
    if r != [] && t != [] {
      var m, n := r[0].score, t[0].score;
      assert WithScore(r, m) != [];
      TopScoreBound(t, m);
      assert WithScore(t, n) != [];
      TopScoreBound(r, n);
      assert r[0] == WithScore(r, m)[0] == WithScore(t, m)[0] == t[0];
    }
  }

  /** Removing the same first entry keeps the score groups equal. */
  lemma SameTailGroups(r: seq<Scored>, t: seq<Scored>)
    requires r != [] && t != [] && r[0] == t[0]
    requires forall k :: WithScore(r, k) == WithScore(t, k)
    ensures forall k :: WithScore(r[1..], k) == WithScore(t[1..], k)
  {
    forall k ensures WithScore(r[1..], k) == WithScore(t[1..], k) {
      var head := if r[0].score == k then [r[0]] else [];
      assert r == [r[0]] + r[1..];
      assert t == [t[0]] + t[1..];
      WithScoreCons(r, r[0], r[1..], k);
      WithScoreCons(t, t[0], t[1..], k);
      assert (head + WithScore(r[1..], k))[|head|..] == WithScore(r[1..], k);
      assert (head + WithScore(t[1..], k))[|head|..] == WithScore(t[1..], k);
    }
  }

  /** The stable descending sort is the only descending order with the input's score groups. */
  lemma SortUnique(s: seq<Scored>, r: seq<Scored>)
    requires Descending(r)
    requires forall k :: WithScore(r, k) == WithScore(s, k)
    ensures r == SortByScore(s)
  {
    SortDescending(s);
    forall k ensures WithScore(r, k) == WithScore(SortByScore(s), k) {
      SortStable(s, k);
    }
    SameGroupsEqual(r, SortByScore(s));
  }

  // ---------------------------------------------------------------------
  // Back to sections (ranker.py:27-34)
  // ---------------------------------------------------------------------

  /** `heading, _, content = text.partition("\n")`, both parts trimmed, the score kept. */
  function Unrender(p: Scored): RankedSection {
    var parts := Partition(p.text);
    RankedSection(Strip(parts.0), p.score, Strip(parts.2))
  }

  /** Rendering a section and partitioning the text gives its heading and content back, when the
      heading is a non-blank trimmed line and the content is trimmed. */
  lemma RenderPartitionRoundTrip(sec: Section, score: int)
    requires sec.heading != [] && IsTrimmed(sec.heading) && '\n' !in sec.heading
    requires IsTrimmed(sec.content)
    ensures Unrender(Scored(Render(sec), score)) == RankedSection(sec.heading, score, sec.content)
  {
    var h, c := sec.heading, sec.content;
    if c == [] {
      assert h + "\n" + c == h + "\n";
      assert TrimEnd(h + "\n") == h by {
        assert (h + "\n")[..|h|] == h;
      }
      assert Strip(h + "\n") == h by {
        assert TrimStart(h + "\n") == h + "\n";
      }
      assert Partition(h) == (h, "", "");
    } else {
      assert IsTrimmed(h + "\n" + c);
      PartitionAt(h, c);
    }
  }

  // ---------------------------------------------------------------------
  // rank_sections
  // ---------------------------------------------------------------------

  /** The value `rank_sections(sections, query, model)` returns. */
  function Ranking(sections: seq<Section>, query: string, similarity: (string, string) -> int): seq<RankedSection> {
    var texts := SectionTexts(sections);
    if texts == [] then []
    else Map(Unrender, SortByScore(ScoreAll(texts, query, similarity)))
  }

  /** The loop of ranker.py:27-34: each sorted text split back into heading and content. */
  method SplitBack(sorted: seq<Scored>) returns (ranked: seq<RankedSection>)
    ensures ranked == Map(Unrender, sorted)
  {
    ranked := [];
    var i := 0;
    while i < |sorted|
      invariant i <= |sorted|
      invariant ranked == Map(Unrender, sorted[..i])
    {
      assert sorted[..i + 1] == sorted[..i] + [sorted[i]];
      MapConcat(Unrender, sorted[..i], [sorted[i]]);
      ranked := ranked + [Unrender(sorted[i])];
      i := i + 1;
    }
    assert sorted[..i] == sorted;
  }

  /** `rank_sections` as the source writes it, with its early return for no rankable section. */
  method RankSections(sections: seq<Section>, query: string, similarity: (string, string) -> int)
    returns (ranked: seq<RankedSection>)
    ensures ranked == Ranking(sections, query, similarity)
    ensures |ranked| == |Rankables(sections)|
    ensures forall i, j :: 0 <= i < j < |ranked| ==> ranked[i].score >= ranked[j].score
    ensures forall i :: 0 <= i < |ranked| ==> IsTrimmed(ranked[i].heading) && IsTrimmed(ranked[i].content)
  {
    var texts := SectionTexts(sections);
    if texts == [] {
      return [];
    }
    var sorted := SortByScore(ScoreAll(texts, query, similarity));
    ranked := SplitBack(sorted);
    SortPermutation(ScoreAll(texts, query, similarity));
    SortDescending(ScoreAll(texts, query, similarity));
    assert |sorted| == |multiset(sorted)| == |texts|;
  }

  // ---------------------------------------------------------------------
  // What rank_sections promises
  // ---------------------------------------------------------------------

  /** The result is empty exactly when no section has non-blank content. */
  lemma RankingEmpty(sections: seq<Section>, query: string, similarity: (string, string) -> int)
    ensures Ranking(sections, query, similarity) == [] <==> forall sec :: sec in sections ==> !Rankable(sec)
  {
    var texts := SectionTexts(sections);
    if texts != [] {
      RankablesInOrder(sections);
      SubsequenceBounds(Rankables(sections), sections);
      assert Rankables(sections)[0] in sections;
      SortPermutation(ScoreAll(texts, query, similarity));
      assert |SortByScore(ScoreAll(texts, query, similarity))| == |multiset(ScoreAll(texts, query, similarity))|;
    } else {
      forall sec | sec in sections ensures !Rankable(sec) {
        RankablesCount(sections, sec);
      }
    }
  }

  /** The result is a permutation of the split-back scored texts: every rankable section appears
      once, with its own score. */
  lemma RankingPermutation(sections: seq<Section>, query: string, similarity: (string, string) -> int)
    ensures multiset(Ranking(sections, query, similarity))
      == multiset(Map(Unrender, ScoreAll(SectionTexts(sections), query, similarity)))
  {
    var scored := ScoreAll(SectionTexts(sections), query, similarity);
    SortPermutation(scored);
    MapPermutation(Unrender, SortByScore(scored), scored);
  }

  /** The entries of the result with score `k`, in order. */
  function Tied(ranked: seq<RankedSection>, k: int): seq<RankedSection> {
    if ranked == [] then []
    else (if ranked[0].score == k then [ranked[0]] else []) + Tied(ranked[1..], k)
  }

  /** Splitting back keeps scores, so it keeps score groups. */
  lemma {:induction false} TiedUnrendered(s: seq<Scored>, k: int)
    ensures Tied(Map(Unrender, s), k) == Map(Unrender, WithScore(s, k))
  {
    if s != [] {
      var m := Map(Unrender, s);
      TiedUnrendered(s[1..], k);
      MapCons(Unrender, s);
      assert m[0].score == s[0].score;
      assert m[1..] == Map(Unrender, s[1..]);
      assert Tied(m, k) == (if s[0].score == k then [m[0]] else []) + Tied(m[1..], k);
      if s[0].score == k {
        MapCons(Unrender, WithScore(s, k));
        assert WithScore(s, k)[1..] == WithScore(s[1..], k);
      } else {
        assert WithScore(s, k) == WithScore(s[1..], k);
      }
    }
  }

  /** Sections with equal scores keep their input order in the result. */
  lemma RankingStable(sections: seq<Section>, query: string, similarity: (string, string) -> int, k: int)
    ensures Tied(Ranking(sections, query, similarity), k)
      == Map(Unrender, WithScore(ScoreAll(SectionTexts(sections), query, similarity), k))
  {
    var scored := ScoreAll(SectionTexts(sections), query, similarity);
    TiedUnrendered(SortByScore(scored), k);
    SortStable(scored, k);
  }

  /** Filtering sections that are all rankable changes nothing. */
  lemma {:induction false} RankablesAll(sections: seq<Section>)
    requires forall i :: 0 <= i < |sections| ==> Rankable(sections[i])
    ensures Rankables(sections) == sections
  {
    if sections != [] {
      var n := |sections| - 1;
      RankablesAll(sections[..n]);
      assert Rankables(sections) == sections[..n] + [sections[n]];
    }
  }

  /** What the ranking of a section `sec` should be: its own heading and content, scored on
      `heading + "\n" + content`. */
  function Expected(sections: seq<Section>, query: string, similarity: (string, string) -> int): (r: seq<RankedSection>)
    ensures |r| == |sections|
  {
    seq(|sections|, i requires 0 <= i < |sections| =>
      RankedSection(sections[i].heading, similarity(query, sections[i].heading + "\n" + sections[i].content),
        sections[i].content))
  }

  /** A section as the splitter emits it: a non-blank trimmed heading on one line, and
      non-blank trimmed content. */
  predicate WellFormed(sec: Section) {
    sec.heading != [] && IsTrimmed(sec.heading) && '\n' !in sec.heading
    && sec.content != [] && IsTrimmed(sec.content)
  }

  lemma SplitBackRendered(sections: seq<Section>, query: string, similarity: (string, string) -> int)
    requires forall i :: 0 <= i < |sections| ==> WellFormed(sections[i])
    ensures Map(Unrender, ScoreAll(SectionTexts(sections), query, similarity)) == Expected(sections, query, similarity)
  {
    var texts := SectionTexts(sections);
    var scored := ScoreAll(texts, query, similarity);
    WellFormedTexts(sections, texts);
    ScoredTexts(sections, texts, scored, query, similarity);
    SplitBackScored(sections, scored, query, similarity);
  }

  lemma WellFormedTexts(sections: seq<Section>, texts: seq<string>)
    requires forall i :: 0 <= i < |sections| ==> WellFormed(sections[i])
    requires texts == SectionTexts(sections)
    ensures |texts| == |sections| && forall i :: 0 <= i < |sections| ==> texts[i] == Render(sections[i])
  {
    WellFormedRankable(sections);
  }

  lemma ScoredTexts(sections: seq<Section>, texts: seq<string>, scored: seq<Scored>, query: string,
                    similarity: (string, string) -> int)
    requires |texts| == |sections| && forall i :: 0 <= i < |sections| ==> texts[i] == Render(sections[i])
    requires scored == ScoreAll(texts, query, similarity)
    ensures |scored| == |sections| && forall i :: 0 <= i < |sections| ==>
      scored[i] == Scored(Render(sections[i]), similarity(query, Render(sections[i])))
  {
  }

  lemma SplitBackScored(sections: seq<Section>, scored: seq<Scored>, query: string, similarity: (string, string) -> int)
    requires forall i :: 0 <= i < |sections| ==> WellFormed(sections[i])
    requires |scored| == |sections|
    requires forall i :: 0 <= i < |sections| ==>
      scored[i] == Scored(Render(sections[i]), similarity(query, Render(sections[i])))
    ensures Map(Unrender, scored) == Expected(sections, query, similarity)
  {
    forall i | 0 <= i < |sections| ensures Map(Unrender, scored)[i] == Expected(sections, query, similarity)[i] {
      SplitBackOne(sections[i], query, similarity);
    }
  }

  lemma WellFormedRankable(sections: seq<Section>)
    requires forall i :: 0 <= i < |sections| ==> WellFormed(sections[i])
    ensures Rankables(sections) == sections
  {
    forall i | 0 <= i < |sections| ensures Rankable(sections[i]) {
      assert !IsSpace(sections[i].content[0]);
    }
    RankablesAll(sections);
  }

  lemma SplitBackOne(sec: Section, query: string, similarity: (string, string) -> int)
    requires WellFormed(sec)
    ensures Unrender(Scored(Render(sec), similarity(query, Render(sec))))
      == RankedSection(sec.heading, similarity(query, sec.heading + "\n" + sec.content), sec.content)
  {
    assert IsTrimmed(sec.heading + "\n" + sec.content);
    assert Render(sec) == sec.heading + "\n" + sec.content;
    RenderPartitionRoundTrip(sec, similarity(query, Render(sec)));
  }

  /** Ranking well-formed sections keeps every section, exactly once, with its own heading,
      content and score. */
  lemma RankWellFormed(sections: seq<Section>, query: string, similarity: (string, string) -> int)
    requires forall i :: 0 <= i < |sections| ==> WellFormed(sections[i])
    ensures multiset(Ranking(sections, query, similarity)) == multiset(Expected(sections, query, similarity))
  {
    SplitBackRendered(sections, query, similarity);
    RankingPermutation(sections, query, similarity);
  }

  /** The sections `split_sections` finds in a text are ranked without loss: each one appears
      once with its own heading, content and score. */
  lemma RankSplitText(text: string, query: string, similarity: (string, string) -> int)
    ensures multiset(Ranking(Sections(text), query, similarity)) == multiset(Expected(Sections(text), query, similarity))
  {
    SectionsShape(text);
    forall i | 0 <= i < |Sections(text)| ensures WellFormed(Sections(text)[i]) {
      assert NoLineBreak(Sections(text)[i].heading);
    }
    RankWellFormed(Sections(text), query, similarity);
  }
}
