/**
 * The Python string built-ins the pipeline relies on: `str.isspace`,
 * `str.strip`, `str.splitlines`, `sep.join`, `str.partition("\n")`,
 * together with Python's `None`.
 */
module PyStr {

  /** Python's `None` or a value. */
  datatype Option<T> = None | Some(value: T)

  /** `c.isspace()`; the same set is `\s` of `re` on str patterns. */
  predicate IsSpace(c: char) {
    ('\t' <= c <= '\r') || ('\U{1C}' <= c <= ' ') || c == '\U{85}' || c == '\U{A0}'
    || c == '\U{1680}' || ('\U{2000}' <= c <= '\U{200A}') || c == '\U{2028}'
    || c == '\U{2029}' || c == '\U{202F}' || c == '\U{205F}' || c == '\U{3000}'
  }

  /** The line boundaries of `str.splitlines()` (each is also a space). */
  predicate IsLineBreak(c: char) {
    ('\n' <= c <= '\r') || ('\U{1C}' <= c <= '\U{1E}') || c == '\U{85}'
    || c == '\U{2028}' || c == '\U{2029}'
  }

  predicate AllSpace(s: string) {
    forall i :: 0 <= i < |s| ==> IsSpace(s[i])
  }

  predicate NoLineBreak(s: string) {
    forall i :: 0 <= i < |s| ==> !IsLineBreak(s[i])
  }

  /** No leading and no trailing whitespace: what `strip()` returns. */
  predicate IsTrimmed(s: string) {
    s == [] || (!IsSpace(s[0]) && !IsSpace(s[|s| - 1]))
  }

  /** `t` is `s` with its leading whitespace removed. */
  predicate LeftStripped(s: string, t: string) {
    |t| <= |s| && t == s[|s| - |t|..] && AllSpace(s[..|s| - |t|]) && (t != [] ==> !IsSpace(t[0]))
  }

  /** `r` is `t` with its trailing whitespace removed. */
  predicate RightStripped(t: string, r: string) {
    |r| <= |t| && r == t[..|r|] && AllSpace(t[|r|..]) && (r != [] ==> !IsSpace(r[|r| - 1]))
  }

  /** `s.lstrip()` */
  function TrimStart(s: string): (r: string)
    ensures LeftStripped(s, r)
  {
    if s != [] && IsSpace(s[0]) then TrimStart(s[1..]) else s
  }

  /** `s.rstrip()` */
  function TrimEnd(s: string): (r: string)
    ensures RightStripped(s, r)
  {
    if s != [] && IsSpace(s[|s| - 1]) then TrimEnd(s[..|s| - 1]) else s
  }

  /** `s.strip()`: trimmed, empty exactly for blank `s`, and the identity on trimmed text;
      `StripIsMiddle` shows it is `s` without its leading and trailing whitespace. */
  function Strip(s: string): (r: string)
    ensures IsTrimmed(r)
    ensures (r == []) == AllSpace(s)
    ensures IsTrimmed(s) ==> r == s
    ensures NoLineBreak(s) ==> NoLineBreak(r)
  {
    var t := TrimStart(s);
    StripFacts(s, t, TrimEnd(t));
    TrimEnd(t)
  }

  lemma StripFacts(s: string, t: string, r: string)
    requires LeftStripped(s, t) && RightStripped(t, r)
    ensures IsTrimmed(r)
    ensures (r == []) == AllSpace(s)
    ensures IsTrimmed(s) ==> r == s
    ensures NoLineBreak(s) ==> NoLineBreak(r)
  {
    var k := |s| - |t|;
    if r == [] {
      assert AllSpace(t) && t == [];
      assert s == s[..k];
    } else {
      assert t[0] == s[k];
    }
    if IsTrimmed(s) && s != [] {
      assert k == 0;
      assert t == s;
      assert |r| == |t|;
    }
    if NoLineBreak(s) {
      forall i | 0 <= i < |r| ensures !IsLineBreak(r[i]) {
        assert r[i] == t[i] == s[k + i];
      }
    }
  }

  /** A non-blank trimmed slice of `s` with only whitespace around it is what `strip()` returns. */
  lemma StripIsMiddle(s: string, i: nat, j: nat)
    requires i < j <= |s|
    requires AllSpace(s[..i]) && AllSpace(s[j..]) && IsTrimmed(s[i..j])
    ensures Strip(s) == s[i..j]
  {
    var t := TrimStart(s);
    var k := |s| - |t|;
    assert s[i..j][0] == s[i] && s[i..j][j - 1 - i] == s[j - 1];
    forall m | 0 <= m < i ensures IsSpace(s[m]) {
      assert s[..i][m] == s[m];
    }
    forall m | 0 <= m < k ensures IsSpace(s[m]) {
      assert s[..k][m] == s[m];
    }
    assert t != [] ==> t[0] == s[k];
    assert k == i;
    var r := TrimEnd(t);
    assert t == s[i..];
    forall m | |r| <= m < |t| ensures IsSpace(t[m]) {
      assert t[|r|..][m - |r|] == t[m];
    }
    forall m | j <= m < |s| ensures IsSpace(s[m]) {
      assert s[j..][m - j] == s[m];
    }
    assert t[j - 1 - i] == s[j - 1];
    assert r != [] ==> r[|r| - 1] == s[i + |r| - 1];
    assert i + |r| == j;
    assert r == s[i..j];
  }

  /** `sep.join(parts)` */
  function JoinWith(parts: seq<string>, sep: string): string {
    if |parts| == 0 then ""
    else if |parts| == 1 then parts[0]
    else parts[0] + sep + JoinWith(parts[1..], sep)
  }

  lemma {:induction false} JoinSnoc(parts: seq<string>, x: string, sep: string)
    requires parts != []
    ensures JoinWith(parts + [x], sep) == JoinWith(parts, sep) + sep + x
  {
    if |parts| > 1 {
      assert (parts + [x])[1..] == parts[1..] + [x];
      JoinSnoc(parts[1..], x, sep);
    }
  }

  /** Joining non-blank trimmed parts with any separator gives non-blank trimmed text. */
  lemma {:induction false} JoinTrimmed(parts: seq<string>, sep: string)
    requires parts != []
    requires forall i :: 0 <= i < |parts| ==> parts[i] != [] && IsTrimmed(parts[i])
    ensures JoinWith(parts, sep) != [] && IsTrimmed(JoinWith(parts, sep))
  {
    if |parts| > 1 {
      JoinTrimmed(parts[1..], sep);
      var rest := JoinWith(parts[1..], sep);
      assert JoinWith(parts, sep) == parts[0] + sep + rest;
    }
  }

  /** The index of the first line boundary at or after `i`, or `|s|` when there is none. */
  function LineEnd(s: string, i: nat): (j: nat)
    requires i <= |s|
    ensures i <= j <= |s|
    ensures forall k :: i <= k < j ==> !IsLineBreak(s[k])
    ensures j < |s| ==> IsLineBreak(s[j])
    decreases |s| - i
  {
    if i == |s| || IsLineBreak(s[i]) then i else LineEnd(s, i + 1)
  }

  /** How many characters the boundary at `s[j]` takes: `"\r\n"` is one boundary. */
  function BreakWidth(s: string, j: nat): nat
    requires j < |s|
  {
    if s[j] == '\r' && j + 1 < |s| && s[j + 1] == '\n' then 2 else 1
  }

  /** `s.splitlines()`: the lines between boundaries, with `"\r\n"` as a single boundary;
      a boundary at the very end opens no further line, and `""` has no lines. */
  function SplitLines(s: string): (r: seq<string>)
    ensures (r == []) == (s == [])
    ensures forall i :: 0 <= i < |r| ==> NoLineBreak(r[i])
    decreases |s|
  {
    if s == [] then []
    else
      var j := LineEnd(s, 0);
      assert NoLineBreak(s[..j]);
      if j == |s| then [s]
      else [s[..j]] + SplitLines(s[j + BreakWidth(s, j)..])
  }

  /** `s.split(c)` for a one-character separator `c`. */
  function SplitOn(s: string, c: char): (r: seq<string>)
    ensures r != []
    ensures forall i :: 0 <= i < |r| ==> c !in r[i]
    ensures |r[0]| <= |s| && r[0] == s[..|r[0]|]
    ensures |r[0]| < |s| ==> s[|r[0]|] == c
    ensures c !in s ==> r == [s]
  {
    if s == [] then [""]
    else
      var rest := SplitOn(s[1..], c);
      if s[0] == c then [""] + rest
      else
        assert [s[0]] + s[1..] == s;
        [[s[0]] + rest[0]] + rest[1..]
  }

  /** Splitting at `c` and joining with `c` restores the text. */
  lemma {:induction false} SplitOnJoin(s: string, c: char)
    ensures JoinWith(SplitOn(s, c), [c]) == s
  {
    if s != [] {
      var rest := SplitOn(s[1..], c);
      SplitOnJoin(s[1..], c);
      if s[0] == c {
        assert SplitOn(s, c) == [""] + rest;
        assert ([""] + rest)[1..] == rest;
      } else {
        assert SplitOn(s, c) == [[s[0]] + rest[0]] + rest[1..];
        JoinExtendFirst(s[0], rest, [c]);
        assert [s[0]] + s[1..] == s;
      }
    }
  }

  /** Prepending a character to the first part prepends it to the joined text. */
  lemma JoinExtendFirst(x: char, parts: seq<string>, sep: string)
    requires parts != []
    ensures JoinWith([[x] + parts[0]] + parts[1..], sep) == [x] + JoinWith(parts, sep)
  {
    var first := [x] + parts[0];
    var q := [first] + parts[1..];
    assert q[0] == first;
    if |parts| > 1 {
      assert q[1..] == parts[1..];
      var tail := JoinWith(parts[1..], sep);
      assert JoinWith(q, sep) == first + sep + tail;
      assert JoinWith(parts, sep) == parts[0] + sep + tail;
      assert first + sep + tail == [x] + (parts[0] + sep + tail);
    }
  }

  /** Text whose only line boundary is `'\n'`. */
  predicate OnlyNewlines(s: string) {
    forall i :: 0 <= i < |s| ==> IsLineBreak(s[i]) ==> s[i] == '\n'
  }

  /** A line-free prefix moves the first boundary by its length. */
  lemma LineEndAfter(w: string, t: string)
    requires NoLineBreak(w)
    ensures LineEnd(w + t, 0) == |w| + LineEnd(t, 0)
  {
    var s := w + t;
    var a := LineEnd(s, 0);
    var b := |w| + LineEnd(t, 0);
    assert |w| <= a < |s| ==> s[a] == t[a - |w|];
    assert b < |s| ==> s[b] == t[b - |w|];
  }

  /** A first boundary inside `s` stays the first boundary whatever follows. */
  lemma LineEndBefore(s: string, t: string)
    requires LineEnd(s, 0) < |s|
    ensures LineEnd(s + t, 0) == LineEnd(s, 0)
  {
    var a := LineEnd(s + t, 0);
    var b := LineEnd(s, 0);
    assert a < |s| ==> (s + t)[a] == s[a];
    assert (s + t)[b] == s[b];
  }

  /** Text with only `'\n'` boundaries and no boundary at its end is its lines joined with `"\n"`. */
  lemma {:induction false} SplitLinesJoin(s: string)
    requires OnlyNewlines(s)
    requires s == [] || s[|s| - 1] != '\n'
    ensures JoinWith(SplitLines(s), "\n") == s
    decreases |s|
  {
    if s != [] {
      var j := LineEnd(s, 0);
      if j < |s| {
        var line, rest := s[..j], s[j + 1..];
        assert s == line + "\n" + rest;
        assert rest != [] && rest[|rest| - 1] == s[|s| - 1];
        SplitLinesJoin(rest);
        NewlineIsOneBreak(line, rest);
        JoinCons(line, SplitLines(rest), "\n");
      }
    }
  }

  lemma JoinCons(x: string, parts: seq<string>, sep: string)
    requires parts != []
    ensures JoinWith([x] + parts, sep) == x + sep + JoinWith(parts, sep)
  {
    assert ([x] + parts)[1..] == parts;
  }

  /** Lines without boundaries, the last one not empty, joined with `"\n"` and split again. */
  lemma {:induction false} JoinSplitLines(lines: seq<string>)
    requires lines != [] && lines[|lines| - 1] != []
    requires forall i :: 0 <= i < |lines| ==> NoLineBreak(lines[i])
    ensures SplitLines(JoinWith(lines, "\n")) == lines
  {
    if |lines| == 1 {
      LineEndAfter(lines[0], "");
      assert lines[0] + "" == lines[0];
    } else {
      var rest := JoinWith(lines[1..], "\n");
      JoinSplitLines(lines[1..]);
      assert JoinWith(lines, "\n") == lines[0] + "\n" + rest;
      NewlineIsOneBreak(lines[0], rest);
      assert lines == [lines[0]] + lines[1..];
    }
  }

  /** `"\n"` ends the line before it. */
  lemma NewlineIsOneBreak(a: string, b: string)
    requires NoLineBreak(a)
    ensures SplitLines(a + "\n" + b) == [a] + SplitLines(b)
  {
    var s := a + ("\n" + b);
    assert a + "\n" + b == s;
    LineEndAfter(a, "\n" + b);
    var j := |a|;
    assert s[j] == '\n' && BreakWidth(s, j) == 1;
    assert s[..j] == a && s[j + 1..] == b;
  }

  /** `"\r\n"` is one boundary: it ends the line before it and opens no empty line. */
  lemma CrLfIsOneBreak(a: string, b: string)
    requires NoLineBreak(a)
    ensures SplitLines(a + "\r\n" + b) == [a] + SplitLines(b)
  {
    var s := a + ("\r\n" + b);
    assert a + "\r\n" + b == s;
    LineEndAfter(a, "\r\n" + b);
    var j := |a|;
    assert s[j] == '\r' && s[j + 1] == '\n' && BreakWidth(s, j) == 2;
    assert s[..j] == a && s[j + 2..] == b;
  }

  /** A boundary at the end of the text adds no line. */
  lemma {:induction false} SplitLinesFinalBreak(s: string)
    requires s != [] && !IsLineBreak(s[|s| - 1])
    ensures SplitLines(s + "\n") == SplitLines(s)
    decreases |s|
  {
    var j := LineEnd(s, 0);
    if j == |s| {
      assert NoLineBreak(s);
      LineEndAfter(s, "\n");
      var u := s + "\n";
      assert u[..j] == s && u[j + 1..] == [];
    } else {
      var rest := s[j + BreakWidth(s, j)..];
      FinalBreakUnfold(s, j, rest);
      SplitLinesFinalBreak(rest);
    }
  }

  lemma FinalBreakUnfold(s: string, j: nat, rest: string)
    requires s != [] && !IsLineBreak(s[|s| - 1])
    requires j == LineEnd(s, 0) && j < |s|
    requires rest == s[j + BreakWidth(s, j)..]
    ensures rest != [] && |rest| < |s| && !IsLineBreak(rest[|rest| - 1])
    ensures SplitLines(s) == [s[..j]] + SplitLines(rest)
    ensures SplitLines(s + "\n") == [s[..j]] + SplitLines(rest + "\n")
  {
    var u := s + "\n";
    LineEndBefore(s, "\n");
    assert j + 1 < |s|;
    assert BreakWidth(u, j) == BreakWidth(s, j);
    assert rest[|rest| - 1] == s[|s| - 1];
    assert u[..j] == s[..j] && u[j + BreakWidth(s, j)..] == rest + "\n";
  }

  /** `s.partition("\n")`: the text before the first newline, the separator, and the rest. */
  function Partition(s: string): (r: (string, string, string))
    ensures r.0 + r.1 + r.2 == s
    ensures '\n' !in r.0
    ensures ('\n' in s && r.1 == "\n") || ('\n' !in s && r.1 == "" && r.2 == "")
  {
    if s == [] then ("", "", "")
    else if s[0] == '\n' then ("", "\n", s[1..])
    else
      var p := Partition(s[1..]);
      assert s == [s[0]] + s[1..];
      ([s[0]] + p.0, p.1, p.2)
  }

  /** Partitioning at the newline that follows a newline-free prefix gives the prefix and the rest back. */
  lemma {:induction false} PartitionAt(h: string, c: string)
    requires '\n' !in h
    ensures Partition(h + "\n" + c) == (h, "\n", c)
  {
    var s := h + "\n" + c;
    if h != [] {
      assert s[1..] == h[1..] + "\n" + c;
      PartitionAt(h[1..], c);
      assert [h[0]] + h[1..] == h;
    } else {
      assert s[1..] == c;
    }
  }
}

/** Order-preserving selection from a sequence. */
module Seqs {

  lemma AppendAssoc<T>(a: seq<T>, b: seq<T>, c: seq<T>)
    ensures a + (b + c) == (a + b) + c
  {
  }

  lemma PairConcat<T>(x: T, y: T)
    ensures [x] + [y] == [x, y]
  {
  }

  lemma ConcatFour<T>(a: T, b: T, c: T, d: T)
    ensures [] + [a] + [b] + [c] + [d] == [a, b, c, d]
  {
  }

  lemma AppendEmpty<T>(s: seq<T>)
    ensures s + [] == s
  {
  }

  lemma InitLast<T>(s: seq<T>)
    requires s != []
    ensures s[..|s| - 1] + [s[|s| - 1]] == s
  {
  }

  /** `a` is `b` with some elements left out, order kept. */
  predicate IsSubsequence<T(==)>(a: seq<T>, b: seq<T>)
    decreases |b|
  {
    a == [] ||
    (b != [] &&
     ((a[|a| - 1] == b[|b| - 1] && IsSubsequence(a[..|a| - 1], b[..|b| - 1]))
      || IsSubsequence(a, b[..|b| - 1])))
  }

  lemma {:induction false} SubsequenceBounds<T>(a: seq<T>, b: seq<T>)
    requires IsSubsequence(a, b)
    ensures |a| <= |b|
    ensures forall x :: x in a ==> x in b
    decreases |b|
  {
    if a != [] {
      if a[|a| - 1] == b[|b| - 1] && IsSubsequence(a[..|a| - 1], b[..|b| - 1]) {
        SubsequenceBounds(a[..|a| - 1], b[..|b| - 1]);
        assert a == a[..|a| - 1] + [a[|a| - 1]];
        assert b == b[..|b| - 1] + [b[|b| - 1]];
      } else {
        SubsequenceBounds(a, b[..|b| - 1]);
        assert b == b[..|b| - 1] + [b[|b| - 1]];
      }
    }
  }

  /** Appending the same element to both sides keeps a subsequence. */
  lemma SubsequenceSnoc<T>(a: seq<T>, b: seq<T>, x: T)
    requires IsSubsequence(a, b)
    ensures IsSubsequence(a + [x], b + [x])
  {
    assert (a + [x])[..|a|] == a;
    assert (b + [x])[..|b|] == b;
  }

  /** Appending an element to the longer side keeps a subsequence. */
  lemma SubsequenceExtend<T>(a: seq<T>, b: seq<T>, x: T)
    requires IsSubsequence(a, b)
    ensures IsSubsequence(a, b + [x])
  {
    assert (b + [x])[..|b|] == b;
  }

  /** `[f(x) for x in s]` */
  function Map<A, B>(f: A -> B, s: seq<A>): (r: seq<B>)
    ensures |r| == |s|
    ensures forall i {:trigger r[i]} :: 0 <= i < |s| ==> r[i] == f(s[i])
  {
    seq(|s|, i requires 0 <= i < |s| => f(s[i]))
  }

  lemma MapConcat<A, B>(f: A -> B, a: seq<A>, b: seq<A>)
    ensures Map(f, a + b) == Map(f, a) + Map(f, b)
  {
  }

  lemma MapRemove<A, B>(f: A -> B, b: seq<A>, j: nat)
    requires j < |b|
    ensures multiset(b[..j] + b[j + 1..]) == multiset(b) - multiset{b[j]}
    ensures multiset(Map(f, b)) == multiset(Map(f, b[..j] + b[j + 1..])) + multiset{f(b[j])}
  {
    assert b == b[..j] + [b[j]] + b[j + 1..];
    MapConcat(f, b[..j] + [b[j]], b[j + 1..]);
    MapConcat(f, b[..j], [b[j]]);
    MapConcat(f, b[..j], b[j + 1..]);
  }

  lemma MapCons<A, B>(f: A -> B, s: seq<A>)
    requires s != []
    ensures Map(f, s) == [f(s[0])] + Map(f, s[1..])
  {
  }

  lemma MapHead<A, B>(f: A -> B, a: seq<A>)
    requires a != []
    ensures multiset(a[1..]) == multiset(a) - multiset{a[0]}
    ensures multiset(Map(f, a)) == multiset(Map(f, a[1..])) + multiset{f(a[0])}
  {
    assert a == [a[0]] + a[1..];
    MapConcat(f, [a[0]], a[1..]);
  }

  /** Mapping a function over two permutations of each other gives permutations of each other. */
  lemma {:induction false} MapPermutation<A, B>(f: A -> B, a: seq<A>, b: seq<A>)
    requires multiset(a) == multiset(b)
    ensures multiset(Map(f, a)) == multiset(Map(f, b))
    decreases |a|
  {
    if a != [] {
      assert a[0] in multiset(b);
      var j :| 0 <= j < |b| && b[j] == a[0];
      MapRemove(f, b, j);
      MapHead(f, a);
      MapPermutation(f, a[1..], b[..j] + b[j + 1..]);
    } else {
      assert b == [];
    }
  }
}
