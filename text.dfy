/**
 The Python string and bytes operations that the mailbox client relies on, each with its
 meaning stated: `str.strip`, the `[:n]` and `[-n:]` slices, `bytes.split()`, `str.split(sep)`,
 `sep.join(parts)`, `reversed`, `int(text)` and decimal formatting of a count.
 */
module Text {
  import opened Wrappers

  function Min(a: int, b: int): int { if a <= b then a else b }

  // ---------------------------------------------------------------- whitespace and strip

  /** Whitespace as `str.isspace` (and so `str.strip`) sees it. */
  predicate IsSpace(c: char) {
    || '\U{9}' <= c <= '\U{D}'
    || '\U{1C}' <= c <= '\U{20}'
    || c == '\U{85}' || c == '\U{A0}' || c == '\U{1680}'
    || '\U{2000}' <= c <= '\U{200A}'
    || c == '\U{2028}' || c == '\U{2029}' || c == '\U{202F}' || c == '\U{205F}' || c == '\U{3000}'
  }

  ghost predicate AllSpace(s: string) {
    forall k :: 0 <= k < |s| ==> IsSpace(s[k])
  }

  /** The number of whitespace characters `s` starts with. */
  function LeadingSpaces(s: string): (n: nat)
    ensures n <= |s| && AllSpace(s[..n])
    ensures n < |s| ==> !IsSpace(s[n])
  {
    if s == [] || !IsSpace(s[0]) then 0 else 1 + LeadingSpaces(s[1..])
  }

  /** The number of whitespace characters `s` ends with. */
  function TrailingSpaces(s: string): (n: nat)
    ensures n <= |s| && AllSpace(s[|s| - n..])
    ensures n < |s| ==> !IsSpace(s[|s| - n - 1])
  {
    if s == [] || !IsSpace(s[|s| - 1]) then 0 else 1 + TrailingSpaces(s[..|s| - 1])
  }

  /** `str.lstrip()`: `s` without the whitespace it starts with. */
  function StripStart(s: string): (r: string)
    ensures |r| <= |s| && r == s[|s| - |r|..]
    ensures AllSpace(s[..|s| - |r|])
    ensures r == [] || !IsSpace(r[0])
  {
    s[LeadingSpaces(s)..]
  }

  /** `str.rstrip()`: `s` without the whitespace it ends with. */
  function StripEnd(s: string): (r: string)
    ensures |r| <= |s| && r == s[..|r|]
    ensures AllSpace(s[|r|..])
    ensures r == [] || !IsSpace(r[|r| - 1])
  {
    s[..|s| - TrailingSpaces(s)]
  }

  /**
   `str.strip()`: the slice of `s` left once the whitespace at both ends is cut off. The
   result neither starts nor ends with whitespace, and everything cut off is whitespace.
   */
  function Strip(s: string): (r: string)
    ensures |r| <= |s|
    ensures r == [] || (!IsSpace(r[0]) && !IsSpace(r[|r| - 1]))
    ensures LeadingSpaces(s) + |r| <= |s| && r == s[LeadingSpaces(s)..LeadingSpaces(s) + |r|]
    ensures AllSpace(s[..LeadingSpaces(s)]) && AllSpace(s[LeadingSpaces(s) + |r|..])
  {
    var t := StripStart(s);
    var r := StripEnd(t);
    SuffixCut(s, LeadingSpaces(s), |r|);
    r
  }

  /** Cutting a suffix of `s` in two cuts `s` itself. */
  lemma SuffixCut<T>(s: seq<T>, k: nat, b: nat)
    requires k <= |s| && b <= |s| - k
    ensures s[k..][..b] == s[k..k + b] && s[k..][b..] == s[k + b..]
  {
  }

  /** A sequence is its three slices cut at `a` and `b`, put back together. */
  lemma ThreeSlices<T>(s: seq<T>, a: nat, b: nat)
    requires a <= b <= |s|
    ensures s == s[..a] + s[a..b] + s[b..]
  {
  }

  /** `s[:n]` for `n >= 0`: at most the first `n` characters. */
  function Take(s: string, n: nat): (r: string)
    ensures |r| == Min(n, |s|) && r == s[..|r|]
  {
    s[..Min(n, |s|)]
  }

  /** Stripping a prefix of `text` leaves a slice of `text` itself. */
  lemma StripOfPrefix(text: string, head: string)
    requires |head| <= |text| && head == text[..|head|]
    ensures LeadingSpaces(head) + |Strip(head)| <= |text|
    ensures Strip(head) == text[LeadingSpaces(head)..LeadingSpaces(head) + |Strip(head)|]
  {
    var i, r := LeadingSpaces(head), Strip(head);
    SliceOfPrefix(text, head, i, r);
  }

  /** A slice of a prefix of `s` is the same slice of `s`. */
  lemma SliceOfPrefix<T>(s: seq<T>, h: seq<T>, a: nat, r: seq<T>)
    requires |h| <= |s| && h == s[..|h|] && a + |r| <= |h| && r == h[a..a + |r|]
    ensures a + |r| <= |s| && r == s[a..a + |r|]
  {
  }

  /** The whitespace `s` starts with is exactly its first `m` characters. */
  lemma LeadingSpacesUnique(s: string, m: nat)
    requires m <= |s| && AllSpace(s[..m]) && (m < |s| ==> !IsSpace(s[m]))
    ensures LeadingSpaces(s) == m
  {
    var n := LeadingSpaces(s);
    forall k | 0 <= k < m
      ensures IsSpace(s[k])
    {
      assert s[..m][k] == s[k];
    }
    forall k | 0 <= k < n
      ensures IsSpace(s[k])
    {
      assert s[..n][k] == s[k];
    }
  }

  /** The whitespace `s` ends with is exactly its last `m` characters. */
  lemma TrailingSpacesUnique(s: string, m: nat)
    requires m <= |s| && AllSpace(s[|s| - m..]) && (m < |s| ==> !IsSpace(s[|s| - m - 1]))
    ensures TrailingSpaces(s) == m
  {
    var n := TrailingSpaces(s);
    SpaceInSuffix(s, m, |s| - n - 1);
    SpaceInSuffix(s, n, |s| - m - 1);
  }

  /** A character inside an all-whitespace suffix is whitespace. */
  lemma SpaceInSuffix(s: string, m: nat, j: int)
    ensures m <= |s| && AllSpace(s[|s| - m..]) && |s| - m <= j < |s| ==> IsSpace(s[j])
  {
    if m <= |s| && |s| - m <= j < |s| {
      assert s[|s| - m..][j - (|s| - m)] == s[j];
    }
  }

  /** Whitespace around a text that neither starts nor ends with whitespace is what `strip` removes. */
  lemma StripPadded(a: string, m: string, b: string)
    requires AllSpace(a) && AllSpace(b) && m != [] && !IsSpace(m[0]) && !IsSpace(m[|m| - 1])
    ensures Strip(a + m + b) == m
  {
    var s := a + m + b;
    assert s[..|a|] == a && s[|a|] == m[0];
    LeadingSpacesUnique(s, |a|);
    var t := StripStart(s);
    assert t == m + b;
    assert t[|t| - |b|..] == b && t[|t| - |b| - 1] == m[|m| - 1];
    TrailingSpacesUnique(t, |b|);
    assert t[..|m|] == m;
  }

  // ---------------------------------------------------------------- slices and order

  /**
   `s[start:]` for any integer `start`: a negative start counts back from the end; both kinds
   are clamped to the bounds of `s`.
   */
  function SliceFrom<T>(s: seq<T>, start: int): (r: seq<T>)
    ensures start >= 0 ==> r == s[Min(start, |s|)..]
    ensures start < 0 ==> |r| == Min(-start, |s|) && r == s[|s| - |r|..]
  {
    var i := if start < 0 then (if start + |s| < 0 then 0 else start + |s|)
             else (if start > |s| then |s| else start);
    s[i..]
  }

  /** `reversed(s)`: the elements of `s` from last to first. */
  function Reversed<T>(s: seq<T>): (r: seq<T>)
    ensures |r| == |s|
    ensures forall k :: 0 <= k < |s| ==> r[k] == s[|s| - 1 - k]
  {
    if s == [] then [] else [s[|s| - 1]] + Reversed(s[..|s| - 1])
  }

  // ---------------------------------------------------------------- bytes.split()

  /** Whitespace as `bytes.split()` sees it: ASCII space, tab, newline, return, vertical tab, form feed. */
  predicate IsBlank(c: char) {
    c == ' ' || '\U{9}' <= c <= '\U{D}'
  }

  /** Text made of blank characters only (possibly none). */
  predicate AllBlank(s: string) {
    forall k :: 0 <= k < |s| ==> IsBlank(s[k])
  }

  /** Text with no blank character in it. */
  predicate NoBlank(s: string) {
    forall k :: 0 <= k < |s| ==> !IsBlank(s[k])
  }

  /** A token of `bytes.split()`: non-empty and free of whitespace. */
  predicate IsWord(w: string) {
    w != [] && NoBlank(w)
  }

  /** The number of blank characters `s` starts with. */
  function LeadingBlanks(s: string): (n: nat)
    ensures n <= |s| && AllBlank(s[..n])
    ensures n < |s| ==> !IsBlank(s[n])
  {
    if s == [] || !IsBlank(s[0]) then 0
    else
      var m := LeadingBlanks(s[1..]);
      1 + m
  }

  /** The number of non-blank characters `s` starts with. */
  function WordLength(s: string): (n: nat)
    ensures n <= |s| && NoBlank(s[..n])
    ensures n < |s| ==> IsBlank(s[n])
  {
    if s == [] || IsBlank(s[0]) then 0
    else
      var m := WordLength(s[1..]);
      1 + m
  }

  /** `bytes.split()` with no separator: the maximal runs of non-whitespace, in order. */
  function Words(s: string): (ws: seq<string>)
    ensures forall k :: 0 <= k < |ws| ==> IsWord(ws[k])
    decreases |s|, 1
  {
    WordsFrom(s[LeadingBlanks(s)..])
  }

  /** The words of a text that does not start with a blank: the first run, then the words of the rest. */
  function WordsFrom(t: string): (ws: seq<string>)
    requires t == [] || !IsBlank(t[0])
    ensures forall k :: 0 <= k < |ws| ==> IsWord(ws[k])
    decreases |t|, 0
  {
    if t == [] then []
    else
      var n := WordLength(t);
      [t[..n]] + Words(t[n..])
  }

  // ---------------------------------------------------------------- join and str.split(sep)

  /** `sep.join(parts)`. */
  function Join(sep: string, parts: seq<string>): string {
    if |parts| == 0 then ""
    else if |parts| == 1 then parts[0]
    else parts[0] + sep + Join(sep, parts[1..])
  }

  /** `sep` occurs in `s` starting at index `i`. */
  predicate OccursAt(s: string, sep: string, i: nat) {
    i + |sep| <= |s| && s[i..i + |sep|] == sep
  }

  /** The characters of `sep` from index `j` on are those of `s` from index `i + j` on. */
  predicate MatchesFrom(s: string, sep: string, i: nat, j: nat)
    requires i + |sep| <= |s| && j <= |sep|
    decreases |sep| - j
  {
    j == |sep| || (s[i + j] == sep[j] && MatchesFrom(s, sep, i, j + 1))
  }

  /** Matching character by character is matching the slice. */
  lemma {:induction false} MatchesFromSlice(s: string, sep: string, i: nat, j: nat)
    requires i + |sep| <= |s| && j <= |sep|
    ensures MatchesFrom(s, sep, i, j) <==> s[i + j..i + |sep|] == sep[j..]
    decreases |sep| - j
  {
    if j < |sep| {
      MatchesFromSlice(s, sep, i, j + 1);
      assert s[i + j..i + |sep|] == [s[i + j]] + s[i + j + 1..i + |sep|];
      assert sep[j..] == [sep[j]] + sep[j + 1..];
    }
  }

  /** `s.find(sep, from)`: the leftmost occurrence of `sep` at or after `from`, if any. */
  function FindFrom(s: string, sep: string, from: nat): (r: Option<nat>)
    ensures r.Some? ==> from <= r.value && OccursAt(s, sep, r.value)
    decreases |s| - from
  {
    if from + |sep| > |s| then None
    else if MatchesFrom(s, sep, from, 0) then
      MatchesFromSlice(s, sep, from, 0);
      Some(from)
    else FindFrom(s, sep, from + 1)
  }

  /** `s.find(sep, from)` finds the first occurrence: there is none from `from` up to it, and none at all after `from` when it finds nothing. */
  lemma {:induction false} FindFromFirst(s: string, sep: string, from: nat)
    ensures var r := FindFrom(s, sep, from);
      forall j: nat :: from <= j && (r.None? || j < r.value) ==> !OccursAt(s, sep, j)
    decreases |s| - from
  {
    if from + |sep| <= |s| && !MatchesFrom(s, sep, from, 0) {
      MatchesFromSlice(s, sep, from, 0);
      FindFromFirst(s, sep, from + 1);
    }
  }

  function Find(s: string, sep: string): Option<nat> {
    FindFrom(s, sep, 0)
  }

  /** What `s.find(sep)` finds is an occurrence of `sep`. */
  lemma FindOccurs(s: string, sep: string, i: nat)
    requires Find(s, sep) == Some(i)
    ensures OccursAt(s, sep, i) && i + |sep| <= |s|
  {
  }

  /** An occurrence inside a prefix of `s` is an occurrence in `s`. */
  lemma OccursInPrefix(s: string, sep: string, i: nat, j: nat)
    requires i <= |s| && OccursAt(s[..i], sep, j)
    ensures OccursAt(s, sep, j)
  {
    assert s[..i][j..j + |sep|] == s[j..j + |sep|];
  }

  /**
   The leftmost occurrence of `sep` in `s` is also the leftmost one in the text up to it
   followed by `sep`: no occurrence starts inside the text before it, not even one that
   overlaps the separator itself.
   */
  lemma LeftmostCut(s: string, sep: string, i: nat)
    requires Find(s, sep) == Some(i)
    ensures Find(s[..i] + sep, sep) == Some(i)
  {
    var t := s[..i + |sep|];
    assert t == s[..i] + sep;
    assert OccursAt(t, sep, i);
    FindFromFirst(s, sep, 0);
    FindFromFirst(t, sep, 0);
    var f := Find(t, sep);
    if f.Some? {
      OccursInPrefix(s, sep, i + |sep|, f.value);
    }
  }

  /**
   A cut ending `m` characters into the text after an occurrence of `sep` at `i`, or that
   occurrence itself when `m` is 0, ends with `sep`.
   */
  lemma CutAfter(s: string, sep: string, i: nat, m: nat)
    requires OccursAt(s, sep, i) && m <= |s| - i - |sep|
    requires m > 0 ==> |sep| <= m && s[i + |sep|..][m - |sep|..m] == sep
    ensures s[i + |sep| + m - |sep|..i + |sep| + m] == sep
  {
    if m > 0 {
      assert s[i + |sep|..][m - |sep|..m] == s[i + |sep| + m - |sep|..i + |sep| + m];
    }
  }

  /**
   Where the text after the last cut starts when `s` is scanned from the left, jumping past
   each leftmost occurrence of `sep` in turn.
   */
  function LastCutEnd(s: string, sep: string): (n: nat)
    requires sep != []
    ensures n <= |s|
    decreases |s|
  {
    match Find(s, sep)
    case None => 0
    case Some(i) =>
      FindOccurs(s, sep, i);
      i + |sep| + LastCutEnd(s[i + |sep|..], sep)
  }

  /** The scan cuts either nowhere, at 0, or right after an occurrence of `sep`. */
  lemma {:induction false} LastCutEndSep(s: string, sep: string)
    requires sep != []
    ensures var n := LastCutEnd(s, sep);
      n > 0 ==> |sep| <= n && s[n - |sep|..n] == sep
    decreases |s|
  {
    match Find(s, sep)
    case None =>
    case Some(i) =>
      FindOccurs(s, sep, i);
      LastCutEndSep(s[i + |sep|..], sep);
      CutAfter(s, sep, i, LastCutEnd(s[i + |sep|..], sep));
  }

  /** When `sep` occurs, the scan makes at least one cut. */
  lemma LastCutEndPositive(s: string, sep: string)
    requires sep != [] && Find(s, sep).Some?
    ensures LastCutEnd(s, sep) > 0
  {
  }

  /**
   `s.split(sep)` for a non-empty separator: `s` cut at each leftmost, non-overlapping
   occurrence of `sep`. What the parts are is stated by the lemmas after it.
   */
  function Split(s: string, sep: string): (parts: seq<string>)
    requires sep != []
    ensures |parts| >= 1
    decreases |s|
  {
    match Find(s, sep)
    case None => [s]
    case Some(i) =>
      FindOccurs(s, sep, i);
      var rest := Split(s[i + |sep|..], sep);
      [s[..i]] + rest
  }

  /** One step of a split: the text before the leftmost separator, then the split of the rest. */
  lemma SplitStep(s: string, sep: string, i: nat)
    requires sep != [] && Find(s, sep) == Some(i)
    ensures i + |sep| <= |s|
    ensures Split(s, sep) == [s[..i]] + Split(s[i + |sep|..], sep)
  {
    FindOccurs(s, sep, i);
  }

  /** Joining the parts of a split with the separator gives the text back. */
  lemma {:induction false} SplitJoinsBack(s: string, sep: string)
    requires sep != []
    ensures Join(sep, Split(s, sep)) == s
    decreases |s|
  {
    match Find(s, sep)
    case None =>
    case Some(i) =>
      var tail := s[i + |sep|..];
      assert s == s[..i] + sep + tail;
      SplitJoinsBack(tail, sep);
      var parts := Split(s, sep);
      SplitStep(s, sep, i);
      assert parts[1..] == Split(tail, sep);
      assert Join(sep, parts) == s[..i] + sep + Join(sep, Split(tail, sep));
  }

  /** No part of a split contains the separator. */
  lemma {:induction false} SplitPartsFree(s: string, sep: string)
    requires sep != []
    ensures var parts := Split(s, sep);
      forall k :: 0 <= k < |parts| ==> Find(parts[k], sep).None?
    decreases |s|
  {
    match Find(s, sep)
    case None =>
      assert Split(s, sep) == [s];
    case Some(i) =>
      var tail := s[i + |sep|..];
      SplitStep(s, sep, i);
      SplitPartsFree(tail, sep);
      assert Find(s[..i], sep).None? by {
        FindFromFirst(s, sep, 0);
        var f := Find(s[..i], sep);
        if f.Some? {
          OccursInPrefix(s, sep, i, f.value);
        }
      }
  }

  /** The last part of a split is the text after the last cut of the scan from the left. */
  lemma {:induction false} SplitLast(s: string, sep: string)
    requires sep != []
    ensures var parts := Split(s, sep);
      parts[|parts| - 1] == s[LastCutEnd(s, sep)..]
    decreases |s|
  {
    match Find(s, sep)
    case None =>
      assert Split(s, sep) == [s];
    case Some(i) =>
      FindOccurs(s, sep, i);
      var k := i + |sep|;
      var m, rest := LastCutEnd(s[k..], sep), Split(s[k..], sep);
      assert rest[|rest| - 1] == s[k + m..] by {
        SplitLast(s[k..], sep);
        SuffixCut(s, k, m);
      }
      assert LastCutEnd(s, sep) == k + m by {
        LastCutEndStep(s, sep, i);
      }
      SplitStep(s, sep, i);
      LastAfterFirst(Split(s, sep), s[..i], rest);
  }

  /** The last of `[first] + rest` is the last of `rest`. */
  lemma LastAfterFirst<T>(parts: seq<T>, first: T, rest: seq<T>)
    requires parts == [first] + rest && |rest| >= 1
    ensures parts[|parts| - 1] == rest[|rest| - 1]
  {
  }

  /** One step of the scan: the last cut of `s` lies past its leftmost `sep`, at the last cut of the rest. */
  lemma LastCutEndStep(s: string, sep: string, i: nat)
    requires sep != [] && Find(s, sep) == Some(i) && i + |sep| <= |s|
    ensures LastCutEnd(s, sep) == i + |sep| + LastCutEnd(s[i + |sep|..], sep)
  {
  }

  /** Each cut is at the leftmost occurrence: in every part but the last followed by `sep`, the first occurrence of `sep` is that separator. */
  lemma {:induction false} SplitCutsLeftmost(s: string, sep: string)
    requires sep != []
    ensures var parts := Split(s, sep);
      forall k :: 0 <= k < |parts| - 1 ==> Find(parts[k] + sep, sep) == Some(|parts[k]|)
    decreases |s|
  {
    match Find(s, sep)
    case None =>
      assert Split(s, sep) == [s];
    case Some(i) =>
      var tail := s[i + |sep|..];
      SplitStep(s, sep, i);
      SplitCutsLeftmost(tail, sep);
      LeftmostCut(s, sep, i);
  }

  /** With two or more parts, the joined text ends with the separator and the last part. */
  lemma {:induction false} JoinLast(sep: string, parts: seq<string>)
    requires |parts| >= 2
    ensures Join(sep, parts) == Join(sep, parts[..|parts| - 1]) + sep + parts[|parts| - 1]
  {
    if |parts| > 2 {
      JoinLast(sep, parts[1..]);
      assert parts[1..][..|parts| - 2] == parts[..|parts| - 1][1..];
    }
  }

  /**
   For a one-character separator that no part contains, splitting the joined text gives the
   parts back (how a server reads a comma-joined sequence set).
   */
  lemma {:induction false} SplitJoin(c: char, parts: seq<string>)
    requires |parts| >= 1
    requires forall k :: 0 <= k < |parts| ==> c !in parts[k]
    ensures Split(Join([c], parts), [c]) == parts
  {
    var p := parts[0];
    NoOccurrence(p, c);
    if |parts| > 1 {
      var rest := Join([c], parts[1..]);
      var s := p + [c] + rest;
      assert s[..|p|] == p && s[|p| + 1..] == rest;
      assert OccursAt(s, [c], |p|);
      assert Find(s, [c]) == Some(|p|) by {
        FindFromFirst(s, [c], 0);
        forall j: nat | j < |p|
          ensures !OccursAt(s, [c], j)
        {
          assert s[j] == p[j];
        }
      }
      SplitJoin(c, parts[1..]);
    }
  }

  /** A character the text does not hold does not occur in it. */
  lemma NoOccurrence(s: string, c: char)
    requires c !in s
    ensures Find(s, [c]).None?
  {
    forall j: nat | j < |s|
      ensures !OccursAt(s, [c], j)
    {
      assert s[j] in s;
    }
  }

  /** `LeadingBlanks` is the one count with a blank prefix and no blank right after it. */
  lemma LeadingBlanksUnique(s: string, m: nat)
    requires m <= |s| && AllBlank(s[..m]) && (m < |s| ==> !IsBlank(s[m]))
    ensures LeadingBlanks(s) == m
  {
    var n := LeadingBlanks(s);
    forall k | 0 <= k < m
      ensures IsBlank(s[k])
    {
      assert s[..m][k] == s[k];
    }
    forall k | 0 <= k < n
      ensures IsBlank(s[k])
    {
      assert s[..n][k] == s[k];
    }
  }

  /** Blank characters in front of the text do not change its words. */
  lemma WordsAfterBlanks(g: string, s: string)
    requires AllBlank(g)
    ensures Words(g + s) == Words(s)
  {
    LeadingBlanksAfter(g, s);
    var l := LeadingBlanks(s);
    assert (g + s)[|g| + l..] == s[l..];
  }

  /** Blanks in front of a text add to its leading blanks. */
  lemma LeadingBlanksAfter(g: string, s: string)
    requires AllBlank(g)
    ensures LeadingBlanks(g + s) == |g| + LeadingBlanks(s)
  {
    var l := LeadingBlanks(s);
    var gs := g + s;
    assert gs[..|g| + l] == g + s[..l];
    LeadingBlanksUnique(gs, |g| + l);
  }

  /** A word followed by nothing or by a blank is the first word. */
  lemma WordsOfWordThen(w: string, rest: string)
    requires IsWord(w) && (rest == [] || IsBlank(rest[0]))
    ensures Words(w + rest) == [w] + Words(rest)
  {
    var s := w + rest;
    assert LeadingBlanks(s) == 0 by {
      assert s[0] == w[0];
    }
    assert WordLength(s) == |w| by {
      assert forall k :: 0 <= k < |w| ==> s[k] == w[k];
      if rest != [] {
        assert s[|w|] == rest[0];
      }
    }
    assert s[0..] == s;
    assert s[..|w|] == w && s[|w|..] == rest;
  }

  /** A line of space-separated words splits back into those words. */
  lemma {:induction false} WordsOfJoin(ws: seq<string>)
    requires forall k :: 0 <= k < |ws| ==> IsWord(ws[k])
    ensures Words(Join(" ", ws)) == ws
  {
    if |ws| == 1 {
      WordsOfWordThen(ws[0], "");
      assert ws[0] + "" == ws[0];
    } else if |ws| > 1 {
      var rest := Join(" ", ws[1..]);
      var line := Join(" ", ws);
      assert line == ws[0] + " " + rest;
      assert ws[0] + " " + rest == ws[0] + (" " + rest);
      WordsOfWordThen(ws[0], " " + rest);
      assert Words(line) == [ws[0]] + Words(" " + rest);
      WordsAfterBlanks(" ", rest);
      WordsOfJoin(ws[1..]);
      assert Words(" " + rest) == ws[1..];
      assert ws == [ws[0]] + ws[1..];
    }
  }

  /** The text woven from blank gaps and words: `gaps[0] + ws[0] + gaps[1] + … + ws[n-1] + gaps[n]`. */
  function Weave(gaps: seq<string>, ws: seq<string>): (s: string)
    requires |gaps| == |ws| + 1
    decreases |ws|
  {
    if ws == [] then gaps[0] else gaps[0] + ws[0] + Weave(gaps[1..], ws[1..])
  }

  /** A weave starts with its first gap. */
  lemma WeaveStart(gaps: seq<string>, ws: seq<string>)
    requires |gaps| == |ws| + 1
    ensures |gaps[0]| <= |Weave(gaps, ws)| && Weave(gaps, ws)[..|gaps[0]|] == gaps[0]
  {
    if ws != [] {
      var s := Weave(gaps, ws);
      assert s == gaps[0] + (ws[0] + Weave(gaps[1..], ws[1..]));
    }
  }

  /** One step of `Weave`: the first gap, the first word, then the rest woven. */
  lemma WeaveStep(gaps: seq<string>, ws: seq<string>)
    requires |gaps| == |ws| + 1 && ws != []
    ensures Weave(gaps, ws) == gaps[0] + ws[0] + Weave(gaps[1..], ws[1..])
  {
  }

  /** Gaps that separate words: all blank, and those between two words not empty. */
  predicate Separators(gaps: seq<string>) {
    && (forall k :: 0 <= k < |gaps| ==> AllBlank(gaps[k]))
    && (forall k :: 0 < k < |gaps| - 1 ==> gaps[k] != [])
  }

  /** Dropping the first gap and word keeps the gaps separating. */
  lemma SeparatorsTail(gaps: seq<string>)
    requires |gaps| >= 2 && Separators(gaps)
    ensures Separators(gaps[1..])
  {
    assert forall k :: 0 <= k < |gaps| - 1 ==> gaps[1..][k] == gaps[k + 1];
  }

  /** After the first word of a weave comes nothing or a blank. */
  lemma WeaveRestStartsBlank(gaps: seq<string>, ws: seq<string>)
    requires |gaps| == |ws| + 1 && ws != [] && Separators(gaps)
    ensures var rest := Weave(gaps[1..], ws[1..]); rest == [] || IsBlank(rest[0])
  {
    var rest := Weave(gaps[1..], ws[1..]);
    assert AllBlank(gaps[1]);
    WeaveStart(gaps[1..], ws[1..]);
    if gaps[1] != [] {
      assert rest[..|gaps[1]|][0] == rest[0];
    } else {
      assert |ws| == 1;
    }
  }

  /** Words separated by blank gaps split back into those words. */
  lemma {:induction false} WordsOfWeave(gaps: seq<string>, ws: seq<string>)
    requires |gaps| == |ws| + 1 && Separators(gaps)
    requires forall k :: 0 <= k < |ws| ==> IsWord(ws[k])
    ensures Words(Weave(gaps, ws)) == ws
    decreases |ws|
  {
    if ws == [] {
      WordsAfterBlanks(gaps[0], "");
      assert gaps[0] + "" == gaps[0];
      assert Words("") == [];
    } else {
      var rest := Weave(gaps[1..], ws[1..]);
      SeparatorsTail(gaps);
      WordsOfWeave(gaps[1..], ws[1..]);
      WeaveRestStartsBlank(gaps, ws);
      WeaveStep(gaps, ws);
      WordsOfGapWordRest(gaps[0], ws[0], rest);
      assert ws == [ws[0]] + ws[1..];
    }
  }

  /** Blanks, a word, then nothing or a blank: the word comes first, then the words of the rest. */
  lemma WordsOfGapWordRest(x: string, w: string, rest: string)
    requires AllBlank(x) && IsWord(w) && (rest == [] || IsBlank(rest[0]))
    ensures Words(x + w + rest) == [w] + Words(rest)
  {
    var t := w + rest;
    assert x + w + rest == x + t;
    WordsOfWordThen(w, rest);
    WordsAfterBlanks(x, t);
  }

  /** One step of `Words` on a text with a word: the first word, then the words of the rest. */
  lemma WordsStep(s: string, l: nat, n: nat)
    requires l == LeadingBlanks(s) && s[l..] != [] && n == WordLength(s[l..])
    ensures 0 < n && l + n <= |s|
    ensures Words(s) == [s[l..l + n]] + Words(s[l + n..])
  {
    SuffixCut(s, l, n);
  }

  /** Blank text in front of separating gaps still separates, when the old first gap was not empty. */
  lemma SeparatorsCons(x: string, g: seq<string>)
    requires AllBlank(x) && |g| >= 1 && Separators(g) && (|g| >= 2 ==> g[0] != [])
    ensures Separators([x] + g)
  {
    var gaps := [x] + g;
    assert forall k :: 0 < k < |gaps| ==> gaps[k] == g[k - 1];
  }

  /** Every text is its words woven with blank gaps that separate them; the first gap is the leading blanks. */
  lemma {:induction false} WordsWoven(s: string) returns (gaps: seq<string>)
    ensures |gaps| == |Words(s)| + 1 && Separators(gaps) && Weave(gaps, Words(s)) == s
    ensures gaps[0] == s[..LeadingBlanks(s)]
    decreases |s|
  {
    var l := LeadingBlanks(s);
    if s[l..] == [] {
      assert s[..l] == s;
      assert Words(s) == [];
      gaps := [s];
    } else {
      var n := WordLength(s[l..]);
      WordsStep(s, l, n);
      var rest := s[l + n..];
      var g := WordsWoven(rest);
      assert rest != [] ==> g[0] != [] by {
        if rest != [] {
          assert IsBlank(rest[0]);
          assert rest[..LeadingBlanks(rest)][0] == rest[0];
        }
      }
      assert rest == [] ==> |g| == 1 by {
        if rest == [] {
          assert Words(rest) == [];
        }
      }
      gaps := [s[..l]] + g;
      SeparatorsCons(s[..l], g);
      var ws := Words(s);
      assert gaps[1..] == g && ws[1..] == Words(rest);
      WeaveStep(gaps, ws);
      ThreeSlices(s, l, l + n);
    }
  }

  /**
   The words of `s` are exactly the `ws` that are words and that some separating blank gaps
   weave into `s`.
   */
  lemma WordsExactly(s: string, ws: seq<string>)
    ensures Words(s) == ws <==>
      && (forall k :: 0 <= k < |ws| ==> IsWord(ws[k]))
      && exists gaps :: |gaps| == |ws| + 1 && Separators(gaps) && Weave(gaps, ws) == s
  {
    if Words(s) == ws {
      var gaps := WordsWoven(s);
      assert |gaps| == |ws| + 1 && Separators(gaps) && Weave(gaps, ws) == s;
    }
    if exists gaps :: |gaps| == |ws| + 1 && Separators(gaps) && Weave(gaps, ws) == s {
      var gaps :| |gaps| == |ws| + 1 && Separators(gaps) && Weave(gaps, ws) == s;
      if forall k :: 0 <= k < |ws| ==> IsWord(ws[k]) {
        WordsOfWeave(gaps, ws);
      }
    }
  }

  // ---------------------------------------------------------------- numbers

  predicate IsDigit(c: char) { '0' <= c <= '9' }

  predicate AllDigits(s: string) {
    forall k :: 0 <= k < |s| ==> IsDigit(s[k])
  }

  function DigitChar(d: nat): (c: char)
    requires d < 10
    ensures IsDigit(c) && (c as int) - ('0' as int) == d
  {
    ((('0' as int) + d) as char)
  }

  /** The value of a string of decimal digits. */
  function DigitsValue(ds: string): nat
    requires AllDigits(ds)
  {
    if ds == [] then 0 else DigitsValue(ds[..|ds| - 1]) * 10 + ((ds[|ds| - 1] as int) - ('0' as int))
  }

  /** Decimal text of a count, as an f-string formats a non-negative `int`. */
  function NatToString(n: nat): (s: string)
    ensures s != [] && AllDigits(s)
    ensures s[0] == '0' ==> n == 0
  {
    if n < 10 then [DigitChar(n)] else NatToString(n / 10) + [DigitChar(n % 10)]
  }

  /** `t` without the sign it may start with. */
  function Unsigned(t: string): string {
    if t != [] && (t[0] == '-' || t[0] == '+') then t[1..] else t
  }

  /** An integer literal as `int` reads it: an optional sign, then one or more ASCII digits. */
  predicate IsIntegerLiteral(t: string) {
    Unsigned(t) != [] && AllDigits(Unsigned(t))
  }

  /** The value of an integer literal: its digits' value, negated after a minus sign. */
  function LiteralValue(t: string): int
    requires IsIntegerLiteral(t)
  {
    var magnitude: int := DigitsValue(Unsigned(t));
    if t[0] == '-' then -magnitude else magnitude
  }

  /**
   The information separators U+001C to U+001F. `str.isspace` (and so `str.strip`) counts them
   as whitespace, but `int` does not skip them around a literal.
   */
  predicate IsInfoSeparator(c: char) { '\U{1C}' <= c <= '\U{1F}' }

  /** Whitespace that `int` skips around a literal: `str.isspace` without the information separators. */
  predicate IsIntSpace(c: char) { IsSpace(c) && !IsInfoSeparator(c) }

  ghost predicate AllIntSpace(s: string) {
    forall k :: 0 <= k < |s| ==> IsIntSpace(s[k])
  }

  predicate NoInfoSeparator(s: string) {
    forall k :: 0 <= k < |s| ==> !IsInfoSeparator(s[k])
  }

  /**
   `int(text)`: the value of the integer literal left once the surrounding whitespace is cut
   off. An information separator anywhere in the text makes it fail: around the literal `int`
   does not skip one, and inside it one is no digit.
   */
  function ParseInt(text: string): Option<int> {
    var t := Strip(text);
    if IsIntegerLiteral(t) && NoInfoSeparator(text) then Some(LiteralValue(t)) else None
  }

  /** An integer literal holds no information separator. */
  lemma LiteralHasNoSeparator(t: string)
    requires IsIntegerLiteral(t)
    ensures NoInfoSeparator(t)
  {
    var u := Unsigned(t);
    forall k | 0 <= k < |t|
      ensures !IsInfoSeparator(t[k])
    {
      if u == t {
        assert IsDigit(u[k]);
      } else if k > 0 {
        assert t[k] == u[k - 1] && IsDigit(u[k - 1]);
      }
    }
  }

  /** `int` accepts an integer literal with any whitespace it skips around it, and gives its value. */
  lemma ParseIntPadded(a: string, t: string, b: string)
    requires AllIntSpace(a) && AllIntSpace(b) && IsIntegerLiteral(t)
    ensures ParseInt(a + t + b) == Some(LiteralValue(t))
  {
    LiteralStrips(a, t, b);
    LiteralHasNoSeparator(t);
    NoSeparatorPadded(a, t, b);
  }

  /** An integer literal is what `strip` leaves of it with whitespace around it. */
  lemma LiteralStrips(a: string, t: string, b: string)
    requires AllSpace(a) && AllSpace(b) && IsIntegerLiteral(t)
    ensures Strip(a + t + b) == t
  {
    var digits := Unsigned(t);
    assert digits[|digits| - 1] == t[|t| - 1] && IsDigit(digits[|digits| - 1]);
    assert IsDigit(t[0]) || t[0] == '-' || t[0] == '+' by {
      if digits == t {
        assert IsDigit(digits[0]);
      }
    }
    StripPadded(a, t, b);
  }

  /** Whitespace `int` skips adds no information separator around a text. */
  lemma NoSeparatorPadded(a: string, t: string, b: string)
    requires AllIntSpace(a) && AllIntSpace(b) && NoInfoSeparator(t)
    ensures NoInfoSeparator(a + t + b)
  {
    var s := a + t + b;
    forall k | 0 <= k < |s|
      ensures !IsInfoSeparator(s[k])
    {
      if k < |a| {
        assert s[k] == a[k];
      } else if k < |a| + |t| {
        assert s[k] == t[k - |a|];
      } else {
        assert s[k] == b[k - |a| - |t|];
      }
    }
  }

  /** Leading whitespace of a text without information separators is whitespace `int` skips. */
  lemma IntSpacePrefix(text: string, i: nat)
    requires i <= |text| && NoInfoSeparator(text) && AllSpace(text[..i])
    ensures AllIntSpace(text[..i])
  {
    forall k | 0 <= k < i
      ensures IsIntSpace(text[..i][k])
    {
      assert text[..i][k] == text[k];
    }
  }

  /** Trailing whitespace of a text without information separators is whitespace `int` skips. */
  lemma IntSpaceSuffix(text: string, j: nat)
    requires j <= |text| && NoInfoSeparator(text) && AllSpace(text[j..])
    ensures AllIntSpace(text[j..])
  {
    forall k | 0 <= k < |text| - j
      ensures IsIntSpace(text[j..][k])
    {
      assert text[j..][k] == text[j + k];
    }
  }

  /**
   What `int` accepts is whitespace it skips, an integer literal and whitespace it skips; it
   gives the literal's value.
   */
  lemma ParseIntAccepted(text: string)
    requires ParseInt(text).Some?
    ensures var i := LeadingSpaces(text); var t := Strip(text);
      && i + |t| <= |text| && text == text[..i] + t + text[i + |t|..]
      && AllIntSpace(text[..i]) && AllIntSpace(text[i + |t|..])
      && IsIntegerLiteral(t) && ParseInt(text).value == LiteralValue(t)
  {
    var i, t := LeadingSpaces(text), Strip(text);
    ThreeSlices(text, i, i + |t|);
    IntSpacePrefix(text, i);
    IntSpaceSuffix(text, i + |t|);
  }

  /**
   `int` rejects a text exactly when it is not whitespace it skips, an integer literal and
   whitespace it skips.
   */
  lemma ParseIntRejected(text: string, a: string, t: string, b: string)
    requires ParseInt(text).None? && text == a + t + b && AllIntSpace(a) && AllIntSpace(b)
    ensures !IsIntegerLiteral(t)
  {
    if IsIntegerLiteral(t) {
      ParseIntPadded(a, t, b);
    }
  }

  /** `strip` cuts a leading U+001C off `"\x1c7"`, but `int` rejects the text. */
  lemma ParseIntInfoSeparator()
    ensures Strip("\U{1C}7") == "7" && ParseInt("\U{1C}7") == None
  {
    assert AllSpace("\U{1C}") && AllSpace("") && !IsSpace('7');
    StripPadded("\U{1C}", "7", "");
    assert "\U{1C}" + "7" + "" == "\U{1C}7";
    assert IsInfoSeparator("\U{1C}7"[0]);
  }

  lemma {:induction false} DigitsValueOfNatToString(n: nat)
    ensures DigitsValue(NatToString(n)) == n
  {
    if n >= 10 {
      var s := NatToString(n);
      DigitsValueOfNatToString(n / 10);
      assert s[..|s| - 1] == NatToString(n / 10);
    }
  }

  /** Reading back the decimal text of a count gives the count. */
  lemma ParseIntOfNatToString(n: nat)
    ensures ParseInt(NatToString(n)) == Some(n)
  {
    var s := NatToString(n);
    NatToStringLiteral(n);
    ParseIntPadded("", s, "");
    assert "" + s + "" == s;
  }

  /** The decimal text of a count is an integer literal whose value is the count. */
  lemma NatToStringLiteral(n: nat)
    ensures IsIntegerLiteral(NatToString(n)) && LiteralValue(NatToString(n)) == n
  {
    var s := NatToString(n);
    assert IsDigit(s[0]) && Unsigned(s) == s;
    DigitsValueOfNatToString(n);
  }

}
