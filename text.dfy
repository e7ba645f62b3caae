/**
 * The handful of Python string operations the attendance script relies on:
 * substring search (`pat in s`), `s.split(sep, maxsplit)`, `s.strip()` and
 * `s.splitlines()`, each stated over `seq<char>`.
 */
module Text {
  import opened Wrappers

  /** The characters Python's `str.isspace` accepts; `str.strip()` removes exactly these. */
  predicate IsSpace(c: char) {
    c == ' ' || c == '\t' || c == '\n' || c == '\U{0B}' || c == '\U{0C}' || c == '\r' ||
    c == '\U{1C}' || c == '\U{1D}' || c == '\U{1E}' || c == '\U{1F}' || c == '\U{85}' ||
    c == '\U{A0}' || c == '\U{1680}' || c == '\U{2000}' || c == '\U{2001}' || c == '\U{2002}' ||
    c == '\U{2003}' || c == '\U{2004}' || c == '\U{2005}' || c == '\U{2006}' || c == '\U{2007}' ||
    c == '\U{2008}' || c == '\U{2009}' || c == '\U{200A}' || c == '\U{2028}' || c == '\U{2029}' ||
    c == '\U{202F}' || c == '\U{205F}' || c == '\U{3000}'
  }

  /** The line boundaries of Python's `str.splitlines` ("\r\n" counts as one boundary). */
  predicate IsLineBreak(c: char) {
    c == '\n' || c == '\r' || c == '\U{0B}' || c == '\U{0C}' || c == '\U{1C}' || c == '\U{1D}' ||
    c == '\U{1E}' || c == '\U{85}' || c == '\U{2028}' || c == '\U{2029}'
  }

  predicate NoLineBreak(line: string) {
    forall k :: 0 <= k < |line| ==> !IsLineBreak(line[k])
  }

  /** `pat` occurs in `s` starting at index `i`. */
  predicate OccursAt(s: string, pat: string, i: int) {
    0 <= i && i + |pat| <= |s| && s[i..i + |pat|] == pat
  }

  /** The first occurrence of `pat` in `s` at or after `from` (Python's `s.find(pat, from)`). */
  function FindFrom(s: string, pat: string, from: nat): (r: Option<nat>)
    ensures r.Some? ==> from <= r.value && OccursAt(s, pat, r.value)
    ensures r.Some? ==> forall k :: from <= k < r.value ==> !OccursAt(s, pat, k)
    ensures r.None? ==> forall k :: from <= k ==> !OccursAt(s, pat, k)
    decreases |s| - from
  {
    if from + |pat| > |s| then None
    else if s[from..from + |pat|] == pat then Some(from)
    else FindFrom(s, pat, from + 1)
  }

  /** Python's `pat in s` for strings. */
  function Contains(s: string, pat: string): (b: bool)
    ensures b <==> exists i :: OccursAt(s, pat, i)
  {
    FindFrom(s, pat, 0).Some?
  }

  /** For a one-character pattern, substring search is plain membership. */
  lemma ContainsChar(s: string, c: char)
    ensures Contains(s, [c]) <==> c in s
  {
    if c in s {
      var i :| 0 <= i < |s| && s[i] == c;
      assert s[i..i + 1] == [c];
      assert OccursAt(s, [c], i);
    }
    if Contains(s, [c]) {
      var i :| OccursAt(s, [c], i);
      assert s[i] == s[i..i + 1][0];
    }
  }

  /** A one-character pattern occurs exactly where that character stands. */
  lemma OccursAtChar(s: string, c: char, i: int)
    ensures OccursAt(s, [c], i) <==> 0 <= i < |s| && s[i] == c
  {
    if 0 <= i < |s| {
      assert s[i..i + 1] == [s[i]];
    }
  }

  /** Searching for a character finds its first position. */
  lemma FindFirstChar(s: string, c: char, i: nat)
    requires i < |s| && s[i] == c
    requires forall k :: 0 <= k < i ==> s[k] != c
    ensures FindFrom(s, [c], 0) == Some(i)
  {
    OccursAtChar(s, c, i);
    var r := FindFrom(s, [c], 0);
    assert r.Some?;
    OccursAtChar(s, c, r.value);
  }

  /** An occurrence inside a prefix of `s` is an occurrence in `s`. */
  lemma OccursInPrefix(s: string, pat: string, n: nat, i: int)
    requires n <= |s| && OccursAt(s[..n], pat, i)
    ensures OccursAt(s, pat, i) && i + |pat| <= n
  {
    assert s[..n][i..i + |pat|] == s[i..i + |pat|];
  }

  /** The parts of a split, glued back together with the separator between them. */
  function Join(parts: seq<string>, sep: string): string {
    if |parts| == 0 then []
    else if |parts| == 1 then parts[0]
    else parts[0] + sep + Join(parts[1..], sep)
  }

  /**
   * Python's `s.split(sep, maxsplit)` for a non-empty separator; a negative
   * `maxsplit` means no limit.
   */
  function SplitN(s: string, sep: string, maxsplit: int): seq<string>
    requires sep != []
    decreases |s|
  {
    if maxsplit == 0 then [s]
    else
      match FindFrom(s, sep, 0)
      case None => [s]
      case Some(i) => [s[..i]] + SplitN(s[i + |sep|..], sep, if maxsplit < 0 then maxsplit else maxsplit - 1)
  }

  /**
   * `parts` is a split of `s` on `sep` with limit `maxsplit`: the parts glue
   * back to `s`; there are at most `maxsplit + 1` of them when there is a
   * limit; no part but the last holds the separator, and the last holds it
   * only when the limit was reached. For a separator that overlaps itself
   * this does not pin down the leftmost split.
   */
  predicate SplitShape(s: string, sep: string, maxsplit: int, parts: seq<string>) {
    && 1 <= |parts|
    && (maxsplit >= 0 ==> |parts| <= maxsplit + 1)
    && Join(parts, sep) == s
    && (forall k :: 0 <= k < |parts| - 1 ==> !Contains(parts[k], sep))
    && ((maxsplit < 0 || |parts| <= maxsplit) ==> !Contains(parts[|parts| - 1], sep))
  }

  /** `s.split(sep, maxsplit)` has the shape of a split. */
  lemma {:induction false} SplitNMeaning(s: string, sep: string, maxsplit: int)
    requires sep != []
    ensures SplitShape(s, sep, maxsplit, SplitN(s, sep, maxsplit))
    decreases |s|
  {
    if maxsplit != 0 {
      match FindFrom(s, sep, 0)
      case None =>
      case Some(i) =>
        var m := if maxsplit < 0 then maxsplit else maxsplit - 1;
        var tail := s[i + |sep|..];
        var rest := SplitN(tail, sep, m);
        SplitNMeaning(tail, sep, m);
        FirstOccurrenceSplits(s, sep, i);
        assert SplitN(s, sep, maxsplit) == [s[..i]] + rest;
        SplitStep(s, s[..i], tail, rest, sep, maxsplit);
    }
  }

  /** A head free of `sep`, the separator, and a split of the tail with one split fewer make a split of the whole. */
  lemma SplitStep(s: string, head: string, tail: string, rest: seq<string>, sep: string, maxsplit: int)
    requires maxsplit != 0 && !Contains(head, sep) && s == head + sep + tail
    requires SplitShape(tail, sep, if maxsplit < 0 then maxsplit else maxsplit - 1, rest)
    ensures SplitShape(s, sep, maxsplit, [head] + rest)
  {
    var parts := [head] + rest;
    JoinCons(head, rest, sep);
    forall k | 0 <= k < |parts| - 1 ensures !Contains(parts[k], sep) {
      if k > 0 {
        assert parts[k] == rest[k - 1];
      }
    }
    assert parts[|parts| - 1] == rest[|rest| - 1];
  }

  /** Cutting `s` at its first occurrence of `sep` leaves a head free of `sep`. */
  lemma FirstOccurrenceSplits(s: string, sep: string, i: nat)
    requires sep != [] && OccursAt(s, sep, i)
    requires forall k :: 0 <= k < i ==> !OccursAt(s, sep, k)
    ensures !Contains(s[..i], sep)
    ensures s == s[..i] + sep + s[i + |sep|..]
  {
    forall j | OccursAt(s[..i], sep, j) ensures false {
      OccursInPrefix(s, sep, i, j);
    }
    assert s == s[..i] + s[i..i + |sep|] + s[i + |sep|..];
  }

  lemma JoinCons(head: string, rest: seq<string>, sep: string)
    requires 1 <= |rest|
    ensures Join([head] + rest, sep) == head + sep + Join(rest, sep)
  {
    assert ([head] + rest)[1..] == rest;
  }

  /** Python's `s.split(sep)` with no limit. */
  function Split(s: string, sep: string): seq<string>
    requires sep != []
  {
    SplitN(s, sep, -1)
  }

  /** The parts of an unlimited split glue back to `s` and none holds the separator. */
  lemma SplitMeaning(s: string, sep: string)
    requires sep != []
    ensures var parts := Split(s, sep);
            && 1 <= |parts|
            && Join(parts, sep) == s
            && forall k :: 0 <= k < |parts| ==> !Contains(parts[k], sep)
  {
    SplitNMeaning(s, sep, -1);
  }

  /** `s` without its leading whitespace (Python's `s.lstrip()`). */
  function StripStart(s: string): string {
    if s != [] && IsSpace(s[0]) then StripStart(s[1..]) else s
  }

  /** `s.lstrip()` is a suffix of `s`, preceded by whitespace only, and starts with a non-space. */
  lemma {:induction false} StripStartMeaning(s: string)
    ensures var r := StripStart(s);
            && |r| <= |s| && r == s[|s| - |r|..]
            && (forall k :: 0 <= k < |s| - |r| ==> IsSpace(s[k]))
            && (r != [] ==> !IsSpace(r[0]))
  {
    if s != [] && IsSpace(s[0]) {
      var t := s[1..];
      StripStartMeaning(t);
      var r := StripStart(t);
      assert StripStart(s) == r;
      assert s[|s| - |r|..] == t[|t| - |r|..];
      forall k | 0 <= k < |s| - |r| ensures IsSpace(s[k]) {
        if k > 0 {
          assert s[k] == t[k - 1];
        }
      }
    }
  }

  /** `s` without its trailing whitespace (Python's `s.rstrip()`). */
  function StripEnd(s: string): string {
    if s != [] && IsSpace(s[|s| - 1]) then StripEnd(s[..|s| - 1]) else s
  }

  /** `s.rstrip()` is a prefix of `s`, followed by whitespace only, and ends with a non-space. */
  lemma {:induction false} StripEndMeaning(s: string)
    ensures var r := StripEnd(s);
            && |r| <= |s| && r == s[..|r|]
            && (forall k :: |r| <= k < |s| ==> IsSpace(s[k]))
            && (r != [] ==> !IsSpace(r[|r| - 1]))
  {
    if s != [] && IsSpace(s[|s| - 1]) {
      StripEndMeaning(s[..|s| - 1]);
    }
  }

  /** `r` is the slice of `s` at `i` with only whitespace before and after it. */
  predicate StrippedAt(s: string, r: string, i: int) {
    && 0 <= i <= |s| - |r|
    && r == s[i..i + |r|]
    && (forall k :: 0 <= k < i ==> IsSpace(s[k]))
    && (forall k :: i + |r| <= k < |s| ==> IsSpace(s[k]))
  }

  /** Python's `s.strip()`. */
  function Strip(s: string): string {
    StripEnd(StripStart(s))
  }

  /** `s.strip()` is the slice of `s` between its leading and trailing whitespace. */
  lemma StripMeaning(s: string)
    ensures exists i :: StrippedAt(s, Strip(s), i)
    ensures var r := Strip(s); r != [] ==> !IsSpace(r[0]) && !IsSpace(r[|r| - 1])
  {
    var left := StripStart(s);
    var r := StripEnd(left);
    StripStartMeaning(s);
    StripEndMeaning(left);
    StripBoth(s, left, r);
    assert StrippedAt(s, Strip(s), |s| - |left|);
  }

  lemma StripBoth(s: string, left: string, r: string)
    requires |left| <= |s| && left == s[|s| - |left|..]
    requires forall k :: 0 <= k < |s| - |left| ==> IsSpace(s[k])
    requires |r| <= |left| && r == left[..|r|]
    requires forall k :: |r| <= k < |left| ==> IsSpace(left[k])
    ensures StrippedAt(s, r, |s| - |left|)
  {
    var i := |s| - |left|;
    assert r == s[i..i + |r|];
    forall k | i + |r| <= k < |s| ensures IsSpace(s[k]) {
      assert s[k] == left[k - i];
    }
  }

  /** Stripping text that carries no outer whitespace of its own removes exactly the padding. */
  lemma {:induction false} StripPadded(lead: string, word: string, trail: string)
    requires forall k :: 0 <= k < |lead| ==> IsSpace(lead[k])
    requires forall k :: 0 <= k < |trail| ==> IsSpace(trail[k])
    requires word != [] && !IsSpace(word[0]) && !IsSpace(word[|word| - 1])
    ensures Strip(lead + word + trail) == word
  {
    var s := lead + word + trail;
    StripStartPadded(lead, word + trail);
    assert lead + (word + trail) == s;
    StripEndPadded(word, trail);
  }

  lemma {:induction false} StripStartPadded(lead: string, rest: string)
    requires forall k :: 0 <= k < |lead| ==> IsSpace(lead[k])
    requires rest != [] && !IsSpace(rest[0])
    ensures StripStart(lead + rest) == rest
  {
    if lead != [] {
      assert (lead + rest)[1..] == lead[1..] + rest;
      StripStartPadded(lead[1..], rest);
    } else {
      assert lead + rest == rest;
    }
  }

  lemma {:induction false} StripEndPadded(rest: string, trail: string)
    requires forall k :: 0 <= k < |trail| ==> IsSpace(trail[k])
    requires rest != [] && !IsSpace(rest[|rest| - 1])
    ensures StripEnd(rest + trail) == rest
  {
    if trail != [] {
      assert (rest + trail)[..|rest + trail| - 1] == rest + trail[..|trail| - 1];
      StripEndPadded(rest, trail[..|trail| - 1]);
    } else {
      assert rest + trail == rest;
    }
  }

  /** The end of the line that starts at or before `from`: the next line boundary, or the end of `s`. */
  function LineEnd(s: string, from: nat): (e: nat)
    requires from <= |s|
    ensures from <= e <= |s|
    ensures forall k :: from <= k < e ==> !IsLineBreak(s[k])
    ensures e < |s| ==> IsLineBreak(s[e])
    decreases |s| - from
  {
    if from == |s| || IsLineBreak(s[from]) then from else LineEnd(s, from + 1)
  }

  /**
   * Python's `s.splitlines()`: the text between line boundaries, "\r\n" taken
   * as one boundary, no empty last line after a final boundary, and no lines
   * at all for the empty string.
   */
  function SplitLines(s: string): (lines: seq<string>)
    ensures lines == [] <==> s == []
    ensures forall k :: 0 <= k < |lines| ==> NoLineBreak(lines[k])
    decreases |s|
  {
    if s == [] then []
    else
      var e := LineEnd(s, 0);
      if e == |s| then [s]
      else
        var next := if s[e] == '\r' && e + 1 < |s| && s[e + 1] == '\n' then e + 2 else e + 1;
        [s[..e]] + SplitLines(s[next..])
  }

  /** Lines written out one after another, each ended by "\n". */
  function JoinLines(lines: seq<string>): string {
    if lines == [] then [] else lines[0] + "\n" + JoinLines(lines[1..])
  }

  /** Reading back newline-terminated lines gives exactly those lines, in order. */
  lemma {:induction false} SplitJoinLines(lines: seq<string>)
    requires forall k :: 0 <= k < |lines| ==> NoLineBreak(lines[k])
    ensures SplitLines(JoinLines(lines)) == lines
  {
    if lines != [] {
      FirstLine(lines[0], JoinLines(lines[1..]));
      SplitJoinLines(lines[1..]);
      assert lines == [lines[0]] + lines[1..];
    }
  }

  /** A line without a break, then "\n", then more text: the line comes first, then the lines of the rest. */
  lemma FirstLine(line: string, rest: string)
    requires NoLineBreak(line)
    ensures SplitLines(line + "\n" + rest) == [line] + SplitLines(rest)
  {
    var s := line + "\n" + rest;
    assert forall k :: 0 <= k < |line| ==> s[k] == line[k];
    assert s[|line|] == '\n';
    var e := LineEnd(s, 0);
    assert e == |line|;
    assert s[..e] == line;
    assert s[e + 1..] == rest;
  }

  /**
   * In `a + ": " + b` with neither side holding ": ", the separator between
   * them is the only occurrence of ": ".
   */
  lemma OnlyOccurrence(a: string, b: string, k: int)
    requires !Contains(a, ": ") && !Contains(b, ": ")
    requires OccursAt(a + ": " + b, ": ", k)
    ensures k == |a|
  {
    var s := a + ": " + b;
    var found := s[k..k + 2];
    assert found == ": ";
    SeparatorPlace(a, b, k);
    assert s[|a|] == ':' && s[|a| + 1] == ' ';
    assert s[k] == found[0] == ':' && s[k + 1] == found[1] == ' ';
  }

  /** An occurrence of ": " in `a + ": " + b` that lies inside `a` or inside `b` is one there. */
  lemma SeparatorPlace(a: string, b: string, k: int)
    requires OccursAt(a + ": " + b, ": ", k)
    ensures k + 2 <= |a| ==> OccursAt(a, ": ", k)
    ensures k >= |a| + 2 ==> OccursAt(b, ": ", k - |a| - 2)
  {
    var s := a + ": " + b;
    if k + 2 <= |a| {
      assert a[k..k + 2] == s[k..k + 2];
    }
    if k >= |a| + 2 {
      assert b[k - |a| - 2..k - |a|] == s[k..k + 2];
    }
  }

  /** `(a + ": " + b).split(": ")` gives back `[a, b]` when neither side holds ": ". */
  lemma SplitPair(a: string, b: string)
    requires !Contains(a, ": ") && !Contains(b, ": ")
    ensures Split(a + ": " + b, ": ") == [a, b]
  {
    var s := a + ": " + b;
    assert s[|a|..|a| + 2] == ": ";
    assert OccursAt(s, ": ", |a|);
    var r := FindFrom(s, ": ", 0);
    OnlyOccurrence(a, b, r.value);
    assert s[..|a|] == a && s[|a| + 2..] == b;
    SplitNone(b);
    assert SplitN(s, ": ", -1) == [a] + SplitN(b, ": ", -1);
  }

  /** A string holding ": " at two places does not split into two parts on ": ". */
  lemma SplitMoreThanPair(s: string, i: int, j: int)
    requires i != j && OccursAt(s, ": ", i) && OccursAt(s, ": ", j)
    ensures |Split(s, ": ")| != 2
  {
    var parts := Split(s, ": ");
    SplitMeaning(s, ": ");
    if |parts| == 2 {
      assert Join(parts, ": ") == parts[0] + ": " + parts[1];
      OnlyOccurrence(parts[0], parts[1], i);
      OnlyOccurrence(parts[0], parts[1], j);
    }
  }

  /** A string without ": " splits on it into itself alone. */
  lemma SplitNone(s: string)
    requires !Contains(s, ": ")
    ensures Split(s, ": ") == [s]
  {
  }
}
