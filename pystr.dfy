/**
 * The Python `str` and `list` built-ins the response parser relies on, written
 * out on `string` (a `seq<char>`): `in`, `find`, `split`, `replace`, `join`,
 * `strip`, `splitlines` and `list.index`.
 */
module PyStr {
  import opened Wrappers

  /** Python's `str.isspace()` set: the characters `strip()` removes. */
  predicate IsSpace(c: char)
    ensures IsSpace(c) ==> c <= ' ' || '\U{85}' <= c
  {
    ('\t' <= c <= '\r') || ('\U{1C}' <= c <= ' ') || c == '\U{85}' || c == '\U{A0}' ||
    c == '\U{1680}' || ('\U{2000}' <= c <= '\U{200A}') || c == '\U{2028}' || c == '\U{2029}' ||
    c == '\U{202F}' || c == '\U{205F}' || c == '\U{3000}'
  }

  /** The characters `str.splitlines()` treats as line boundaries ("\r\n" counts as one). */
  predicate IsLineBreak(c: char)
    ensures IsLineBreak(c) ==> IsSpace(c)
  {
    c == '\n' || c == '\r' || c == '\U{0B}' || c == '\U{0C}' ||
    ('\U{1C}' <= c <= '\U{1E}') || c == '\U{85}' || c == '\U{2028}' || c == '\U{2029}'
  }

  /** `pat` occurs in `s` starting at index `i`. */
  predicate IsAt(s: string, pat: string, i: int)
  {
    0 <= i && i + |pat| <= |s| && s[i..i + |pat|] == pat
  }

  /** `s.find(pat, k)`: the first occurrence of `pat` at or after `k`. */
  function FindFrom(s: string, pat: string, k: nat): (r: Option<nat>)
    decreases |s| - k
    ensures r.Some? ==> k <= r.value && IsAt(s, pat, r.value)
    ensures r.Some? ==> forall j :: k <= j < r.value ==> !IsAt(s, pat, j)
    ensures r.None? ==> forall j :: k <= j ==> !IsAt(s, pat, j)
  {
    if k + |pat| > |s| then None
    else if s[k..k + |pat|] == pat then Some(k)
    else FindFrom(s, pat, k + 1)
  }

  /** `s.find(pat)`, with `None` for Python's -1. */
  function Find(s: string, pat: string): (r: Option<nat>)
    ensures r.Some? ==> IsAt(s, pat, r.value) && forall j :: 0 <= j < r.value ==> !IsAt(s, pat, j)
    ensures r.None? ==> forall j :: !IsAt(s, pat, j)
  {
    FindFrom(s, pat, 0)
  }

  /** The substring test `pat in s`. */
  predicate Contains(s: string, pat: string)
    ensures Contains(s, pat) <==> exists i :: IsAt(s, pat, i)
  {
    Find(s, pat).Some?
  }

  /** `s.split(sep, 1)`: the text before and after the first `sep`, or `[s]` when there is none. */
  function SplitOnce(s: string, sep: string): (parts: seq<string>)
    requires |sep| > 0
    ensures !Contains(s, sep) ==> parts == [s]
    ensures Contains(s, sep) ==> |parts| == 2 && s == parts[0] + sep + parts[1]
    ensures Contains(s, sep) ==> IsAt(s, sep, |parts[0]|) && forall j :: 0 <= j < |parts[0]| ==> !IsAt(s, sep, j)
  {
    match Find(s, sep)
    case None => [s]
    case Some(i) =>
      assert s == s[..i] + sep + s[i + |sep|..];
      [s[..i], s[i + |sep|..]]
  }

  /** `sep.join(parts)`. */
  function Join(sep: string, parts: seq<string>): (r: string)
    decreases |parts|
    ensures |parts| > 0 ==> parts[0] <= r
  {
    if |parts| == 0 then ""
    else if |parts| == 1 then parts[0]
    else parts[0] + sep + Join(sep, parts[1..])
  }

  /** `s.split(sep)`: the pieces between successive leftmost non-overlapping occurrences of `sep`. */
  function SplitAll(s: string, sep: string): (pieces: seq<string>)
    requires |sep| > 0
    decreases |s|
    ensures |pieces| >= 1 && Join(sep, pieces) == s
    ensures forall k :: 0 <= k < |pieces| ==> !Contains(pieces[k], sep)
    ensures Contains(s, sep) ==>
      |pieces| >= 2 && IsAt(s, sep, |pieces[0]|) && forall j :: 0 <= j < |pieces[0]| ==> !IsAt(s, sep, j)
  {
    match Find(s, sep)
    case None => [s]
    case Some(i) =>
      var head := s[..i];
      assert !Contains(head, sep) by {
        forall j | IsAt(head, sep, j) ensures false {
          assert head[j..j + |sep|] == s[j..j + |sep|];
          assert IsAt(s, sep, j);
        }
      }
      var tail := SplitAll(s[i + |sep|..], sep);
      assert s == head + sep + s[i + |sep|..];
      [head] + tail
  }

  /** `s.replace(pat, repl)`: scans left to right, replacing each occurrence and resuming after it. */
  function Replace(s: string, pat: string, repl: string): (r: string)
    requires |pat| > 0
    decreases |s|
    ensures repl == pat ==> r == s
    ensures |repl| <= |pat| ==> |r| <= |s|
  {
    if s == [] then []
    else if IsAt(s, pat, 0) then
      assert s == s[..|pat|] + s[|pat|..];
      repl + Replace(s[|pat|..], pat, repl)
    else
      [s[0]] + Replace(s[1..], pat, repl)
  }

  /** No character of `s` is whitespace at either end. */
  predicate IsTrimmed(s: string)
  {
    s == [] || (!IsSpace(s[0]) && !IsSpace(s[|s| - 1]))
  }

  /** `s.lstrip()`. */
  function TrimStart(s: string): (r: string)
    ensures |r| <= |s| && r == s[|s| - |r|..]
    ensures forall k :: 0 <= k < |s| - |r| ==> IsSpace(s[k])
    ensures r != [] ==> !IsSpace(r[0])
  {
    if s != [] && IsSpace(s[0]) then TrimStart(s[1..]) else s
  }

  /** `s.rstrip()`. */
  function TrimEnd(s: string): (r: string)
    ensures |r| <= |s| && r == s[..|r|]
    ensures forall k :: |r| <= k < |s| ==> IsSpace(s[k])
    ensures r != [] ==> !IsSpace(r[|r| - 1])
  {
    if s != [] && IsSpace(s[|s| - 1]) then TrimEnd(s[..|s| - 1]) else s
  }

  /** The whitespace `Strip` removes in front of `s`. */
  function LeadingSpace(s: string): nat
  {
    |s| - |TrimStart(s)|
  }

  /**
   * `s.strip()`: the result is the slice of `s` left after removing all whitespace at
   * both ends, and it starts and ends with a non-whitespace character.
   */
  function Strip(s: string): (r: string)
    ensures IsTrimmed(r)
    ensures LeadingSpace(s) + |r| <= |s| && r == s[LeadingSpace(s)..LeadingSpace(s) + |r|]
    ensures forall k :: 0 <= k < LeadingSpace(s) ==> IsSpace(s[k])
    ensures forall k :: LeadingSpace(s) + |r| <= k < |s| ==> IsSpace(s[k])
  {
    TrimEnd(TrimStart(s))
  }

  /** Stripping text that has no whitespace at its ends changes nothing. */
  lemma StripTrimmed(s: string)
    requires IsTrimmed(s)
    ensures Strip(s) == s
  {
    assert TrimStart(s) == s;
    assert TrimEnd(s) == s;
  }

  /** `strip()` is idempotent. */
  lemma StripIdempotent(s: string)
    ensures Strip(Strip(s)) == Strip(s)
  {
    StripTrimmed(Strip(s));
  }

  /** The index of the first line boundary at or after `k`, or `|s|` when there is none. */
  function BreakFrom(s: string, k: nat): (n: nat)
    requires k <= |s|
    decreases |s| - k
    ensures k <= n <= |s|
    ensures forall j :: k <= j < n ==> !IsLineBreak(s[j])
    ensures n < |s| ==> IsLineBreak(s[n])
  {
    if k == |s| || IsLineBreak(s[k]) then k else BreakFrom(s, k + 1)
  }

  /** No character of `line` is a line boundary. */
  predicate IsLine(line: string)
  {
    forall j :: 0 <= j < |line| ==> !IsLineBreak(line[j])
  }

  /** Where the next line starts after the boundary at `n`: "\r\n" is one boundary of two characters. */
  function NextLineStart(s: string, n: nat): (m: nat)
    requires n < |s|
    ensures n < m <= |s|
    ensures m == n + 2 <==> s[n] == '\r' && n + 1 < |s| && s[n + 1] == '\n'
    ensures m != n + 2 ==> m == n + 1
  {
    if s[n] == '\r' && n + 1 < |s| && s[n + 1] == '\n' then n + 2 else n + 1
  }

  /**
   * `s.splitlines()`: the text between line boundaries, with no empty line after a
   * final boundary.
   */
  function SplitLines(s: string): (lines: seq<string>)
    decreases |s|
    ensures |lines| == 0 <==> s == []
  {
    if s == [] then []
    else if BreakFrom(s, 0) == |s| then [s]
    else [s[..BreakFrom(s, 0)]] + SplitLines(s[NextLineStart(s, BreakFrom(s, 0))..])
  }

  /** No line `splitlines` yields holds a line boundary. */
  lemma {:induction false} SplitLinesAreLines(s: string, k: nat)
    requires k < |SplitLines(s)|
    ensures IsLine(SplitLines(s)[k])
    decreases |s|
  {
    var next := LinesAfterFirst(s, k);
    if k > 0 {
      SplitLinesAreLines(s[next..], k - 1);
    }
  }

  /** Every line `splitlines` yields is a piece of its input, so what occurs in a line occurs in the text. */
  lemma {:induction false} LineOccursInText(s: string, k: nat, pat: string)
    requires k < |SplitLines(s)| && Contains(SplitLines(s)[k], pat)
    ensures Contains(s, pat)
    decreases |s|
  {
    var next := LinesAfterFirst(s, k);
    if k == 0 {
      SliceOccurrence(s, 0, BreakFrom(s, 0), pat);
    } else {
      LineOccursInText(s[next..], k - 1, pat);
      SliceOccurrence(s, next, |s|, pat);
    }
  }

  /**
   * The first line of `splitlines` runs up to the first boundary; the others are the
   * lines of the text from index `next` on.
   */
  lemma LinesAfterFirst(s: string, k: nat) returns (next: nat)
    requires k < |SplitLines(s)|
    ensures next <= |s| && s[next..|s|] == s[next..]
    ensures k == 0 ==> SplitLines(s)[0] == s[..BreakFrom(s, 0)]
    ensures k > 0 ==> 0 < next && k - 1 < |SplitLines(s[next..])| && SplitLines(s)[k] == SplitLines(s[next..])[k - 1]
  {
    var n := BreakFrom(s, 0);
    next := if n == |s| then |s| else NextLineStart(s, n);
  }

  /** What occurs in a slice of `s` occurs in `s`. */
  lemma SliceOccurrence(s: string, a: nat, b: nat, pat: string)
    requires a <= b <= |s| && Contains(s[a..b], pat)
    ensures Contains(s, pat)
  {
    var t := s[a..b];
    var i := Find(t, pat).value;
    assert IsAt(t, pat, i);
    assert 0 <= i && i + |pat| <= |t| && |t| == b - a;
    forall m | i <= m < i + |pat| ensures t[m] == s[a + m] { }
    assert t[i..i + |pat|] == s[a + i..a + i + |pat|];
    assert IsAt(s, pat, a + i);
  }

  /** Text whose only line boundary is "\n". */
  predicate NewlinesOnly(s: string)
  {
    forall j :: 0 <= j < |s| && IsLineBreak(s[j]) ==> s[j] == '\n'
  }

  lemma NewlinesOnlyDrop(s: string, m: nat)
    requires NewlinesOnly(s) && m <= |s|
    ensures NewlinesOnly(s[m..])
  {
    forall j | 0 <= j < |s| - m && IsLineBreak(s[m..][j]) ensures s[m..][j] == '\n' {
      assert s[m..][j] == s[m + j];
    }
  }

  /** The line boundary `splitlines` drops at the end of the text, if any. */
  function FinalNewline(s: string): string
  {
    if s != [] && s[|s| - 1] == '\n' then "\n" else ""
  }

  /** For "\n"-separated text, joining the lines with "\n" gives the text back, up to a final newline. */
  lemma {:induction false} SplitLinesJoin(s: string)
    requires NewlinesOnly(s)
    ensures Join("\n", SplitLines(s)) + FinalNewline(s) == s
    decreases |s|
  {
    if s != [] {
      var n := BreakFrom(s, 0);
      if n == |s| {
        assert s[|s| - 1] != '\n';
      } else if n + 1 == |s| {
        assert s == s[..n] + "\n";
      } else {
        var rest := s[n + 1..];
        NewlinesOnlyDrop(s, n + 1);
        SplitLinesJoin(rest);
        SplitLinesAtNewline(s, n);
        SplitAround(s, n);
        JoinLinesStep(s, s[..n], rest, SplitLines(rest));
      }
    }
  }

  /** A "\n" boundary: the first line, then the lines of the text after it. */
  lemma SplitLinesAtNewline(s: string, n: nat)
    requires n == BreakFrom(s, 0) && n + 1 < |s| && s[n] == '\n'
    ensures SplitLines(s) == [s[..n]] + SplitLines(s[n + 1..])
  {
  }

  /** Text around the character at `n`. */
  lemma SplitAround(s: string, n: nat)
    requires n < |s|
    ensures s == s[..n] + [s[n]] + s[n + 1..]
  {
    assert s[n..] == [s[n]] + s[n + 1..];
    assert s == s[..n] + s[n..];
  }

  lemma JoinLinesStep(s: string, line: string, rest: string, lines: seq<string>)
    requires rest != [] && lines != [] && s == line + "\n" + rest
    requires Join("\n", lines) + FinalNewline(rest) == rest
    ensures Join("\n", [line] + lines) + FinalNewline(s) == s
  {
    JoinCons("\n", line, lines);
    var j := Join("\n", lines);
    assert FinalNewline(rest) == FinalNewline(s);
    assert (line + "\n" + j) + FinalNewline(s) == line + "\n" + (j + FinalNewline(rest));
  }

  /** Joining a non-empty list after a first element puts one separator between them. */
  lemma JoinCons(sep: string, x: string, xs: seq<string>)
    requires xs != []
    ensures Join(sep, [x] + xs) == x + sep + Join(sep, xs)
  {
    assert ([x] + xs)[1..] == xs;
  }

  /** `xs.index(x)`, with `None` for the `ValueError` it raises when `x` is absent. */
  function IndexOf<T(==)>(xs: seq<T>, x: T): (r: Option<nat>)
    ensures r.Some? ==> r.value < |xs| && xs[r.value] == x && forall j :: 0 <= j < r.value ==> xs[j] != x
    ensures r.None? <==> x !in xs
  {
    if xs == [] then None
    else if xs[0] == x then Some(0)
    else match IndexOf(xs[1..], x)
      case None => None
      case Some(i) => Some(i + 1)
  }

  /** The index of the first line that contains `pat`. */
  function FirstContaining(lines: seq<string>, pat: string): (r: Option<nat>)
    ensures r.Some? ==> r.value < |lines| && Contains(lines[r.value], pat)
    ensures r.Some? ==> forall j :: 0 <= j < r.value ==> !Contains(lines[j], pat)
    ensures r.None? ==> forall j :: 0 <= j < |lines| ==> !Contains(lines[j], pat)
  {
    if lines == [] then None
    else if Contains(lines[0], pat) then Some(0)
    else match FirstContaining(lines[1..], pat)
      case None => None
      case Some(i) => Some(i + 1)
  }

  /** A one-character substring test is membership of that character. */
  lemma ContainsChar(s: string, c: char)
    ensures Contains(s, [c]) <==> c in s
  {
    if c in s {
      var i :| 0 <= i < |s| && s[i] == c;
      assert s[i..i + 1] == [c];
      assert IsAt(s, [c], i);
    }
    if Contains(s, [c]) {
      var i := Find(s, [c]).value;
      assert s[i..i + 1] == [c];
      assert s[i] == c;
    }
  }

  /** Every occurrence is replaced: `s.replace(pat, repl) == repl.join(s.split(pat))`. */
  lemma {:induction false} ReplaceIsJoinOfSplit(s: string, pat: string, repl: string)
    requires |pat| > 0
    ensures Replace(s, pat, repl) == Join(repl, SplitAll(s, pat))
    decreases |s|
  {
    match Find(s, pat)
    case None =>
      ReplaceKeepsPrefix(s, pat, repl, |s|);
    case Some(i) =>
      var after := s[i + |pat|..];
      ReplaceKeepsPrefix(s, pat, repl, i);
      ReplaceAtOccurrence(s, pat, repl, i);
      ReplaceIsJoinOfSplit(after, pat, repl);
      JoinCons(repl, s[..i], SplitAll(after, pat));
  }

  /** At an occurrence, `replace` emits `repl` and resumes after the occurrence. */
  lemma ReplaceAtOccurrence(s: string, pat: string, repl: string, i: nat)
    requires |pat| > 0 && IsAt(s, pat, i)
    ensures Replace(s[i..], pat, repl) == repl + Replace(s[i + |pat|..], pat, repl)
  {
    assert s[i..][..|pat|] == s[i..i + |pat|];
    assert s[i..][|pat|..] == s[i + |pat|..];
  }

  /** Text without an occurrence of `pat` is left as it is. */
  lemma ReplaceAbsent(s: string, pat: string, repl: string)
    requires |pat| > 0 && !Contains(s, pat)
    ensures Replace(s, pat, repl) == s
  {
    ReplaceKeepsPrefix(s, pat, repl, |s|);
  }

  /** Dropping the first character shifts every occurrence one place to the left. */
  lemma IsAtTail(s: string, pat: string, j: nat)
    requires s != []
    ensures IsAt(s[1..], pat, j) <==> IsAt(s, pat, j + 1)
  {
    if j + |pat| <= |s| - 1 {
      assert s[1..][j..j + |pat|] == s[j + 1..j + 1 + |pat|];
    }
  }

  /** Up to the first occurrence, `replace` copies the text unchanged. */
  lemma {:induction false} ReplaceKeepsPrefix(s: string, pat: string, repl: string, k: nat)
    requires |pat| > 0 && k <= |s|
    requires forall j :: 0 <= j < k ==> !IsAt(s, pat, j)
    ensures Replace(s, pat, repl) == s[..k] + Replace(s[k..], pat, repl)
    decreases k
  {
    if k > 0 {
      var tail := s[1..];
      assert Replace(s, pat, repl) == [s[0]] + Replace(tail, pat, repl) by {
        assert !IsAt(s, pat, 0);
      }
      forall j | 0 <= j < k - 1 ensures !IsAt(tail, pat, j) {
        IsAtTail(s, pat, j);
      }
      ReplaceKeepsPrefix(tail, pat, repl, k - 1);
      assert tail[k - 1..] == s[k..];
      assert [s[0]] + tail[..k - 1] == s[..k];
    }
  }

  /** A pattern with a character the text lacks does not occur in it. */
  lemma MissingCharNotContained(s: string, pat: string, t: nat)
    requires t < |pat| && pat[t] !in s
    ensures !Contains(s, pat)
  {
    forall i: nat | i + |pat| <= |s| ensures !IsAt(s, pat, i) {
      assert s[i..i + |pat|][t] == s[i + t];
    }
  }

  /** A pattern does not occur where one of its characters is missing. */
  lemma MismatchNotAt(s: string, pat: string, i: nat, t: nat)
    requires t < |pat| && i + t < |s| && s[i + t] != pat[t]
    ensures !IsAt(s, pat, i)
  {
    if i + |pat| <= |s| {
      assert s[i..i + |pat|][t] == s[i + t];
    }
  }

  /** Text without a line boundary is one line. */
  lemma SplitLinesOfLine(line: string)
    requires line != [] && IsLine(line)
    ensures SplitLines(line) == [line]
  {
  }

  /** A line followed by "\n" is the first line, and the lines of what follows come after it. */
  lemma SplitLinesAfterNewline(line: string, rest: string)
    requires IsLine(line)
    ensures SplitLines(line + "\n" + rest) == [line] + SplitLines(rest)
  {
    var s := line + "\n" + rest;
    var n := |line|;
    assert s[n] == '\n';
    assert BreakFrom(s, 0) == n by {
      forall j | 0 <= j < n ensures !IsLineBreak(s[j]) {
        assert s[j] == line[j];
      }
    }
    assert s[..n] == line;
    assert s[n + 1..] == rest;
  }

  /** "\r\n" is one line boundary: a line followed by it is the first line, then the lines of what follows. */
  lemma SplitLinesAfterCrLf(line: string, rest: string)
    requires IsLine(line)
    ensures SplitLines(line + "\r\n" + rest) == [line] + SplitLines(rest)
  {
    var s := line + "\r\n" + rest;
    var n := |line|;
    assert s[n] == '\r' && s[n + 1] == '\n';
    assert BreakFrom(s, 0) == n by {
      forall j | 0 <= j < n ensures !IsLineBreak(s[j]) {
        assert s[j] == line[j];
      }
    }
    assert NextLineStart(s, n) == n + 2;
    assert s[..n] == line;
    assert s[n + 2..] == rest;
  }

  /** A leading occurrence is replaced, and text without another is copied unchanged. */
  lemma ReplaceLeading(pat: string, s: string, repl: string)
    requires |pat| > 0 && !Contains(s, pat)
    ensures Replace(pat + s, pat, repl) == repl + s
  {
    var t := pat + s;
    assert t[..|pat|] == pat;
    ReplaceAtOccurrence(t, pat, repl, 0);
    assert t[0..] == t && t[|pat|..] == s;
    ReplaceAbsent(s, pat, repl);
  }

  /** Text before the first occurrence is copied, and the occurrence is replaced. */
  lemma ReplaceAfterPrefix(pre: string, pat: string, rest: string, repl: string)
    requires |pat| > 0 && !Contains(rest, pat)
    requires forall j :: 0 <= j < |pre| ==> !IsAt(pre + pat + rest, pat, j)
    ensures Replace(pre + pat + rest, pat, repl) == pre + repl + rest
  {
    var t := pre + pat + rest;
    ReplaceKeepsPrefix(t, pat, repl, |pre|);
    assert t[..|pre|] == pre && t[|pre|..] == pat + rest;
    ReplaceLeading(pat, rest, repl);
  }

  /** `xs.index(x)` finds `x` at `e` when `e` holds it and no earlier position does. */
  lemma IndexOfFirst<T>(xs: seq<T>, x: T, e: nat)
    requires e < |xs| && xs[e] == x
    requires forall j :: 0 <= j < e ==> xs[j] != x
    ensures IndexOf(xs, x) == Some(e)
  {
    assert x in xs;
    var r := IndexOf(xs, x).value;
    assert xs[r] == x;
  }
}
