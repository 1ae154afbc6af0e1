/**
 * The response parser: it pulls a subject and a body out of the free text a
 * language model returned, using the markers "Subject:" and "Body:" and the
 * fallbacks tried in a fixed order.
 *
 * `ParseResponse` is the parser as written. `ParseReply` is the same parser
 * except that, when no line carries the subject marker, it does not look for
 * the first empty line (see `BlankLineDropsText`). `Session.Generate` uses
 * `ParseResponse`; `Session.GenerateCorrected` uses `ParseReply`.
 */
module Parser {
  import opened Wrappers
  import opened PyStr

  const SubjectMarker: string := "Subject:"
  const BodyMarker: string := "Body:"

  /** A generated email: the draft the session holds. */
  datatype ParsedEmail = ParsedEmail(subject: string, body: string)

  /** The first line holding the subject marker, or "" when no line holds it. */
  function SubjectLine(lines: seq<string>): (line: string)
    ensures Contains(line, SubjectMarker) <==> exists k :: 0 <= k < |lines| && Contains(lines[k], SubjectMarker)
    ensures line == "" || line in lines
  {
    match FirstContaining(lines, SubjectMarker)
    case Some(k) => lines[k]
    case None => ""
  }

  /** The subject taken from the subject line: every marker removed, then stripped. */
  function SubjectText(line: string): (subject: string)
    ensures IsTrimmed(subject) && |subject| <= |line|
  {
    Strip(Replace(line, SubjectMarker, ""))
  }

  /** The body when the reply holds the body marker: what follows its first occurrence, stripped. */
  function BodyAfterMarker(response: string): (body: string)
    requires Contains(response, BodyMarker)
    ensures IsTrimmed(body) && |body| + |BodyMarker| <= |response|
  {
    Strip(SplitOnce(response, BodyMarker)[1])
  }

  /** The lines after index `start`, joined with "\n" and stripped. */
  function LinesAfter(lines: seq<string>, start: nat): (body: string)
    requires start < |lines|
    ensures IsTrimmed(body)
    ensures start + 1 == |lines| ==> body == ""
  {
    Strip(Join("\n", lines[start + 1..]))
  }

  /** The parser as written. Both parts of its result are stripped in every branch. */
  function ParseResponse(response: string): (email: ParsedEmail)
    ensures IsTrimmed(email.subject) && IsTrimmed(email.body)
  {
    var lines := SplitLines(response);
    var subjectLine := SubjectLine(lines);
    var subject := SubjectText(subjectLine);
    var body :=
      if Contains(response, BodyMarker) then BodyAfterMarker(response)
      else match IndexOf(lines, subjectLine)
        case Some(start) => LinesAfter(lines, start)
        case None => Strip(response);
    ParsedEmail(subject, body)
  }

  /**
   * The corrected parser: without a body marker it takes the lines after the
   * subject line when there is one and the whole reply otherwise.
   */
  function ParseReply(response: string): (email: ParsedEmail)
    ensures IsTrimmed(email.subject) && IsTrimmed(email.body)
  {
    var lines := SplitLines(response);
    var subject := SubjectText(SubjectLine(lines));
    var body :=
      if Contains(response, BodyMarker) then BodyAfterMarker(response)
      else match FirstContaining(lines, SubjectMarker)
        case Some(k) => LinesAfter(lines, k)
        case None => Strip(response);
    ParsedEmail(subject, body)
  }

  /** Line `k` is the first line of `lines` that holds the subject marker. */
  predicate IsFirstSubjectLine(lines: seq<string>, k: nat)
  {
    k < |lines| && Contains(lines[k], SubjectMarker) &&
    forall j :: 0 <= j < k ==> !Contains(lines[j], SubjectMarker)
  }

  lemma FirstSubjectLineFound(lines: seq<string>, k: nat)
    requires IsFirstSubjectLine(lines, k)
    ensures FirstContaining(lines, SubjectMarker) == Some(k)
  {
  }

  /** The subject is the first marker line with the marker removed and the rest stripped. */
  lemma SubjectFromFirstMarkerLine(response: string, k: nat)
    requires IsFirstSubjectLine(SplitLines(response), k)
    ensures ParseResponse(response).subject == SubjectText(SplitLines(response)[k])
    ensures ParseReply(response).subject == SubjectText(SplitLines(response)[k])
  {
    FirstSubjectLineFound(SplitLines(response), k);
  }

  /**
   * `replace` takes out every occurrence of the marker on the subject line, not only
   * the first: the line is its marker-free pieces separated by the marker, and the
   * subject is those pieces put together and stripped.
   */
  lemma SubjectRemovesEveryMarker(response: string, k: nat)
    requires IsFirstSubjectLine(SplitLines(response), k)
    ensures var line := SplitLines(response)[k];
      var pieces := SplitAll(line, SubjectMarker);
      Join(SubjectMarker, pieces) == line &&
      (forall p :: 0 <= p < |pieces| ==> !Contains(pieces[p], SubjectMarker)) &&
      ParseResponse(response).subject == Strip(Join("", pieces))
  {
    SubjectFromFirstMarkerLine(response, k);
    ReplaceIsJoinOfSplit(SplitLines(response)[k], SubjectMarker, "");
  }

  /**
   * `replace` makes one pass: removing the marker from "Sub" + "Subject:" + "ject:" + x
   * leaves "Subject:" + x, so the subject can still hold the marker.
   */
  lemma ReplaceCanLeaveMarker(x: string)
    requires !Contains(x, SubjectMarker)
    ensures Replace("Sub" + SubjectMarker + "ject:" + x, SubjectMarker, "") == SubjectMarker + x
  {
    var tail := "ject:" + x;
    var line := "Sub" + SubjectMarker + tail;
    forall j | 0 <= j < 3 ensures !IsAt(line, SubjectMarker, j) {
      MismatchNotAt(line, SubjectMarker, j, 3 - j);
    }
    NoMarkerAfterPrefix(x);
    ReplaceAfterPrefix("Sub", SubjectMarker, tail, "");
    assert "Sub" + SubjectMarker + "ject:" + x == line;
    assert "Sub" + "" + tail == SubjectMarker + x;
  }

  /** Putting "ject:" in front of text without the subject marker does not form one. */
  lemma NoMarkerAfterPrefix(x: string)
    requires !Contains(x, SubjectMarker)
    ensures !Contains("ject:" + x, SubjectMarker)
  {
    var tail := "ject:" + x;
    forall j | 0 <= j < 5 ensures !IsAt(tail, SubjectMarker, j) {
      MismatchNotAt(tail, SubjectMarker, j, 0);
    }
    forall j | 5 <= j && IsAt(tail, SubjectMarker, j) ensures false {
      assert tail[j..j + |SubjectMarker|] == x[j - 5..j - 5 + |SubjectMarker|];
      assert IsAt(x, SubjectMarker, j - 5);
    }
  }

  /** A reply without the subject marker has no subject line, and the subject is "". */
  lemma NoSubjectLine(response: string)
    requires !Contains(response, SubjectMarker)
    ensures FirstContaining(SplitLines(response), SubjectMarker) == None
    ensures SubjectLine(SplitLines(response)) == ""
    ensures ParseResponse(response).subject == "" && ParseReply(response).subject == ""
  {
    var lines := SplitLines(response);
    if FirstContaining(lines, SubjectMarker).Some? {
      LineOccursInText(response, FirstContaining(lines, SubjectMarker).value, SubjectMarker);
    }
    assert Replace("", SubjectMarker, "") == "";
    StripTrimmed("");
  }

  /** The body marker has no border: no proper suffix of it is also a prefix. */
  lemma BodyMarkerStartsOnce(s: string, p: nat, j: nat)
    requires IsAt(s, BodyMarker, p) && j < p < j + |BodyMarker|
    ensures !IsAt(s, BodyMarker, j)
  {
    assert s[p] == s[p..p + |BodyMarker|][0] == 'B';
    MismatchNotAt(s, BodyMarker, j, p - j);
  }

  /** When `before` holds no body marker, the first body marker of `before + "Body:" + after` is right after it. */
  lemma FirstBodyMarkerAt(response: string, before: string, after: string)
    requires response == before + BodyMarker + after && !Contains(before, BodyMarker)
    ensures IsAt(response, BodyMarker, |before|)
    ensures forall j :: 0 <= j < |before| ==> !IsAt(response, BodyMarker, j)
    ensures response[|before| + |BodyMarker|..] == after
  {
    var p := |before|;
    assert response[p..p + |BodyMarker|] == BodyMarker;
    forall j | 0 <= j < p ensures !IsAt(response, BodyMarker, j) {
      if j + |BodyMarker| <= p {
        if IsAt(response, BodyMarker, j) {
          assert before[j..j + |BodyMarker|] == response[j..j + |BodyMarker|];
          assert IsAt(before, BodyMarker, j);
        }
      } else {
        BodyMarkerStartsOnce(response, p, j);
      }
    }
  }

  /** The body is what follows the first body marker, whatever later markers it holds. */
  lemma BodyAfterFirstBodyMarker(response: string, before: string, after: string)
    requires response == before + BodyMarker + after && !Contains(before, BodyMarker)
    ensures ParseResponse(response).body == Strip(after)
    ensures ParseReply(response).body == Strip(after)
  {
    FirstBodyMarkerAt(response, before, after);
    SplitOnceAt(response, |before|);
  }

  /** `split("Body:", 1)` cuts at the first occurrence of the marker. */
  lemma SplitOnceAt(response: string, p: nat)
    requires IsAt(response, BodyMarker, p)
    requires forall j :: 0 <= j < p ==> !IsAt(response, BodyMarker, j)
    ensures Contains(response, BodyMarker)
    ensures SplitOnce(response, BodyMarker)[1] == response[p + |BodyMarker|..]
  {
    var parts := SplitOnce(response, BodyMarker);
    assert |parts[0]| == p;
    assert response == parts[0] + BodyMarker + parts[1];
    assert response[p + |BodyMarker|..] == parts[1];
  }

  /**
   * Without a body marker, `lines.index(subject_line)` finds the subject line itself:
   * an earlier equal line would hold the marker too. So the `ValueError` fallback is not
   * taken, and the body is the lines after the subject line.
   */
  lemma SubjectLineIndexed(response: string, k: nat)
    requires !Contains(response, BodyMarker)
    requires IsFirstSubjectLine(SplitLines(response), k)
    ensures IndexOf(SplitLines(response), SplitLines(response)[k]) == Some(k)
    ensures ParseResponse(response).body == LinesAfter(SplitLines(response), k)
    ensures ParseReply(response).body == LinesAfter(SplitLines(response), k)
  {
    var lines := SplitLines(response);
    FirstSubjectLineFound(lines, k);
    forall j | 0 <= j < k ensures lines[j] != lines[k] {
      assert !Contains(lines[j], SubjectMarker);
    }
    IndexOfFirst(lines, lines[k], k);
  }

  /** With neither marker, as written: the body is the lines after the first empty line. */
  lemma NoMarkersBlankLine(response: string, e: nat)
    requires !Contains(response, SubjectMarker) && !Contains(response, BodyMarker)
    requires e < |SplitLines(response)| && SplitLines(response)[e] == ""
    requires forall j :: 0 <= j < e ==> SplitLines(response)[j] != ""
    ensures ParseResponse(response) == ParsedEmail("", LinesAfter(SplitLines(response), e))
  {
    NoSubjectLine(response);
    IndexOfFirst(SplitLines(response), "", e);
  }

  /** With neither marker and no empty line, the body is the whole reply stripped. */
  lemma NoMarkersNoBlankLine(response: string)
    requires !Contains(response, SubjectMarker) && !Contains(response, BodyMarker)
    requires "" !in SplitLines(response)
    ensures ParseResponse(response) == ParsedEmail("", Strip(response))
  {
    NoSubjectLine(response);
  }

  /** The corrected parser: with neither marker, the body is the whole reply stripped. */
  lemma ReplyWithoutMarkers(response: string)
    requires !Contains(response, SubjectMarker) && !Contains(response, BodyMarker)
    ensures ParseReply(response) == ParsedEmail("", Strip(response))
  {
    NoSubjectLine(response);
  }

  /** Parsing a body again, as the corrected parser does it, gives no subject and the same body. */
  lemma ReparseBody(body: string)
    requires IsTrimmed(body)
    requires !Contains(body, SubjectMarker) && !Contains(body, BodyMarker)
    ensures ParseReply(body) == ParsedEmail("", body)
  {
    ReplyWithoutMarkers(body);
    StripTrimmed(body);
  }

  /** The two parsers differ only on a reply with no marker line, no body marker and an empty line. */
  lemma ParsersAgree(response: string)
    requires Contains(response, BodyMarker) || FirstContaining(SplitLines(response), SubjectMarker).Some? ||
             "" !in SplitLines(response)
    ensures ParseResponse(response) == ParseReply(response)
  {
    var lines := SplitLines(response);
    if !Contains(response, BodyMarker) {
      match FirstContaining(lines, SubjectMarker)
      case Some(k) =>
        SubjectLineIndexed(response, k);
      case None =>
    }
  }

  /** The empty reply gives an empty subject and an empty body. */
  lemma EmptyResponse()
    ensures ParseResponse("") == ParsedEmail("", "")
    ensures ParseReply("") == ParsedEmail("", "")
  {
    NoSubjectLine("");
    StripTrimmed("");
  }

  /**
   * As written, a reply of two paragraphs without a colon loses its first paragraph:
   * there is no subject line, and the lookup of the subject line "" finds the empty
   * line between the paragraphs. The corrected parser keeps the whole reply.
   */
  lemma BlankLineDropsText(a: string, b: string)
    requires a != [] && b != [] && IsLine(a) && IsLine(b) && ':' !in a && ':' !in b
    ensures ParseResponse(a + "\n\n" + b) == ParsedEmail("", Strip(b))
    ensures ParseReply(a + "\n\n" + b) == ParsedEmail("", Strip(a + "\n\n" + b))
  {
    var response := a + "\n\n" + b;
    var second := "\n" + b;
    assert response == a + "\n" + second;
    assert second == "" + "\n" + b;
    SplitLinesAfterNewline(a, second);
    SplitLinesAfterNewline("", b);
    SplitLinesOfLine(b);
    var lines := SplitLines(response);
    assert SplitLines(second) == ["", b];
    assert lines == [a, "", b];
    assert ':' !in response;
    MissingCharNotContained(response, SubjectMarker, 7);
    MissingCharNotContained(response, BodyMarker, 4);
    NoMarkersBlankLine(response, 1);
    assert lines[2..] == [b];
    ReplyWithoutMarkers(response);
  }

  /** A subject header line "Subject:" + s + "\n" holds no body marker when `s` holds none. */
  lemma HeaderHasNoBodyMarker(s: string)
    requires !Contains(s, BodyMarker)
    ensures !Contains(SubjectMarker + s + "\n", BodyMarker)
  {
    var h := SubjectMarker + s + "\n";
    var m := |SubjectMarker|;
    forall j: nat | j + |BodyMarker| <= |h| ensures !IsAt(h, BodyMarker, j) {
      if j < m {
        MismatchNotAt(h, BodyMarker, j, 0);
      } else if j + |BodyMarker| <= m + |s| {
        assert h[j..j + |BodyMarker|] == s[j - m..j - m + |BodyMarker|];
        assert !IsAt(s, BodyMarker, j - m);
      } else {
        MismatchNotAt(h, BodyMarker, j, |h| - 1 - j);
      }
    }
  }

  /** The subject of the line "Subject:" + s is the stripped `s`, when `s` holds no marker. */
  lemma SubjectTextOfHeader(s: string)
    requires !Contains(s, SubjectMarker)
    ensures SubjectText(SubjectMarker + s) == Strip(s)
  {
    var m := SubjectMarker;
    ReplaceLeading(m, s, "");
    assert Replace(m + s, m, "") == s;
  }

  /** "Subject:" + s is one line when `s` is. */
  lemma HeaderIsLine(s: string)
    requires IsLine(s)
    ensures IsLine(SubjectMarker + s)
  {
    var first := SubjectMarker + s;
    forall j | 0 <= j < |first| ensures !IsLineBreak(first[j]) {
      if j >= |SubjectMarker| { assert first[j] == s[j - |SubjectMarker|]; }
    }
  }

  /** A reply whose first line is "Subject:" + s has the stripped `s` as its subject. */
  lemma SubjectOnFirstLine(s: string, rest: string)
    requires IsLine(s) && !Contains(s, SubjectMarker)
    ensures ParseResponse(SubjectMarker + s + "\n" + rest).subject == Strip(s)
    ensures ParseReply(SubjectMarker + s + "\n" + rest).subject == Strip(s)
  {
    var first := SubjectMarker + s;
    var response := SubjectMarker + s + "\n" + rest;
    HeaderIsLine(s);
    SplitLinesAfterNewline(first, rest);
    assert SplitLines(response)[0] == first;
    assert IsAt(first, SubjectMarker, 0) by {
      assert first[..|SubjectMarker|] == SubjectMarker;
    }
    SubjectFromFirstMarkerLine(response, 0);
    SubjectTextOfHeader(s);
  }

  /**
   * A reply in the requested format, "Subject:" + s + "\n" + "Body:" + b, parses to the
   * stripped `s` and the stripped `b`, when `s` is one line holding neither marker.
   */
  lemma WellFormedReply(s: string, b: string)
    requires IsLine(s) && !Contains(s, SubjectMarker) && !Contains(s, BodyMarker)
    ensures ParseResponse(SubjectMarker + s + "\n" + BodyMarker + b) == ParsedEmail(Strip(s), Strip(b))
    ensures ParseReply(SubjectMarker + s + "\n" + BodyMarker + b) == ParsedEmail(Strip(s), Strip(b))
  {
    var response := SubjectMarker + s + "\n" + BodyMarker + b;
    assert response == SubjectMarker + s + "\n" + (BodyMarker + b);
    SubjectOnFirstLine(s, BodyMarker + b);
    HeaderHasNoBodyMarker(s);
    BodyAfterFirstBodyMarker(response, SubjectMarker + s + "\n", b);
  }
}
