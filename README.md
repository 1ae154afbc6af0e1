# Smart Email Generator: response parser and send controller

The Smart Email Generator is a Streamlit page. It asks a language model for
an email and parses the reply into a subject and a body. The draft is kept in
session state, and the page sends it by Gmail after a preview. This project
models the two parts of `app.py` that hold logic:

- **`parse_response`** (`parser.dfy`, module `Parser`). This is a pure parser. It
  takes the subject from the first line holding `"Subject:"`, and the body from the
  text after the first `"Body:"`. When there is no `"Body:"`, it takes the lines
  after the subject line instead. Failing that, it takes the whole reply.
  `ParseResponse` is the parser as written, and the controller's `Generate` uses
  it. `ParseReply` is the corrected parser (Finding 1), used by
  `GenerateCorrected`.
- **The Python string builtins the parser calls** (`pystr.dfy`, module `PyStr`):
  - `str.splitlines` with Python's full set of line boundaries, `"\r\n"` counting
    as one and no trailing empty line;
  - `str.strip` with the full `str.isspace` set;
  - the substring test `in`, `split(sep, 1)`, and `replace`, which makes one
    left-to-right pass;
  - `sep.join`, `list.index` (its `ValueError` becomes `None`), and the
    `next(generator, "")` search for the first matching line.

  Two more definitions are not calls of the parser. `Find` (`str.find`) is the
  search behind `in`. `SplitAll` (`str.split(sep)`) is the reference definition
  that `replace` is proved equal to (`ReplaceIsJoinOfSplit`).
- **The draft and send-gating controller** (`controller.dfy`, module `Controller`).
  It is the class `Session`, whose fields are the session-state `subject` and
  `body` plus the preview dialog's open flag. Its methods are the Generate, Send,
  Confirm and Cancel buttons:
  - a model reply is a `Completion` parameter;
  - the Gmail sender's success or failure is a `SendOutcome` parameter.

  Regenerate runs the same code as Generate, so `Generate` models both.

`wrappers.dfy` holds the `Option` datatype.

The as-written members follow the code. The corrected members follow what the
code itself shows was meant:
- The comment at app.py:102 says the fallback takes "everything *after the subject
  line*". When there is no subject line, the code instead cuts at the first empty
  line (Finding 1).
- The `modal.close()` at app.py:199 shows that a successful send was meant to close
  the preview. It comes after `st.experimental_rerun()`, which leaves the handler by
  raising a framework control exception, so that line never runs. The preview stays
  open, and a second Confirm sends an empty mail (Finding 2).
- An implausible address at Confirm keeps the preview open and the draft unchanged,
  as the code does.

## Model

| member | source | states |
|---|---|---|
| PyStr.IsSpace | app.py:96-109 | the whitespace `strip` removes is Python's `str.isspace` set, which holds no visible ASCII character |
| PyStr.IsLineBreak | app.py:95 | every line boundary of `splitlines` is also whitespace |
| PyStr.Find | app.py:95 | the search behind `in`: `find` returns the first occurrence of the pattern, and `None` exactly when it occurs nowhere |
| PyStr.Contains | app.py:95 | the substring test `pat in s` holds exactly when `pat` occurs at some index of `s` |
| PyStr.ContainsChar | app.py:182 | a one-character substring test is membership of that character |
| PyStr.SplitOnce | app.py:100 | `split(sep, 1)` gives `[s]` without `sep`; otherwise it gives two parts around the first occurrence, and `s == parts[0] + sep + parts[1]` |
| PyStr.SplitAll | app.py:96 | the reference definition for the `replace` on this line (app.py never calls `split(sep)`): `split(sep)` gives at least one piece, no piece holds `sep`, and joining with `sep` gives `s` back; when `sep` occurs, the first cut is at its leftmost occurrence |
| PyStr.Join | app.py:107 | `sep.join(parts)` starts with the first part |
| PyStr.Replace | app.py:96 | replacing a pattern by itself changes nothing, and a replacement no longer than the pattern never lengthens the text |
| PyStr.ReplaceIsJoinOfSplit | app.py:96 | `replace` replaces every occurrence: the result is `repl.join(s.split(pat))` |
| PyStr.ReplaceKeepsPrefix | app.py:96 | up to the first occurrence, `replace` copies the text |
| PyStr.ReplaceAbsent | app.py:96 | text without the pattern is returned unchanged |
| PyStr.ReplaceLeading | app.py:96 | a leading occurrence followed by pattern-free text becomes the replacement followed by that text |
| PyStr.ReplaceAfterPrefix | app.py:96 | text before the first occurrence is copied and that occurrence is replaced |
| PyStr.TrimStart | app.py:96 | `lstrip` removes exactly the leading whitespace: the result is a suffix whose first character is not whitespace |
| PyStr.TrimEnd | app.py:96 | `rstrip` removes exactly the trailing whitespace: the result is a prefix whose last character is not whitespace |
| PyStr.Strip | app.py:96-109 | `strip` gives a trimmed slice of the input, with only whitespace cut on either side |
| PyStr.StripTrimmed | app.py:96-109 | stripping text with no whitespace at its ends changes nothing |
| PyStr.StripIdempotent | app.py:96-109 | `strip` is idempotent |
| PyStr.BreakFrom | app.py:95 | the first line boundary at or after `k` |
| PyStr.SplitLines | app.py:95 | `splitlines` is empty exactly for the empty text |
| PyStr.SplitLinesAreLines | app.py:95 | no line `splitlines` yields holds a line boundary |
| PyStr.LineOccursInText | app.py:95-99 | what occurs in a line of the text occurs in the text |
| PyStr.SplitLinesJoin | app.py:103-107 | for `"\n"`-separated text, `"\n".join(s.splitlines())` gives `s` back, up to a final newline |
| PyStr.SplitLinesAfterCrLf | app.py:95 | `"\r\n"` is one boundary: a line followed by it comes first, and the lines of the rest follow it |
| PyStr.SplitLinesOfLine | app.py:95 | text without a boundary is a single line |
| PyStr.SplitLinesAfterNewline | app.py:95 | a line followed by `"\n"` comes first, and the lines of the rest follow it |
| PyStr.IndexOf | app.py:105-108 | `list.index` gives the first equal position, and `None` (the `ValueError`) exactly when the value is absent |
| PyStr.IndexOfFirst | app.py:105 | `list.index` finds a value at the first position that holds it |
| PyStr.FirstContaining | app.py:95 | `next((l for l in lines if pat in l), ...)` picks the first line containing `pat`, and `None` means no line does |
| Parser.ParseResponse | app.py:93-111 | the parser as written is total: both subject and body are stripped in every branch |
| Parser.ParseReply | app.py:93-111 | the corrected parser is total: both parts are stripped in every branch |
| Parser.SubjectLine | app.py:95 | the subject line holds the marker exactly when some line does, and it is either `""` or one of the lines |
| Parser.SubjectText | app.py:96 | the subject taken from a line is stripped and no longer than the line |
| Parser.BodyAfterMarker | app.py:100 | the body after the first `"Body:"` is stripped and shorter than the reply by at least the marker |
| Parser.LinesAfter | app.py:105-107 | the joined lines after the subject line are stripped, and empty when the subject line is last |
| Parser.SubjectFromFirstMarkerLine | app.py:95-96 | the subject is the first marker line with the marker removed, then stripped |
| Parser.SubjectRemovesEveryMarker | app.py:96 | every occurrence of `"Subject:"` on that line is removed: the line is its marker-free pieces joined by the marker, and the subject is those pieces concatenated and stripped |
| Parser.ReplaceCanLeaveMarker | app.py:96 | `replace` makes one pass: `"Sub" + "Subject:" + "ject:" + x` gives `"Subject:" + x`, so a subject can still hold the marker |
| Parser.NoSubjectLine | app.py:95-96 | without `"Subject:"` there is no subject line, the subject line is `""` and the subject is `""` |
| Parser.FirstBodyMarkerAt | app.py:99-100 | in `before + "Body:" + after`, with no marker in `before`, the first marker is right after `before` |
| Parser.BodyAfterFirstBodyMarker | app.py:99-100 | the body is the stripped text after the first `"Body:"`, later markers included, for both parsers |
| Parser.SubjectLineIndexed | app.py:95-107 | without `"Body:"`, `lines.index(subject_line)` finds the subject line itself, so the `ValueError` branch is not taken, and the body is the stripped join of the lines after it |
| Parser.NoMarkersBlankLine | app.py:95-107 | as written, with neither marker, the body is the stripped join of the lines after the first empty line |
| Parser.NoMarkersNoBlankLine | app.py:95-109 | as written, with neither marker and no empty line, the body is the whole reply stripped |
| Parser.ReplyWithoutMarkers | app.py:103-109 | corrected: with neither marker, the result is no subject and the whole reply stripped |
| Parser.ReparseBody | app.py:93-111 | corrected: reparsing a trimmed, marker-free body gives no subject and the same body |
| Parser.ParsersAgree | app.py:93-111 | the two parsers agree unless there is neither a body marker nor a subject line but there is an empty line |
| Parser.EmptyResponse | app.py:93-111 | the empty reply gives an empty subject and body |
| Parser.BlankLineDropsText | app.py:95-107 | as written, the reply `a + "\n\n" + b` without colons parses to `("", strip(b))`, dropping `a`; the corrected parser keeps the whole reply |
| Parser.SubjectTextOfHeader | app.py:96 | the subject of the line `"Subject:" + s` is `strip(s)` when `s` holds no marker |
| Parser.SubjectOnFirstLine | app.py:95-96 | a reply starting with the line `"Subject:" + s` has `strip(s)` as its subject |
| Parser.WellFormedReply | app.py:93-111 | a reply in the requested format, `"Subject:" + s + "\n" + "Body:" + b`, parses to `(strip(s), strip(b))` for both parsers |
| Controller.PlausibleAddress | app.py:182 | the address check passes exactly when the recipient contains both `@` and `.` |
| Controller.SendCheck | app.py:159-166 | Send warns to generate first when subject or body is empty, otherwise asks for a recipient when it is empty, and opens the preview exactly when all three are non-empty |
| Controller.Session.constructor | app.py:34-37 | a new session has an empty subject and body and a closed preview |
| Controller.Session.Generate | app.py:87-89 | a reply replaces the draft by the subject and body `parse_response` gives; a failed completion call leaves the draft; the preview is unchanged; the draft stays trimmed |
| Controller.Session.GenerateCorrected | app.py:87-89 | corrected: the same, with the draft from the corrected parser |
| Controller.Session.PressSend | app.py:159-166 | gives the `SendCheck` notice, opens the preview only for `PreviewOpened`, and leaves the draft alone |
| Controller.Session.PressConfirm | app.py:180-202 | as written: nothing happens with the preview closed; an implausible address gives an error and changes nothing; otherwise the draft goes to the sender; delivery clears the draft; failure keeps it; the preview stays open |
| Controller.Session.PressConfirmThenClose | app.py:185-199 | corrected: as `PressConfirm`, but a delivered mail also closes the preview |
| Controller.Session.PressCancel | app.py:205-206 | closes the preview and leaves the draft alone |
| Controller.ResendAfterSuccess | app.py:180-199 | as written: after Generate, Send and a delivered Confirm, a second Confirm sends a mail with an empty subject and body |
| Controller.NoResendAfterClose | app.py:159-199 | corrected: the second Confirm sends nothing, and Send then asks for a new draft |
| Controller.RetryAfterFailure | app.py:185-202 | after a failed send, the next Confirm sends the same draft again |
| Controller.InvalidAddressKeepsDraft | app.py:159-206 | an implausible address sends nothing; after Cancel and Send with a non-empty address, the preview opens again, and the session still holds the draft `parse_response` gave |

Helper lemmas used by the proofs above, with no row of their own:
`PyStr.ReplaceAtOccurrence`, `PyStr.JoinCons`, `PyStr.LinesAfterFirst`,
`PyStr.IsAtTail`, `PyStr.MismatchNotAt`, `PyStr.MissingCharNotContained`,
`PyStr.SliceOccurrence`, `PyStr.SplitLinesAtNewline`, `PyStr.SplitAround`,
`PyStr.JoinLinesStep`, `PyStr.NewlinesOnlyDrop`, `Parser.NoMarkerAfterPrefix`,
`Parser.BodyMarkerStartsOnce`, `Parser.HeaderIsLine`, `Parser.HeaderHasNoBodyMarker`,
`Parser.SplitOnceAt` and `Parser.FirstSubjectLineFound`.

Helper functions and predicates, with no row of their own:
- `PyStr.FindFrom`: the search from an index that `Find` starts at 0.
- `PyStr.NextLineStart`: where `SplitLines` resumes after a boundary. That `"\r\n"` is one boundary is stated by `PyStr.SplitLinesAfterCrLf`.
- `PyStr.LeadingSpace`: the whitespace `Strip` cuts in front.
- `PyStr.FinalNewline`: the boundary `splitlines` drops at the end.
- `PyStr.IsAt`, `PyStr.IsTrimmed`, `PyStr.IsLine` and `PyStr.NewlinesOnly`: the vocabulary the contracts are written in.
- `Parser.IsFirstSubjectLine`: the first marker line, independent of `FirstContaining`.
- `Controller.Session.Trimmed`: the draft invariant every `Session` method keeps.

## Left out

- The chat-completion call, its client and the prompt templates (app.py:10-11, 42-83) are left out. They are a network call and string interpolation. A reply is an arbitrary `Completion` parameter.
- Gmail sending (app.py:113-145) is left out: OAuth, the token file, MIME and base64 are library calls and I/O. It is a `SendOutcome` parameter.
- Streamlit rendering, the modal widget, spinners, `time.sleep`, the success message naming the recipient, and the displayed draft (app.py:1-32, 147-157, 169-178, 189-193, 211-215) are left out as UI.
- The input widgets are parameters of the button methods: the recipient address is passed to each one.
- Controller.Session.PressConfirm: the Confirm and Cancel buttons exist only while the preview is open. A Confirm with the preview closed is modelled as doing nothing.
- Controller.Session.PressConfirm: this follows a Streamlit where `st.experimental_rerun` exists and raises its control exception. On releases without that function, the `AttributeError` would be caught by `except Exception` and reported as a failed send after the draft was cleared. That case is not modelled.
- PyStr.Replace: an empty pattern is excluded by `requires`. Python then inserts the replacement at both ends and between every two characters (`"abc".replace("", "-")` is `"-a-b-c-"`). The parser only replaces `"Subject:"`.
- PyStr.SplitOnce: an empty separator is excluded by `requires`. Python raises `ValueError` in that case. The parser only splits on `"Body:"`.
- PyStr.SplitAll: an empty separator is excluded for the same reason.
- Python `str` values are sequences of code points. The model treats them as `seq<char>`, with no normalisation.

## Findings

| source | as written | input that shows it | evidently intended | confidence | as-written member | corrected member |
|---|---|---|---|---|---|---|
| app.py:95-107 | with no line holding `"Subject:"`, `subject_line` is `""`, and `lines.index("")` finds the first empty line, so the body drops everything before it | `"Hello there\n\nSee you"` parses to `("", "See you")` | with no subject line the body is the whole reply stripped, as the `ValueError` fallback does | not executed | Parser.BlankLineDropsText | Parser.ReplyWithoutMarkers |
| app.py:193-199 | after a successful send, `st.experimental_rerun()` leaves the handler before `modal.close()`, so the preview stays open on an emptied draft | Generate, Send and Confirm with a delivering sender, then Confirm again: the second Confirm sends a mail with an empty subject and body | a delivered mail closes the preview | not executed | Controller.ResendAfterSuccess | Controller.NoResendAfterClose |
