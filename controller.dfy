/**
 * The draft and send-gating controller: the session holds a generated
 * subject and body and whether the preview dialog is open. "Send" opens the
 * preview when a draft and a recipient exist, "Confirm" hands the draft to
 * the mail sender when the address looks plausible and clears the draft once
 * it was sent, and "Cancel" closes the preview.
 *
 * The language model and the mail sender are outside the model: a completion
 * and a send outcome are given to the methods as parameters.
 */
module Controller {
  import opened Wrappers
  import opened PyStr
  import opened Parser

  /** What the chat-completion call produced: reply text, or an error it raised. */
  datatype Completion = Reply(text: string) | CompletionFailed

  /** What the mail sender did with a request. */
  datatype SendOutcome = Delivered | SendFailed(error: string)

  /** A request handed to the mail sender. */
  datatype Mail = Mail(to: string, subject: string, body: string)

  /** The message a button press shows. */
  datatype Notice =
    | GenerateFirst          // "Please generate an email before sending."
    | EnterRecipient         // "Please enter the recipient's email address."
    | PreviewOpened
    | InvalidAddress         // "Invalid email address. ..."
    | SentOk                 // "Email sent successfully ..."
    | SendError(error: string)
    | NoNotice

  /** The address check before sending: the recipient holds both "@" and ".". */
  predicate PlausibleAddress(recipient: string)
    ensures PlausibleAddress(recipient) <==> '@' in recipient && '.' in recipient
  {
    ContainsChar(recipient, '@');
    ContainsChar(recipient, '.');
    Contains(recipient, "@") && Contains(recipient, ".")
  }

  /** The gate of the "Send" button: which notice a press gives, in the order the checks run. */
  function SendCheck(subject: string, body: string, recipient: string): (n: Notice)
    ensures n == GenerateFirst <==> subject == "" || body == ""
    ensures n == EnterRecipient <==> subject != "" && body != "" && recipient == ""
    ensures n == PreviewOpened <==> subject != "" && body != "" && recipient != ""
    ensures n in {GenerateFirst, EnterRecipient, PreviewOpened}
  {
    if subject == "" || body == "" then GenerateFirst
    else if recipient == "" then EnterRecipient
    else PreviewOpened
  }

  class Session {
    var subject: string
    var body: string
    var previewOpen: bool

    /** Every draft the session holds has no surrounding whitespace. */
    predicate Trimmed()
      reads this
    {
      IsTrimmed(subject) && IsTrimmed(body)
    }

    /** A new session: empty draft, preview closed. */
    constructor ()
      ensures subject == "" && body == "" && !previewOpen
      ensures Trimmed()
    {
      subject := "";
      body := "";
      previewOpen := false;
    }

    /**
     * "Generate" and "Regenerate": a reply replaces the draft by what the
     * parser as written extracts from it; a failed call leaves the draft alone.
     */
    method Generate(reply: Completion)
      requires Trimmed()
      modifies this
      ensures reply.Reply? ==>
        subject == ParseResponse(reply.text).subject && body == ParseResponse(reply.text).body
      ensures reply.CompletionFailed? ==> subject == old(subject) && body == old(body)
      ensures previewOpen == old(previewOpen)
      ensures Trimmed()
    {
      match reply
      case Reply(text) =>
        var email := ParseResponse(text);
        assert IsTrimmed(email.subject) && IsTrimmed(email.body);
        subject, body := email.subject, email.body;
      case CompletionFailed =>
    }

    /**
     * "Generate" with the corrected parser, which keeps the whole reply as the
     * body when no line carries the subject marker.
     */
    method GenerateCorrected(reply: Completion)
      requires Trimmed()
      modifies this
      ensures reply.Reply? ==>
        subject == ParseReply(reply.text).subject && body == ParseReply(reply.text).body
      ensures reply.CompletionFailed? ==> subject == old(subject) && body == old(body)
      ensures previewOpen == old(previewOpen)
      ensures Trimmed()
    {
      match reply
      case Reply(text) =>
        var email := ParseReply(text);
        assert IsTrimmed(email.subject) && IsTrimmed(email.body);
        subject, body := email.subject, email.body;
      case CompletionFailed =>
    }

    /** "Send": opens the preview only when a draft and a recipient exist; the draft is untouched. */
    method PressSend(recipient: string) returns (n: Notice)
      modifies this
      ensures n == SendCheck(old(subject), old(body), recipient)
      ensures n == PreviewOpened ==> previewOpen
      ensures n != PreviewOpened ==> previewOpen == old(previewOpen)
      ensures subject == old(subject) && body == old(body)
    {
      n := SendCheck(subject, body, recipient);
      if n == PreviewOpened {
        previewOpen := true;
      }
    }

    /**
     * "Confirm & Send" as written. It exists only while the preview is open.
     * With an implausible address nothing is sent and nothing changes; with a
     * plausible one the draft goes to the sender, and a delivered mail
     * clears the draft. The preview stays open in every case: the rerun
     * requested after clearing ends the handler before the preview is closed.
     */
    method PressConfirm(recipient: string, outcome: SendOutcome) returns (request: Option<Mail>, n: Notice)
      requires Trimmed()
      modifies this
      ensures !old(previewOpen) ==> request == None && n == NoNotice
      ensures old(previewOpen) && !PlausibleAddress(recipient) ==> request == None && n == InvalidAddress
      ensures old(previewOpen) && PlausibleAddress(recipient) ==>
        request == Some(Mail(recipient, old(subject), old(body)))
      ensures request.Some? && outcome.Delivered? ==> subject == "" && body == "" && n == SentOk
      ensures request.Some? && outcome.SendFailed? ==> n == SendError(outcome.error)
      ensures !(request.Some? && outcome.Delivered?) ==> subject == old(subject) && body == old(body)
      ensures previewOpen == old(previewOpen)
      ensures Trimmed()
    {
      request, n := None, NoNotice;
      if !previewOpen {
        return;
      }
      if !PlausibleAddress(recipient) {
        n := InvalidAddress;
        return;
      }
      request := Some(Mail(recipient, subject, body));
      match outcome
      case Delivered =>
        subject := "";
        body := "";
        n := SentOk;
      case SendFailed(error) =>
        n := SendError(error);
    }

    /**
     * "Confirm & Send" as evidently intended: the same as `PressConfirm`,
     * except that a delivered mail also closes the preview.
     */
    method PressConfirmThenClose(recipient: string, outcome: SendOutcome) returns (request: Option<Mail>, n: Notice)
      requires Trimmed()
      modifies this
      ensures !old(previewOpen) ==> request == None && n == NoNotice
      ensures old(previewOpen) && !PlausibleAddress(recipient) ==> request == None && n == InvalidAddress
      ensures old(previewOpen) && PlausibleAddress(recipient) ==>
        request == Some(Mail(recipient, old(subject), old(body)))
      ensures request.Some? && outcome.Delivered? ==> subject == "" && body == "" && n == SentOk && !previewOpen
      ensures request.Some? && outcome.SendFailed? ==> n == SendError(outcome.error)
      ensures !(request.Some? && outcome.Delivered?) ==>
        subject == old(subject) && body == old(body) && previewOpen == old(previewOpen)
      ensures Trimmed()
    {
      request, n := PressConfirm(recipient, outcome);
      if request.Some? && outcome.Delivered? {
        previewOpen := false;
      }
    }

    /** "Cancel": closes the preview and changes nothing else. */
    method PressCancel()
      modifies this
      ensures !previewOpen
      ensures subject == old(subject) && body == old(body)
    {
      previewOpen := false;
    }
  }

  /**
   * Generate, Send, then Confirm twice with a delivering sender, as written:
   * the first Confirm sends the draft, and because the preview stayed open
   * the second sends a mail whose subject and body are empty.
   */
  method ResendAfterSuccess(reply: string, recipient: string) returns (first: Option<Mail>, second: Option<Mail>)
    requires ParseResponse(reply).subject != "" && ParseResponse(reply).body != ""
    requires PlausibleAddress(recipient)
    ensures first == Some(Mail(recipient, ParseResponse(reply).subject, ParseResponse(reply).body))
    ensures second == Some(Mail(recipient, "", ""))
  {
    var session := new Session();
    session.Generate(Reply(reply));
    var n := session.PressSend(recipient);
    first, n := session.PressConfirm(recipient, Delivered);
    second, n := session.PressConfirm(recipient, Delivered);
  }

  /**
   * The same presses with the corrected Confirm: the second Confirm finds
   * the preview closed and sends nothing, and Send then asks for a new draft.
   */
  method NoResendAfterClose(reply: string, recipient: string) returns (first: Option<Mail>, second: Option<Mail>, again: Notice)
    requires ParseResponse(reply).subject != "" && ParseResponse(reply).body != ""
    requires PlausibleAddress(recipient)
    ensures first == Some(Mail(recipient, ParseResponse(reply).subject, ParseResponse(reply).body))
    ensures second == None
    ensures again == GenerateFirst
  {
    var session := new Session();
    session.Generate(Reply(reply));
    var n := session.PressSend(recipient);
    first, n := session.PressConfirmThenClose(recipient, Delivered);
    second, n := session.PressConfirmThenClose(recipient, Delivered);
    again := session.PressSend(recipient);
  }

  /**
   * A failed send keeps the draft: after Generate, Send and a failing
   * Confirm, a second Confirm sends the same draft again.
   */
  method RetryAfterFailure(reply: string, recipient: string, error: string) returns (first: Option<Mail>, second: Option<Mail>, n: Notice)
    requires ParseResponse(reply).subject != "" && ParseResponse(reply).body != ""
    requires PlausibleAddress(recipient)
    ensures first == Some(Mail(recipient, ParseResponse(reply).subject, ParseResponse(reply).body))
    ensures second == first
    ensures n == SentOk
  {
    var session := new Session();
    session.Generate(Reply(reply));
    n := session.PressSend(recipient);
    first, n := session.PressConfirm(recipient, SendFailed(error));
    second, n := session.PressConfirm(recipient, Delivered);
  }

  /**
   * An implausible address sends nothing and keeps the draft, so Cancel
   * followed by Send with the address fixed opens the preview again, on the
   * draft that was generated.
   */
  method InvalidAddressKeepsDraft(reply: string, bad: string, good: string)
    returns (request: Option<Mail>, n: Notice, draft: ParsedEmail)
    requires ParseResponse(reply).subject != "" && ParseResponse(reply).body != ""
    requires bad != "" && !PlausibleAddress(bad) && good != ""
    ensures request == None
    ensures n == PreviewOpened
    ensures draft == ParseResponse(reply)
  {
    var session := new Session();
    session.Generate(Reply(reply));
    n := session.PressSend(bad);
    request, n := session.PressConfirm(bad, Delivered);
    session.PressCancel();
    n := session.PressSend(good);
    draft := ParsedEmail(session.subject, session.body);
  }
}
