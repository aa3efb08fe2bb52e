/**
 * The REST endpoints under `/api/email`.  Each endpoint either answers with
 * an HTTP status and a text (a `ResponseEntity` or a `ResponseStatusException`
 * the controller raises itself), or lets a service exception escape, which
 * the framework turns into a 500 response.  Every service call goes through
 * the validating proxy; required request parameters are present.
 */
module EmailController {
  import opened Wrappers
  import opened Errors
  import opened EmailService
  import opened BeanValidation
  import opened Text
  import Base64

  datatype Reply = Answer(status: int, text: string) | Uncaught(exc: Exc)

  /** The HTTP status the client sees. */
  function HttpStatus(r: Reply): (code: int)
    ensures r.Answer? ==> code == r.status
    ensures r.Uncaught? ==> code == 500
  {
    match r
    case Answer(status, _) => status
    case Uncaught(_) => 500
  }

  const InvalidRecipient := "Invalid recipient email address."
  const NoSuchUser := "No user found with that email address."

  const SendFailed := "Failed to send email. Please try again later."

  /** POST /send: the address is checked by the service's pattern first
   *  (400); then the proxied service call, where any exception, a violated
   *  parameter constraint included, becomes a 500 with a fixed text. */
  function Send(m: Mailer, isEmail: string -> bool, recipient: string, subject: string, body: string, copies: Copies,
                table: EntityTable, emailId: string, failure: Option<string>): (out: (Mailer, Reply))
    ensures !IsValidEmail(Some(recipient)) ==> out == (m, Answer(400, InvalidRecipient))
    ensures IsValidEmail(Some(recipient)) && !MessageArgsValid(isEmail, Some(recipient), Some(subject), Some(body), copies) ==>
              out == (m, Answer(500, SendFailed))
    ensures out.1 == Answer(200, "Email sent successfully.") <==>
              && IsValidEmail(Some(recipient)) && MessageArgsValid(isEmail, Some(recipient), Some(subject), Some(body), copies)
              && Sanitize(Some(subject), table).Ok? && Sanitize(Some(body), table).Ok? && failure.None?
    ensures out.1 == Answer(200, "Email sent successfully.") ==> |out.0.outbox| == |m.outbox| + 1
    ensures IsValidEmail(Some(recipient)) && out.1 != Answer(200, "Email sent successfully.") ==>
              out.1 == Answer(500, SendFailed) && out.0.outbox == m.outbox
  {
    if !IsValidEmail(Some(recipient)) then (m, Answer(400, InvalidRecipient))
    else
      var d := ProxiedSendEmail(m, isEmail, Some(recipient), Some(subject), Some(body), copies, table, emailId, failure);
      if d.error.Some? then (d.mailer, Answer(500, SendFailed))
      else (d.mailer, Answer(200, "Email sent successfully."))
  }

  /** An address both patterns accept, two texts with a visible character
   *  that are not all Java whitespace, and well-formed copies: the mail is
   *  sent exactly when the server accepts it. */
  lemma SendSucceedsOnWellFormedInput(m: Mailer, isEmail: string -> bool, recipient: string, subject: string, body: string,
                                      copies: Copies, table: EntityTable, emailId: string, failure: Option<string>)
    requires IsValidEmail(Some(recipient)) && isEmail(recipient) && CopiesValid(isEmail, copies)
    requires !IsJavaBlank(subject) && !IsJavaBlank(body)
    requires exists i | 0 <= i < |subject| :: subject[i] > ' '
    requires exists i | 0 <= i < |body| :: body[i] > ' '
    ensures Send(m, isEmail, recipient, subject, body, copies, table, emailId, failure).1.status == 200 <==> failure.None?
  {
    ValidEmailNotBlank(recipient);
    NotBlankIffVisibleCharacter(subject);
    NotBlankIffVisibleCharacter(body);
    SanitizeIsEscapedDeletion(subject, table);
    SanitizeIsEscapedDeletion(body, table);
  }

  /** Whether the proxy accepts `email` as the recipient of a mail to a
   *  registered user. */
  predicate RecipientAccepted(isEmail: string -> bool, email: string)
  {
    NotBlank(Some(email)) && EmailShaped(isEmail, Some(email))
  }

  /** POST /forgot-password: an unknown address is a 404; otherwise a token is
   *  generated from `random` and mailed through the proxy, and a service
   *  exception escapes uncaught.  `registered` is the user store's
   *  `existsByEmail`. */
  function ForgotPassword(m: Mailer, isEmail: string -> bool, registered: string -> bool, email: string,
                          random: seq<Base64.Byte>, table: EntityTable, emailId: string,
                          failure: Option<string>): (out: (Mailer, Reply))
    requires |random| == 32
    ensures !registered(email) ==> out == (m, Answer(404, NoSuchUser))
    ensures registered(email) && !RecipientAccepted(isEmail, email) ==>
              out == (m, Uncaught(Violation("sendPasswordResetEmail")))
    ensures registered(email) && RecipientAccepted(isEmail, email) ==>
              var d := SendPasswordResetEmail(m, Some(email), GeneratePasswordResetToken(random), table, emailId, failure);
              && out.0 == d.mailer
              && (d.error.None? ==> out.1 == Answer(200, "Password reset email sent successfully."))
              && (d.error.Some? ==> out.1 == Uncaught(d.error.value))
  {
    if !registered(email) then (m, Answer(404, NoSuchUser))
    else
      var token := GeneratePasswordResetToken(random);
      ResetTokenNotBlank(random);
      var d := ProxiedSendPasswordResetEmail(m, isEmail, Some(email), token, table, emailId, failure);
      if d.error.Some? then (d.mailer, Uncaught(d.error.value))
      else (d.mailer, Answer(200, "Password reset email sent successfully."))
  }

  /** A registered address that either pattern rejects makes the reset
   *  endpoint fail with a server error rather than a client error, with
   *  nothing sent or recorded: the proxy refuses what `@Email` rejects, the
   *  service what its own pattern rejects. */
  lemma ForgotPasswordInvalidRegisteredAddress(m: Mailer, isEmail: string -> bool, registered: string -> bool, email: string,
                                               random: seq<Base64.Byte>, table: EntityTable, emailId: string,
                                               failure: Option<string>)
    requires |random| == 32 && registered(email) && !(IsValidEmail(Some(email)) && isEmail(email))
    ensures var out := ForgotPassword(m, isEmail, registered, email, random, table, emailId, failure);
            && out.0 == m && HttpStatus(out.1) == 500
            && out.1 == Uncaught(if RecipientAccepted(isEmail, email) then Exc(IllegalArgument, InvalidAddress)
                                 else Violation("sendPasswordResetEmail"))
  {
  }

  /** POST /resend-confirmation: as the reset endpoint, with the confirmation mail. */
  function ResendConfirmation(m: Mailer, isEmail: string -> bool, registered: string -> bool, email: string,
                              table: EntityTable, emailId: string, failure: Option<string>): (out: (Mailer, Reply))
    ensures !registered(email) ==> out == (m, Answer(404, NoSuchUser))
    ensures registered(email) && !RecipientAccepted(isEmail, email) ==>
              out == (m, Uncaught(Violation("resendConfirmationEmail")))
    ensures registered(email) && RecipientAccepted(isEmail, email) ==>
              var d := ResendConfirmationEmail(m, Some(email), table, emailId, failure);
              && out.0 == d.mailer
              && (d.error.None? ==> out.1 == Answer(200, "Confirmation email resent successfully."))
              && (d.error.Some? ==> out.1 == Uncaught(d.error.value))
  {
    if !registered(email) then (m, Answer(404, NoSuchUser))
    else
      var d := ProxiedResendConfirmationEmail(m, isEmail, Some(email), table, emailId, failure);
      if d.error.Some? then (d.mailer, Uncaught(d.error.value))
      else (d.mailer, Answer(200, "Confirmation email resent successfully."))
  }

  /** For a registered address both patterns accept, both endpoints answer
   *  200 exactly when the mail server accepts the mail, and a 500
   *  otherwise; the outcome is recorded under the message id either way. */
  lemma RegisteredAddressAnswers(m: Mailer, isEmail: string -> bool, registered: string -> bool, email: string,
                                 random: seq<Base64.Byte>, table: EntityTable, emailId: string, failure: Option<string>)
    requires |random| == 32 && registered(email) && IsValidEmail(Some(email)) && isEmail(email)
    ensures var out := ForgotPassword(m, isEmail, registered, email, random, table, emailId, failure);
            && (HttpStatus(out.1) == 200 <==> failure.None?)
            && (HttpStatus(out.1) != 200 ==> HttpStatus(out.1) == 500)
            && emailId in out.0.statuses
    ensures var out := ResendConfirmation(m, isEmail, registered, email, table, emailId, failure);
            && (HttpStatus(out.1) == 200 <==> failure.None?)
            && (HttpStatus(out.1) != 200 ==> HttpStatus(out.1) == 500)
            && emailId in out.0.statuses
  {
    ResetEndpointAnswers(m, isEmail, registered, email, random, table, emailId, failure);
    ConfirmationEndpointAnswers(m, isEmail, registered, email, table, emailId, failure);
  }

  lemma ResetEndpointAnswers(m: Mailer, isEmail: string -> bool, registered: string -> bool, email: string,
                             random: seq<Base64.Byte>, table: EntityTable, emailId: string, failure: Option<string>)
    requires |random| == 32 && registered(email) && IsValidEmail(Some(email)) && isEmail(email)
    ensures var out := ForgotPassword(m, isEmail, registered, email, random, table, emailId, failure);
            && (HttpStatus(out.1) == 200 <==> failure.None?)
            && (HttpStatus(out.1) != 200 ==> HttpStatus(out.1) == 500)
            && emailId in out.0.statuses
  {
    ValidEmailNotBlank(email);
    ResetMailFailsOnlyInTransport(m, email, GeneratePasswordResetToken(random), table, emailId, failure);
  }

  lemma ConfirmationEndpointAnswers(m: Mailer, isEmail: string -> bool, registered: string -> bool, email: string,
                                    table: EntityTable, emailId: string, failure: Option<string>)
    requires registered(email) && IsValidEmail(Some(email)) && isEmail(email)
    ensures var out := ResendConfirmation(m, isEmail, registered, email, table, emailId, failure);
            && (HttpStatus(out.1) == 200 <==> failure.None?)
            && (HttpStatus(out.1) != 200 ==> HttpStatus(out.1) == 500)
            && emailId in out.0.statuses
  {
    ValidEmailNotBlank(email);
    ConfirmationMailFailsOnlyInTransport(m, email, table, emailId, failure);
  }

  /** POST /send-bulk: an empty list is a 400; otherwise the proxied
   *  service runs and the answer is 200 however many individual sends
   *  failed.  A malformed recipient or a blank text escapes uncaught with
   *  nothing sent. */
  method SendBulk(m: Mailer, isEmail: string -> bool, recipients: seq<string>, subject: string, body: string,
                  table: EntityTable, ids: nat -> string, transport: nat -> Option<string>)
    returns (mailer: Mailer, reply: Reply)
    ensures recipients == [] ==> mailer == m && reply == Answer(400, "Recipient list cannot be empty.")
    ensures recipients != [] && !BulkArgsValid(isEmail, Some(recipients), Some(subject), Some(body)) ==>
              mailer == m && reply == Uncaught(Violation("sendBulkEmail"))
    ensures BulkArgsValid(isEmail, Some(recipients), Some(subject), Some(body)) ==>
              if Sanitize(Some(subject), table).Ok? && Sanitize(Some(body), table).Ok? then
                reply == Answer(200, "Bulk email sent successfully.")
                && |mailer.outbox| <= |m.outbox| + |ValidRecipients(recipients)|
                && var s2 := SanitizedTwice(Some(subject), table);
                && var b2 := SanitizedTwice(Some(body), table);
                && (s2.Ok? && b2.Ok? ==>
                      mailer.outbox == m.outbox + AcceptedMails(ValidRecipients(recipients), s2.value, b2.value,
                                                                transport, |ValidRecipients(recipients)|))
                && (!(s2.Ok? && b2.Ok?) ==> mailer.outbox == m.outbox)
              else
                mailer == m && reply == Uncaught(Exc(IllegalArgument, BlankInput))
  {
    if recipients == [] {
      return m, Answer(400, "Recipient list cannot be empty.");
    }
    var r := ProxiedSendBulkEmail(m, isEmail, Some(recipients), Some(subject), Some(body), table, ids, transport);
    if r.Err? {
      return m, Uncaught(r.error);
    }
    return r.value.mailer, Answer(200, "Bulk email sent successfully.");
  }

  /** GET /status/{emailId} as written: the controller answers 404 when the
   *  service returns null, but the service never does (an unknown id gives
   *  "UNKNOWN"); a blank id is refused by the proxy and escapes as a 500. */
  function StatusAsWritten(m: Mailer, emailId: string): (r: Reply)
    ensures !NotBlank(Some(emailId)) ==> r == Uncaught(Violation("getEmailStatus"))
    ensures NotBlank(Some(emailId)) ==> r == Answer(200, "Email status: " + GetEmailStatus(m, emailId))
  {
    match ProxiedGetEmailStatus(m, Some(emailId))
    case Err(e) => Uncaught(e)
    case Ok(status) => Answer(200, "Email status: " + status)
  }

  /** No id is ever answered 404; an unknown non-blank one is answered 200
   *  UNKNOWN. */
  lemma StatusNeverNotFound(m: Mailer, emailId: string)
    ensures HttpStatus(StatusAsWritten(m, emailId)) in {200, 500}
    ensures emailId !in m.statuses && NotBlank(Some(emailId)) ==>
              StatusAsWritten(m, emailId) == Answer(200, "Email status: UNKNOWN")
  {
  }

  /** GET /status/{emailId} as intended: 404 exactly for a non-blank id the
   *  service has no record of. */
  function Status(m: Mailer, emailId: string): (r: Reply)
    ensures HttpStatus(r) == 404 <==> NotBlank(Some(emailId)) && emailId !in m.statuses
    ensures !NotBlank(Some(emailId)) ==> r == StatusAsWritten(m, emailId)
    ensures NotBlank(Some(emailId)) && emailId !in m.statuses ==> r == Answer(404, "Email not found.")
    ensures NotBlank(Some(emailId)) && emailId in m.statuses ==> r == Answer(200, "Email status: " + m.statuses[emailId])
  {
    match ProxiedGetEmailStatus(m, Some(emailId))
    case Err(e) => Uncaught(e)
    case Ok(status) =>
      if emailId !in m.statuses then Answer(404, "Email not found.")
      else Answer(200, "Email status: " + status)
  }

  /** A multipart upload: its file name and its bytes, or `None` when reading
   *  them fails. */
  datatype Upload = Upload(name: string, content: Option<seq<Base64.Byte>>)

  predicate AllReadable(uploads: seq<Upload>)
  {
    forall i | 0 <= i < |uploads| :: uploads[i].content.Some?
  }

  /** The largest index before `n` whose upload is named `name`. */
  function LastNamed(uploads: seq<Upload>, name: string, n: nat): (k: int)
    requires n <= |uploads|
    ensures -1 <= k < n
    ensures k >= 0 ==> uploads[k].name == name
    ensures forall j | k < j < n :: uploads[j].name != name
  {
    if n == 0 then -1
    else if uploads[n - 1].name == name then n - 1
    else LastNamed(uploads, name, n - 1)
  }

  /** The controller's file-name-to-bytes map: a later upload with the same
   *  name replaces an earlier one. */
  function AttachmentMap(uploads: seq<Upload>): (r: map<string, seq<Base64.Byte>>)
    requires AllReadable(uploads)
    ensures forall name :: name in r <==> LastNamed(uploads, name, |uploads|) >= 0
    ensures forall name | name in r :: r[name] == uploads[LastNamed(uploads, name, |uploads|)].content.value
  {
    if uploads == [] then map[]
    else
      var init := uploads[..|uploads| - 1];
      var last := uploads[|uploads| - 1];
      assert AllReadable(init);
      assert forall name :: LastNamed(uploads, name, |uploads| - 1) == LastNamed(init, name, |init|) by {
        forall name ensures LastNamed(uploads, name, |uploads| - 1) == LastNamed(init, name, |init|) {
          LastNamedPrefix(uploads, init, name, |init|);
        }
      }
      AttachmentMap(init)[last.name := last.content.value]
  }

  lemma {:induction false} LastNamedPrefix(uploads: seq<Upload>, init: seq<Upload>, name: string, n: nat)
    requires n <= |init| <= |uploads| && init == uploads[..|init|]
    ensures LastNamed(uploads, name, n) == LastNamed(init, name, n)
  {
    if n > 0 {
      assert uploads[n - 1] == init[n - 1];
      LastNamedPrefix(uploads, init, name, n - 1);
    }
  }

  const AttachmentsUnreadable := "Failed to process attachments."

  const AttachmentSendFailed := "Failed to send email with attachments. Please try again later."

  /** POST /send-with-attachment: the address check (400), then reading every
   *  upload (400 if one cannot be read, before anything is sent), then the
   *  proxied service (500 on any exception).  `rejected` is the attachment
   *  the message builder refuses, if any. */
  function SendWithAttachment(m: Mailer, isEmail: string -> bool, recipient: string, subject: string, body: string,
                              copies: Copies, uploads: seq<Upload>, table: EntityTable, emailId: string,
                              rejected: Option<string>, failure: Option<string>): (out: (Mailer, Reply))
    ensures !IsValidEmail(Some(recipient)) ==> out == (m, Answer(400, InvalidRecipient))
    ensures IsValidEmail(Some(recipient)) && !AllReadable(uploads) ==> out == (m, Answer(400, AttachmentsUnreadable))
    ensures rejected.Some? ==> out.1 != Answer(200, "Email with attachments sent successfully.")
    ensures IsValidEmail(Some(recipient)) && AllReadable(uploads) &&
            !MessageArgsValid(isEmail, Some(recipient), Some(subject), Some(body), copies) ==>
              out == (m, Answer(500, AttachmentSendFailed))
    ensures IsValidEmail(Some(recipient)) && AllReadable(uploads) &&
            MessageArgsValid(isEmail, Some(recipient), Some(subject), Some(body), copies) ==>
              var d := SendEmailWithAttachment(m, Some(recipient), Some(subject), Some(body), table, emailId, rejected, failure);
              && out.0 == d.mailer
              && (d.error.None? ==> out.1 == Answer(200, "Email with attachments sent successfully."))
              && (d.error.Some? ==> out.1 == Answer(500, AttachmentSendFailed))
  {
    if !IsValidEmail(Some(recipient)) then (m, Answer(400, InvalidRecipient))
    else if !AllReadable(uploads) then (m, Answer(400, AttachmentsUnreadable))
    else
      var d := ProxiedSendEmailWithAttachment(m, isEmail, Some(recipient), Some(subject), Some(body), copies,
                                              table, emailId, rejected, failure);
      if d.error.Some? then (d.mailer, Answer(500, AttachmentSendFailed))
      else (d.mailer, Answer(200, "Email with attachments sent successfully."))
  }

  const ScheduleFailed := "Failed to schedule email. Please try again later."

  /** POST /schedule: the address check, then a send time before `now` (the
   *  controller's clock) is a 400; otherwise the proxied service call at
   *  `later`, whose refusal (a send time not after `later`, say) becomes a
   *  500.  The scheduled send itself runs afterwards and its failure is
   *  only logged. */
  function Schedule(isEmail: string -> bool, recipient: string, subject: string, body: string, copies: Copies,
                    sendTime: int, now: int, later: int): (out: (Option<Timing>, Reply))
    ensures !IsValidEmail(Some(recipient)) ==> out == (None, Answer(400, InvalidRecipient))
    ensures IsValidEmail(Some(recipient)) && sendTime < now ==>
              out == (None, Answer(400, "Scheduled time must be in the future."))
    ensures IsValidEmail(Some(recipient)) && sendTime >= now ==>
              if MessageArgsValid(isEmail, Some(recipient), Some(subject), Some(body), copies) && sendTime > later then
                && out.1 == Answer(200, "Email scheduled successfully.")
                && out.0 == Some(Timing(sendTime - later, false))
              else
                out == (None, Answer(500, ScheduleFailed))
  {
    if !IsValidEmail(Some(recipient)) then (None, Answer(400, InvalidRecipient))
    else if sendTime < now then (None, Answer(400, "Scheduled time must be in the future."))
    else match ProxiedScheduleEmail(isEmail, Some(recipient), Some(subject), Some(body), copies, Some(sendTime), later)
      case Err(_) => (None, Answer(500, ScheduleFailed))
      case Ok(timing) => (Some(timing), Answer(200, "Email scheduled successfully."))
  }

  /** A send time equal to the controller's instant passes its own check
   *  but not the proxy's `@Future` a moment later: a 500, not a 400. */
  lemma ScheduleAtNowFails(isEmail: string -> bool, recipient: string, subject: string, body: string, copies: Copies,
                           now: int, later: int)
    requires IsValidEmail(Some(recipient)) && now <= later
    ensures Schedule(isEmail, recipient, subject, body, copies, now, now, later) == (None, Answer(500, ScheduleFailed))
  {
  }

  /** Nothing the endpoint schedules logs the service's past-time warning:
   *  that branch is unreachable through the controller. */
  lemma ScheduleNeverWarns(isEmail: string -> bool, recipient: string, subject: string, body: string, copies: Copies,
                           sendTime: int, now: int, later: int)
    ensures var out := Schedule(isEmail, recipient, subject, body, copies, sendTime, now, later);
            out.0.Some? ==> !out.0.value.warnedPast && out.1.status == 200
  {
  }
}
