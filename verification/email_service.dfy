/**
 * The mail service of the backend: address validation, input sanitising,
 * the per-message status map, bulk sending with success/failure accounting,
 * the password-reset token and the scheduling delay.
 *
 * Mail transport is an oracle: for each delivery attempt it says whether the
 * mail server accepted the message (`None`) or the exception message it
 * failed with (`Some(m)`).  Message identifiers (random UUIDs) are supplied
 * the same way.  Messages that were handed to the server are recorded in an
 * outbox.
 */
module EmailService {
  import opened Wrappers
  import opened Text
  import opened Errors
  import Base64
  import opened Seqs
  import opened BeanValidation

  // ----- address validation -----

  /** The character class `[A-Za-z0-9+_.-]` of the local part. */
  predicate IsLocalChar(c: char)
  {
    ('A' <= c <= 'Z') || ('a' <= c <= 'z') || ('0' <= c <= '9') || c == '+' || c == '_' || c == '.' || c == '-'
  }

  /** The characters a Java regex `.` does not match without DOTALL. */
  predicate IsLineTerminator(c: char)
  {
    c == '\n' || c == '\r' || c as int == 0x85 || c as int == 0x2028 || c as int == 0x2029
  }

  /** `s` matches `^[A-Za-z0-9+_.-]+@(.+)$` with the `@` at index `k`: the
   *  reading of the pattern the regex engine is asked to find. */
  predicate SplitsAt(s: string, k: int)
  {
    && 0 < k && k + 1 < |s| && s[k] == '@'
    && (forall i | 0 <= i < k :: IsLocalChar(s[i]))
    && (forall i | k < i < |s| :: !IsLineTerminator(s[i]))
  }

  /** The number of leading local-part characters. */
  function LocalPartLength(s: string): (k: nat)
    ensures k <= |s|
    ensures forall i | 0 <= i < k :: IsLocalChar(s[i])
    ensures k < |s| ==> !IsLocalChar(s[k])
  {
    if s != [] && IsLocalChar(s[0]) then 1 + LocalPartLength(s[1..]) else 0
  }

  /** Whole-string match of the address pattern, decided without search: the
   *  local-part class excludes `@`, so the only possible split is right after
   *  the longest run of local-part characters. */
  predicate MatchesAddressPattern(s: string)
  {
    SplitsAt(s, LocalPartLength(s))
  }

  lemma AddressPatternIsRegex(s: string)
    ensures MatchesAddressPattern(s) <==> exists k :: SplitsAt(s, k)
  {
    if exists k :: SplitsAt(s, k) {
      var k :| SplitsAt(s, k);
      var n := LocalPartLength(s);
      if n < k { assert IsLocalChar(s[n]); }
      if n > k { assert IsLocalChar(s[k]); }
    }
  }

  /** `isValidEmail`: non-null and matching the pattern. */
  predicate IsValidEmail(email: Option<string>)
  {
    email.Some? && MatchesAddressPattern(email.value)
  }

  /** Pins down `LocalPartLength` by where the first non-local character is. */
  lemma {:induction false} LocalPartLengthIs(s: string, k: nat)
    requires k <= |s|
    requires forall i | 0 <= i < k :: IsLocalChar(s[i])
    requires k < |s| ==> !IsLocalChar(s[k])
    ensures LocalPartLength(s) == k
  {
    if k > 0 {
      LocalPartLengthIs(s[1..], k - 1);
    }
  }

  lemma ValidEmailExample()
    ensures IsValidEmail(Some("valid@example.com"))
  {
    var good := "valid@example.com";
    assert forall i | 0 <= i < 5 :: IsLocalChar(good[i]);
    assert good[5] == '@';
    assert forall i | 5 < i < |good| :: !IsLineTerminator(good[i]);
    assert SplitsAt(good, 5);
    AddressPatternIsRegex(good);
  }

  lemma InvalidEmailExample()
    ensures !IsValidEmail(Some("bad-email"))
    ensures !IsValidEmail(None)
  {
    var bad := "bad-email";
    assert forall i | 0 <= i < 9 :: IsLocalChar(bad[i]);
    LocalPartLengthIs(bad, 9);
  }

  // ----- sanitising -----

  /** The characters `sanitizeInput` deletes: `[<>"'%;()&+]`. */
  const Stripped: set<char> := {'<', '>', '"', '\'', '%', ';', '(', ')', '&', '+'}

  /** `escapeHtml4`'s named entities beyond the four basic ones: a table from
   *  a non-ASCII character to its entity name. */
  type EntityTable = map<char, string>

  predicate IsAlphanumeric(c: char)
  {
    ('A' <= c <= 'Z') || ('a' <= c <= 'z') || ('0' <= c <= '9')
  }

  /** The shape of the HTML 4.0 entity table: only non-ASCII characters, and
   *  entity names made of letters and digits. */
  predicate ValidEntityTable(table: EntityTable)
  {
    forall c | c in table :: c as int >= 0x80 && table[c] != [] && forall j | 0 <= j < |table[c]| :: IsAlphanumeric(table[c][j])
  }

  /** `s` has no occurrence of `c`. */
  predicate Avoids(s: string, c: char)
  {
    forall i | 0 <= i < |s| :: s[i] != c
  }

  lemma AvoidsConcat(a: string, b: string, c: char)
    requires Avoids(a, c) && Avoids(b, c)
    ensures Avoids(a + b, c)
  {
    assert forall i | |a| <= i < |a + b| :: (a + b)[i] == b[i - |a|];
  }

  /** A character `escapeHtml4` passes through unchanged. */
  predicate NeedsNoEscape(c: char, table: EntityTable)
  {
    c != '&' && c != '<' && c != '>' && c != '"' && c !in table
  }

  function EscapeChar(c: char, table: EntityTable): (r: string)
    ensures |r| >= 1
    ensures NeedsNoEscape(c, table) ==> r == [c]
    ensures ValidEntityTable(table) ==> Avoids(r, '<') && Avoids(r, '>') && Avoids(r, '"')
    ensures ValidEntityTable(table) && c != '\'' ==> Avoids(r, '\'')
  {
    if c == '&' then "&amp;"
    else if c == '<' then "&lt;"
    else if c == '>' then "&gt;"
    else if c == '"' then "&quot;"
    else if c in table then "&" + table[c] + ";"
    else [c]
  }

  /** commons-text `StringEscapeUtils.escapeHtml4`: text needing no escape is
   *  returned as it is; the result never holds `<`, `>` or `"`, and holds an
   *  apostrophe only if the input did (HTML 4 has no entity for it). */
  function EscapeHtml4(s: string, table: EntityTable): (r: string)
    ensures |r| >= |s| && (r == [] <==> s == [])
    ensures (forall i | 0 <= i < |s| :: NeedsNoEscape(s[i], table)) ==> r == s
    ensures ValidEntityTable(table) ==> Avoids(r, '<') && Avoids(r, '>') && Avoids(r, '"')
    ensures ValidEntityTable(table) && Avoids(s, '\'') ==> Avoids(r, '\'')
  {
    if s == [] then []
    else
      var head := EscapeChar(s[0], table);
      var rest := EscapeHtml4(s[1..], table);
      assert s == [s[0]] + s[1..];
      if ValidEntityTable(table) then
        AvoidsConcat(head, rest, '<');
        AvoidsConcat(head, rest, '>');
        AvoidsConcat(head, rest, '"');
        if Avoids(s, '\'') then
          assert s[0] != '\'';
          AvoidsConcat(head, rest, '\'');
          head + rest
        else head + rest
      else head + rest
  }

  /** With the HTML 4.0 table, ASCII text other than `& < > "` needs no escape. */
  lemma AsciiNeedsNoEscape(c: char, table: EntityTable)
    requires ValidEntityTable(table)
    requires c as int < 0x80 && c != '&' && c != '<' && c != '>' && c != '"'
    ensures NeedsNoEscape(c, table)
  {
  }

  const BlankInput := "Input cannot be null or empty."

  /** The text `sanitizeInput` hands to the escaper: the ten characters
   *  deleted, then Java-trimmed. */
  function Stripped10(s: string): (r: string)
    ensures forall i | 0 <= i < |r| :: r[i] !in Stripped && r[i] in s
    ensures r == [] || (r[0] > ' ' && r[|r| - 1] > ' ')
    ensures r == [] <==> forall i | 0 <= i < |s| :: s[i] in Stripped || s[i] <= ' '
  {
    var kept := RemoveAll(s, Stripped);
    var trimmed := JavaTrim(kept);
    RemoveAllSlice(s, Stripped, TrimOffset(kept, IsJavaTrimmable), trimmed);
    KeptAllTrimmable(s, kept);
    trimmed
  }

  /** What survives the deletion is all trimmable exactly when every
   *  character of the input is either deleted or trimmable. */
  lemma KeptAllTrimmable(s: string, kept: string)
    requires kept == RemoveAll(s, Stripped)
    ensures (forall i | 0 <= i < |kept| :: kept[i] <= ' ') <==> forall i | 0 <= i < |s| :: s[i] in Stripped || s[i] <= ' '
  {
    if forall i | 0 <= i < |kept| :: kept[i] <= ' ' {
      forall i | 0 <= i < |s| ensures s[i] in Stripped || s[i] <= ' ' {
        if s[i] !in Stripped {
          RemoveAllCounts(s, Stripped);
          assert s[i] in multiset(s);
          assert s[i] in multiset(kept);
          var k :| 0 <= k < |kept| && kept[k] == s[i];
        }
      }
    }
  }

  /** `sanitizeInput`: null or blank is rejected; otherwise the ten characters
   *  are deleted, the rest trimmed and HTML-escaped. */
  function Sanitize(input: Option<string>, table: EntityTable): (r: Result<string, Exc>)
    ensures r.Err? <==> input.None? || IsJavaBlank(input.value)
    ensures r.Err? ==> r.error == Exc(IllegalArgument, BlankInput)
    ensures r.Ok? && ValidEntityTable(table) ==>
              Avoids(r.value, '<') && Avoids(r.value, '>') && Avoids(r.value, '"') && Avoids(r.value, '\'')
    ensures r.Ok? ==>
              (r.value == [] <==> forall i | 0 <= i < |input.value| :: input.value[i] in Stripped || input.value[i] <= ' ')
  {
    if input.None? || IsJavaBlank(input.value) then Err(Exc(IllegalArgument, BlankInput))
    else
      var clean := Stripped10(input.value);
      assert '\'' in Stripped;
      Ok(EscapeHtml4(clean, table))
  }

  /** `sanitizeInput` in full: a blank input is refused, anything else is
   *  the HTML escape of the Java-trimmed text left after deleting the ten
   *  characters. */
  lemma SanitizeIsEscapedDeletion(s: string, table: EntityTable)
    ensures Sanitize(Some(s), table)
              == if IsJavaBlank(s) then Err(Exc(IllegalArgument, BlankInput))
                 else Ok(EscapeHtml4(JavaTrim(RemoveAll(s, Stripped)), table))
  {
  }

  predicate IsAscii(s: string)
  {
    forall i | 0 <= i < |s| :: s[i] as int < 0x80
  }

  /** Text made of ASCII characters that are not deleted, with no trimmable
   *  character at either end, passes `sanitizeInput` unchanged. */
  lemma SanitizeFixesPlainText(s: string, table: EntityTable)
    requires ValidEntityTable(table)
    requires s != [] && s[0] > ' ' && s[|s| - 1] > ' '
    requires forall i | 0 <= i < |s| :: s[i] as int < 0x80 && s[i] !in Stripped
    ensures Sanitize(Some(s), table) == Ok(s)
  {
    assert !IsJavaBlank(s) by {
      assert !IsJavaWhitespace(s[0]);
    }
    assert Stripped10(s) == s by {
      RemoveAllNothingToRemove(s, Stripped);
      TrimOneSided(s);
    }
    assert EscapeHtml4(s, table) == s by {
      forall i | 0 <= i < |s| ensures NeedsNoEscape(s[i], table) {
        AsciiNeedsNoEscape(s[i], table);
      }
    }
  }

  /** On ASCII text, sanitising is deletion followed by trimming, and it is
   *  idempotent: a non-empty result passes through a second time unchanged. */
  lemma SanitizeAsciiIdempotent(input: string, table: EntityTable)
    requires ValidEntityTable(table) && IsAscii(input)
    requires Sanitize(Some(input), table).Ok?
    ensures var out := Sanitize(Some(input), table).value;
            && out == Stripped10(input)
            && (out != [] ==> Sanitize(Some(out), table) == Ok(out))
  {
    var clean := Stripped10(input);
    forall i | 0 <= i < |clean|
      ensures clean[i] as int < 0x80 && NeedsNoEscape(clean[i], table)
    {
      assert clean[i] in input;
      assert clean[i] !in Stripped;
      AsciiNeedsNoEscape(clean[i], table);
    }
    if clean != [] {
      SanitizeFixesPlainText(clean, table);
    }
  }

  /** Java's trim leaves a string alone when neither end is trimmable. */
  lemma TrimOneSided(s: string)
    requires s != [] && s[0] > ' ' && s[|s| - 1] > ' '
    ensures JavaTrim(s) == s
  {
  }

  /** Text made only of deleted characters is not blank, yet reaches the
   *  escaper as the empty string. */
  lemma SanitizeOnlyStrippedCharacters(table: EntityTable)
    ensures Sanitize(Some("<>"), table) == Ok("")
    ensures Sanitize(Some(""), table).Err?
  {
    assert RemoveAll("<>", Stripped) == [];
  }

  // ----- sending -----

  datatype Mail = Mail(to: string, subject: string, body: string)

  /** The service's state: the status of every message id, and what was sent. */
  datatype Mailer = Mailer(statuses: map<string, string>, outbox: seq<Mail>)

  const Sent := "SENT"
  const FailedPrefix := "FAILED: "

  /** Every recorded status is "SENT" or starts with "FAILED: ". */
  predicate StatusesWellFormed(statuses: map<string, string>)
  {
    forall id | id in statuses :: statuses[id] == Sent || HasPrefix(statuses[id], FailedPrefix)
  }

  /** The state after a call and the exception it ended with, if any. */
  datatype Delivery = Delivery(mailer: Mailer, error: Option<Exc>)

  const InvalidAddress := "Invalid email address."
  const SendingFailed := "Email sending failed."

  /** `validateEmail` */
  function ValidateEmail(email: Option<string>): (r: Option<Exc>)
    ensures r.None? <==> IsValidEmail(email)
    ensures r.Some? ==> r.value == Exc(IllegalArgument, InvalidAddress)
  {
    if IsValidEmail(email) then None else Some(Exc(IllegalArgument, InvalidAddress))
  }

  /** The part `sendEmail` and `sendEmailWithAttachment` share once the
   *  address is valid: `subject` and `body` are the outcomes of sanitising
   *  (an exception there propagates unchanged), then the message is handed
   *  over.  `failure` is why the hand-over failed, if it did; it is recorded
   *  as "FAILED: <message>" and rethrown as IllegalStateException. */
  function Dispatch(m: Mailer, to: string, subject: Result<string, Exc>, body: Result<string, Exc>,
                    emailId: string, failure: Option<string>): (d: Delivery)
    ensures subject.Err? ==> d == Delivery(m, Some(subject.error))
    ensures subject.Ok? && body.Err? ==> d == Delivery(m, Some(body.error))
    ensures subject.Ok? && body.Ok? ==>
              && d.mailer.statuses.Keys == m.statuses.Keys + {emailId}
              && (failure.None? ==>
                    && d.error.None? && d.mailer.statuses[emailId] == Sent
                    && d.mailer.outbox == m.outbox + [Mail(to, subject.value, body.value)])
              && (failure.Some? ==>
                    && d.error == Some(Exc(IllegalState, SendingFailed))
                    && d.mailer.statuses[emailId] == FailedPrefix + failure.value
                    && d.mailer.outbox == m.outbox)
    ensures StatusesWellFormed(m.statuses) ==> StatusesWellFormed(d.mailer.statuses)
    ensures forall id | id in m.statuses && id != emailId :: id in d.mailer.statuses && d.mailer.statuses[id] == m.statuses[id]
  {
    if subject.Err? then Delivery(m, Some(subject.error))
    else if body.Err? then Delivery(m, Some(body.error))
    else match failure
      case None =>
        Delivery(Mailer(m.statuses[emailId := Sent], m.outbox + [Mail(to, subject.value, body.value)]), None)
      case Some(reason) =>
        assert HasPrefix(FailedPrefix + reason, FailedPrefix);
        Delivery(m.(statuses := m.statuses[emailId := FailedPrefix + reason]), Some(Exc(IllegalState, SendingFailed)))
  }

  /** `sendEmail`: the address is validated, both texts sanitised, and the
   *  message handed over (cc, bcc, reply-to and the HTML flag only shape the
   *  message the transport sees, so they are part of the transport oracle). */
  function SendEmail(m: Mailer, recipient: Option<string>, subject: Option<string>, body: Option<string>,
                     table: EntityTable, emailId: string, failure: Option<string>): (d: Delivery)
    ensures !IsValidEmail(recipient) ==> d == Delivery(m, Some(Exc(IllegalArgument, InvalidAddress)))
    ensures IsValidEmail(recipient) ==>
              d == Dispatch(m, recipient.value, Sanitize(subject, table), Sanitize(body, table), emailId, failure)
    ensures d.error.None? <==>
              IsValidEmail(recipient) && Sanitize(subject, table).Ok? && Sanitize(body, table).Ok? && failure.None?
    ensures d.error.None? ==> |d.mailer.outbox| == |m.outbox| + 1
    ensures d.error.Some? ==> d.mailer.outbox == m.outbox
    ensures StatusesWellFormed(m.statuses) ==> StatusesWellFormed(d.mailer.statuses)
  {
    if !IsValidEmail(recipient) then Delivery(m, Some(Exc(IllegalArgument, InvalidAddress)))
    else Dispatch(m, recipient.value, Sanitize(subject, table), Sanitize(body, table), emailId, failure)
  }

  const AttachmentFailure := "Failed to add attachment: "

  /** `sendEmailWithAttachment`: `rejected` names the first attachment (in the
   *  map's iteration order) the message builder refused, if any; that
   *  failure happens inside the guarded block, so it is recorded and rethrown
   *  like a transport failure. */
  function SendEmailWithAttachment(m: Mailer, recipient: Option<string>, subject: Option<string>, body: Option<string>,
                                   table: EntityTable, emailId: string, rejected: Option<string>,
                                   failure: Option<string>): (d: Delivery)
    ensures rejected.None? ==> d == SendEmail(m, recipient, subject, body, table, emailId, failure)
    ensures rejected.Some? ==>
              d == SendEmail(m, recipient, subject, body, table, emailId, Some(AttachmentFailure + rejected.value))
  {
    var cause := if rejected.Some? then Some(AttachmentFailure + rejected.value) else failure;
    SendEmail(m, recipient, subject, body, table, emailId, cause)
  }

  /** A refused attachment is recorded as a failure naming it, and nothing is sent. */
  lemma RejectedAttachmentIsRecorded(m: Mailer, recipient: Option<string>, subject: Option<string>, body: Option<string>,
                                     table: EntityTable, emailId: string, name: string, failure: Option<string>)
    requires IsValidEmail(recipient) && Sanitize(subject, table).Ok? && Sanitize(body, table).Ok?
    ensures var d := SendEmailWithAttachment(m, recipient, subject, body, table, emailId, Some(name), failure);
            && d.error == Some(Exc(IllegalState, SendingFailed))
            && d.mailer.statuses[emailId] == FailedPrefix + (AttachmentFailure + name)
            && d.mailer.outbox == m.outbox
  {
  }

  const ResetLinkBase := "https://prismnexus-backend.eu-south-1.elasticbeanstalk.com/reset-password?token="
  const ConfirmLinkBase := "https://prismnexus-backend.eu-south-1.elasticbeanstalk.com/confirm-email?email="

  /** `sendPasswordResetEmail` */
  function SendPasswordResetEmail(m: Mailer, recipient: Option<string>, token: string, table: EntityTable,
                                  emailId: string, failure: Option<string>): (d: Delivery)
    ensures !IsValidEmail(recipient) ==> d == Delivery(m, Some(Exc(IllegalArgument, InvalidAddress)))
    ensures IsValidEmail(recipient) ==>
              d == SendEmail(m, recipient, Some("Password Reset Request"),
                             Some("Reset your password: " + ResetLinkBase + token), table, emailId, failure)
  {
    if !IsValidEmail(recipient) then Delivery(m, Some(Exc(IllegalArgument, InvalidAddress)))
    else SendEmail(m, recipient, Some("Password Reset Request"), Some("Reset your password: " + ResetLinkBase + token),
                   table, emailId, failure)
  }

  /** `resendConfirmationEmail` */
  function ResendConfirmationEmail(m: Mailer, recipient: Option<string>, table: EntityTable,
                                   emailId: string, failure: Option<string>): (d: Delivery)
    ensures !IsValidEmail(recipient) ==> d == Delivery(m, Some(Exc(IllegalArgument, InvalidAddress)))
    ensures IsValidEmail(recipient) ==>
              d == SendEmail(m, recipient, Some("Email Confirmation"),
                             Some("Confirm your email: " + ConfirmLinkBase + recipient.value), table, emailId, failure)
  {
    if !IsValidEmail(recipient) then Delivery(m, Some(Exc(IllegalArgument, InvalidAddress)))
    else SendEmail(m, recipient, Some("Email Confirmation"),
                   Some("Confirm your email: " + ConfirmLinkBase + recipient.value), table, emailId, failure)
  }

  /** Text starting with a non-blank character is accepted by
   *  `sanitizeInput`. */
  lemma SanitizeAcceptsNonBlankStart(s: string, table: EntityTable)
    requires s != [] && !IsJavaWhitespace(s[0])
    ensures Sanitize(Some(s), table).Ok?
  {
  }

  /** The fixed-text mails depend only on the address and the server: with
   *  a valid address, a reset mail is sent and recorded as SENT exactly when
   *  the server accepts it, and recorded as failed otherwise. */
  lemma ResetMailFailsOnlyInTransport(m: Mailer, recipient: string, token: string, table: EntityTable,
                                      emailId: string, failure: Option<string>)
    requires IsValidEmail(Some(recipient))
    ensures var d := SendPasswordResetEmail(m, Some(recipient), token, table, emailId, failure);
            && (d.error.None? <==> failure.None?)
            && emailId in d.mailer.statuses && d.mailer.statuses[emailId] == (if failure.None? then Sent else FailedPrefix + failure.value)
  {
    var body := "Reset your password: " + ResetLinkBase + token;
    assert body[0] == 'R';
    FixedTextFailsOnlyInTransport(m, recipient, "Password Reset Request", body, table, emailId, failure);
  }

  /** Likewise for the confirmation mail. */
  lemma ConfirmationMailFailsOnlyInTransport(m: Mailer, recipient: string, table: EntityTable,
                                             emailId: string, failure: Option<string>)
    requires IsValidEmail(Some(recipient))
    ensures var d := ResendConfirmationEmail(m, Some(recipient), table, emailId, failure);
            && (d.error.None? <==> failure.None?)
            && emailId in d.mailer.statuses && d.mailer.statuses[emailId] == (if failure.None? then Sent else FailedPrefix + failure.value)
  {
    var body := "Confirm your email: " + ConfirmLinkBase + recipient;
    assert body[0] == 'C';
    FixedTextFailsOnlyInTransport(m, recipient, "Email Confirmation", body, table, emailId, failure);
  }

  /** A mail whose subject and body start with a non-blank character fails
   *  only in transport. */
  lemma FixedTextFailsOnlyInTransport(m: Mailer, recipient: string, subject: string, body: string, table: EntityTable,
                                      emailId: string, failure: Option<string>)
    requires IsValidEmail(Some(recipient))
    requires subject != [] && !IsJavaWhitespace(subject[0]) && body != [] && !IsJavaWhitespace(body[0])
    ensures var d := SendEmail(m, Some(recipient), Some(subject), Some(body), table, emailId, failure);
            && (d.error.None? <==> failure.None?)
            && emailId in d.mailer.statuses && d.mailer.statuses[emailId] == (if failure.None? then Sent else FailedPrefix + failure.value)
  {
    SanitizeAcceptsNonBlankStart(subject, table);
    SanitizeAcceptsNonBlankStart(body, table);
  }

  // ----- bulk sending -----

  /** The recipients that pass `isValidEmail`, in their original order. */
  function ValidRecipients(recipients: seq<string>): (r: seq<string>)
    ensures |r| <= |recipients|
    ensures forall x :: x in r <==> x in recipients && MatchesAddressPattern(x)
    ensures forall x :: multiset(r)[x] == if MatchesAddressPattern(x) then multiset(recipients)[x] else 0
  {
    FilterCounts(recipients, MatchesAddressPattern);
    Filter(recipients, MatchesAddressPattern)
  }

  /** The valid recipients keep their order: the selection from a list is
   *  the selections from its parts, one after the other. */
  lemma ValidRecipientsInOrder(a: seq<string>, b: seq<string>, x: string)
    ensures ValidRecipients(a + b) == ValidRecipients(a) + ValidRecipients(b)
    ensures ValidRecipients([x]) == if MatchesAddressPattern(x) then [x] else []
  {
    FilterConcat(a, b, MatchesAddressPattern);
    FilterSingle(x, MatchesAddressPattern);
  }

  /** How many of the first `n` transport attempts were accepted. */
  function Accepted(transport: nat -> Option<string>, n: nat): (k: nat)
    ensures k <= n
  {
    if n == 0 then 0 else Accepted(transport, n - 1) + (if transport(n - 1).None? then 1 else 0)
  }

  /** The mails the first `n` attempts deliver: one for each attempt the
   *  server accepts, addressed to that attempt's address, in order. */
  function AcceptedMails(addresses: seq<string>, subject: string, body: string,
                         transport: nat -> Option<string>, n: nat): (r: seq<Mail>)
    requires n <= |addresses|
    ensures |r| == Accepted(transport, n)
    ensures forall k | 0 <= k < |r| :: r[k].subject == subject && r[k].body == body
  {
    if n == 0 then []
    else
      AcceptedMails(addresses, subject, body, transport, n - 1)
        + (if transport(n - 1).None? then [Mail(addresses[n - 1], subject, body)] else [])
  }

  /** When the server accepts every attempt, each address gets exactly one
   *  mail, in the order of the addresses; when it refuses every attempt,
   *  nothing is delivered. */
  lemma {:induction false} AcceptedMailsExtremes(addresses: seq<string>, subject: string, body: string,
                                                 transport: nat -> Option<string>, n: nat)
    requires n <= |addresses|
    ensures (forall i | 0 <= i < n :: transport(i).None?) ==>
              |AcceptedMails(addresses, subject, body, transport, n)| == n
              && forall k | 0 <= k < n :: AcceptedMails(addresses, subject, body, transport, n)[k] == Mail(addresses[k], subject, body)
    ensures (forall i | 0 <= i < n :: transport(i).Some?) ==> AcceptedMails(addresses, subject, body, transport, n) == []
  {
    if n > 0 {
      AcceptedMailsExtremes(addresses, subject, body, transport, n - 1);
    }
  }

  datatype BulkReport = BulkReport(mailer: Mailer, attempted: seq<string>, successes: nat, failures: nat)

  /** A text as `sendEmail` sees it within a bulk send: sanitised by
   *  `sendBulkEmail`, then once more by `sendEmail` (which refuses it when
   *  the first pass left nothing but blanks). */
  function SanitizedTwice(text: Option<string>, table: EntityTable): (r: Result<string, Exc>)
    ensures Sanitize(text, table).Err? ==> r == Sanitize(text, table)
    ensures Sanitize(text, table).Ok? ==> r == Sanitize(Some(Sanitize(text, table).value), table)
  {
    match Sanitize(text, table)
    case Err(e) => Err(e)
    case Ok(v) => Sanitize(Some(v), table)
  }

  /** The loop of `sendBulkEmail`: one attempt per address, in order, a
   *  failure counted rather than propagated.  `subject` and `body` are the
   *  outcomes of `sendEmail`'s own sanitising of the already sanitised texts;
   *  on a valid address `sendEmail` is `Dispatch` with them (see SendEmail's
   *  contract). */
  method SendToEach(m: Mailer, addresses: seq<string>, subject: Result<string, Exc>, body: Result<string, Exc>,
                    ids: nat -> string, transport: nat -> Option<string>)
    returns (mailer: Mailer, successes: nat, failures: nat)
    ensures successes + failures == |addresses|
    ensures successes == if subject.Ok? && body.Ok? then Accepted(transport, |addresses|) else 0
    ensures |mailer.outbox| == |m.outbox| + successes
    ensures subject.Ok? && body.Ok? ==>
              mailer.outbox == m.outbox + AcceptedMails(addresses, subject.value, body.value, transport, |addresses|)
    ensures !(subject.Ok? && body.Ok?) ==> mailer.outbox == m.outbox
    ensures subject.Ok? && body.Ok? ==> forall i | 0 <= i < |addresses| :: ids(i) in mailer.statuses
    ensures StatusesWellFormed(m.statuses) ==> StatusesWellFormed(mailer.statuses)
  {
    mailer := m;
    successes, failures := 0, 0;
    var i := 0;
    while i < |addresses|
      invariant 0 <= i <= |addresses|
      invariant successes + failures == i
      invariant successes == if subject.Ok? && body.Ok? then Accepted(transport, i) else 0
      invariant |mailer.outbox| == |m.outbox| + successes
      invariant subject.Ok? && body.Ok? ==>
                  mailer.outbox == m.outbox + AcceptedMails(addresses, subject.value, body.value, transport, i)
      invariant !(subject.Ok? && body.Ok?) ==> mailer.outbox == m.outbox
      invariant subject.Ok? && body.Ok? ==> forall j | 0 <= j < i :: ids(j) in mailer.statuses
      invariant StatusesWellFormed(m.statuses) ==> StatusesWellFormed(mailer.statuses)
    {
      var d := Dispatch(mailer, addresses[i], subject, body, ids(i), transport(i));
      mailer := d.mailer;
      if d.error.None? {
        successes := successes + 1;
      } else {
        failures := failures + 1;
      }
      i := i + 1;
    }
  }

  /** `sendBulkEmail`: both texts are sanitised first (an exception there
   *  aborts the call); then each valid recipient gets one `sendEmail` attempt
   *  with the sanitised texts.  Attempt `i` uses id `ids(i)` and transport
   *  outcome `transport(i)`. */
  method SendBulkEmail(m: Mailer, recipients: seq<string>, subject: Option<string>, body: Option<string>,
                       table: EntityTable, ids: nat -> string, transport: nat -> Option<string>)
    returns (r: Result<BulkReport, Exc>)
    ensures Sanitize(subject, table).Err? || Sanitize(body, table).Err? <==> r.Err?
    ensures r.Err? ==> r.error == Exc(IllegalArgument, BlankInput)
    ensures r.Ok? ==>
              && r.value.attempted == ValidRecipients(recipients)
              && r.value.successes + r.value.failures == |ValidRecipients(recipients)|
              && var s2 := SanitizedTwice(subject, table);
              && var b2 := SanitizedTwice(body, table);
              && r.value.successes
                   == (if s2.Ok? && b2.Ok? then Accepted(transport, |ValidRecipients(recipients)|) else 0)
              && |r.value.mailer.outbox| == |m.outbox| + r.value.successes
              && (s2.Ok? && b2.Ok? ==>
                    r.value.mailer.outbox
                      == m.outbox + AcceptedMails(ValidRecipients(recipients), s2.value, b2.value,
                                                  transport, |ValidRecipients(recipients)|))
              && (!(s2.Ok? && b2.Ok?) ==> r.value.mailer.outbox == m.outbox)
              && (StatusesWellFormed(m.statuses) ==> StatusesWellFormed(r.value.mailer.statuses))
  {
    var s := Sanitize(subject, table);
    var b := Sanitize(body, table);
    if s.Err? || b.Err? {
      return Err(Exc(IllegalArgument, BlankInput));
    }
    var valid := ValidRecipients(recipients);
    var mailer, successes, failures :=
      SendToEach(m, valid, SanitizedTwice(subject, table), SanitizedTwice(body, table), ids, transport);
    return Ok(BulkReport(mailer, valid, successes, failures));
  }

  // ----- status, token, scheduling -----

  const Unknown := "UNKNOWN"

  /** `getEmailStatus`: the recorded status, or "UNKNOWN" for an id never used. */
  function GetEmailStatus(m: Mailer, emailId: string): (status: string)
    ensures emailId in m.statuses ==> status == m.statuses[emailId]
    ensures emailId !in m.statuses ==> status == Unknown
    ensures StatusesWellFormed(m.statuses) ==>
              (status == Unknown <==> emailId !in m.statuses)
              && (status == Sent || status == Unknown || HasPrefix(status, FailedPrefix))
  {
    if emailId in m.statuses then m.statuses[emailId] else Unknown
  }

  /** A character of the URL-safe alphabet or the padding character. */
  predicate IsTokenChar(c: char)
  {
    Base64.InAlphabet(c, Base64.UrlSafe) || c == '='
  }

  /** `generatePasswordResetToken`: the URL-safe Base64 form of 32 random
   *  bytes, 44 characters ending in one `=`, decoding back to the bytes. */
  function GeneratePasswordResetToken(random: seq<Base64.Byte>): (token: string)
    requires |random| == 32
    ensures |token| == 44 && token[43] == '='
    ensures forall i | 0 <= i < |token| :: IsTokenChar(token[i]) && token[i] != '+' && token[i] != '/'
    ensures Base64.Decode(token, Base64.UrlSafe) == Some(random)
  {
    var body := Base64.EncodeUnpadded(random, Base64.UrlSafe);
    var token := Base64.Encode(random, Base64.UrlSafe);
    Base64.UnpaddedLength(random, Base64.UrlSafe);
    assert token == body + "=";
    Base64.DecodeEncode(random, Base64.UrlSafe);
    UrlSafeTextIsTokenText(token);
    token
  }

  lemma UrlSafeTextIsTokenText(t: string)
    requires forall i | 0 <= i < |t| :: Base64.InAlphabet(t[i], Base64.UrlSafe) || t[i] == '='
    ensures forall i | 0 <= i < |t| :: IsTokenChar(t[i]) && t[i] != '+' && t[i] != '/'
  {
    forall i | 0 <= i < |t|
      ensures IsTokenChar(t[i]) && t[i] != '+' && t[i] != '/'
    {
      if Base64.InAlphabet(t[i], Base64.UrlSafe) {
        Base64.UrlSafeAlphabetAvoidsPlusAndSlash(t[i]);
      }
    }
  }

  lemma TokenCharIsPlain(c: char)
    requires IsTokenChar(c)
    ensures c as int < 0x80 && c > ' ' && c !in Stripped
  {
  }

  /** A reset token survives sanitising intact: none of its characters is
   *  deleted, trimmed or escaped. */
  lemma TokenSurvivesSanitizing(token: string, table: EntityTable)
    requires ValidEntityTable(table)
    requires token != [] && forall i | 0 <= i < |token| :: IsTokenChar(token[i])
    ensures Sanitize(Some(token), table) == Ok(token)
  {
    forall i | 0 <= i < |token| ensures token[i] as int < 0x80 && token[i] > ' ' && token[i] !in Stripped {
      TokenCharIsPlain(token[i]);
    }
    SanitizeFixesPlainText(token, table);
  }

  datatype Timing = Timing(delay: int, warnedPast: bool)

  /** `scheduleEmail`'s timing: the task is scheduled `max(sendTime - now, 0)`
   *  milliseconds ahead, and a time not in the future logs a warning. */
  function ScheduleEmail(sendTime: int, now: int): (s: Timing)
    ensures s.delay >= 0
    ensures now + s.delay == if sendTime > now then sendTime else now
    ensures s.warnedPast <==> sendTime <= now
  {
    var delay := sendTime - now;
    Timing(if delay > 0 then delay else 0, delay <= 0)
  }

  // ----- method validation -----
  //
  // The class is `@Validated`: a call that comes through the Spring proxy
  // (every call a controller makes) first checks the constraints declared on
  // the parameters, and a violation throws `ConstraintViolationException`
  // before the method body runs.  The calls the class makes on itself
  // (`sendBulkEmail` and `sendPasswordResetEmail` calling `sendEmail`, the
  // scheduled task) bypass the proxy and are not validated.

  /** The optional recipients of a message.  Only their constraints are
   *  modelled; how they shape the message is part of the transport oracle. */
  datatype Copies = Copies(cc: Option<seq<string>>, bcc: Option<seq<string>>, replyTo: Option<string>)

  /** `List<@NotBlank @Email String>` twice and `@Email String replyTo`. */
  predicate CopiesValid(isEmail: string -> bool, c: Copies)
  {
    AllAddresses(isEmail, c.cc) && AllAddresses(isEmail, c.bcc) && EmailShaped(isEmail, c.replyTo)
  }

  /** The exception a violated parameter constraint raises.  Its message
   *  lists the violations; only the name of the method called is kept. */
  function Violation(operation: string): (e: Exc)
    ensures e.kind == ConstraintViolation && IsRuntime(e.kind) && !IsDataIntegrity(e.kind)
  {
    Exc(ConstraintViolation, operation)
  }

  /** The parameter constraints `sendEmail`, `sendEmailWithAttachment` and
   *  `scheduleEmail` share: a non-blank well-formed recipient, non-blank
   *  subject and body, and well-formed copies. */
  predicate MessageArgsValid(isEmail: string -> bool, recipient: Option<string>, subject: Option<string>,
                             body: Option<string>, copies: Copies)
  {
    && NotBlank(recipient) && EmailShaped(isEmail, recipient)
    && NotBlank(subject) && NotBlank(body)
    && CopiesValid(isEmail, copies)
  }

  /** `sendEmail` called through the proxy. */
  function ProxiedSendEmail(m: Mailer, isEmail: string -> bool, recipient: Option<string>, subject: Option<string>,
                            body: Option<string>, copies: Copies, table: EntityTable, emailId: string,
                            failure: Option<string>): (d: Delivery)
    ensures !MessageArgsValid(isEmail, recipient, subject, body, copies) ==> d == Delivery(m, Some(Violation("sendEmail")))
    ensures MessageArgsValid(isEmail, recipient, subject, body, copies) ==>
              d == SendEmail(m, recipient, subject, body, table, emailId, failure)
    ensures d.error.None? <==>
              && MessageArgsValid(isEmail, recipient, subject, body, copies) && IsValidEmail(recipient)
              && Sanitize(subject, table).Ok? && Sanitize(body, table).Ok? && failure.None?
  {
    if !MessageArgsValid(isEmail, recipient, subject, body, copies) then Delivery(m, Some(Violation("sendEmail")))
    else SendEmail(m, recipient, subject, body, table, emailId, failure)
  }

  /** What the proxy leaves to `sanitizeInput`'s own blank check: a text
   *  passes `@NotBlank` yet is refused by `isBlank` exactly when it has a
   *  character above U+0020 and every character is Java whitespace (an em
   *  space, say); so the service's check is still reachable. */
  lemma SanitizeRefusalAfterProxy(s: string, table: EntityTable)
    ensures NotBlank(Some(s)) && Sanitize(Some(s), table).Err? <==>
              IsJavaBlank(s) && exists i | 0 <= i < |s| :: s[i] > ' '
    ensures NotBlank(Some("\U{2003}")) && Sanitize(Some("\U{2003}"), table).Err?
  {
    NotBlankIffVisibleCharacter(s);
    SanitizeIsEscapedDeletion(s, table);
    BlanknessNotionsDiffer();
    SanitizeIsEscapedDeletion("\U{2003}", table);
  }

  /** `sendEmailWithAttachment` called through the proxy. */
  function ProxiedSendEmailWithAttachment(m: Mailer, isEmail: string -> bool, recipient: Option<string>,
                                          subject: Option<string>, body: Option<string>, copies: Copies,
                                          table: EntityTable, emailId: string, rejected: Option<string>,
                                          failure: Option<string>): (d: Delivery)
    ensures !MessageArgsValid(isEmail, recipient, subject, body, copies) ==>
              d == Delivery(m, Some(Violation("sendEmailWithAttachment")))
    ensures MessageArgsValid(isEmail, recipient, subject, body, copies) ==>
              d == SendEmailWithAttachment(m, recipient, subject, body, table, emailId, rejected, failure)
    ensures d.error.None? ==> rejected.None? && failure.None? && |d.mailer.outbox| == |m.outbox| + 1
  {
    if !MessageArgsValid(isEmail, recipient, subject, body, copies) then
      Delivery(m, Some(Violation("sendEmailWithAttachment")))
    else SendEmailWithAttachment(m, recipient, subject, body, table, emailId, rejected, failure)
  }

  /** An address the service's own pattern accepts is never blank. */
  lemma ValidEmailNotBlank(email: string)
    requires IsValidEmail(Some(email))
    ensures NotBlank(Some(email))
  {
    var k := LocalPartLength(email);
    assert IsLocalChar(email[0]);
    NotBlankIffVisibleCharacter(email);
  }

  /** `sendPasswordResetEmail` called through the proxy: a non-blank
   *  well-formed recipient and a non-blank token. */
  function ProxiedSendPasswordResetEmail(m: Mailer, isEmail: string -> bool, recipient: Option<string>, token: string,
                                         table: EntityTable, emailId: string, failure: Option<string>): (d: Delivery)
    ensures !(NotBlank(recipient) && EmailShaped(isEmail, recipient) && NotBlank(Some(token))) ==>
              d == Delivery(m, Some(Violation("sendPasswordResetEmail")))
    ensures NotBlank(recipient) && EmailShaped(isEmail, recipient) && NotBlank(Some(token)) ==>
              d == SendPasswordResetEmail(m, recipient, token, table, emailId, failure)
  {
    if !(NotBlank(recipient) && EmailShaped(isEmail, recipient) && NotBlank(Some(token))) then
      Delivery(m, Some(Violation("sendPasswordResetEmail")))
    else SendPasswordResetEmail(m, recipient, token, table, emailId, failure)
  }

  /** `resendConfirmationEmail` called through the proxy: a non-blank
   *  well-formed recipient. */
  function ProxiedResendConfirmationEmail(m: Mailer, isEmail: string -> bool, recipient: Option<string>,
                                          table: EntityTable, emailId: string, failure: Option<string>): (d: Delivery)
    ensures !(NotBlank(recipient) && EmailShaped(isEmail, recipient)) ==>
              d == Delivery(m, Some(Violation("resendConfirmationEmail")))
    ensures NotBlank(recipient) && EmailShaped(isEmail, recipient) ==>
              d == ResendConfirmationEmail(m, recipient, table, emailId, failure)
  {
    if !(NotBlank(recipient) && EmailShaped(isEmail, recipient)) then
      Delivery(m, Some(Violation("resendConfirmationEmail")))
    else ResendConfirmationEmail(m, recipient, table, emailId, failure)
  }

  /** A fresh reset token always passes `@NotBlank`. */
  lemma ResetTokenNotBlank(random: seq<Base64.Byte>)
    requires |random| == 32
    ensures NotBlank(Some(GeneratePasswordResetToken(random)))
  {
    var token := GeneratePasswordResetToken(random);
    TokenCharIsPlain(token[0]);
    NotBlankIffVisibleCharacter(token);
  }

  /** The parameter constraints of `sendBulkEmail`: a non-empty list of
   *  non-blank well-formed addresses, and non-blank subject and body. */
  predicate BulkArgsValid(isEmail: string -> bool, recipients: Option<seq<string>>, subject: Option<string>, body: Option<string>)
  {
    NotEmptyList(recipients) && AllAddresses(isEmail, recipients) && NotBlank(subject) && NotBlank(body)
  }

  /** `sendBulkEmail` called through the proxy: one malformed recipient
   *  refuses the whole call before anything is sent. */
  method ProxiedSendBulkEmail(m: Mailer, isEmail: string -> bool, recipients: Option<seq<string>>,
                              subject: Option<string>, body: Option<string>, table: EntityTable,
                              ids: nat -> string, transport: nat -> Option<string>)
    returns (r: Result<BulkReport, Exc>)
    ensures !BulkArgsValid(isEmail, recipients, subject, body) ==> r == Err(Violation("sendBulkEmail"))
    ensures BulkArgsValid(isEmail, recipients, subject, body) ==>
              && (r.Err? <==> Sanitize(subject, table).Err? || Sanitize(body, table).Err?)
              && (r.Err? ==> r.error == Exc(IllegalArgument, BlankInput))
              && (r.Ok? ==>
                    && r.value.attempted == ValidRecipients(recipients.value)
                    && r.value.successes + r.value.failures == |ValidRecipients(recipients.value)|
                    && |r.value.mailer.outbox| == |m.outbox| + r.value.successes
                    && var s2 := SanitizedTwice(subject, table);
                    && var b2 := SanitizedTwice(body, table);
                    && (s2.Ok? && b2.Ok? ==>
                          r.value.mailer.outbox
                            == m.outbox + AcceptedMails(ValidRecipients(recipients.value), s2.value, b2.value,
                                                        transport, |ValidRecipients(recipients.value)|))
                    && (!(s2.Ok? && b2.Ok?) ==> r.value.mailer.outbox == m.outbox))
  {
    if !BulkArgsValid(isEmail, recipients, subject, body) {
      return Err(Violation("sendBulkEmail"));
    }
    r := SendBulkEmail(m, recipients.value, subject, body, table, ids, transport);
  }

  /** `getEmailStatus` called through the proxy: a blank id is refused. */
  function ProxiedGetEmailStatus(m: Mailer, emailId: Option<string>): (r: Result<string, Exc>)
    ensures r.Err? <==> !NotBlank(emailId)
    ensures r.Err? ==> r.error == Violation("getEmailStatus")
    ensures r.Ok? ==> r.value == GetEmailStatus(m, emailId.value)
  {
    if !NotBlank(emailId) then Err(Violation("getEmailStatus")) else Ok(GetEmailStatus(m, emailId.value))
  }

  /** `scheduleEmail` called through the proxy at instant `now`: the
   *  message constraints, and a send time present and strictly after `now`
   *  (`@NotNull @Future`). */
  function ProxiedScheduleEmail(isEmail: string -> bool, recipient: Option<string>, subject: Option<string>,
                                body: Option<string>, copies: Copies, sendTime: Option<int>, now: int): (r: Result<Timing, Exc>)
    ensures r.Ok? <==> MessageArgsValid(isEmail, recipient, subject, body, copies) && sendTime.Some? && sendTime.value > now
    ensures r.Err? ==> r.error == Violation("scheduleEmail")
    ensures r.Ok? ==> r.value == ScheduleEmail(sendTime.value, now)
  {
    if !(MessageArgsValid(isEmail, recipient, subject, body, copies) && sendTime.Some? && sendTime.value > now) then
      Err(Violation("scheduleEmail"))
    else Ok(ScheduleEmail(sendTime.value, now))
  }

  /** Through the proxy the past-time warning is never logged: every
   *  scheduled mail lies strictly ahead, at exactly its send time. */
  lemma ProxiedScheduleNeverWarns(isEmail: string -> bool, recipient: Option<string>, subject: Option<string>,
                                  body: Option<string>, copies: Copies, sendTime: Option<int>, now: int)
    ensures var r := ProxiedScheduleEmail(isEmail, recipient, subject, body, copies, sendTime, now);
            r.Ok? ==> !r.value.warnedPast && r.value.delay > 0 && now + r.value.delay == sendTime.value
  {
  }
}
