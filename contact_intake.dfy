/** process_contact.php: the public contact form. A valid POST stores one
    unread message; every request leaves exactly one flash message in the
    session for the home page to show, `contact_success` or
    `contact_error`. */
module ContactIntake {
  import opened PhpBuiltins
  import opened Config
  import opened Store

  const INVALID_METHOD: string := "Invalid request method."
  const FIELDS_REQUIRED: string := "All fields are required."
  const INVALID_EMAIL: string := "Invalid email format."
  const THANK_YOU: string := "Thank you for your message! We will get back to you soon."
  const SEND_FAILED: string := "Failed to send message. Please try again."

  /** The POST body; a missing text field is "". */
  datatype ContactForm = ContactForm(
    csrfToken: Option<string>,
    firstName: string,
    lastName: string,
    phone: string,
    email: string,
    message: string)

  /** The row the handler inserts: the five fields after `sanitize_input`,
      with the column defaults for status and creation time. */
  function ContactRow(form: ContactForm, now: int): Message {
    Message(SanitizeInput(form.firstName), SanitizeInput(form.lastName), SanitizeInput(form.phone),
            SanitizeInput(form.email), SanitizeInput(form.message), Unread, now)
  }

  /** The checks before the INSERT, in order: the request method (`None` is
      anything but POST), the CSRF token, the five required fields, and the
      email format. */
  function ContactCheck(storedToken: Option<string>, platform: Platform, request: Option<ContactForm>)
    : (error: Option<string>)
    ensures error.None? <==>
      && request.Some?
      && RequestTokenValid(storedToken, request.value.csrfToken)
      && !AnyContactFieldEmpty(request.value)
      && platform.filterEmail(SanitizeInput(request.value.email))
    ensures request.None? ==> error == Some(INVALID_METHOD)
    ensures request.Some? && !RequestTokenValid(storedToken, request.value.csrfToken) ==> error == Some(CSRF_FAILED)
  {
    if request.None? then Some(INVALID_METHOD)
    else
      var form := request.value;
      if !RequestTokenValid(storedToken, form.csrfToken) then Some(CSRF_FAILED)
      else if AnyContactFieldEmpty(form) then Some(FIELDS_REQUIRED)
      else if !platform.filterEmail(SanitizeInput(form.email)) then Some(INVALID_EMAIL)
      else None
  }

  /** `empty()` on any of the five sanitised fields. */
  predicate AnyContactFieldEmpty(form: ContactForm) {
    || IsEmpty(SanitizeInput(form.firstName)) || IsEmpty(SanitizeInput(form.lastName))
    || IsEmpty(SanitizeInput(form.phone)) || IsEmpty(SanitizeInput(form.email))
    || IsEmpty(SanitizeInput(form.message))
  }

  /** The whole handler. A rejected request sets `contact_error` to the
      first failing check's message and inserts nothing. An accepted one
      inserts exactly one unread row with the sanitised fields and sets
      `contact_success`, or, when the INSERT fails, sets `contact_error`. In
      every case exactly one of the two keys is written and the other keeps
      whatever it held. */
  method HandleContact(session: Session, db: Database, platform: Platform,
                       request: Option<ContactForm>, now: int, insertOk: bool)
    requires db.Valid()
    modifies session`contactError, session`contactSuccess, db`messages, db`nextMessageId
    ensures db.Valid()
    ensures var error := ContactCheck(old(session.csrfToken), platform, request);
      error.Some? ==>
        && session.contactError == error && session.contactSuccess == old(session.contactSuccess)
        && db.messages == old(db.messages) && db.nextMessageId == old(db.nextMessageId)
    ensures ContactCheck(old(session.csrfToken), platform, request).None? && !insertOk ==>
        && session.contactError == Some(SEND_FAILED) && session.contactSuccess == old(session.contactSuccess)
        && db.messages == old(db.messages) && db.nextMessageId == old(db.nextMessageId)
    ensures ContactCheck(old(session.csrfToken), platform, request).None? && insertOk ==>
        && session.contactSuccess == Some(THANK_YOU) && session.contactError == old(session.contactError)
        && old(db.nextMessageId) !in old(db.messages)
        && db.messages == old(db.messages)[old(db.nextMessageId) := ContactRow(request.value, now)]
        && db.nextMessageId == old(db.nextMessageId) + 1
  {
    if request.None? {
      session.contactError := Some(INVALID_METHOD);
      return;
    }
    var form := request.value;
    if !RequestTokenValid(session.csrfToken, form.csrfToken) {
      session.contactError := Some(CSRF_FAILED);
      return;
    }
    var email := SanitizeInput(form.email);
    if AnyContactFieldEmpty(form) {
      session.contactError := Some(FIELDS_REQUIRED);
    } else if !platform.filterEmail(email) {
      session.contactError := Some(INVALID_EMAIL);
    } else if insertOk {
      var _ := db.InsertMessage(ContactRow(form, now));
      session.contactSuccess := Some(THANK_YOU);
    } else {
      session.contactError := Some(SEND_FAILED);
    }
  }

  predicate NoMarkup(s: string) {
    forall i :: 0 <= i < |s| ==> !IsMarkupChar(s[i])
  }

  lemma SanitizedHasNoMarkup(s: string)
    ensures NoMarkup(SanitizeInput(s)) && IsTrimmed(SanitizeInput(s))
  {
    SanitizeSpec(s);
  }

  /** Whatever the visitor typed, the stored row is unread and carries no
      raw `<`, `>`, `"` or `'`, nor surrounding whitespace, in any of its
      text columns. */
  lemma StoredRowIsEscaped(form: ContactForm, now: int)
    ensures var m := ContactRow(form, now);
      && m.status == Unread
      && NoMarkup(m.firstName) && NoMarkup(m.lastName) && NoMarkup(m.phone) && NoMarkup(m.email) && NoMarkup(m.body)
      && IsTrimmed(m.firstName) && IsTrimmed(m.lastName) && IsTrimmed(m.phone) && IsTrimmed(m.email) && IsTrimmed(m.body)
  {
    SanitizedHasNoMarkup(form.firstName);
    SanitizedHasNoMarkup(form.lastName);
    SanitizedHasNoMarkup(form.phone);
    SanitizedHasNoMarkup(form.email);
    SanitizedHasNoMarkup(form.message);
  }
}
