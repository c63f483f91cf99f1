/**
 * `sanitizeContactData` of the contacts router: every field is trimmed and
 * then handed to `sanitize-html`. The library is outside this model and
 * enters as two functions the caller supplies.
 */
module Sanitization {
  import opened Wrappers
  import opened JsString
  import opened Validation

  /**
   * The two `sanitize-html` configurations the router uses: no tags at all
   * for the name and address fields, and the `b`, `i`, `em`, `strong`, `a`
   * (with `href`) allow-list for the notes.
   */
  datatype HtmlSanitizer = HtmlSanitizer(plainText: string -> string, notesAllowList: string -> string)

  /** The sanitized fields, as they are written to the table. */
  datatype ContactFields = ContactFields(firstName: string, lastName: string, emailAddress: string, notes: string)

  /**
   * `sanitizeContactData(data)`. Calling `.trim()` on a missing field throws,
   * which is None here; otherwise each field is trimmed, then sanitized.
   */
  function Sanitize(form: ContactForm, html: HtmlSanitizer): (r: Option<ContactFields>)
    ensures r.None? <==> form.firstName.Absent? || form.lastName.Absent? ||
                         form.emailAddress.Absent? || form.notes.Absent?
  {
    if form.firstName.Text? && form.lastName.Text? && form.emailAddress.Text? && form.notes.Text? then
      Some(ContactFields(
        html.plainText(Trim(form.firstName.s)),
        html.plainText(Trim(form.lastName.s)),
        html.plainText(Trim(form.emailAddress.s)),
        html.notesAllowList(Trim(form.notes.s))))
    else
      None
  }

  /** A letters-only name has no white space, so `trim` leaves it alone. */
  lemma TrimOfAcceptedName(f: Field)
    requires NameAccepted(f)
    ensures Trim(f.s) == f.s
  {
    TrimOfNoWhiteSpace(f.s);
  }

  /** An accepted, present address is empty or has no white space, so `trim` leaves it alone. */
  lemma TrimOfAcceptedEmail(f: Field)
    requires EmailAccepted(f) && f.Text?
    ensures Trim(f.s) == f.s
  {
    if f.s != "" {
      EmailShapeAgrees(f.s);
      TrimOfNoWhiteSpace(f.s);
    }
  }

  /**
   * After validation has passed (see `Validate`), the trim step changes
   * nothing but the notes: the names and the address reach `sanitize-html`
   * exactly as submitted.
   */
  lemma SanitizeValidated(form: ContactForm, html: HtmlSanitizer)
    requires NameAccepted(form.firstName) && NameAccepted(form.lastName) &&
             EmailAccepted(form.emailAddress)
    requires form.emailAddress.Text? && form.notes.Text?
    ensures Sanitize(form, html) == Some(ContactFields(
              html.plainText(form.firstName.s),
              html.plainText(form.lastName.s),
              html.plainText(form.emailAddress.s),
              html.notesAllowList(Trim(form.notes.s))))
  {
    TrimOfAcceptedName(form.firstName);
    TrimOfAcceptedName(form.lastName);
    TrimOfAcceptedEmail(form.emailAddress);
  }
}
