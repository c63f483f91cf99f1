/**
 * The effect of the contacts router's handlers on the `contacts` table.
 * The table is a map from id to row, held by a `ContactStore` object whose
 * methods are the handlers. The id generator and the clock are parameters.
 * What each handler does is stated once, as a function from the table before
 * to its answer and the table after; the methods are tied to those functions
 * and the lemmas below state what the functions promise.
 */
module ContactsRouter {
  import opened Wrappers
  import opened JsString
  import opened Validation
  import opened Sanitization

  /** A row of the `contacts` table; timestamps are clock readings. */
  datatype Contact = Contact(
    id: string,
    firstName: string,
    lastName: string,
    emailAddress: string,
    notes: string,
    createdAt: nat,
    updatedAt: nat)

  /** How a handler answers the request. */
  datatype Response =
    | RenderForm(view: string, errorMessage: string)  // the form again, with the validation message
    | RenderContact(contact: Contact)                 // the detail page
    | Redirect(location: string)
    | NotFound                                        // 404 'Contact not found'
    | BadRequest                                      // 400 'Invalid contact ID'
    | ServerError(message: string)                    // 500

  /** A handler's answer and the table it leaves. */
  datatype Outcome = Outcome(response: Response, table: map<string, Contact>)

  /** The message of the 500 answer when a handler throws. */
  const InternalError: string := "Internal Server Error"

  // ---------------------------------------------------------------------
  // Table invariants

  /** Every row is filed under its own id. */
  ghost predicate FiledById(table: map<string, Contact>) {
    forall id | id in table :: table[id].id == id
  }

  /** No row was updated before it was created. */
  ghost predicate Chronological(table: map<string, Contact>) {
    forall id | id in table :: table[id].createdAt <= table[id].updatedAt
  }

  // ---------------------------------------------------------------------
  // What each handler does

  /** The row that `INSERT` writes for a new contact. */
  function NewContact(id: string, fields: ContactFields, now: nat): Contact {
    Contact(id, fields.firstName, fields.lastName, fields.emailAddress, fields.notes, now, now)
  }

  /** The row that `UPDATE` leaves behind. */
  function UpdatedContact(row: Contact, fields: ContactFields, now: nat): Contact {
    row.(firstName := fields.firstName, lastName := fields.lastName,
         emailAddress := fields.emailAddress, notes := fields.notes, updatedAt := now)
  }

  /**
   * `POST /`, given the verdict of `Validate` and the result of `Sanitize` on
   * the submitted form, the fresh id `newId` and the clock reading `now`.
   */
  function CreateContact(table: map<string, Contact>, verdict: Verdict, sanitized: Option<ContactFields>,
                         newId: string, now: nat): (r: Outcome)
    ensures !r.response.Redirect? ==> r.table == table
    ensures r.response.Redirect? ==> newId !in table && newId in r.table && r.table - {newId} == table
  {
    if !verdict.isValid then Outcome(RenderForm("contacts/new", verdict.errorMessage), table)
    else match sanitized
      case None => Outcome(ServerError(InternalError), table)
      case Some(fields) =>
        // the primary key rejects an INSERT under an id already present
        if newId in table then Outcome(ServerError("Failed to create contact"), table)
        else Outcome(Redirect("/contacts"), table[newId := NewContact(newId, fields, now)])
  }

  /** `GET /:id` */
  function ShowContact(table: map<string, Contact>, id: string): (r: Response)
    ensures r.RenderContact? <==> id in table
    ensures r.RenderContact? ==> r.contact == table[id]
    ensures !r.RenderContact? ==> r == NotFound
  {
    if id in table then RenderContact(table[id]) else NotFound
  }

  /**
   * `POST /:id`, given the verdict of `Validate` and the result of `Sanitize`
   * on the submitted form, and the clock reading `now`.
   */
  function UpdateContact(table: map<string, Contact>, id: string, verdict: Verdict,
                         sanitized: Option<ContactFields>, now: nat): (r: Outcome)
    ensures !r.response.Redirect? ==> r.table == table
    ensures r.response.Redirect? ==> id in table && r.table.Keys == table.Keys
    ensures r.response.Redirect? ==> r.table[id].id == table[id].id && r.table[id].createdAt == table[id].createdAt
    ensures forall k | k in table && k != id :: r.table[k] == table[k]
  {
    if !verdict.isValid then Outcome(RenderForm("contacts/edit", verdict.errorMessage), table)
    else match sanitized
      case None => Outcome(ServerError(InternalError), table)
      case Some(fields) =>
        if id !in table then Outcome(NotFound, table)
        else Outcome(Redirect("/contacts/" + id), table[id := UpdatedContact(table[id], fields, now)])
  }

  /** `POST /:id/delete` */
  function DeleteContact(table: map<string, Contact>, id: string): (r: Outcome)
    ensures r.response.Redirect? <==> id != ""
    ensures !r.response.Redirect? ==> r.table == table
    ensures r.response.Redirect? ==> id !in r.table && r.table.Keys == table.Keys - {id}
    ensures forall k | k in table && k != id :: k in r.table && r.table[k] == table[k]
  {
    if id == "" then Outcome(BadRequest, table)
    else Outcome(Redirect("/contacts"), table - {id})
  }

  // ---------------------------------------------------------------------
  // What the handlers promise

  /**
   * Creating writes only after validation and sanitizing succeed, and then
   * adds exactly one row, under the fresh id, holding the sanitized fields,
   * created and updated at the same instant; every other row stays. A failed
   * validation answers with the form and its message. Otherwise the table is
   * untouched.
   */
  lemma CreateAddsOneRow(table: map<string, Contact>, verdict: Verdict, sanitized: Option<ContactFields>,
                         newId: string, now: nat)
    ensures var out := CreateContact(table, verdict, sanitized, newId, now);
            out.response.Redirect? <==> verdict.isValid && sanitized.Some? && newId !in table
    ensures var out := CreateContact(table, verdict, sanitized, newId, now);
            out.response.Redirect? ==>
              out.table.Keys == table.Keys + {newId} && newId !in table &&
              out.table[newId] == Contact(newId, sanitized.value.firstName, sanitized.value.lastName,
                                          sanitized.value.emailAddress, sanitized.value.notes, now, now) &&
              forall id | id in table :: out.table[id] == table[id]
    ensures var out := CreateContact(table, verdict, sanitized, newId, now);
            !out.response.Redirect? ==> out.table == table
    ensures !verdict.isValid ==>
              CreateContact(table, verdict, sanitized, newId, now).response ==
              RenderForm("contacts/new", verdict.errorMessage)
  {
  }

  /** Creating keeps both table invariants. */
  lemma CreateKeepsInvariants(table: map<string, Contact>, verdict: Verdict,
                              sanitized: Option<ContactFields>, newId: string, now: nat)
    ensures var out := CreateContact(table, verdict, sanitized, newId, now);
            (FiledById(table) ==> FiledById(out.table)) &&
            (Chronological(table) ==> Chronological(out.table))
  {
  }

  /**
   * Showing a contact just created gives the submitted names and address
   * passed through `sanitize-html` untrimmed (validation left no white space
   * to trim), the trimmed and sanitized notes, and one timestamp twice.
   */
  lemma CreateThenShow(table: map<string, Contact>, form: ContactForm, html: HtmlSanitizer,
                       newId: string, now: nat)
    requires CreateContact(table, Validate(form), Sanitize(form, html), newId, now).response.Redirect?
    ensures ShowContact(CreateContact(table, Validate(form), Sanitize(form, html), newId, now).table, newId) ==
              RenderContact(Contact(newId,
                html.plainText(form.firstName.s), html.plainText(form.lastName.s),
                html.plainText(form.emailAddress.s), html.notesAllowList(Trim(form.notes.s)),
                now, now))
  {
    ValidateAccepts(form);
    SanitizeValidated(form, html);
  }

  /** A form whose first name holds a digit is sent back and creates nothing. */
  lemma CreateRejectsDigitInName(table: map<string, Contact>, html: HtmlSanitizer, newId: string, now: nat)
    ensures var form := ContactForm(Text("Ann3"), Text("Lee"), Text("ann@example.com"), Text(""));
            var out := CreateContact(table, Validate(form), Sanitize(form, html), newId, now);
            out.response.RenderForm? && out.table == table
  {
    var form := ContactForm(Text("Ann3"), Text("Lee"), Text("ann@example.com"), Text(""));
    ValidateAccepts(form);
    assert !IsAsciiLetter("Ann3"[3]);
  }

  /**
   * Every form the rules accept, with its address and notes fields present,
   * creates its row under a fresh id: validation turns away nothing it should
   * let through.
   */
  lemma CreateAcceptsValid(table: map<string, Contact>, form: ContactForm, html: HtmlSanitizer,
                           newId: string, now: nat)
    requires NameAccepted(form.firstName) && NameAccepted(form.lastName) &&
             EmailAccepted(form.emailAddress)
    requires form.emailAddress.Text? && form.notes.Text? && newId !in table
    ensures CreateContact(table, Validate(form), Sanitize(form, html), newId, now).response ==
            Redirect("/contacts")
  {
    ValidateAccepts(form);
  }

  /**
   * Updating writes only after validation and sanitizing succeed and only
   * for an id that is present; then that row gets the sanitized fields and
   * `updatedAt`, keeps its id and `createdAt`, and every other row stays.
   * A missing id is not-found; every failure leaves the table as it was.
   */
  lemma UpdateOverwritesOneRow(table: map<string, Contact>, id: string, verdict: Verdict,
                               sanitized: Option<ContactFields>, now: nat)
    ensures var out := UpdateContact(table, id, verdict, sanitized, now);
            out.response.Redirect? <==> verdict.isValid && sanitized.Some? && id in table
    ensures var out := UpdateContact(table, id, verdict, sanitized, now);
            out.response.Redirect? ==>
              out.table.Keys == table.Keys &&
              out.table[id] == Contact(table[id].id, sanitized.value.firstName, sanitized.value.lastName,
                                       sanitized.value.emailAddress, sanitized.value.notes,
                                       table[id].createdAt, now) &&
              forall other | other in table && other != id :: out.table[other] == table[other]
    ensures var out := UpdateContact(table, id, verdict, sanitized, now);
            !out.response.Redirect? ==> out.table == table
    ensures verdict.isValid && sanitized.Some? && id !in table ==>
              UpdateContact(table, id, verdict, sanitized, now).response == NotFound
    ensures !verdict.isValid ==>
              UpdateContact(table, id, verdict, sanitized, now).response ==
              RenderForm("contacts/edit", verdict.errorMessage)
  {
  }

  /** Updating keeps rows filed by id, and keeps them in order when the clock has not gone back. */
  lemma UpdateKeepsInvariants(table: map<string, Contact>, id: string, verdict: Verdict,
                              sanitized: Option<ContactFields>, now: nat)
    ensures var out := UpdateContact(table, id, verdict, sanitized, now);
            (FiledById(table) ==> FiledById(out.table)) &&
            (Chronological(table) && (id in table ==> table[id].createdAt <= now) ==>
               Chronological(out.table))
  {
  }

  /**
   * Deleting with an empty id is rejected and touches nothing; otherwise it
   * succeeds whether or not the id was present, the id is gone, every other
   * row stays, and showing it afterwards is not-found.
   */
  lemma DeleteRemovesOneRow(table: map<string, Contact>, id: string)
    ensures var out := DeleteContact(table, id);
            (id == "" ==> out == Outcome(BadRequest, table)) &&
            (id != "" ==>
               out.response == Redirect("/contacts") &&
               out.table.Keys == table.Keys - {id} &&
               (forall other | other in out.table :: out.table[other] == table[other]) &&
               ShowContact(out.table, id) == NotFound)
  {
  }

  /** Deleting keeps both table invariants. */
  lemma DeleteKeepsInvariants(table: map<string, Contact>, id: string)
    ensures FiledById(table) ==> FiledById(DeleteContact(table, id).table)
    ensures Chronological(table) ==> Chronological(DeleteContact(table, id).table)
  {
  }

  // ---------------------------------------------------------------------
  // The shared table and its handlers

  class ContactStore {
    /** The `contacts` table, keyed by its primary key `id`. */
    var rows: map<string, Contact>

    ghost predicate Valid()
      reads this
    {
      FiledById(rows)
    }

    constructor ()
      ensures Valid() && Chronological(rows)
      ensures rows == map[]
    {
      rows := map[];
    }

    /** `GET /`: every row of the table. */
    method Index() returns (contacts: set<Contact>)
      requires Valid()
      ensures forall c :: c in contacts <==> c.id in rows && rows[c.id] == c
    {
      contacts := rows.Values;
    }

    /** `GET /:id`: the row filed under `id`, or not-found. */
    method Show(id: string) returns (res: Response)
      requires Valid()
      ensures id in rows <==> res.RenderContact?
      ensures res.RenderContact? ==> res.contact == rows[id] && res.contact.id == id
      ensures !res.RenderContact? ==> res == NotFound
      ensures res == ShowContact(rows, id)
    {
      if id !in rows {
        return NotFound;
      }
      res := RenderContact(rows[id]);
    }

    /** `POST /` */
    method Create(form: ContactForm, html: HtmlSanitizer, newId: string, now: nat) returns (res: Response)
      requires Valid()
      modifies this
      ensures Valid()
      ensures Chronological(old(rows)) ==> Chronological(rows)
      ensures Outcome(res, rows) == CreateContact(old(rows), Validate(form), Sanitize(form, html), newId, now)
    {
      CreateKeepsInvariants(rows, Validate(form), Sanitize(form, html), newId, now);
      var verdict := Validate(form);
      if !verdict.isValid {
        return RenderForm("contacts/new", verdict.errorMessage);
      }
      var sanitized := Sanitize(form, html);
      if sanitized.None? {
        return ServerError(InternalError);
      }
      if newId in rows {
        return ServerError("Failed to create contact");
      }
      rows := rows[newId := NewContact(newId, sanitized.value, now)];
      res := Redirect("/contacts");
    }

    /** `POST /:id` */
    method Update(id: string, form: ContactForm, html: HtmlSanitizer, now: nat) returns (res: Response)
      requires Valid()
      modifies this
      ensures Valid()
      ensures Chronological(old(rows)) && (id in old(rows) ==> old(rows)[id].createdAt <= now) ==>
                Chronological(rows)
      ensures Outcome(res, rows) == UpdateContact(old(rows), id, Validate(form), Sanitize(form, html), now)
    {
      UpdateKeepsInvariants(rows, id, Validate(form), Sanitize(form, html), now);
      var verdict := Validate(form);
      if !verdict.isValid {
        return RenderForm("contacts/edit", verdict.errorMessage);
      }
      var sanitized := Sanitize(form, html);
      if sanitized.None? {
        return ServerError(InternalError);
      }
      if id !in rows {
        return NotFound;
      }
      rows := rows[id := UpdatedContact(rows[id], sanitized.value, now)];
      res := Redirect("/contacts/" + id);
    }

    /** `POST /:id/delete` */
    method Delete(id: string) returns (res: Response)
      requires Valid()
      modifies this
      ensures Valid()
      ensures Chronological(old(rows)) ==> Chronological(rows)
      ensures Outcome(res, rows) == DeleteContact(old(rows), id)
    {
      DeleteKeepsInvariants(rows, id);
      if id == "" {
        return BadRequest;
      }
      rows := rows - {id};
      res := Redirect("/contacts");
    }
  }
}
