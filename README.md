# Contacts router: validation, trimming and the contacts table

This project models the core of a small Express contact-management
application, `routes/contactsRouter.js`, in Dafny:

- `validateContactData`: the first and last name must be non-empty strings of
  ASCII letters (`/^[A-Za-z]+$/`). The e-mail address is optional. When it is
  given, it must match `/^\S+@\S+\.\S+$/` and start with a character in `a-z`.
  The verdict is the conjunction of the three checks. The message is a fixed
  prefix followed by one fixed clause per failed check, in the order first
  name, last name, e-mail.
- the `trim` step of `sanitizeContactData`. JavaScript's `String.prototype.trim`
  and the regular-expression class `\s` share one white-space set (the
  ECMAScript WhiteSpace and LineTerminator code points). `JsString` models that
  set and `trim`.
- the effect of the handlers `GET /`, `POST /`, `GET /:id`, `POST /:id` and
  `POST /:id/delete` on the `contacts` table. The table is a
  `map<string, Contact>` held in the `ContactStore` class, whose methods are the
  handlers. Each handler's effect is also a function from the table before to
  its answer and the table after (`CreateContact`, `ShowContact`,
  `UpdateContact`, `DeleteContact`). The methods are proved equal to those
  functions, and the lemmas state what the functions promise.

Modules, one per concern: `Wrappers` (Option), `JsString` (white space and
`trim`), `Validation` (the validator, what its checks mean, and reading its
message back), `Sanitization` (`sanitizeContactData`), `ContactsRouter` (rows,
responses, the handlers and the table class).

The validator is modelled twice. One side follows the code as written: the
trimmed non-empty test, the letters test, and a positional test for the e-mail
regular expression. The other side states what the checks mean: a name is a
string of ASCII letters, and an address is `local + "@" + domain + "." + tld`
with three non-empty runs free of white space. Lemmas prove that the two sides
agree. The message is proved to be the prefix plus the clauses of the ordered
list of failed rules. A parser reads that list back from the message, so equal
messages mean the same rules failed.

Inputs from outside the program are parameters:

- the new id (`uuidv4()`);
- the clock reading (`new Date().toISOString()`), as a natural number;
- the two `sanitize-html` configurations, as a pair of functions on strings
  (`HtmlSanitizer`).

Behaviour of the code that the model keeps:

- A request body without `emailAddress` or `notes` passes validation: a missing
  address counts as valid. `sanitizeContactData` then calls `.trim()` on
  `undefined`, which throws, and the handler answers 500 without writing.
  `Sanitize` returns `None` in that case and the handlers answer
  `ServerError("Internal Server Error")`.
- On `POST /:id`, sanitizing runs before the lookup. A valid form missing
  `emailAddress` or `notes` therefore gets 500 even for an unknown id.
- `id` is the table's primary key (repositories/contactsRepository.js:14). An
  insert under an id already present fails, and the router answers 500
  "Failed to create contact". The model keeps this path rather than assuming
  the generated id is fresh.
- Nothing in the code makes `updatedAt` later than `createdAt`: both come from
  the clock. `Chronological` (every row has `createdAt <= updatedAt`) is proved
  to survive an update only when the clock reading is not earlier than that
  row's `createdAt`.
- Deleting an id that is not in the table still answers with the redirect.

## Model

| member | source | states |
|---|---|---|
| `JsString.TrimStart` | routes/contactsRouter.js:45-48 | the leading half of `trim`: the result is a suffix of the input, what it drops is all white space, and it does not start with white space |
| `JsString.TrimEnd` | routes/contactsRouter.js:45-48 | the trailing half of `trim`: the result is a prefix of the input, what it drops is all white space, and it does not end with white space |
| `JsString.Trim` | routes/contactsRouter.js:45-48 | `trim` returns the infix of its input whose two ends are not white space, and everything cut from either end is white space |
| `JsString.TrimOfNoWhiteSpace` | routes/contactsRouter.js:45-47 | `trim` leaves a string with no white space unchanged |
| `JsString.TrimIdempotent` | routes/contactsRouter.js:45-48 | trimming twice gives the same string as trimming once |
| `JsString.TrimEmptyIffAllWhiteSpace` | routes/contactsRouter.js:27 | `value.trim() !== ''` fails exactly for an empty or all-white-space string |
| `Validation.ContainsOnlyLetters` | routes/contactsRouter.js:28 | `/^[A-Za-z]+$/`: a non-empty string of ASCII letters; such a string has no white space |
| `Validation.IsNonEmptyString` | routes/contactsRouter.js:27 | `typeof value === 'string' && value.trim() !== ''` holds exactly for a present field that is not all white space |
| `Validation.StartsWithLowercase` | routes/contactsRouter.js:31 | `/^[a-z]/`: a string that passes is non-empty and does not start with white space |
| `Validation.MatchesEmailShape` | routes/contactsRouter.js:31 | the e-mail pattern as a positional test; a string that passes has at least five characters and contains `@` and `.` (its exact language is `EmailShapeAgrees`) |
| `Validation.IsInvalidEmail` | routes/contactsRouter.js:31 | the e-mail test as written; a missing or empty address is never invalid (the exact condition is `EmailCheckAgrees`) |
| `Validation.NameCheckAgrees` | routes/contactsRouter.js:27-30 | the name test as written (a string, non-empty after trim, letters only) holds exactly when the field is a string of ASCII letters; the trim test adds nothing |
| `Validation.EmailShapeAgrees` | routes/contactsRouter.js:31 | the positional test accepts exactly the strings `local@domain.tld` whose three parts are non-empty runs without white space, i.e. the language of `\S+@\S+\.\S+` |
| `Validation.EmailCheckAgrees` | routes/contactsRouter.js:31 | `isInvalidEmail` is true exactly when the address is present, non-empty, and either not of that shape or not starting in `a-z`; a missing or empty address is never invalid |
| `Validation.ExampleAddressAccepted` | routes/contactsRouter.js:31 | `ann@example.com` is an accepted address |
| `Validation.ExampleAddressWithoutDotRefused` | routes/contactsRouter.js:31 | `ann@example` (no `.` after the `@`) is refused |
| `Validation.Validate` | routes/contactsRouter.js:25-39 | `validateContactData`: a valid verdict has both names present and free of white space, and every message starts with the prefix (the exact verdict and message are `ValidateAccepts` and `ValidateMessage`) |
| `Validation.ErrorMessage` | routes/contactsRouter.js:33-36 | the message built by the three conditional appends starts with the prefix (its clauses are `ErrorMessageClauses`) |
| `Validation.ValidateAccepts` | routes/contactsRouter.js:25-39 | `isValid` holds exactly when both names are letters-only strings and the address is missing, empty, or well formed and lower-case initial; each rule depends on its own field alone |
| `Validation.ErrorMessageClauses` | routes/contactsRouter.js:33-36 | the conditional appends build the prefix followed by the clause of each failed check, in the order first name, last name, e-mail |
| `Validation.ValidateMessage` | routes/contactsRouter.js:33-38 | the message is the prefix followed by the clauses of the ordered list of failed rules, and `isValid` holds exactly when that list is empty |
| `Validation.ParseClausesRoundTrip` | routes/contactsRouter.js:34-36 | reading the clauses back from their concatenation gives the original list of rules |
| `Validation.MessageRoundTrip` | routes/contactsRouter.js:33-36 | reading the message back gives exactly the failed rules, in order |
| `Validation.SameMessageSameFailures` | routes/contactsRouter.js:33-38 | two forms with the same message failed the same rules and got the same verdict |
| `Validation.MessageIsPrefixIffValid` | routes/contactsRouter.js:33-38 | the message is the bare prefix exactly when the form is valid |
| `Sanitization.Sanitize` | routes/contactsRouter.js:43-50 | sanitizing fails (`.trim()` on a missing field throws) exactly when one of the four fields is missing |
| `Sanitization.TrimOfAcceptedName` | routes/contactsRouter.js:45-46 | a name that passed validation is unchanged by `trim` |
| `Sanitization.TrimOfAcceptedEmail` | routes/contactsRouter.js:47 | an address that passed validation is unchanged by `trim` |
| `Sanitization.SanitizeValidated` | routes/contactsRouter.js:43-50 | for a form that passed validation, the names and the address reach `sanitize-html` exactly as submitted; only the notes are trimmed |
| `ContactsRouter.CreateContact` | routes/contactsRouter.js:75-106 | the effect of `POST /`: on every answer but the redirect the table is unchanged; the redirect means the id was new and the table gained exactly that one key |
| `ContactsRouter.ShowContact` | routes/contactsRouter.js:109-124 | the effect of `GET /:id`: the row filed under the id, or not-found exactly when the id is absent |
| `ContactsRouter.UpdateContact` | routes/contactsRouter.js:171-213 | the effect of `POST /:id`: on every answer but the redirect the table is unchanged; the redirect means the id was present, the key set stays, the row keeps its id and `createdAt`, and every other row stays |
| `ContactsRouter.DeleteContact` | routes/contactsRouter.js:216-238 | the effect of `POST /:id/delete`: the redirect is answered exactly for a non-empty id, which is then absent while every other row stays; the 400 answer leaves the table unchanged |
| `ContactsRouter.CreateAddsOneRow` | routes/contactsRouter.js:75-101 | create redirects exactly when the form is valid, sanitizing succeeds and the id is new; it then adds exactly one row, under that id, holding the sanitized fields, with `createdAt == updatedAt == now`, and keeps every other row; on every other path the table is unchanged, and a failed validation re-renders the new-contact form with the message |
| `ContactsRouter.CreateKeepsInvariants` | routes/contactsRouter.js:88-94 | create keeps every row filed under its own id and keeps `createdAt <= updatedAt` |
| `ContactsRouter.CreateThenShow` | routes/contactsRouter.js:84-94 | showing a just-created contact gives the submitted names and address through `sanitize-html`, the trimmed and sanitized notes, and the same timestamp for creation and update |
| `ContactsRouter.CreateRejectsDigitInName` | routes/contactsRouter.js:78-82 | a first name `Ann3` re-renders the form and writes nothing |
| `ContactsRouter.CreateAcceptsValid` | routes/contactsRouter.js:78-100 | every form the rules accept, with address and notes present, is inserted under a fresh id |
| `ContactsRouter.UpdateOverwritesOneRow` | routes/contactsRouter.js:171-207 | update redirects exactly when the form is valid, sanitizing succeeds and the id is present; it then overwrites that row's four fields and `updatedAt`, keeps its id and `createdAt`, keeps the key set and every other row; a missing id is not-found, a failed validation re-renders the edit form, and every failure leaves the table unchanged |
| `ContactsRouter.UpdateKeepsInvariants` | routes/contactsRouter.js:196-200 | update keeps rows filed by id, and keeps `createdAt <= updatedAt` when the clock is not behind the row's `createdAt` |
| `ContactsRouter.DeleteRemovesOneRow` | routes/contactsRouter.js:216-233 | an empty id is rejected with the table untouched; any other id answers with the redirect, is absent afterwards (a later show is not-found), and every other row stays |
| `ContactsRouter.DeleteKeepsInvariants` | routes/contactsRouter.js:227 | delete keeps both table invariants |
| `ContactsRouter.ContactStore.Index` | routes/contactsRouter.js:53-62 | the list holds exactly the rows of the table |
| `ContactsRouter.ContactStore.Show` | routes/contactsRouter.js:109-124 | the answer of `ShowContact` on the table: the row filed under the id, whose own id is that id, or not-found exactly when the id is absent |
| `ContactsRouter.ContactStore.Create` | routes/contactsRouter.js:75-106 | the answer and the new table are those of `CreateContact` on the old table; the table invariants are kept |
| `ContactsRouter.ContactStore.Update` | routes/contactsRouter.js:171-213 | the answer and the new table are those of `UpdateContact` on the old table; the table invariants are kept as in `UpdateKeepsInvariants` |
| `ContactsRouter.ContactStore.Delete` | routes/contactsRouter.js:216-238 | the answer and the new table are those of `DeleteContact` on the old table; the table invariants are kept |
| `ContactsRouter.ContactStore.constructor` | repositories/contactsRepository.js:12-22 | a newly created table is empty, which satisfies both invariants |

## Left out

- `sanitize-html`: its tag and attribute filtering is library behaviour. It enters as two arbitrary functions applied after `trim`. For this reason, idempotence of sanitizing is proved only for the `trim` step (`TrimIdempotent`).
- `uuidv4()` and the clock are parameters. `toISOString` formatting is not modelled: timestamps are natural numbers.
- The SQLite connection, its callbacks and its I/O errors are left out. Only the primary-key failure of `INSERT` is modelled. Also left out: the error logging, the `try/catch` paths other than the throw in `sanitizeContactData`, and closing the connection at process exit.
- Rendering and `toLocaleString` date formatting (routes/contactsRouter.js:126-133) are presentation. `Show` returns the stored row.
- `GET /new`, `GET /:id/edit` and `GET /generated/:id` only render a form or repeat the lookup that `Show` models.
- `ContactsRouter.ContactStore.Index`: returns a set, so the table's natural row order for the list page is not modelled.
- Body-parser values other than a string or a missing field (arrays, JSON objects) are not modelled.
- Concurrency is not modelled: another request could delete the row between the lookup and the `UPDATE` of `POST /:id`. Each handler is one atomic step.
- From repositories/contactsRepository.js the model takes only the schema: `id` is the primary key, and a new table is empty. Its callback wrappers around the SQLite calls are left out. app.js and routes/index.js are plumbing and are not part of this model. The same goes for models/contact.js; its `Contact` is taken to keep the four sanitized fields as given.
