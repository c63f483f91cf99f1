/**
 * `validateContactData` of the contacts router: the checks on the first
 * name, the last name and the optional e-mail address, and the aggregated
 * error message.
 */
module Validation {
  import opened Wrappers
  import opened JsString

  /** A form field as the request body delivers it: missing, or a string. */
  datatype Field = Absent | Text(s: string)

  /** The four fields of the contact form. */
  datatype ContactForm = ContactForm(firstName: Field, lastName: Field, emailAddress: Field, notes: Field)

  /** What `validateContactData` returns. */
  datatype Verdict = Verdict(isValid: bool, errorMessage: string)

  /** The three rules, in the order their clauses enter the message. */
  datatype Rule = FirstNameRule | LastNameRule | EmailRule

  const Prefix: string := "Please correct the following issues:"

  /** The fixed clause appended when `rule` fails. */
  function Clause(rule: Rule): string {
    match rule
    case FirstNameRule => " First name should contain only letters."
    case LastNameRule => " Last name should contain only letters."
    // One text, written in three pieces so that its first characters stay
    // cheap for the verifier to read off.
    case EmailRule => " Email address should start" + " with a lowercase letter" + " and provide a valid email address."
  }

  // ---------------------------------------------------------------------
  // The checks as the router writes them

  predicate IsAsciiLetter(c: char) {
    'A' <= c <= 'Z' || 'a' <= c <= 'z'
  }

  /** `/^[A-Za-z]+$/.test(s)` */
  predicate ContainsOnlyLetters(s: string): (b: bool)
    ensures b ==> |s| > 0 && NoWhiteSpace(s)
  {
    |s| > 0 && forall i :: 0 <= i < |s| ==> IsAsciiLetter(s[i])
  }

  /** `typeof value === 'string' && value.trim() !== ''` */
  predicate IsNonEmptyString(f: Field): (b: bool)
    ensures b <==> f.Text? && !AllWhiteSpace(f.s)
  {
    if f.Text? then TrimEmptyIffAllWhiteSpace(f.s); Trim(f.s) != "" else false
  }

  /** `/^[a-z]/.test(s)` */
  predicate StartsWithLowercase(s: string): (b: bool)
    ensures b ==> |s| > 0 && !IsWhiteSpace(s[0])
  {
    |s| > 0 && 'a' <= s[0] <= 'z'
  }

  /**
   * `/^\S+@\S+\.\S+$/.test(s)`, decided by positions: no white space, and an
   * `@` after at least one character followed, after at least one more, by a
   * `.` that is not the last character.
   */
  predicate MatchesEmailShape(s: string): (b: bool)
    ensures b ==> 5 <= |s| && '@' in s && '.' in s
  {
    NoWhiteSpace(s) &&
    exists i, j | 1 <= i && i + 2 <= j && j + 2 <= |s| :: s[i] == '@' && s[j] == '.'
  }

  /** `emailAddress && (!emailShape.test(emailAddress) || !/^[a-z]/.test(emailAddress))` */
  predicate IsInvalidEmail(f: Field): (b: bool)
    ensures f.Absent? || f.s == [] ==> !b
  {
    f.Text? && f.s != "" && (!MatchesEmailShape(f.s) || !StartsWithLowercase(f.s))
  }

  // ---------------------------------------------------------------------
  // What the checks mean

  /** `\S+`: a non-empty run of non-white-space characters. */
  ghost predicate NonSpaceRun(s: string) {
    |s| > 0 && NoWhiteSpace(s)
  }

  /** The language of `\S+@\S+\.\S+`, by decomposition into its three runs. */
  ghost predicate EmailPattern(s: string) {
    exists local, domain, tld ::
      NonSpaceRun(local) && NonSpaceRun(domain) && NonSpaceRun(tld) &&
      s == local + "@" + domain + "." + tld
  }

  /** A name is accepted when it is a string of ASCII letters only. */
  ghost predicate NameAccepted(f: Field) {
    f.Text? && ContainsOnlyLetters(f.s)
  }

  /** The address is optional; when given it has the pattern's shape and starts in `a-z`. */
  ghost predicate EmailAccepted(f: Field) {
    f.Absent? || f.s == "" || (EmailPattern(f.s) && StartsWithLowercase(f.s))
  }

  /** The rule as a list of failed rules: empty when it holds. */
  function FailedIf(holds: bool, rule: Rule): seq<Rule> {
    if holds then [] else [rule]
  }

  /** The rules `form` breaks, in message order. */
  ghost function FailedRules(form: ContactForm): seq<Rule> {
    FailedIf(NameAccepted(form.firstName), FirstNameRule) +
    FailedIf(NameAccepted(form.lastName), LastNameRule) +
    FailedIf(EmailAccepted(form.emailAddress), EmailRule)
  }

  /** The clauses of `rules`, one after the other. */
  function Clauses(rules: seq<Rule>): string {
    if rules == [] then "" else Clause(rules[0]) + Clauses(rules[1..])
  }

  lemma {:induction false} ClausesAppend(a: seq<Rule>, b: seq<Rule>)
    ensures Clauses(a + b) == Clauses(a) + Clauses(b)
  {
    if a != [] {
      assert (a + b)[0] == a[0] && (a + b)[1..] == a[1..] + b;
      ClausesAppend(a[1..], b);
    } else {
      assert a + b == b;
    }
  }

  lemma ClausesOfFailedIf(holds: bool, rule: Rule)
    ensures Clauses(FailedIf(holds, rule)) == if holds then "" else Clause(rule)
  {
    if !holds {
      assert [rule][1..] == [];
    }
  }

  /** `if (!ok) message += clause` */
  function AppendUnless(message: string, ok: bool, clause: string): string {
    if ok then message else message + clause
  }

  lemma AppendUnlessClause(message: string, ok: bool, rule: Rule)
    ensures AppendUnless(message, ok, Clause(rule)) == message + Clauses(FailedIf(ok, rule))
  {
    ClausesOfFailedIf(ok, rule);
  }

  /** Regrouping, stated over plain strings so that no clause text is unfolded. */
  lemma AppendAssociative(p: string, a: string, b: string, c: string)
    ensures p + a + b + c == p + (a + b + c)
  {
  }

  /**
   * The message `validateContactData` builds from the outcome of its three
   * checks: the prefix, then the clause of each failed check in turn.
   */
  function ErrorMessage(firstNameOk: bool, lastNameOk: bool, emailInvalid: bool): (r: string)
    ensures |Prefix| <= |r| && r[..|Prefix|] == Prefix
  {
    var m := AppendUnless(Prefix, firstNameOk, Clause(FirstNameRule));
    var m := AppendUnless(m, lastNameOk, Clause(LastNameRule));
    AppendUnless(m, !emailInvalid, Clause(EmailRule))
  }

  /** The message is the prefix followed by the clause of each failed check, in turn. */
  lemma ErrorMessageClauses(firstNameOk: bool, lastNameOk: bool, emailInvalid: bool)
    ensures ErrorMessage(firstNameOk, lastNameOk, emailInvalid) ==
              Prefix + (Clauses(FailedIf(firstNameOk, FirstNameRule)) +
                        Clauses(FailedIf(lastNameOk, LastNameRule)) +
                        Clauses(FailedIf(!emailInvalid, EmailRule)))
  {
    var m1 := AppendUnless(Prefix, firstNameOk, Clause(FirstNameRule));
    var m2 := AppendUnless(m1, lastNameOk, Clause(LastNameRule));
    AppendUnlessClause(Prefix, firstNameOk, FirstNameRule);
    AppendUnlessClause(m1, lastNameOk, LastNameRule);
    AppendUnlessClause(m2, !emailInvalid, EmailRule);
    AppendAssociative(Prefix, Clauses(FailedIf(firstNameOk, FirstNameRule)),
      Clauses(FailedIf(lastNameOk, LastNameRule)), Clauses(FailedIf(!emailInvalid, EmailRule)));
  }

  /** The clauses of the failed rules, rule by rule. */
  lemma FailedRulesClauses(form: ContactForm)
    ensures Clauses(FailedRules(form)) ==
              Clauses(FailedIf(NameAccepted(form.firstName), FirstNameRule)) +
              Clauses(FailedIf(NameAccepted(form.lastName), LastNameRule)) +
              Clauses(FailedIf(EmailAccepted(form.emailAddress), EmailRule))
  {
    var a := FailedIf(NameAccepted(form.firstName), FirstNameRule);
    var b := FailedIf(NameAccepted(form.lastName), LastNameRule);
    var c := FailedIf(EmailAccepted(form.emailAddress), EmailRule);
    ClausesAppend(a + b, c);
    ClausesAppend(a, b);
  }

  // ---------------------------------------------------------------------
  // The two sides agree

  /** The trimmed non-empty check adds nothing to the letters-only check. */
  lemma NameCheckAgrees(f: Field)
    ensures (IsNonEmptyString(f) && ContainsOnlyLetters(f.s)) <==> NameAccepted(f)
  {
    if NameAccepted(f) {
      TrimOfNoWhiteSpace(f.s);
    }
  }

  /** The positional decision procedure recognises exactly `\S+@\S+\.\S+`. */
  lemma EmailShapeAgrees(s: string)
    ensures MatchesEmailShape(s) <==> EmailPattern(s)
  {
    if MatchesEmailShape(s) {
      var i, j :| 1 <= i && i + 2 <= j && j + 2 <= |s| && s[i] == '@' && s[j] == '.';
      var local, domain, tld := s[..i], s[i + 1..j], s[j + 1..];
      assert s == local + "@" + domain + "." + tld;
      assert NonSpaceRun(local) && NonSpaceRun(domain) && NonSpaceRun(tld);
    }
    if EmailPattern(s) {
      var local, domain, tld :|
        NonSpaceRun(local) && NonSpaceRun(domain) && NonSpaceRun(tld) &&
        s == local + "@" + domain + "." + tld;
      var i, j := |local|, |local| + 1 + |domain|;
      assert s[i] == '@' && s[j] == '.';
      forall k | 0 <= k < |s| ensures !IsWhiteSpace(s[k]) {
        if k < i {
          assert s[k] == local[k];
        } else if i < k < j {
          assert s[k] == domain[k - i - 1];
        } else if j < k {
          assert s[k] == tld[k - j - 1];
        }
      }
    }
  }

  /** The router's e-mail test flags exactly the addresses that are not accepted. */
  lemma EmailCheckAgrees(f: Field)
    ensures IsInvalidEmail(f) <==> !EmailAccepted(f)
  {
    if f.Text? {
      EmailShapeAgrees(f.s);
    }
  }

  /** An address of the `local@domain.tld` shape is accepted. */
  lemma ExampleAddressAccepted()
    ensures EmailAccepted(Text("ann@example.com"))
  {
    assert "ann@example.com" == "ann" + "@" + "example" + "." + "com";
    assert NonSpaceRun("ann") && NonSpaceRun("example") && NonSpaceRun("com");
  }

  /** An address with no `.` after its `@` is refused. */
  lemma ExampleAddressWithoutDotRefused()
    ensures !EmailAccepted(Text("ann@example"))
  {
    var s := "ann@example";
    EmailShapeAgrees(s);
    assert forall j :: 0 <= j < |s| ==> s[j] != '.';
  }

  // ---------------------------------------------------------------------
  // The validator

  /** `validateContactData(data)` */
  function Validate(form: ContactForm): (r: Verdict)
    ensures r.isValid ==> form.firstName.Text? && NoWhiteSpace(form.firstName.s)
    ensures r.isValid ==> form.lastName.Text? && NoWhiteSpace(form.lastName.s)
    ensures |Prefix| <= |r.errorMessage| && r.errorMessage[..|Prefix|] == Prefix
  {
    var firstNameOk := IsNonEmptyString(form.firstName) && ContainsOnlyLetters(form.firstName.s);
    var lastNameOk := IsNonEmptyString(form.lastName) && ContainsOnlyLetters(form.lastName.s);
    var emailInvalid := IsInvalidEmail(form.emailAddress);
    Verdict(firstNameOk && lastNameOk && !emailInvalid,
            ErrorMessage(firstNameOk, lastNameOk, emailInvalid))
  }

  /**
   * The verdict: valid exactly when both names are ASCII letters only and the
   * address is absent, empty, or of the shape `\S+@\S+\.\S+` and starting
   * in `a-z`; each rule holds or fails on its own field alone.
   */
  lemma ValidateAccepts(form: ContactForm)
    ensures Validate(form).isValid <==>
              NameAccepted(form.firstName) && NameAccepted(form.lastName) &&
              EmailAccepted(form.emailAddress)
  {
    NameCheckAgrees(form.firstName);
    NameCheckAgrees(form.lastName);
    EmailCheckAgrees(form.emailAddress);
  }

  /**
   * The message: the prefix, then one clause per failed rule in the order
   * first name, last name, e-mail; no clause at all exactly when valid.
   */
  lemma ValidateMessage(form: ContactForm)
    ensures Validate(form).errorMessage == Prefix + Clauses(FailedRules(form))
    ensures Validate(form).isValid <==> FailedRules(form) == []
  {
    NameCheckAgrees(form.firstName);
    NameCheckAgrees(form.lastName);
    EmailCheckAgrees(form.emailAddress);
    var firstNameOk := IsNonEmptyString(form.firstName) && ContainsOnlyLetters(form.firstName.s);
    var lastNameOk := IsNonEmptyString(form.lastName) && ContainsOnlyLetters(form.lastName.s);
    var emailInvalid := IsInvalidEmail(form.emailAddress);
    assert firstNameOk == NameAccepted(form.firstName);
    assert lastNameOk == NameAccepted(form.lastName);
    assert !emailInvalid == EmailAccepted(form.emailAddress);
    ErrorMessageClauses(firstNameOk, lastNameOk, emailInvalid);
    FailedRulesClauses(form);
  }

  // ---------------------------------------------------------------------
  // Reading the message back

  function Prepend(rule: Rule, rest: Option<seq<Rule>>): Option<seq<Rule>> {
    if rest.Some? then Some([rule] + rest.value) else None
  }

  /** The rules whose clauses make up `s`, or None when `s` is not such a text. */
  function ParseClauses(s: string): Option<seq<Rule>>
    decreases |s|
  {
    if s == [] then Some([])
    else if Clause(FirstNameRule) <= s then
      Prepend(FirstNameRule, ParseClauses(s[|Clause(FirstNameRule)|..]))
    else if Clause(LastNameRule) <= s then
      Prepend(LastNameRule, ParseClauses(s[|Clause(LastNameRule)|..]))
    else if Clause(EmailRule) <= s then
      Prepend(EmailRule, ParseClauses(s[|Clause(EmailRule)|..]))
    else None
  }

  /** The failed rules an error message reports, or None for any other text. */
  function ParseMessage(m: string): Option<seq<Rule>> {
    if Prefix <= m then ParseClauses(m[|Prefix|..]) else None
  }

  /** The second character of each clause names its rule. */
  function Initial(rule: Rule): char {
    match rule
    case FirstNameRule => 'F'
    case LastNameRule => 'L'
    case EmailRule => 'E'
  }

  lemma ClauseInitial(rule: Rule)
    ensures |Clause(rule)| > 1 && Clause(rule)[1] == Initial(rule)
  {
    match rule
    case FirstNameRule =>
    case LastNameRule =>
    case EmailRule =>
  }

  /** No clause is a prefix of a text that starts with another clause. */
  lemma ClauseStartsWith(rule: Rule, other: Rule, rest: string)
    ensures Clause(other) <= Clause(rule) + rest <==> other == rule
  {
    var s := Clause(rule) + rest;
    ClauseInitial(rule);
    ClauseInitial(other);
    if other == rule {
      assert s[..|Clause(rule)|] == Clause(rule);
    }
  }

  lemma {:induction false} ParseClausesRoundTrip(rules: seq<Rule>)
    ensures ParseClauses(Clauses(rules)) == Some(rules)
  {
    if rules != [] {
      var rule, rest := rules[0], Clauses(rules[1..]);
      var s := Clause(rule) + rest;
      ClauseStartsWith(rule, FirstNameRule, rest);
      ClauseStartsWith(rule, LastNameRule, rest);
      ClauseStartsWith(rule, EmailRule, rest);
      assert s[|Clause(rule)|..] == rest;
      ParseClausesRoundTrip(rules[1..]);
      assert [rule] + rules[1..] == rules;
    }
  }

  /** The error message alone tells which rules failed, and in what order. */
  lemma MessageRoundTrip(form: ContactForm)
    ensures ParseMessage(Validate(form).errorMessage) == Some(FailedRules(form))
  {
    var m := Validate(form).errorMessage;
    ValidateMessage(form);
    assert m[..|Prefix|] == Prefix && m[|Prefix|..] == Clauses(FailedRules(form));
    ParseClausesRoundTrip(FailedRules(form));
  }

  /** Two forms with the same message broke the same rules. */
  lemma SameMessageSameFailures(a: ContactForm, b: ContactForm)
    requires Validate(a).errorMessage == Validate(b).errorMessage
    ensures FailedRules(a) == FailedRules(b)
    ensures Validate(a).isValid == Validate(b).isValid
  {
    MessageRoundTrip(a);
    MessageRoundTrip(b);
    ValidateMessage(a);
    ValidateMessage(b);
  }

  /** The message is the bare prefix exactly when the input is valid. */
  lemma MessageIsPrefixIffValid(form: ContactForm)
    ensures Validate(form).errorMessage == Prefix <==> Validate(form).isValid
  {
    ValidateMessage(form);
    var rules := FailedRules(form);
    if rules != [] {
      assert |Clauses(rules)| >= |Clause(rules[0])| > 0;
    }
  }
}
