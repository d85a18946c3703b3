/**
 * The validations the `User` model runs on `save`: presence of both
 * names, email format and case-insensitive uniqueness, presence and
 * minimum length of the password, and password confirmation.
 */
module Validation {
  import opened Wrappers
  import opened Text
  import opened Accounts

  /** The attributes given to `User.new`; `None` is `nil`. */
  datatype Candidate = Candidate(
    firstName: Option<string>,
    lastName: Option<string>,
    email: Option<string>,
    password: Option<string>,
    passwordConfirmation: Option<string>)

  /** One entry of `user.errors`, as a kind rather than a message. */
  datatype Violation =
    | FirstNameBlank                // "First name cannot be blank"
    | LastNameBlank                 // "Last name cannot be blank"
    | EmailInvalid                  // "Email is invalid"
    | EmailTaken                    // "Email has already been taken"
    | PasswordBlank                 // "Password can't be blank"
    | PasswordTooShort              // "Password is too short (minimum is 3 characters)"
    | PasswordConfirmationMismatch  // "Password confirmation does not match"

  /** The minimum password length. */
  const MinPasswordLength: nat := 3

  /** An attribute that is `nil`, empty or only whitespace. */
  predicate BlankField(f: Option<string>) {
    f.None? || Blank(f.value)
  }

  /** A character that may appear in an email other than its one `@`. */
  predicate EmailChar(ch: char) {
    ch != '@' && !IsSpace(ch)
  }

  /** The email format `^[^\s@]+@[^\s@]+\.[^\s@]+$`: exactly one `@`,
      with something before it, no whitespace anywhere, and a `.` in the
      part after the `@` that neither starts nor ends that part. */
  predicate WellFormedEmail(s: string) {
    exists at | 0 < at < |s| && s[at] == '@' ::
      (forall k | 0 <= k < |s| && k != at :: EmailChar(s[k])) &&
      (exists dot | at + 1 < dot < |s| - 1 :: s[dot] == '.')
  }

  /** The email rule's failure: a missing or malformed email. */
  predicate EmailMalformed(c: Candidate) {
    c.email.None? || !WellFormedEmail(c.email.value)
  }

  /** The uniqueness rule's failure, checked only for a well-formed email:
      some stored account has the same normalised email. */
  predicate EmailInUse(c: Candidate, accounts: seq<Account>) {
    !EmailMalformed(c) && Lookup(accounts, c.email.value).Some?
  }

  /** The length rule's failure, checked only for a non-blank password. */
  predicate PasswordShort(c: Candidate) {
    !BlankField(c.password) && |c.password.value| < MinPasswordLength
  }

  /** A candidate that passes every rule, spelled out field by field. */
  predicate Admissible(c: Candidate, accounts: seq<Account>) {
    && c.firstName.Some? && !Blank(c.firstName.value)
    && c.lastName.Some? && !Blank(c.lastName.value)
    && c.email.Some? && WellFormedEmail(c.email.value)
    && (forall k | 0 <= k < |accounts| :: !HasEmail(accounts[k], c.email.value))
    && c.password.Some? && !Blank(c.password.value)
    && |c.password.value| >= MinPasswordLength
    && c.passwordConfirmation == c.password
  }

  /** The condition under which each rule reports its violation. */
  predicate Violated(kind: Violation, c: Candidate, accounts: seq<Account>) {
    match kind
    case FirstNameBlank => BlankField(c.firstName)
    case LastNameBlank => BlankField(c.lastName)
    case EmailInvalid => EmailMalformed(c)
    case EmailTaken => EmailInUse(c, accounts)
    case PasswordBlank => BlankField(c.password)
    case PasswordTooShort => PasswordShort(c)
    case PasswordConfirmationMismatch => c.password != c.passwordConfirmation
  }

  /** The order in which the model declares its validations. */
  const RuleOrder: seq<Violation> := [
    FirstNameBlank, LastNameBlank, EmailInvalid, EmailTaken,
    PasswordBlank, PasswordTooShort, PasswordConfirmationMismatch]

  /** The kinds among `kinds` whose rule fails, keeping their order; a
      kind occurs in the result at most as often as in `kinds`. */
  function Select(kinds: seq<Violation>, c: Candidate, accounts: seq<Account>): (v: seq<Violation>)
    ensures forall x :: x in v <==> x in kinds && Violated(x, c, accounts)
    ensures (forall i, j | 0 <= i < j < |kinds| :: kinds[i] != kinds[j]) ==>
              forall i, j | 0 <= i < j < |v| :: v[i] != v[j]
  {
    if kinds == [] then []
    else
      var rest := Select(kinds[1..], c, accounts);
      assert forall i, j | 0 <= i < j < |kinds[1..]| :: kinds[1..][i] == kinds[i + 1] && kinds[1..][j] == kinds[j + 1];
      if Violated(kinds[0], c, accounts) then [kinds[0]] + rest else rest
  }

  /** No rule in `RuleOrder` reports a violation. */
  predicate NoneViolated(c: Candidate, accounts: seq<Account>) {
    forall x | x in RuleOrder :: !Violated(x, c, accounts)
  }

  lemma NoneViolatedAdmissible(c: Candidate, accounts: seq<Account>)
    ensures NoneViolated(c, accounts) <==> Admissible(c, accounts)
  {
    if NoneViolated(c, accounts) {
      assert !Violated(FirstNameBlank, c, accounts);
      assert !Violated(LastNameBlank, c, accounts);
      assert !Violated(EmailInvalid, c, accounts);
      assert !Violated(EmailTaken, c, accounts);
      assert !Violated(PasswordBlank, c, accounts);
      assert !Violated(PasswordTooShort, c, accounts);
      assert !Violated(PasswordConfirmationMismatch, c, accounts);
    }
  }

  /** All violations of `c` against the stored `accounts`, in rule order.
      No rule is reported twice; a blank password is not also reported as
      too short; a malformed email is not also reported as taken; and the
      list is empty exactly when the candidate is admissible. */
  function Validate(c: Candidate, accounts: seq<Account>): (v: seq<Violation>)
    ensures forall i, j | 0 <= i < j < |v| :: v[i] != v[j]
    ensures PasswordBlank in v ==> PasswordTooShort !in v
    ensures EmailInvalid in v ==> EmailTaken !in v
    ensures v == [] <==> Admissible(c, accounts)
  {
    var v := Select(RuleOrder, c, accounts);
    assert forall i, j | 0 <= i < j < |RuleOrder| :: RuleOrder[i] != RuleOrder[j];
    assert v == [] <==> NoneViolated(c, accounts) by {
      if v != [] { assert v[0] in v; }
      if !NoneViolated(c, accounts) {
        var x :| x in RuleOrder && Violated(x, c, accounts);
        assert x in v;
      }
    }
    NoneViolatedAdmissible(c, accounts);
    v
  }

  /** A kind is reported exactly when its rule fails. */
  lemma Reported(x: Violation, c: Candidate, accounts: seq<Account>)
    ensures x in Validate(c, accounts) <==> Violated(x, c, accounts)
  {
    assert x in RuleOrder;
  }

  /** Each rule, both ways: a violation is reported exactly when its
      condition holds of the candidate. */
  lemma ViolationRules(c: Candidate, accounts: seq<Account>)
    ensures FirstNameBlank in Validate(c, accounts) <==> BlankField(c.firstName)
    ensures LastNameBlank in Validate(c, accounts) <==> BlankField(c.lastName)
    ensures EmailInvalid in Validate(c, accounts) <==> c.email.None? || !WellFormedEmail(c.email.value)
    ensures EmailTaken in Validate(c, accounts) <==>
      c.email.Some? && WellFormedEmail(c.email.value) &&
      exists k | 0 <= k < |accounts| :: HasEmail(accounts[k], c.email.value)
    ensures PasswordBlank in Validate(c, accounts) <==> BlankField(c.password)
    ensures PasswordTooShort in Validate(c, accounts) <==>
      c.password.Some? && !Blank(c.password.value) && |c.password.value| < MinPasswordLength
    ensures PasswordConfirmationMismatch in Validate(c, accounts) <==> c.password != c.passwordConfirmation
  {
    Reported(FirstNameBlank, c, accounts);
    Reported(LastNameBlank, c, accounts);
    Reported(EmailInvalid, c, accounts);
    Reported(EmailTaken, c, accounts);
    Reported(PasswordBlank, c, accounts);
    Reported(PasswordTooShort, c, accounts);
    Reported(PasswordConfirmationMismatch, c, accounts);
    if c.email.Some? {
      var e := c.email.value;
      assert Lookup(accounts, e).Some? <==> exists k | 0 <= k < |accounts| :: HasEmail(accounts[k], e);
    }
  }

  /** A name, password or email on its own decides its violation,
      whatever the other attributes are. */
  lemma BlankRules(c: Candidate, accounts: seq<Account>)
    ensures c.firstName.None? || c.firstName == Some("") ==> FirstNameBlank in Validate(c, accounts)
    ensures c.lastName.None? || c.lastName == Some("") ==> LastNameBlank in Validate(c, accounts)
    ensures c.password.None? ==> PasswordBlank in Validate(c, accounts)
    ensures c.password.Some? && 0 < |c.password.value| < MinPasswordLength && !IsSpace(c.password.value[0])
      ==> PasswordTooShort in Validate(c, accounts)
  {
    if c.password.Some? && 0 < |c.password.value| && !IsSpace(c.password.value[0]) {
      assert !Blank(c.password.value);
    }
  }

  /** An email without `@` can never be well formed. */
  lemma NoAtMalformed(s: string)
    requires forall k | 0 <= k < |s| :: s[k] != '@'
    ensures !WellFormedEmail(s)
  {
  }
}
